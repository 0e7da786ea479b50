/** The printed forms of the scatter, gather and dot dimension numbers. */
module AttributeSyntax {
  import opened Sequences
  import opened StructSyntax
  import G = Gather
  import S = Scatter
  import D = DotGeneral

  const SCATTER_SCHEMA := [
    Field("update_window_dims", true), Field("inserted_window_dims", true), Field("input_batching_dims", true),
    Field("scatter_indices_batching_dims", true), Field("scatter_dims_to_operand_dims", true), Field("index_vector_dim", false)]

  const GATHER_SCHEMA := [
    Field("offset_dims", true), Field("collapsed_slice_dims", true), Field("operand_batching_dims", true),
    Field("start_indices_batching_dims", true), Field("start_index_map", true), Field("index_vector_dim", false)]

  const DOT_SCHEMA := [
    Field("lhs_batching_dimensions", true), Field("rhs_batching_dimensions", true),
    Field("lhs_contracting_dimensions", true), Field("rhs_contracting_dimensions", true)]

  predicate Differ(s: string, t: string) {
    |s| != |t| || (s != [] && s[0] != t[0])
  }

  lemma ScatterSchemaDistinct()
    ensures DistinctNames(SCATTER_SCHEMA)
  {
    assert forall i, j :: 0 <= i < j < 6 ==> Differ(SCATTER_SCHEMA[i].name, SCATTER_SCHEMA[j].name);
  }

  lemma GatherSchemaDistinct()
    ensures DistinctNames(GATHER_SCHEMA)
  {
    assert forall i, j :: 0 <= i < j < 6 ==> Differ(GATHER_SCHEMA[i].name, GATHER_SCHEMA[j].name);
  }

  lemma DotSchemaDistinct()
    ensures DistinctNames(DOT_SCHEMA)
  {
    assert forall i, j :: 0 <= i < j < 4 ==> Differ(DOT_SCHEMA[i].name, DOT_SCHEMA[j].name);
  }

  // ----- values of the attributes, field by field

  function ScatterValues(d: S.ScatterDims): (values: seq<FieldValue>)
    ensures WellTyped(SCATTER_SCHEMA, values)
  {
    [Ints(d.updateWindowDims), Ints(d.insertedWindowDims), Ints(d.inputBatchingDims),
     Ints(d.scatterIndicesBatchingDims), Ints(d.scatterDimsToOperandDims), Num(d.indexVectorDim)]
  }

  function ScatterOf(values: seq<FieldValue>): S.ScatterDims
    requires WellTyped(SCATTER_SCHEMA, values)
  {
    assert forall i :: 0 <= i < 6 ==> HasType(SCATTER_SCHEMA[i], values[i]);
    S.ScatterDims(values[0].dims, values[1].dims, values[2].dims, values[3].dims, values[4].dims, values[5].n)
  }

  function GatherValues(d: G.GatherDims): (values: seq<FieldValue>)
    ensures WellTyped(GATHER_SCHEMA, values)
  {
    [Ints(d.offsetDims), Ints(d.collapsedSliceDims), Ints(d.operandBatchingDims),
     Ints(d.startIndicesBatchingDims), Ints(d.startIndexMap), Num(d.indexVectorDim)]
  }

  function GatherOf(values: seq<FieldValue>): G.GatherDims
    requires WellTyped(GATHER_SCHEMA, values)
  {
    assert forall i :: 0 <= i < 6 ==> HasType(GATHER_SCHEMA[i], values[i]);
    G.GatherDims(values[0].dims, values[1].dims, values[2].dims, values[3].dims, values[4].dims, values[5].n)
  }

  function DotValues(d: D.DotDims): (values: seq<FieldValue>)
    ensures WellTyped(DOT_SCHEMA, values)
  {
    [Ints(d.lhsBatching), Ints(d.rhsBatching), Ints(d.lhsContracting), Ints(d.rhsContracting)]
  }

  function DotOf(values: seq<FieldValue>): D.DotDims
    requires WellTyped(DOT_SCHEMA, values)
  {
    assert forall i :: 0 <= i < 4 ==> HasType(DOT_SCHEMA[i], values[i]);
    D.DotDims(values[0].dims, values[1].dims, values[2].dims, values[3].dims)
  }

  // ----- attributes

  /** What the attribute parsers read: an opening bracket and then the struct. */
  function ParsedAttribute(schema: seq<Field>, ts: seq<Token>): (r: Option<(seq<FieldValue>, seq<Token>)>)
    ensures r.Some? ==> WellTyped(schema, r.value.0)
  {
    if ts == [] || ts[0] != Less then None else ParseFields(schema, ts[1..], NoneSeen(schema), Defaults(schema))
  }

  method ParseAttribute(schema: seq<Field>, ts: seq<Token>) returns (r: Option<(seq<FieldValue>, seq<Token>)>)
    requires DistinctNames(schema)
    ensures r == ParsedAttribute(schema, ts)
  {
    if ts == [] || ts[0] != Less { return None; }
    ghost var passes;
    r, passes := ParseStruct(schema, ts[1..]);
  }

  method PrintScatterDimensionNumbers(d: S.ScatterDims) returns (ts: seq<Token>)
    ensures ts == PrintedTokens(SCATTER_SCHEMA, ScatterValues(d))
  {
    ts := PrintStruct(SCATTER_SCHEMA, ScatterValues(d));
  }

  function ParsedScatter(ts: seq<Token>): Option<(S.ScatterDims, seq<Token>)> {
    match ParsedAttribute(SCATTER_SCHEMA, ts)
    case None => None
    case Some((values, rest)) => Some((ScatterOf(values), rest))
  }

  method ParseScatterDimensionNumbers(ts: seq<Token>) returns (r: Option<(S.ScatterDims, seq<Token>)>)
    ensures r == ParsedScatter(ts)
  {
    ScatterSchemaDistinct();
    var parsed := ParseAttribute(SCATTER_SCHEMA, ts);
    match parsed
    case None => return None;
    case Some((values, rest)) => return Some((ScatterOf(values), rest));
  }

  method PrintGatherDimensionNumbers(d: G.GatherDims) returns (ts: seq<Token>)
    ensures ts == PrintedTokens(GATHER_SCHEMA, GatherValues(d))
  {
    ts := PrintStruct(GATHER_SCHEMA, GatherValues(d));
  }

  function ParsedGather(ts: seq<Token>): Option<(G.GatherDims, seq<Token>)> {
    match ParsedAttribute(GATHER_SCHEMA, ts)
    case None => None
    case Some((values, rest)) => Some((GatherOf(values), rest))
  }

  method ParseGatherDimensionNumbers(ts: seq<Token>) returns (r: Option<(G.GatherDims, seq<Token>)>)
    ensures r == ParsedGather(ts)
  {
    GatherSchemaDistinct();
    var parsed := ParseAttribute(GATHER_SCHEMA, ts);
    match parsed
    case None => return None;
    case Some((values, rest)) => return Some((GatherOf(values), rest));
  }

  method PrintDotDimensionNumbers(d: D.DotDims) returns (ts: seq<Token>)
    ensures ts == PrintedTokens(DOT_SCHEMA, DotValues(d))
  {
    ts := PrintStruct(DOT_SCHEMA, DotValues(d));
  }

  function ParsedDot(ts: seq<Token>): Option<(D.DotDims, seq<Token>)> {
    match ParsedAttribute(DOT_SCHEMA, ts)
    case None => None
    case Some((values, rest)) => Some((DotOf(values), rest))
  }

  method ParseDotDimensionNumbers(ts: seq<Token>) returns (r: Option<(D.DotDims, seq<Token>)>)
    ensures r == ParsedDot(ts)
  {
    DotSchemaDistinct();
    var parsed := ParseAttribute(DOT_SCHEMA, ts);
    match parsed
    case None => return None;
    case Some((values, rest)) => return Some((DotOf(values), rest));
  }

  // ----- the printed text

  /** Every field under its own keyword, in this order, unless it is empty or 0. */
  lemma ScatterText(d: S.ScatterDims)
    ensures PrintedTokens(SCATTER_SCHEMA, ScatterValues(d))
            == [Less] + Joined([ListPiece("update_window_dims", d.updateWindowDims),
                                ListPiece("inserted_window_dims", d.insertedWindowDims),
                                ListPiece("input_batching_dims", d.inputBatchingDims),
                                ListPiece("scatter_indices_batching_dims", d.scatterIndicesBatchingDims),
                                ListPiece("scatter_dims_to_operand_dims", d.scatterDimsToOperandDims),
                                NumberPiece("index_vector_dim", d.indexVectorDim)]) + [Greater]
  {
    var pieces := [ListPiece("update_window_dims", d.updateWindowDims),
                   ListPiece("inserted_window_dims", d.insertedWindowDims),
                   ListPiece("input_batching_dims", d.inputBatchingDims),
                   ListPiece("scatter_indices_batching_dims", d.scatterIndicesBatchingDims),
                   ListPiece("scatter_dims_to_operand_dims", d.scatterDimsToOperandDims),
                   NumberPiece("index_vector_dim", d.indexVectorDim)];
    TextIs(SCATTER_SCHEMA, ScatterValues(d), pieces);
  }

  lemma GatherText(d: G.GatherDims)
    ensures PrintedTokens(GATHER_SCHEMA, GatherValues(d))
            == [Less] + Joined([ListPiece("offset_dims", d.offsetDims),
                                ListPiece("collapsed_slice_dims", d.collapsedSliceDims),
                                ListPiece("operand_batching_dims", d.operandBatchingDims),
                                ListPiece("start_indices_batching_dims", d.startIndicesBatchingDims),
                                ListPiece("start_index_map", d.startIndexMap),
                                NumberPiece("index_vector_dim", d.indexVectorDim)]) + [Greater]
  {
    var pieces := [ListPiece("offset_dims", d.offsetDims),
                   ListPiece("collapsed_slice_dims", d.collapsedSliceDims),
                   ListPiece("operand_batching_dims", d.operandBatchingDims),
                   ListPiece("start_indices_batching_dims", d.startIndicesBatchingDims),
                   ListPiece("start_index_map", d.startIndexMap),
                   NumberPiece("index_vector_dim", d.indexVectorDim)];
    TextIs(GATHER_SCHEMA, GatherValues(d), pieces);
  }

  lemma DotText(d: D.DotDims)
    ensures PrintedTokens(DOT_SCHEMA, DotValues(d))
            == [Less] + Joined([ListPiece("lhs_batching_dimensions", d.lhsBatching),
                                ListPiece("rhs_batching_dimensions", d.rhsBatching),
                                ListPiece("lhs_contracting_dimensions", d.lhsContracting),
                                ListPiece("rhs_contracting_dimensions", d.rhsContracting)]) + [Greater]
  {
    var pieces := [ListPiece("lhs_batching_dimensions", d.lhsBatching),
                   ListPiece("rhs_batching_dimensions", d.rhsBatching),
                   ListPiece("lhs_contracting_dimensions", d.lhsContracting),
                   ListPiece("rhs_contracting_dimensions", d.rhsContracting)];
    TextIs(DOT_SCHEMA, DotValues(d), pieces);
  }

  lemma TextIs(schema: seq<Field>, values: seq<FieldValue>, pieces: seq<seq<Token>>)
    requires WellTyped(schema, values) && |pieces| == |values|
    requires forall i :: 0 <= i < |values| ==>
               pieces[i] == if values[i].Ints? then ListPiece(schema[i].name, values[i].dims) else NumberPiece(schema[i].name, values[i].n)
    ensures PrintedTokens(schema, values) == [Less] + Joined(pieces) + [Greater]
  {
    forall i | 0 <= i < |values| ensures IsPiece(pieces[i], schema[i], values[i]) { FieldPiece(schema[i], values[i]); }
    PrintedIsJoined(schema, values, pieces);
  }

  // ----- round trips

  /** Every scatter attribute is read back from its printed form, whatever tokens follow it. */
  lemma ScatterRoundTrip(d: S.ScatterDims, rest: seq<Token>)
    ensures ParsedScatter(PrintedTokens(SCATTER_SCHEMA, ScatterValues(d)) + rest) == Some((d, rest))
  {
    ScatterSchemaDistinct();
    StructRoundTrip(SCATTER_SCHEMA, ScatterValues(d), rest);
  }

  lemma GatherRoundTrip(d: G.GatherDims, rest: seq<Token>)
    ensures ParsedGather(PrintedTokens(GATHER_SCHEMA, GatherValues(d)) + rest) == Some((d, rest))
  {
    GatherSchemaDistinct();
    StructRoundTrip(GATHER_SCHEMA, GatherValues(d), rest);
  }

  lemma DotRoundTrip(d: D.DotDims, rest: seq<Token>)
    ensures ParsedDot(PrintedTokens(DOT_SCHEMA, DotValues(d)) + rest) == Some((d, rest))
  {
    DotSchemaDistinct();
    StructRoundTrip(DOT_SCHEMA, DotValues(d), rest);
  }
}
