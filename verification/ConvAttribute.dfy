/** The convolution attribute: the compressed form of three groups, or every field spelled out. */
module ConvAttribute {
  import opened Sequences
  import opened StructSyntax
  import opened ConvDimensions

  const CONV_SCHEMA := [
    Field("input_batch_dimension", false), Field("input_feature_dimension", false), Field("input_spatial_dimensions", true),
    Field("kernel_input_feature_dimension", false), Field("kernel_output_feature_dimension", false),
    Field("kernel_spatial_dimensions", true),
    Field("output_batch_dimension", false), Field("output_feature_dimension", false), Field("output_spatial_dimensions", true)]

  lemma ConvSchemaDistinct()
    ensures DistinctNames(CONV_SCHEMA)
  {
    assert forall i, j :: 0 <= i < j < 9 ==>
      |CONV_SCHEMA[i].name| != |CONV_SCHEMA[j].name| || CONV_SCHEMA[i].name[0] != CONV_SCHEMA[j].name[0];
  }

  function ConvValues(d: ConvDims): (values: seq<FieldValue>)
    ensures WellTyped(CONV_SCHEMA, values)
  {
    [Num(d.inputBatch), Num(d.inputFeature), Ints(d.inputSpatial),
     Num(d.kernelInputFeature), Num(d.kernelOutputFeature), Ints(d.kernelSpatial),
     Num(d.outputBatch), Num(d.outputFeature), Ints(d.outputSpatial)]
  }

  function ConvOf(values: seq<FieldValue>): ConvDims
    requires WellTyped(CONV_SCHEMA, values)
  {
    assert forall i :: 0 <= i < 9 ==> HasType(CONV_SCHEMA[i], values[i]);
    ConvDims(values[0].n, values[1].n, values[2].dims, values[3].n, values[4].n, values[5].dims, values[6].n, values[7].n, values[8].dims)
  }

  function ConvOfGroups(input: Group, kernel: Group, output: Group): (d: ConvDims)
    ensures d.Input() == input && d.Kernel() == kernel && d.Output() == output
  {
    ConvDims(input.first, input.second, input.spatial, kernel.first, kernel.second, kernel.spatial,
             output.first, output.second, output.spatial)
  }

  // ----- printing

  function RawTokens(d: ConvDims): seq<Token> {
    assert EntriesOk(CONV_SCHEMA, AllEntries(ConvValues(d)));
    [Keyword("raw")] + EntriesTokens(CONV_SCHEMA, AllEntries(ConvValues(d)))
  }

  function CompressedTokens(d: ConvDims): seq<Token>
    requires d.Printable()
  {
    GroupTokens(d.Input(), Activation) + [Keyword("x")] + GroupTokens(d.Kernel(), Filter) + [Arrow] + GroupTokens(d.Output(), Activation)
  }

  function ConvTokens(d: ConvDims): seq<Token> {
    [Less] + (if d.Printable() then CompressedTokens(d) else RawTokens(d)) + [Greater]
  }

  method PrintNumber(name: string, n: int) returns (ts: seq<Token>)
    ensures ts == FieldTokens(Field(name, false), Num(n))
  {
    return [Keyword(name), Equal] + [IntToken(n)];
  }

  method PrintDimList(name: string, xs: seq<int>) returns (ts: seq<Token>)
    ensures ts == FieldTokens(Field(name, true), Ints(xs))
  {
    var list := PrintList(xs);
    return [Keyword(name), Equal] + list;
  }

  method PrintConvolutionDimensionsRaw(d: ConvDims) returns (ts: seq<Token>)
    ensures ts == RawTokens(d)
  {
    var inputBatch := PrintNumber("input_batch_dimension", d.inputBatch);
    var inputFeature := PrintNumber("input_feature_dimension", d.inputFeature);
    var inputSpatial := PrintDimList("input_spatial_dimensions", d.inputSpatial);
    var kernelInput := PrintNumber("kernel_input_feature_dimension", d.kernelInputFeature);
    var kernelOutput := PrintNumber("kernel_output_feature_dimension", d.kernelOutputFeature);
    var kernelSpatial := PrintDimList("kernel_spatial_dimensions", d.kernelSpatial);
    var outputBatch := PrintNumber("output_batch_dimension", d.outputBatch);
    var outputFeature := PrintNumber("output_feature_dimension", d.outputFeature);
    var outputSpatial := PrintDimList("output_spatial_dimensions", d.outputSpatial);
    RawEntries(d);
    ts := [Keyword("raw")] + inputBatch;
    RawStep(d, 1, ts, inputFeature); ts := ts + [Comma] + inputFeature;
    RawStep(d, 2, ts, inputSpatial); ts := ts + [Comma] + inputSpatial;
    RawStep(d, 3, ts, kernelInput); ts := ts + [Comma] + kernelInput;
    RawStep(d, 4, ts, kernelOutput); ts := ts + [Comma] + kernelOutput;
    RawStep(d, 5, ts, kernelSpatial); ts := ts + [Comma] + kernelSpatial;
    RawStep(d, 6, ts, outputBatch); ts := ts + [Comma] + outputBatch;
    RawStep(d, 7, ts, outputFeature); ts := ts + [Comma] + outputFeature;
    RawStep(d, 8, ts, outputSpatial); ts := ts + [Comma] + outputSpatial;
  }

  /** The tokens of field k. */
  function RawEntry(d: ConvDims, k: nat): seq<Token>
    requires k < 9
  {
    FieldTokens(CONV_SCHEMA[k], ConvValues(d)[k])
  }

  /** The raw form of the first k fields. */
  function RawUpTo(d: ConvDims, k: nat): seq<Token>
    requires 1 <= k <= 9
  {
    [Keyword("raw")] + EntriesTokens(CONV_SCHEMA, AllEntries(ConvValues(d))[..k])
  }

  lemma RawEntries(d: ConvDims)
    ensures RawEntry(d, 0) == FieldTokens(Field("input_batch_dimension", false), Num(d.inputBatch))
    ensures RawEntry(d, 1) == FieldTokens(Field("input_feature_dimension", false), Num(d.inputFeature))
    ensures RawEntry(d, 2) == FieldTokens(Field("input_spatial_dimensions", true), Ints(d.inputSpatial))
    ensures RawEntry(d, 3) == FieldTokens(Field("kernel_input_feature_dimension", false), Num(d.kernelInputFeature))
    ensures RawEntry(d, 4) == FieldTokens(Field("kernel_output_feature_dimension", false), Num(d.kernelOutputFeature))
    ensures RawEntry(d, 5) == FieldTokens(Field("kernel_spatial_dimensions", true), Ints(d.kernelSpatial))
    ensures RawEntry(d, 6) == FieldTokens(Field("output_batch_dimension", false), Num(d.outputBatch))
    ensures RawEntry(d, 7) == FieldTokens(Field("output_feature_dimension", false), Num(d.outputFeature))
    ensures RawEntry(d, 8) == FieldTokens(Field("output_spatial_dimensions", true), Ints(d.outputSpatial))
    ensures RawUpTo(d, 1) == [Keyword("raw")] + RawEntry(d, 0) && RawUpTo(d, 9) == RawTokens(d)
  {
    var es := AllEntries(ConvValues(d));
    assert es[..1] == [es[0]] && es[..9] == es;
  }

  lemma {:induction false} RawStep(d: ConvDims, k: nat, ts: seq<Token>, field: seq<Token>)
    requires 1 <= k < 9 && ts == RawUpTo(d, k) && field == RawEntry(d, k)
    ensures ts + [Comma] + field == RawUpTo(d, k + 1)
  {
    var es := AllEntries(ConvValues(d));
    assert es[..k + 1] == es[..k] + [es[k]];
    EntriesSnoc(CONV_SCHEMA, es[..k], es[k]);
  }

  method InBoundsAll(dims: seq<int>, rank: int) returns (ok: bool)
    ensures ok <==> InRange(dims, rank)
  {
    for i := 0 to |dims|
      invariant InRange(dims[..i], rank)
    {
      if dims[i] < 0 || dims[i] >= rank { return false; }
      assert dims[..i + 1] == dims[..i] + [dims[i]];
    }
    assert dims[..|dims|] == dims;
    return true;
  }

  method IsConvolutionDimensionsPrintable(d: ConvDims) returns (ok: bool)
    ensures ok <==> d.Printable()
  {
    var input, kernel, output := |d.inputSpatial| + 2, |d.kernelSpatial| + 2, |d.outputSpatial| + 2;
    ok := InBoundsAll(d.inputSpatial, input);
    if !ok { return; }
    ok := InBoundsAll(d.kernelSpatial, kernel);
    if !ok { return; }
    ok := InBoundsAll(d.outputSpatial, output);
    if !ok { return; }
    ok := && 0 <= d.inputBatch < input && 0 <= d.inputFeature < input
          && 0 <= d.kernelInputFeature < kernel && 0 <= d.kernelOutputFeature < kernel
          && 0 <= d.outputBatch < output && 0 <= d.outputFeature < output;
  }

  method PrintConv(d: ConvDims) returns (ts: seq<Token>)
    ensures ts == ConvTokens(d)
  {
    var printable := IsConvolutionDimensionsPrintable(d);
    if !printable {
      var raw := PrintConvolutionDimensionsRaw(d);
      return [Less] + raw + [Greater];
    }
    var input := PrintDims(d.Input(), Activation);
    var kernel := PrintDims(d.Kernel(), Filter);
    var output := PrintDims(d.Output(), Activation);
    return [Less] + (input + [Keyword("x")] + kernel + [Arrow] + output) + [Greater];
  }

  // ----- parsing

  function Expect(t: Token, ts: seq<Token>): Option<seq<Token>> {
    if ts != [] && ts[0] == t then Some(ts[1..]) else None
  }

  function ParsedCompressed(ts: seq<Token>): Option<(ConvDims, seq<Token>)> {
    match ParsedGroup(ts, Activation)
    case None => None
    case Some((input, ts1)) =>
      match Expect(Keyword("x"), ts1)
      case None => None
      case Some(ts2) =>
        match ParsedGroup(ts2, Filter)
        case None => None
        case Some((kernel, ts3)) =>
          match Expect(Arrow, ts3)
          case None => None
          case Some(ts4) =>
            match ParsedGroup(ts4, Activation)
            case None => None
            case Some((output, rest)) => Some((ConvOfGroups(input, kernel, output), rest))
  }

  function ParsedRaw(ts: seq<Token>): Option<(ConvDims, seq<Token>)> {
    match ParseFields(CONV_SCHEMA, ts, NoneSeen(CONV_SCHEMA), Defaults(CONV_SCHEMA))
    case None => None
    case Some((values, rest)) => Some((ConvOf(values), rest))
  }

  predicate IsRaw(ts: seq<Token>) { |ts| >= 2 && ts[1] == Keyword("raw") }

  function ParsedConv(ts: seq<Token>): Option<(ConvDims, seq<Token>)> {
    if ts == [] || ts[0] != Less then None
    else if IsRaw(ts) then ParsedRaw(ts[2..])
    else
      match ParsedCompressed(ts[1..])
      case None => None
      case Some((d, rest)) =>
        match Expect(Greater, rest)
        case None => None
        case Some(rest') => Some((d, rest'))
  }

  method ParseConvolutionDimensionsRaw(ts: seq<Token>) returns (r: Option<(ConvDims, seq<Token>)>)
    ensures r == ParsedRaw(ts)
  {
    ConvSchemaDistinct();
    ghost var passes;
    var parsed;
    parsed, passes := ParseStruct(CONV_SCHEMA, ts);
    match parsed
    case None => return None;
    case Some((values, rest)) => return Some((ConvOf(values), rest));
  }

  method ParseConvolutionDimensions(ts: seq<Token>) returns (r: Option<(ConvDims, seq<Token>)>)
    ensures r == ParsedCompressed(ts)
  {
    var input := ParseGroup(ts, Activation);
    if input.None? { return None; }
    var afterX := Expect(Keyword("x"), input.value.1);
    if afterX.None? { return None; }
    var kernel := ParseGroup(afterX.value, Filter);
    if kernel.None? { return None; }
    var afterArrow := Expect(Arrow, kernel.value.1);
    if afterArrow.None? { return None; }
    var output := ParseGroup(afterArrow.value, Activation);
    if output.None? { return None; }
    return Some((ConvOfGroups(input.value.0, kernel.value.0, output.value.0), output.value.1));
  }

  method ParseConv(ts: seq<Token>) returns (r: Option<(ConvDims, seq<Token>)>)
    ensures r == ParsedConv(ts)
  {
    if ts == [] || ts[0] != Less { return None; }
    if |ts| >= 2 && ts[1] == Keyword("raw") {
      r := ParseConvolutionDimensionsRaw(ts[2..]);
      return;
    }
    var compressed := ParseConvolutionDimensions(ts[1..]);
    if compressed.None? { return None; }
    var rest := Expect(Greater, compressed.value.1);
    if rest.None? { return None; }
    return Some((compressed.value.0, rest.value));
  }

  // ----- the printed text

  /** In range and without duplicates: the three groups in brackets, each with its own two named dimensions. */
  lemma CompressedText(d: ConvDims) returns (input: seq<Token>, kernel: seq<Token>, output: seq<Token>)
    requires d.Regular()
    ensures ConvTokens(d) == [Less] + input + [Keyword("x")] + kernel + [Arrow] + output + [Greater]
    ensures IsGroupText(input, "b", d.inputBatch, "f", d.inputFeature, d.inputSpatial)
    ensures IsGroupText(kernel, "i", d.kernelInputFeature, "o", d.kernelOutputFeature, d.kernelSpatial)
    ensures IsGroupText(output, "b", d.outputBatch, "f", d.outputFeature, d.outputSpatial)
  {
    GroupText(d.Input(), Activation);
    GroupText(d.Kernel(), Filter);
    GroupText(d.Output(), Activation);
    input, kernel, output := GroupTokens(d.Input(), Activation), GroupTokens(d.Kernel(), Filter), GroupTokens(d.Output(), Activation);
    RegroupBrackets(input, kernel, output);
  }

  lemma RegroupBrackets(input: seq<Token>, kernel: seq<Token>, output: seq<Token>)
    ensures [Less] + (input + [Keyword("x")] + kernel + [Arrow] + output) + [Greater]
            == [Less] + input + [Keyword("x")] + kernel + [Arrow] + output + [Greater]
  {
  }

  function NumberText(name: string, n: int): seq<Token> {
    [Keyword(name), Equal, IntToken(n)]
  }

  function ListText(name: string, xs: seq<int>): seq<Token> {
    [Keyword(name), Equal, LSquare] + ListTokens(xs) + [RSquare]
  }

  /** Out of range: the raw marker and all nine fields under their own keywords. */
  lemma RawText(d: ConvDims)
    requires !d.Printable()
    ensures ConvTokens(d) == [Less] + [Keyword("raw")]
            + NumberText("input_batch_dimension", d.inputBatch) + [Comma]
            + NumberText("input_feature_dimension", d.inputFeature) + [Comma]
            + ListText("input_spatial_dimensions", d.inputSpatial) + [Comma]
            + NumberText("kernel_input_feature_dimension", d.kernelInputFeature) + [Comma]
            + NumberText("kernel_output_feature_dimension", d.kernelOutputFeature) + [Comma]
            + ListText("kernel_spatial_dimensions", d.kernelSpatial) + [Comma]
            + NumberText("output_batch_dimension", d.outputBatch) + [Comma]
            + NumberText("output_feature_dimension", d.outputFeature) + [Comma]
            + ListText("output_spatial_dimensions", d.outputSpatial) + [Greater]
  {
    RawEntries(d);
    EntryTexts(d);
    var a, b, c := RawEntry(d, 0), RawEntry(d, 1), RawEntry(d, 2);
    RawStep(d, 1, RawUpTo(d, 1), b);
    RawStep(d, 2, RawUpTo(d, 2), c);
    RawStep(d, 3, RawUpTo(d, 3), RawEntry(d, 3));
    RawStep(d, 4, RawUpTo(d, 4), RawEntry(d, 4));
    RawStep(d, 5, RawUpTo(d, 5), RawEntry(d, 5));
    RawStep(d, 6, RawUpTo(d, 6), RawEntry(d, 6));
    RawStep(d, 7, RawUpTo(d, 7), RawEntry(d, 7));
    RawStep(d, 8, RawUpTo(d, 8), RawEntry(d, 8));
    InBrackets(a, b, c, RawEntry(d, 3), RawEntry(d, 4), RawEntry(d, 5), RawEntry(d, 6), RawEntry(d, 7), RawEntry(d, 8));
  }

  lemma EntryTexts(d: ConvDims)
    ensures RawEntry(d, 0) == NumberText("input_batch_dimension", d.inputBatch)
    ensures RawEntry(d, 1) == NumberText("input_feature_dimension", d.inputFeature)
    ensures RawEntry(d, 2) == ListText("input_spatial_dimensions", d.inputSpatial)
    ensures RawEntry(d, 3) == NumberText("kernel_input_feature_dimension", d.kernelInputFeature)
    ensures RawEntry(d, 4) == NumberText("kernel_output_feature_dimension", d.kernelOutputFeature)
    ensures RawEntry(d, 5) == ListText("kernel_spatial_dimensions", d.kernelSpatial)
    ensures RawEntry(d, 6) == NumberText("output_batch_dimension", d.outputBatch)
    ensures RawEntry(d, 7) == NumberText("output_feature_dimension", d.outputFeature)
    ensures RawEntry(d, 8) == ListText("output_spatial_dimensions", d.outputSpatial)
  {
    RawEntries(d);
    NumberTextIs("input_batch_dimension", d.inputBatch);
    NumberTextIs("input_feature_dimension", d.inputFeature);
    ListTextIs("input_spatial_dimensions", d.inputSpatial);
    NumberTextIs("kernel_input_feature_dimension", d.kernelInputFeature);
    NumberTextIs("kernel_output_feature_dimension", d.kernelOutputFeature);
    ListTextIs("kernel_spatial_dimensions", d.kernelSpatial);
    NumberTextIs("output_batch_dimension", d.outputBatch);
    NumberTextIs("output_feature_dimension", d.outputFeature);
    ListTextIs("output_spatial_dimensions", d.outputSpatial);
  }

  lemma NumberTextIs(name: string, n: int)
    ensures FieldTokens(Field(name, false), Num(n)) == NumberText(name, n)
  {
  }

  lemma ListTextIs(name: string, xs: seq<int>)
    ensures FieldTokens(Field(name, true), Ints(xs)) == ListText(name, xs)
  {
  }

  lemma InBrackets(a: seq<Token>, b: seq<Token>, c: seq<Token>, d: seq<Token>, e: seq<Token>, f: seq<Token>, g: seq<Token>,
                      h: seq<Token>, i: seq<Token>)
    ensures [Less] + ([Keyword("raw")] + a + [Comma] + b + [Comma] + c + [Comma] + d + [Comma] + e + [Comma] + f + [Comma] + g
                      + [Comma] + h + [Comma] + i) + [Greater]
            == [Less] + [Keyword("raw")] + a + [Comma] + b + [Comma] + c + [Comma] + d + [Comma] + e + [Comma] + f + [Comma] + g
               + [Comma] + h + [Comma] + i + [Greater]
  {
  }

  // ----- round trips

  lemma ExpectIff(t: Token, ts: seq<Token>, rest: seq<Token>)
    ensures Expect(t, ts) == Some(rest) <==> ts == [t] + rest
  {
    if Expect(t, ts) == Some(rest) { assert ts == [ts[0]] + ts[1..]; }
    if ts == [t] + rest { assert ts[1..] == rest; }
  }

  /** The tokens of three groups and what follows, grouped the way they are read. */
  function Chain(d: ConvDims, rest: seq<Token>): seq<Token>
    requires d.Printable()
  {
    GroupTokens(d.Input(), Activation) + AfterInput(d, rest)
  }

  function AfterInput(d: ConvDims, rest: seq<Token>): seq<Token>
    requires d.Printable()
  {
    [Keyword("x")] + (GroupTokens(d.Kernel(), Filter) + AfterKernel(d, rest))
  }

  function AfterKernel(d: ConvDims, rest: seq<Token>): seq<Token>
    requires d.Printable()
  {
    [Arrow] + (GroupTokens(d.Output(), Activation) + rest)
  }

  lemma ChainIs(d: ConvDims, rest: seq<Token>)
    requires d.Printable()
    ensures CompressedTokens(d) + rest == Chain(d, rest)
  {
    RegroupFive(GroupTokens(d.Input(), Activation), [Keyword("x")], GroupTokens(d.Kernel(), Filter), [Arrow],
                GroupTokens(d.Output(), Activation), rest);
  }

  lemma RegroupFive<T>(a: seq<T>, b: seq<T>, c: seq<T>, d: seq<T>, e: seq<T>, f: seq<T>)
    ensures (a + b + c + d + e) + f == a + (b + (c + (d + (e + f))))
  {
  }

  lemma CompressedReads(d: ConvDims, rest: seq<Token>)
    requires d.Regular()
    ensures ParsedCompressed(CompressedTokens(d) + rest) == Some((d, rest))
  {
    ChainIs(d, rest);
    GroupParsedIff(Chain(d, rest), Activation, d.Input(), AfterInput(d, rest));
    var kernel := GroupTokens(d.Kernel(), Filter) + AfterKernel(d, rest);
    ExpectIff(Keyword("x"), AfterInput(d, rest), kernel);
    GroupParsedIff(kernel, Filter, d.Kernel(), AfterKernel(d, rest));
    var output := GroupTokens(d.Output(), Activation) + rest;
    ExpectIff(Arrow, AfterKernel(d, rest), output);
    GroupParsedIff(output, Activation, d.Output(), rest);
  }

  lemma CompressedIsPrinted(ts: seq<Token>, d: ConvDims, rest: seq<Token>)
    requires ParsedCompressed(ts) == Some((d, rest))
    ensures d.Regular() && ts == CompressedTokens(d) + rest
  {
    var (input, ts1) := ParsedGroup(ts, Activation).value;
    var ts2 := Expect(Keyword("x"), ts1).value;
    var (kernel, ts3) := ParsedGroup(ts2, Filter).value;
    var ts4 := Expect(Arrow, ts3).value;
    var (output, ts5) := ParsedGroup(ts4, Activation).value;
    GroupParsedIff(ts, Activation, input, ts1);
    ExpectIff(Keyword("x"), ts1, ts2);
    GroupParsedIff(ts2, Filter, kernel, ts3);
    ExpectIff(Arrow, ts3, ts4);
    GroupParsedIff(ts4, Activation, output, ts5);
    ChainIs(d, rest);
  }

  lemma BracketsRegroup<T>(a: seq<T>, b: seq<T>, c: seq<T>, rest: seq<T>)
    requires |a| == 1
    ensures (a + b + c) + rest == a + (b + (c + rest))
    ensures (a + (b + (c + rest)))[1..] == b + (c + rest)
  {
  }

  lemma NotRaw(d: ConvDims, rest: seq<Token>)
    requires d.Printable()
    ensures !IsRaw(ConvTokens(d) + rest)
  {
    assert (ConvTokens(d) + rest)[1] == LSquare;
  }

  /** Text without the raw marker is accepted if and only if it is the printed form of an attribute whose
      three groups are in range and duplicate-free, and then that attribute is what is read. */
  lemma CompressedExact(ts: seq<Token>, d: ConvDims, rest: seq<Token>)
    requires !IsRaw(ts)
    ensures ParsedConv(ts) == Some((d, rest)) <==> d.Regular() && ts == ConvTokens(d) + rest
  {
    if ParsedConv(ts) == Some((d, rest)) { AcceptedIsPrinted(ts, d, rest); }
    if d.Regular() && ts == ConvTokens(d) + rest {
      BracketsRegroup([Less], CompressedTokens(d), [Greater], rest);
      CompressedReads(d, [Greater] + rest);
      ExpectIff(Greater, [Greater] + rest, rest);
    }
  }

  lemma AcceptedIsPrinted(ts: seq<Token>, d: ConvDims, rest: seq<Token>)
    requires !IsRaw(ts) && ParsedConv(ts) == Some((d, rest))
    ensures d.Regular() && ts == ConvTokens(d) + rest
  {
    var after := ParsedCompressed(ts[1..]).value.1;
    CompressedIsPrinted(ts[1..], d, after);
    ExpectIff(Greater, after, rest);
    Bracketed(ts, CompressedTokens(d), rest);
  }

  lemma Bracketed(ts: seq<Token>, body: seq<Token>, rest: seq<Token>)
    requires ts != [] && ts[0] == Less && ts[1..] == body + ([Greater] + rest)
    ensures ts == ([Less] + body + [Greater]) + rest
  {
    BracketsRegroup([Less], body, [Greater], rest);
    assert ts == [Less] + ts[1..];
  }

  lemma RawReads(d: ConvDims, rest: seq<Token>)
    requires !d.Printable()
    ensures ParsedConv(ConvTokens(d) + rest) == Some((d, rest))
  {
    ConvSchemaDistinct();
    var es := AllEntries(ConvValues(d));
    AllEntriesRoundTrip(CONV_SCHEMA, ConvValues(d), rest);
    RawSplit(EntriesTokens(CONV_SCHEMA, es), rest);
  }

  lemma RawSplit(body: seq<Token>, rest: seq<Token>)
    ensures var ts := [Less] + ([Keyword("raw")] + body) + [Greater] + rest;
            ts[0] == Less && IsRaw(ts) && ts[2..] == body + [Greater] + rest
  {
    assert [Less] + ([Keyword("raw")] + body) + [Greater] + rest == [Less, Keyword("raw")] + (body + [Greater] + rest);
  }

  /** An attribute is read back from its printed form if and only if some index is out of range or no
      group lists a dimension twice. */
  lemma ConvRoundTripIff(d: ConvDims, rest: seq<Token>)
    ensures ParsedConv(ConvTokens(d) + rest) == Some((d, rest)) <==> (d.Printable() ==> d.Regular())
  {
    if d.Printable() {
      NotRaw(d, rest);
      CompressedExact(ConvTokens(d) + rest, d, rest);
    } else {
      RawReads(d, rest);
    }
  }

  // ----- attributes with duplicates

  /** No group takes a position twice, except for that of its first spatial dimension. */
  predicate Readable(d: ConvDims) {
    d.Input().Readable() && d.Kernel().Readable() && d.Output().Readable()
  }

  lemma LayoutsIff(d: ConvDims)
    requires d.Printable()
    ensures IsLayout(Layout(d.Input(), Activation), Activation) <==> d.Input().Readable()
    ensures IsLayout(Layout(d.Kernel(), Filter), Filter) <==> d.Kernel().Readable()
    ensures IsLayout(Layout(d.Output(), Activation), Activation) <==> d.Output().Readable()
  {
    LayoutIff(d.Input(), Activation);
    LayoutIff(d.Kernel(), Filter);
    LayoutIff(d.Output(), Activation);
  }

  /** The attribute that the printed lists lead back to. */
  function Reread(d: ConvDims): ConvDims
    requires Readable(d)
  {
    LayoutsIff(d);
    ConvOfGroups(Inverse(Layout(d.Input(), Activation), Activation), Inverse(Layout(d.Kernel(), Filter), Filter),
                 Inverse(Layout(d.Output(), Activation), Activation))
  }

  lemma CompressedReread(d: ConvDims, rest: seq<Token>)
    requires d.Printable()
    ensures Readable(d) ==> ParsedCompressed(CompressedTokens(d) + rest) == Some((Reread(d), rest))
    ensures !Readable(d) ==> ParsedCompressed(CompressedTokens(d) + rest).None?
  {
    ChainIs(d, rest);
    LayoutsIff(d);
    GroupReread(d.Input(), Activation, AfterInput(d, rest));
    var kernel := GroupTokens(d.Kernel(), Filter) + AfterKernel(d, rest);
    ExpectIff(Keyword("x"), AfterInput(d, rest), kernel);
    GroupReread(d.Kernel(), Filter, AfterKernel(d, rest));
    var output := GroupTokens(d.Output(), Activation) + rest;
    ExpectIff(Arrow, AfterKernel(d, rest), output);
    GroupReread(d.Output(), Activation, rest);
  }

  /** The printed form of an attribute in range is accepted if and only if no group takes a position twice,
      except for that of its first spatial dimension; it is then read as the attribute that the printed lists
      lead back to, which is the printed one exactly when that has no duplicates at all. */
  lemma {:induction false} PrintedIsReread(d: ConvDims, rest: seq<Token>)
    requires d.Printable()
    ensures ParsedConv(ConvTokens(d) + rest).Some? <==> Readable(d)
    ensures Readable(d) ==> ParsedConv(ConvTokens(d) + rest) == Some((Reread(d), rest))
    ensures Readable(d) ==> (Reread(d) == d <==> d.Regular())
  {
    NotRaw(d, rest);
    BracketsRegroup([Less], CompressedTokens(d), [Greater], rest);
    CompressedReread(d, [Greater] + rest);
    ExpectIff(Greater, [Greater] + rest, rest);
    if Readable(d) { ConvRoundTripIff(d, rest); }
  }

  lemma SameLayout()
    ensures var twice, other := Group(0, 1, [2, 2]), Group(0, 1, [3, 2]);
            twice.InBounds() && other.Regular() && Layout(twice, Activation) == Layout(other, Activation)
  {
    var twice, other := Group(0, 1, [2, 2]), Group(0, 1, [3, 2]);
    assert Filled(twice, Activation, 1) == [-1, -2, 0, 0] == Filled(other, Activation, 1);
    assert Filled(twice, Activation, 2) == [-1, -2, 1, 0] == Filled(other, Activation, 2);
  }

  /** Replacing the input group by another regular one with the same layout changes what is read. */
  lemma SameTokens(d: ConvDims, other: Group)
    requires d.Printable() && other.Regular() && d.Kernel().Regular() && d.Output().Regular()
    requires Layout(d.Input(), Activation) == Layout(other, Activation)
    ensures ParsedConv(ConvTokens(d)) == Some((ConvOfGroups(other, d.Kernel(), d.Output()), []))
  {
    var d' := ConvOfGroups(other, d.Kernel(), d.Output());
    assert ConvTokens(d) == ConvTokens(d');
    ConvRoundTripIff(d', []);
    InitLast(ConvTokens(d'), []);
  }

  /** An in-range attribute with a repeated spatial dimension that prints as, and is read back as, another one. */
  lemma DuplicatesMisread()
    ensures var twice, other := Group(0, 1, [2, 2]), Group(0, 1, [3, 2]);
            var d, d' := ConvOfGroups(twice, other, other), ConvOfGroups(other, other, other);
            d.Printable() && d != d' && ParsedConv(ConvTokens(d)) == Some((d', []))
  {
    var twice, other := Group(0, 1, [2, 2]), Group(0, 1, [3, 2]);
    SameLayout();
    assert twice.spatial[0] != other.spatial[0];
    SameTokens(ConvOfGroups(twice, other, other), other);
  }
}
