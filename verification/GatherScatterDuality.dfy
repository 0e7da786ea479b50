/** Gather and scatter are written with different algorithms; their checks agree. */
module GatherScatterDuality {
  import opened Sequences
  import opened Types
  import opened Gather
  import opened ReducerMatching
  import opened Scatter

  /** The scatter dimension numbers that undo a gather: offset dimensions become update window
      dimensions, collapsed ones become inserted ones, and so on. */
  function Matching(g: GatherDims): ScatterDims {
    ScatterDims(g.offsetDims, g.collapsedSliceDims, g.operandBatchingDims,
                g.startIndicesBatchingDims, g.startIndexMap, g.indexVectorDim)
  }

  lemma ExpandedFacts(start: seq<int>, ivd: int)
    requires 0 <= ivd <= |start|
    ensures ivd < |Expanded(start, ivd)| == ExpandedRank(start, ivd)
    ensures Expanded(start, ivd)[ivd] == IndexVectorSize(start, ivd)
    ensures forall d :: 0 <= d < |start| ==> Expanded(start, ivd)[d] == start[d]
    ensures WithoutDim(Expanded(start, ivd), ivd) == WithoutDim(start, ivd)
  {
  }

  // ----- dimension numbers

  lemma {:induction false} DimensionNumbersAgree(operand: seq<int>, start: seq<int>, updates: seq<int>, g: GatherDims)
    requires 0 <= g.indexVectorDim <= |start|
    ensures 0 <= g.indexVectorDim < |Expanded(start, g.indexVectorDim)|
    ensures DimensionNumbersOk(operand, Expanded(start, g.indexVectorDim), updates, Matching(g))
            <==> DimensionsOk(operand, start, |operand|, g) && InRange(g.offsetDims, |updates|)
  {
    ExpandedFacts(start, g.indexVectorDim);
    var expanded := Expanded(start, g.indexVectorDim);
    if g.indexVectorDim !in g.startIndicesBatchingDims {
      BatchingInRange(g.startIndicesBatchingDims, start, g.indexVectorDim);
    }
  }

  /** The implicit trailing dimension is the index vector, so batching dimensions never name it. */
  lemma BatchingInRange(dims: seq<int>, start: seq<int>, ivd: int)
    requires 0 <= ivd <= |start| && ivd !in dims
    ensures InRange(dims, |Expanded(start, ivd)|) <==> InRange(dims, |start|)
  {
    if InRange(dims, |Expanded(start, ivd)|) {
      forall i | 0 <= i < |dims| ensures 0 <= dims[i] < |start| { assert dims[i] != ivd; }
    }
  }

  // ----- gather accepts, so scatter accepts

  lemma {:induction false} WindowEntries(operand: seq<int>, start: seq<int>, slices: seq<int>, g: GatherDims, k: nat)
    requires Accepts(operand, start, slices, g) && k < |g.offsetDims|
    ensures InRange(WindowDims(g, |operand|), |operand|) && k < |WindowDims(g, |operand|)|
    ensures 0 <= g.offsetDims[k] < |GatheredShape(operand, start, slices, g)|
    ensures GatheredShape(operand, start, slices, g)[g.offsetDims[k]] == slices[WindowDims(g, |operand|)[k]]
  {
    ResultDimensions(operand, start, slices, g);
    DistinctIndex(g.offsetDims, k);
  }

  lemma {:induction false} BatchEntries(operand: seq<int>, start: seq<int>, slices: seq<int>, g: GatherDims, i: nat)
    requires Accepts(operand, start, slices, g) && i < ResultRank(start, g) && i !in g.offsetDims
    ensures var k := |Excluding(i, g.offsetDims)|;
            k < |WithoutDim(start, g.indexVectorDim)|
            && GatheredShape(operand, start, slices, g)[i] == WithoutDim(start, g.indexVectorDim)[k]
  {
    ResultDimensions(operand, start, slices, g);
    ExcludingIndex(ResultRank(start, g), g.offsetDims, i);
  }

  lemma {:induction false} GatherImpliesScatter(operand: seq<int>, start: seq<int>, slices: seq<int>, g: GatherDims, updates: seq<int>)
    requires Accepts(operand, start, slices, g)
    requires CompatibleShapes(GatheredShape(operand, start, slices, g), updates)
    ensures PairOk(operand, start, updates, Matching(g))
  {
    ExpandedFacts(start, g.indexVectorDim);
    DimensionNumbersAgree(operand, start, updates, g);
    var shape := GatheredShape(operand, start, slices, g);
    var expanded := Expanded(start, g.indexVectorDim);
    ScatterSizes(operand, expanded, updates, Matching(g));
    var sizes := Pick(operand, WindowDims(g, |operand|));
    forall k | 0 <= k < |sizes|
      ensures IsDynamic(updates[g.offsetDims[k]]) || IsDynamic(sizes[k]) || updates[g.offsetDims[k]] <= sizes[k]
    {
      WindowEntries(operand, start, slices, g, k);
      SliceStatic(operand, slices, g, WindowDims(g, |operand|)[k]);
      assert CompatibleDims(shape[g.offsetDims[k]], updates[g.offsetDims[k]]);
    }
    forall i | 0 <= i < |updates|
      ensures MatchesAt(updates, g.offsetDims, WithoutDim(expanded, g.indexVectorDim), i)
    {
      if i !in g.offsetDims {
        BatchEntries(operand, start, slices, g, i);
        assert CompatibleDims(shape[i], updates[i]);
      }
    }
  }

  lemma SliceStatic(operand: seq<int>, slices: seq<int>, g: GatherDims, d: int)
    requires |slices| == |operand| && InRange(g.collapsedSliceDims, |operand|) && InRange(g.operandBatchingDims, |operand|)
    requires SlicesOk(operand, slices, g) && 0 <= d < |operand|
    ensures IsStatic(slices[d]) && (IsDynamic(operand[d]) || slices[d] <= operand[d])
  {
    assert 0 <= slices[d];
  }

  // ----- scatter accepts, so some gather produces these updates

  /** Slice sizes read off the updates: window sizes where they are known, and 0 elsewhere. */
  function SlicesFor(operand: seq<int>, updates: seq<int>, g: GatherDims): (r: seq<int>)
    requires InRange(g.offsetDims, |updates|) && |WindowDims(g, |operand|)| == |g.offsetDims|
    ensures |r| == |operand|
  {
    seq(|operand|, d requires 0 <= d < |operand| => SliceFor(d, operand, updates, g))
  }

  function SliceFor(d: int, operand: seq<int>, updates: seq<int>, g: GatherDims): int
    requires InRange(g.offsetDims, |updates|) && |WindowDims(g, |operand|)| == |g.offsetDims|
  {
    var window := WindowDims(g, |operand|);
    if d in window && IsStatic(updates[g.offsetDims[IndexOf(window, d)]])
    then updates[g.offsetDims[IndexOf(window, d)]] else 0
  }

  lemma {:induction false} SlicesForOk(operand: seq<int>, start: seq<int>, updates: seq<int>, g: GatherDims)
    requires ValidShape(operand) && ValidShape(updates) && PairOk(operand, start, updates, Matching(g))
    ensures DimensionsOk(operand, start, |operand|, g) && InRange(g.offsetDims, |updates|)
    ensures |WindowDims(g, |operand|)| == |g.offsetDims|
    ensures Accepts(operand, start, SlicesFor(operand, updates, g), g)
  {
    PairFacts(operand, start, updates, g);
    var slices := SlicesFor(operand, updates, g);
    forall d | 0 <= d < |operand|
      ensures 0 <= slices[d] && (IsDynamic(operand[d]) || slices[d] <= operand[d])
    {
      SliceBound(d, operand, start, updates, g);
    }
    forall k | 0 <= k < |g.collapsedSliceDims| ensures slices[g.collapsedSliceDims[k]] <= 1 {
      GoneSlice(g.collapsedSliceDims[k], operand, updates, g);
    }
    forall k | 0 <= k < |g.operandBatchingDims| ensures slices[g.operandBatchingDims[k]] <= 1 {
      GoneSlice(g.operandBatchingDims[k], operand, updates, g);
    }
  }

  lemma {:induction false} PairFacts(operand: seq<int>, start: seq<int>, updates: seq<int>, g: GatherDims)
    requires PairOk(operand, start, updates, Matching(g))
    ensures DimensionsOk(operand, start, |operand|, g) && InRange(g.offsetDims, |updates|)
    ensures |WindowDims(g, |operand|)| == |g.offsetDims|
  {
    ExpandedFacts(start, g.indexVectorDim);
    DimensionNumbersAgree(operand, start, updates, g);
    ScatterSizes(operand, Expanded(start, g.indexVectorDim), updates, Matching(g));
  }

  /** Nothing is read for a collapsed or batching dimension. */
  lemma GoneSlice(d: int, operand: seq<int>, updates: seq<int>, g: GatherDims)
    requires InRange(g.offsetDims, |updates|) && |WindowDims(g, |operand|)| == |g.offsetDims|
    requires d in g.collapsedSliceDims || d in g.operandBatchingDims
    ensures SliceFor(d, operand, updates, g) == 0
  {
    InConcat(g.collapsedSliceDims, g.operandBatchingDims, d);
    ExcludingProperties(|operand|, g.collapsedSliceDims + g.operandBatchingDims);
  }

  lemma {:induction false} SliceBound(d: int, operand: seq<int>, start: seq<int>, updates: seq<int>, g: GatherDims)
    requires ValidShape(operand) && ValidShape(updates) && PairOk(operand, start, updates, Matching(g))
    requires InRange(g.offsetDims, |updates|) && |WindowDims(g, |operand|)| == |g.offsetDims|
    requires 0 <= d < |operand|
    ensures 0 <= SliceFor(d, operand, updates, g)
    ensures IsDynamic(operand[d]) || SliceFor(d, operand, updates, g) <= operand[d]
  {
    var window := WindowDims(g, |operand|);
    ScatterSizes(operand, Expanded(start, g.indexVectorDim), updates, Matching(g));
    assert ValidSize(operand[d]);
    if d in window {
      var k := IndexOf(window, d);
      assert ValidSize(updates[g.offsetDims[k]]);
      assert Pick(operand, window)[k] == operand[d];
    }
  }

  lemma {:induction false} ScatterImpliesGather(operand: seq<int>, start: seq<int>, updates: seq<int>, g: GatherDims)
    returns (slices: seq<int>)
    requires ValidShape(operand) && ValidShape(updates) && PairOk(operand, start, updates, Matching(g))
    ensures Accepts(operand, start, slices, g)
    ensures CompatibleShapes(GatheredShape(operand, start, slices, g), updates)
  {
    SlicesForOk(operand, start, updates, g);
    ExpandedFacts(start, g.indexVectorDim);
    slices := SlicesFor(operand, updates, g);
    var shape := GatheredShape(operand, start, slices, g);
    forall i | 0 <= i < |shape| ensures CompatibleDims(shape[i], updates[i]) {
      if i in g.offsetDims {
        var k := IndexOf(g.offsetDims, i);
        WindowEntries(operand, start, slices, g, k);
        WindowSlice(operand, updates, g, k);
      } else {
        BatchEntries(operand, start, slices, g, i);
        assert MatchesAt(updates, g.offsetDims, WithoutDim(Expanded(start, g.indexVectorDim), g.indexVectorDim), i);
      }
    }
  }

  lemma {:induction false} WindowSlice(operand: seq<int>, updates: seq<int>, g: GatherDims, k: nat)
    requires InRange(g.offsetDims, |updates|) && |WindowDims(g, |operand|)| == |g.offsetDims| && k < |g.offsetDims|
    ensures 0 <= WindowDims(g, |operand|)[k] < |operand|
    ensures CompatibleDims(SlicesFor(operand, updates, g)[WindowDims(g, |operand|)[k]], updates[g.offsetDims[k]])
  {
    var window := WindowDims(g, |operand|);
    ExcludingProperties(|operand|, g.collapsedSliceDims + g.operandBatchingDims);
    DistinctIndex(window, k);
    assert window[k] in window;
  }

  ghost predicate Produces(slices: seq<int>, operand: seq<int>, start: seq<int>, g: GatherDims, updates: seq<int>) {
    Accepts(operand, start, slices, g) && CompatibleShapes(GatheredShape(operand, start, slices, g), updates)
  }

  /** Scatter accepts updates of some shape if and only if a gather with the matching dimension
      numbers, for some slice sizes, infers a compatible shape. In particular scatter accepts whatever
      gather infers. */
  lemma {:induction false} ScatterIffGather(operand: seq<int>, start: seq<int>, updates: seq<int>, g: GatherDims)
    requires ValidShape(operand) && ValidShape(updates)
    ensures PairOk(operand, start, updates, Matching(g)) <==> exists slices :: Produces(slices, operand, start, g, updates)
  {
    if PairOk(operand, start, updates, Matching(g)) {
      var slices := ScatterImpliesGather(operand, start, updates, g);
      assert Produces(slices, operand, start, g, updates);
    }
    if slices :| Produces(slices, operand, start, g, updates) {
      GatherImpliesScatter(operand, start, slices, g, updates);
    }
  }

  /** The inferred result of a gather is accepted as the updates of the matching scatter, whose region
      combines two scalars. */
  lemma {:induction false} ScatterUndoesGather(operand: seq<int>, start: TensorType, slices: seq<int>, g: GatherDims, region: Region)
    requires start.WellFormed() && Inferred(operand, start, slices, g).Some?
    ensures AllOk([operand], start.shape, [Inferred(operand, start, slices, g).value.shape], Matching(g), region)
            <==> region == Region([[], []], [[]])
  {
    GatherImpliesScatter(operand, start.shape, slices, g, GatheredShape(operand, start.shape, slices, g));
    ScalarRegionIff(region, 1);
    TwoScalars(region.arguments);
    OneScalar(region.results);
  }

  lemma TwoScalars(shapes: seq<seq<int>>)
    ensures |shapes| == 2 && shapes[0] == shapes[1] == [] <==> shapes == [[], []]
  {
  }

  lemma OneScalar(shapes: seq<seq<int>>)
    ensures |shapes| == 1 && shapes[0] == [] <==> shapes == [[]]
  {
  }
}
