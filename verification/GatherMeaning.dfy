/** What gather inference accepts and infers, stated on the operand, the start indices and the attributes
    themselves. */
module GatherMeaning {
  import opened Sequences
  import opened Types
  import opened Gather
  import DotGeneral

  lemma IncreasingIff(xs: seq<int>)
    ensures StrictlyIncreasing(xs) <==> Sorted(xs) && Distinct(xs)
  {
  }

  /** The exact condition under which gather infers a type. */
  lemma {:induction false} InferredIff(operand: seq<int>, start: TensorType, sliceSizes: seq<int>, g: GatherDims)
    requires start.WellFormed()
    ensures Inferred(operand, start, sliceSizes, g).Some?
            <==> && |sliceSizes| == |operand|
                 && |operand| == |g.offsetDims| + |g.collapsedSliceDims| + |g.operandBatchingDims|
                 && 0 <= g.indexVectorDim <= |start.shape|
                 && (g.indexVectorDim == |start.shape| ==> |g.startIndexMap| == 1)
                 && (g.indexVectorDim < |start.shape| && start.shape[g.indexVectorDim] != DYNAMIC ==>
                       |g.startIndexMap| == start.shape[g.indexVectorDim])
                 && StrictlyIncreasing(g.offsetDims) && StrictlyIncreasing(g.collapsedSliceDims)
                 && StrictlyIncreasing(g.operandBatchingDims)
                 && (forall k :: 0 <= k < |g.offsetDims| ==>
                       0 <= g.offsetDims[k] < |g.offsetDims| + |start.shape| - (if g.indexVectorDim < |start.shape| then 1 else 0))
                 && InRange(g.collapsedSliceDims, |operand|) && InRange(g.operandBatchingDims, |operand|)
                 && InRange(g.startIndexMap, |operand|) && InRange(g.startIndicesBatchingDims, |start.shape|)
                 && Disjoint(g.collapsedSliceDims, g.operandBatchingDims) && Disjoint(g.startIndexMap, g.operandBatchingDims)
                 && Distinct(g.startIndexMap) && Distinct(g.startIndicesBatchingDims)
                 && g.indexVectorDim !in g.startIndicesBatchingDims
                 && |g.operandBatchingDims| == |g.startIndicesBatchingDims|
                 && (forall k :: 0 <= k < |g.operandBatchingDims| ==>
                       var l, r := operand[g.operandBatchingDims[k]], start.shape[g.startIndicesBatchingDims[k]];
                       l == DYNAMIC || r == DYNAMIC || l == r)
                 && (forall d :: 0 <= d < |operand| ==> 0 <= sliceSizes[d] && (operand[d] != DYNAMIC ==> sliceSizes[d] <= operand[d]))
                 && (forall d :: 0 <= d < |operand| && (d in g.collapsedSliceDims || d in g.operandBatchingDims) ==> sliceSizes[d] <= 1)
  {
    IncreasingIff(g.offsetDims);
    IncreasingIff(g.collapsedSliceDims);
    IncreasingIff(g.operandBatchingDims);
    DistinctConcatIff(g.collapsedSliceDims, g.operandBatchingDims);
    DistinctConcatIff(g.startIndexMap, g.operandBatchingDims);
    if |sliceSizes| == |operand| && InRange(g.collapsedSliceDims, |operand|) && InRange(g.operandBatchingDims, |operand|) {
      SlicesIff(operand, sliceSizes, g);
    }
  }

  lemma SlicesIff(operand: seq<int>, sliceSizes: seq<int>, g: GatherDims)
    requires |sliceSizes| == |operand| && InRange(g.collapsedSliceDims, |operand|) && InRange(g.operandBatchingDims, |operand|)
    ensures SlicesOk(operand, sliceSizes, g)
            <==> && (forall d :: 0 <= d < |operand| ==> 0 <= sliceSizes[d] && (operand[d] != DYNAMIC ==> sliceSizes[d] <= operand[d]))
                 && (forall d :: 0 <= d < |operand| && (d in g.collapsedSliceDims || d in g.operandBatchingDims) ==> sliceSizes[d] <= 1)
  {
    AtMostOneIff(sliceSizes, g.collapsedSliceDims);
    AtMostOneIff(sliceSizes, g.operandBatchingDims);
  }

  lemma AtMostOneIff(sliceSizes: seq<int>, dims: seq<int>)
    requires InRange(dims, |sliceSizes|)
    ensures (forall k :: 0 <= k < |dims| ==> sliceSizes[dims[k]] <= 1)
            <==> (forall d :: 0 <= d < |sliceSizes| && d in dims ==> sliceSizes[d] <= 1)
  {
    assert forall k :: 0 <= k < |dims| ==> dims[k] in dims;
  }

  /** The inferred shape: the offset dimensions take, in order, the slice sizes that are kept, and the others,
      in order, the sizes of the start indices without the index vector dimension. */
  lemma {:induction false} InferredShape(operand: seq<int>, start: TensorType, sliceSizes: seq<int>, g: GatherDims,
                                         kept: seq<int>, batch: seq<int>)
    requires start.WellFormed() && Inferred(operand, start, sliceSizes, g).Some?
    requires Remaining(kept, |operand|, g.collapsedSliceDims, g.operandBatchingDims)
    requires Remaining(batch, |Inferred(operand, start, sliceSizes, g).value.shape|, g.offsetDims, [])
    ensures |sliceSizes| == |operand| && |kept| == |g.offsetDims|
    ensures |batch| == (if g.indexVectorDim < |start.shape| then |start.shape| - 1 else |start.shape|)
    ensures var shape := Inferred(operand, start, sliceSizes, g).value.shape;
            && InRange(g.offsetDims, |shape|)
            && (forall k :: 0 <= k < |kept| ==> shape[g.offsetDims[k]] == sliceSizes[kept[k]])
            && (forall k :: 0 <= k < |batch| ==> shape[batch[k]] == start.shape[if k < g.indexVectorDim then k else k + 1])
  {
    Dimensions(operand, start, sliceSizes, g, kept, batch);
    forall k | 0 <= k < |kept|
      ensures GatheredShape(operand, start.shape, sliceSizes, g)[g.offsetDims[k]] == sliceSizes[kept[k]]
    {
      KeptEntry(operand, start, sliceSizes, g, k);
    }
    forall k | 0 <= k < |batch|
      ensures var d := SkipOne(k, g.indexVectorDim);
              0 <= d < |start.shape| && GatheredShape(operand, start.shape, sliceSizes, g)[batch[k]] == start.shape[d]
    {
      BatchPlace(ResultRank(start.shape, g), g.offsetDims, k);
      BatchEntry(operand, start, sliceSizes, g, batch[k]);
    }
  }

  /** The inferred bounds, of a result with dimensions: none at the offset dimensions, and at the others, in order,
      those of the start indices without the index vector dimension. */
  lemma {:induction false} InferredBounds(operand: seq<int>, start: TensorType, sliceSizes: seq<int>, g: GatherDims,
                                          kept: seq<int>, batch: seq<int>)
    requires start.WellFormed() && Inferred(operand, start, sliceSizes, g).Some?
    requires Inferred(operand, start, sliceSizes, g).value.shape != []
    requires Remaining(kept, |operand|, g.collapsedSliceDims, g.operandBatchingDims)
    requires Remaining(batch, |Inferred(operand, start, sliceSizes, g).value.shape|, g.offsetDims, [])
    ensures |kept| == |g.offsetDims| && InRange(g.offsetDims, |Inferred(operand, start, sliceSizes, g).value.shape|)
    ensures |batch| == (if g.indexVectorDim < |start.shape| then |start.shape| - 1 else |start.shape|)
    ensures var t := Inferred(operand, start, sliceSizes, g).value;
            && t.WellFormed()
            && (forall k :: 0 <= k < |kept| ==> t.Bound(g.offsetDims[k]) == DYNAMIC)
            && (forall k :: 0 <= k < |batch| ==> t.Bound(batch[k]) == start.Bound(if k < g.indexVectorDim then k else k + 1))
  {
    Dimensions(operand, start, sliceSizes, g, kept, batch);
    BoundsFollowShape(operand, start, sliceSizes, g);
    GatheredBoundsKnown(operand, start, sliceSizes, g);
    var bounds := GatheredBounds(operand, start, sliceSizes, g);
    forall k | 0 <= k < |kept| ensures bounds[g.offsetDims[k]] == DYNAMIC {
      KeptEntry(operand, start, sliceSizes, g, k);
    }
    forall k | 0 <= k < |batch|
      ensures var d := SkipOne(k, g.indexVectorDim);
              0 <= d < |start.shape| && bounds[batch[k]] == start.Bound(d)
    {
      BatchPlace(ResultRank(start.shape, g), g.offsetDims, k);
      BatchEntry(operand, start, sliceSizes, g, batch[k]);
    }
  }

  lemma {:induction false} Dimensions(operand: seq<int>, start: TensorType, sliceSizes: seq<int>, g: GatherDims,
                                      kept: seq<int>, batch: seq<int>)
    requires start.WellFormed() && Accepts(operand, start.shape, sliceSizes, g) && ResultRank(start.shape, g) >= 0
    requires Remaining(kept, |operand|, g.collapsedSliceDims, g.operandBatchingDims)
    requires Remaining(batch, ResultRank(start.shape, g), g.offsetDims, [])
    ensures kept == WindowDims(g, |operand|) && |kept| == |g.offsetDims| && InRange(kept, |sliceSizes|)
    ensures batch == Excluding(ResultRank(start.shape, g), g.offsetDims)
    ensures |batch| == |WithoutDim(start.shape, g.indexVectorDim)|
  {
    ResultDimensions(operand, start.shape, sliceSizes, g);
    RemainingIs(kept, |operand|, g.collapsedSliceDims, g.operandBatchingDims);
    RemainingIs(batch, ResultRank(start.shape, g), g.offsetDims, []);
    assert g.offsetDims + [] == g.offsetDims;
  }

  lemma {:induction false} KeptEntry(operand: seq<int>, start: TensorType, sliceSizes: seq<int>, g: GatherDims, k: nat)
    requires start.WellFormed() && Accepts(operand, start.shape, sliceSizes, g) && k < |g.offsetDims|
    ensures k < |WindowDims(g, |operand|)| && 0 <= WindowDims(g, |operand|)[k] < |sliceSizes|
    ensures 0 <= g.offsetDims[k] < |GatheredShape(operand, start.shape, sliceSizes, g)|
    ensures GatheredShape(operand, start.shape, sliceSizes, g)[g.offsetDims[k]] == sliceSizes[WindowDims(g, |operand|)[k]]
    ensures g.offsetDims[k] < |GatheredBounds(operand, start, sliceSizes, g)|
    ensures GatheredBounds(operand, start, sliceSizes, g)[g.offsetDims[k]] == DYNAMIC
  {
    ResultDimensions(operand, start.shape, sliceSizes, g);
    OffsetEntry(operand, start, sliceSizes, g, g.offsetDims[k]);
    DistinctIndex(g.offsetDims, k);
  }

  /** The k-th number that is left is preceded by k numbers that are left. */
  lemma {:induction false} BatchPlace(n: nat, xs: seq<int>, k: nat)
    requires k < |Excluding(n, xs)|
    ensures 0 <= Excluding(n, xs)[k] < n && Excluding(n, xs)[k] !in xs
    ensures |Excluding(Excluding(n, xs)[k], xs)| == k
  {
    ExcludingProperties(n, xs);
    var i := Excluding(n, xs)[k];
    assert i in Excluding(n, xs);
    ExcludingIndex(n, xs, i);
    DistinctIndex(Excluding(n, xs), k);
  }

  /** Nothing of a slice is dropped: when no slice size is 0, the kept ones, which the result has at the offset
      dimensions, multiply to the volume of the slice. */
  lemma {:induction false} SliceVolumeKept(operand: seq<int>, start: TensorType, sliceSizes: seq<int>, g: GatherDims)
    requires start.WellFormed() && Inferred(operand, start, sliceSizes, g).Some?
    requires forall d :: 0 <= d < |sliceSizes| ==> sliceSizes[d] >= 1
    ensures InRange(g.offsetDims, |Inferred(operand, start, sliceSizes, g).value.shape|)
    ensures Product(Pick(Inferred(operand, start, sliceSizes, g).value.shape, g.offsetDims)) == Product(sliceSizes)
  {
    ResultDimensions(operand, start.shape, sliceSizes, g);
    var shape, kept := GatheredShape(operand, start.shape, sliceSizes, g), WindowDims(g, |operand|);
    forall k | 0 <= k < |kept| ensures Pick(shape, g.offsetDims)[k] == Pick(sliceSizes, kept)[k] {
      KeptEntry(operand, start, sliceSizes, g, k);
    }
    assert Pick(shape, g.offsetDims) == Pick(sliceSizes, kept);
    KeptVolume(sliceSizes, g.collapsedSliceDims, g.operandBatchingDims);
  }

  lemma {:induction false} KeptVolume(sizes: seq<int>, xs: seq<int>, ys: seq<int>)
    requires Distinct(xs + ys) && InRange(xs, |sizes|) && InRange(ys, |sizes|)
    requires (forall k :: 0 <= k < |xs| ==> sizes[xs[k]] == 1) && (forall k :: 0 <= k < |ys| ==> sizes[ys[k]] == 1)
    ensures InRange(Excluding(|sizes|, xs + ys), |sizes|) && Product(Pick(sizes, Excluding(|sizes|, xs + ys))) == Product(sizes)
  {
    ExcludingProperties(|sizes|, xs + ys);
    DotGeneral.OperandVolume(sizes, xs, ys);
    OnesMultiply(Pick(sizes, xs));
    OnesMultiply(Pick(sizes, ys));
  }

  lemma {:induction false} OnesMultiply(s: seq<int>)
    requires forall k :: 0 <= k < |s| ==> s[k] == 1
    ensures Product(s) == 1
  {
    if s != [] { OnesMultiply(s[1..]); }
  }
}
