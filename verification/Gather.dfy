/** Gather: dimension-number checks, and the result shape and bounds. */
module Gather {
  import opened Sequences
  import opened Types

  datatype GatherDims = GatherDims(
    offsetDims: seq<int>, collapsedSliceDims: seq<int>, operandBatchingDims: seq<int>,
    startIndicesBatchingDims: seq<int>, startIndexMap: seq<int>, indexVectorDim: int)

  /** Rank of the start indices, counting the implicit trailing dimension of size 1. */
  function ExpandedRank(startShape: seq<int>, indexVectorDim: int): nat {
    if indexVectorDim == |startShape| then |startShape| + 1 else |startShape|
  }

  function ResultRank(startShape: seq<int>, g: GatherDims): int {
    |g.offsetDims| + ExpandedRank(startShape, g.indexVectorDim) - 1
  }

  function IndexVectorSize(startShape: seq<int>, indexVectorDim: int): int
    requires 0 <= indexVectorDim <= |startShape|
  {
    if indexVectorDim == |startShape| then 1 else startShape[indexVectorDim]
  }

  /** The constraints on the dimension numbers. */
  predicate DimensionsOk(operand: seq<int>, startShape: seq<int>, sliceCount: nat, g: GatherDims) {
    && |operand| == |g.offsetDims| + |g.collapsedSliceDims| + |g.operandBatchingDims|
    && 0 <= g.indexVectorDim <= |startShape|
    && (var size := IndexVectorSize(startShape, g.indexVectorDim); IsDynamic(size) || size == |g.startIndexMap|)
    && Sorted(g.offsetDims) && Distinct(g.offsetDims)
    && Distinct(g.collapsedSliceDims + g.operandBatchingDims)
    && Sorted(g.collapsedSliceDims) && InRange(g.collapsedSliceDims, |operand|)
    && Sorted(g.operandBatchingDims) && InRange(g.operandBatchingDims, |operand|)
    && Distinct(g.startIndicesBatchingDims) && InRange(g.startIndicesBatchingDims, |startShape|)
    && g.indexVectorDim !in g.startIndicesBatchingDims
    && |g.operandBatchingDims| == |g.startIndicesBatchingDims|
    && PairsCompatible(operand, g.operandBatchingDims, startShape, g.startIndicesBatchingDims)
    && Distinct(g.startIndexMap + g.operandBatchingDims)
    && InRange(g.startIndexMap, |operand|)
    && sliceCount == |operand|
  }

  /** The constraints on the slice sizes. */
  predicate SlicesOk(operand: seq<int>, sliceSizes: seq<int>, g: GatherDims)
    requires |sliceSizes| == |operand|
    requires InRange(g.collapsedSliceDims, |operand|) && InRange(g.operandBatchingDims, |operand|)
  {
    && (forall k :: 0 <= k < |g.collapsedSliceDims| ==> sliceSizes[g.collapsedSliceDims[k]] <= 1)
    && (forall k :: 0 <= k < |g.operandBatchingDims| ==> sliceSizes[g.operandBatchingDims[k]] <= 1)
    && (forall d :: 0 <= d < |operand| ==> 0 <= sliceSizes[d] && (IsDynamic(operand[d]) || sliceSizes[d] <= operand[d]))
  }

  predicate Accepts(operand: seq<int>, startShape: seq<int>, sliceSizes: seq<int>, g: GatherDims) {
    && DimensionsOk(operand, startShape, |sliceSizes|, g)
    && SlicesOk(operand, sliceSizes, g)
    && InRange(g.offsetDims, ResultRank(startShape, g))
  }

  // ----- the meaning of the result shape

  /** The dimensions that neither collapse nor batch, in operand order. */
  function WindowDims(g: GatherDims, rank: nat): seq<int> {
    Excluding(rank, g.collapsedSliceDims + g.operandBatchingDims)
  }

  /** All dimensions but the index vector dimension, in order. */
  function WithoutDim(s: seq<int>, dim: int): seq<int> {
    if 0 <= dim < |s| then s[..dim] + s[dim + 1..] else s
  }

  /** Window sizes at the offset positions and batch sizes, in order, everywhere else. */
  function Interleave(rank: nat, offsetDims: seq<int>, window: seq<int>, batch: seq<int>): (r: seq<int>)
    requires |window| == |offsetDims| && |batch| == |Excluding(rank, offsetDims)|
    ensures |r| == rank
  {
    seq(rank, i requires 0 <= i < rank => InterleaveAt(i, rank, offsetDims, window, batch))
  }

  function InterleaveAt(i: nat, rank: nat, offsetDims: seq<int>, window: seq<int>, batch: seq<int>): int
    requires |window| == |offsetDims| && |batch| == |Excluding(rank, offsetDims)| && i < rank
  {
    if i in offsetDims then window[IndexOf(offsetDims, i)]
    else
      ExcludingProperties(rank, offsetDims);
      batch[IndexOf(Excluding(rank, offsetDims), i)]
  }

  lemma {:induction false} ResultDimensions(operand: seq<int>, startShape: seq<int>, sliceSizes: seq<int>, g: GatherDims)
    requires Accepts(operand, startShape, sliceSizes, g)
    ensures ResultRank(startShape, g) >= 0
    ensures InRange(WindowDims(g, |operand|), |sliceSizes|) && |WindowDims(g, |operand|)| == |g.offsetDims|
    ensures |WithoutDim(startShape, g.indexVectorDim)| == |Excluding(ResultRank(startShape, g), g.offsetDims)|
  {
    var gone := g.collapsedSliceDims + g.operandBatchingDims;
    ExcludingPermutation(|operand|, gone);
    ExcludingProperties(|operand|, gone);
    ExcludingPermutation(ResultRank(startShape, g), g.offsetDims);
  }

  /** The result shape: slice sizes without collapsed and batching dimensions, start indices
      without the index vector dimension. */
  function GatheredShape(operand: seq<int>, startShape: seq<int>, sliceSizes: seq<int>, g: GatherDims): seq<int>
    requires Accepts(operand, startShape, sliceSizes, g)
  {
    ResultDimensions(operand, startShape, sliceSizes, g);
    Interleave(ResultRank(startShape, g), g.offsetDims, Pick(sliceSizes, WindowDims(g, |operand|)),
               WithoutDim(startShape, g.indexVectorDim))
  }

  /** Bounds follow the start indices and are unknown at the offset positions. */
  function GatheredBounds(operand: seq<int>, start: TensorType, sliceSizes: seq<int>, g: GatherDims): seq<int>
    requires Accepts(operand, start.shape, sliceSizes, g) && (start.bounds == [] || |start.bounds| == |start.shape|)
  {
    ResultDimensions(operand, start.shape, sliceSizes, g);
    var rank := ResultRank(start.shape, g);
    if start.bounds == [] then seq(rank, _ => DYNAMIC)
    else Interleave(rank, g.offsetDims, seq(|g.offsetDims|, _ => DYNAMIC), WithoutDim(start.bounds, g.indexVectorDim))
  }

  // ----- the checks, as code

  method VerifyGather(operand: seq<int>, startShape: seq<int>, sliceCount: nat, g: GatherDims) returns (ok: bool)
    ensures ok == DimensionsOk(operand, startShape, sliceCount, g)
  {
    var impliedOperandRank := |g.offsetDims| + |g.collapsedSliceDims| + |g.operandBatchingDims|;
    if |operand| != impliedOperandRank { return false; }
    if g.indexVectorDim < 0 || g.indexVectorDim >= |startShape| + 1 { return false; }
    var impliedTrailingDim := g.indexVectorDim == |startShape|;
    if impliedTrailingDim || IsStatic(startShape[g.indexVectorDim]) {
      var effectiveDimSize := if impliedTrailingDim then 1 else startShape[g.indexVectorDim];
      if effectiveDimSize != |g.startIndexMap| { return false; }
    }
    var c := IsSorted(g.offsetDims);
    if !c { return false; }
    c := IsUnique(g.offsetDims);
    if !c { return false; }
    c := CheckDimsDistinct(g.collapsedSliceDims, g.operandBatchingDims);
    if !c { return false; }
    c := IsSorted(g.collapsedSliceDims);
    if !c { return false; }
    c := CheckDimsInBounds(g.collapsedSliceDims, |operand|);
    if !c { return false; }
    c := IsSorted(g.operandBatchingDims);
    if !c { return false; }
    c := CheckDimsInBounds(g.operandBatchingDims, |operand|);
    if !c { return false; }
    c := IsUnique(g.startIndicesBatchingDims);
    if !c { return false; }
    c := CheckDimsInBounds(g.startIndicesBatchingDims, |startShape|);
    if !c { return false; }
    if g.indexVectorDim in g.startIndicesBatchingDims { return false; }
    if |g.operandBatchingDims| != |g.startIndicesBatchingDims| { return false; }
    c := CheckPairsCompatible(operand, g.operandBatchingDims, startShape, g.startIndicesBatchingDims);
    if !c { return false; }
    c := CheckDimsDistinct(g.startIndexMap, g.operandBatchingDims);
    if !c { return false; }
    c := CheckDimsInBounds(g.startIndexMap, |operand|);
    if !c { return false; }
    return sliceCount == |operand|;
  }

  method CheckSliceSizesOne(sliceSizes: seq<int>, dims: seq<int>) returns (ok: bool)
    requires InRange(dims, |sliceSizes|)
    ensures ok <==> forall k :: 0 <= k < |dims| ==> sliceSizes[dims[k]] <= 1
  {
    for i := 0 to |dims|
      invariant forall k :: 0 <= k < i ==> sliceSizes[dims[k]] <= 1
    {
      if sliceSizes[dims[i]] > 1 { return false; }
    }
    return true;
  }

  // ----- prefix plus offset

  function MaxOr(xs: seq<int>, least: int): (m: int)
    ensures m >= least && (m == least || m in xs)
    ensures forall x :: x in xs ==> x <= m
  {
    if xs == [] then least
    else
      var rest := MaxOr(xs[1..], least);
      assert xs == [xs[0]] + xs[1..];
      if xs[0] > rest then xs[0] else rest
  }

  /** Past the largest excluded index, filtering only shifts: entry `index` is `index` plus the
      number of excluded indices. */
  lemma {:induction false} PrefixPlusOffset(n: nat, xs: seq<int>, top: nat)
    requires Distinct(xs) && InRange(xs, top) && top <= n
    ensures |Excluding(top, xs)| == top - |xs|
    ensures Excluding(n, xs) == Excluding(top, xs) + seq(n - top, i => i + top)
    decreases n
  {
    ExcludingPermutation(top, xs);
    if n > top {
      PrefixPlusOffset(n - 1, xs, top);
      assert n - 1 !in xs;
      assert seq(n - top, i => i + top) == seq(n - 1 - top, i => i + top) + [n - 1];
    } else {
      assert seq(n - top, i => i + top) == [];
    }
  }

  method AdjustedSlicePrefix(sliceSizes: seq<int>, gone: seq<int>) returns (prefix: seq<int>)
    requires Distinct(gone) && InRange(gone, |sliceSizes|)
    ensures InRange(Excluding(MaxOr(gone, -1) + 1, gone), |sliceSizes|)
    ensures prefix == Pick(sliceSizes, Excluding(MaxOr(gone, -1) + 1, gone))
  {
    var maxOperandDim := MaxOr(gone, -1);
    prefix := [];
    for dimIndex := 0 to maxOperandDim + 1
      invariant maxOperandDim < |sliceSizes|
      invariant InRange(Excluding(dimIndex, gone), |sliceSizes|)
      invariant prefix == Pick(sliceSizes, Excluding(dimIndex, gone))
    {
      if dimIndex in gone { continue; }
      prefix := prefix + [sliceSizes[dimIndex]];
    }
  }

  /** The lookup of an adjusted slice dimension: from the prefix, or shifted past it. */
  function AdjustedSliceDim(prefix: seq<int>, sliceSizes: seq<int>, gone: seq<int>, index: nat): int
    requires index < |prefix| || index + |gone| < |sliceSizes|
  {
    if index < |prefix| then prefix[index] else sliceSizes[index + |gone|]
  }

  /** The shortcut equals the slice sizes with the collapsed and batching dimensions filtered out. */
  lemma {:induction false} AdjustedSliceDimIsFiltered(sliceSizes: seq<int>, gone: seq<int>, index: nat)
    requires Distinct(gone) && InRange(gone, |sliceSizes|) && index < |Excluding(|sliceSizes|, gone)|
    ensures InRange(Excluding(MaxOr(gone, -1) + 1, gone), |sliceSizes|) && InRange(Excluding(|sliceSizes|, gone), |sliceSizes|)
    ensures var prefix := Pick(sliceSizes, Excluding(MaxOr(gone, -1) + 1, gone));
            (index >= |prefix| ==> index + |gone| < |sliceSizes|)
            && AdjustedSliceDim(prefix, sliceSizes, gone, index) == Pick(sliceSizes, Excluding(|sliceSizes|, gone))[index]
  {
    TopCovers(gone);
    FilteredPast(sliceSizes, gone, MaxOr(gone, -1) + 1, index);
  }

  lemma {:induction false} FilteredPast(sliceSizes: seq<int>, gone: seq<int>, top: nat, index: nat)
    requires Distinct(gone) && InRange(gone, top) && top <= |sliceSizes| && index < |Excluding(|sliceSizes|, gone)|
    ensures InRange(Excluding(top, gone), |sliceSizes|) && InRange(Excluding(|sliceSizes|, gone), |sliceSizes|)
    ensures index >= |Excluding(top, gone)| ==> index + |gone| < |sliceSizes|
    ensures AdjustedSliceDim(Pick(sliceSizes, Excluding(top, gone)), sliceSizes, gone, index)
            == Pick(sliceSizes, Excluding(|sliceSizes|, gone))[index]
  {
    ExcludingProperties(|sliceSizes|, gone);
    ExcludingProperties(top, gone);
    FilteredIndex(|sliceSizes|, gone, top, index);
    FilteredEntry(sliceSizes, gone, Excluding(top, gone), Excluding(|sliceSizes|, gone), index);
  }

  lemma FilteredEntry(sliceSizes: seq<int>, gone: seq<int>, p: seq<int>, all: seq<int>, index: nat)
    requires InRange(p, |sliceSizes|) && InRange(all, |sliceSizes|) && index < |all|
    requires all[index] == if index < |p| then p[index] else index + |gone|
    ensures index >= |p| ==> index + |gone| < |sliceSizes|
    ensures AdjustedSliceDim(Pick(sliceSizes, p), sliceSizes, gone, index) == Pick(sliceSizes, all)[index]
  {
  }

  lemma TopCovers(gone: seq<int>)
    requires forall k :: 0 <= k < |gone| ==> gone[k] >= 0
    ensures InRange(gone, MaxOr(gone, -1) + 1)
  {
    assert forall k :: 0 <= k < |gone| ==> gone[k] in gone;
  }

  lemma {:induction false} FilteredIndex(n: nat, xs: seq<int>, top: nat, index: nat)
    requires Distinct(xs) && InRange(xs, top) && top <= n && index < |Excluding(n, xs)|
    ensures index < |Excluding(top, xs)| ==> Excluding(n, xs)[index] == Excluding(top, xs)[index]
    ensures index >= |Excluding(top, xs)| ==> Excluding(n, xs)[index] == index + |xs|
  {
    PrefixPlusOffset(n, xs, top);
  }

  /** Skipping over the index vector dimension visits every other start_indices dimension exactly
      once, in order. */
  function SkipOne(k: int, dim: int): int { if k >= dim then k + 1 else k }

  lemma {:induction false} SkipOneVisitsAll(rank: nat, dim: nat)
    requires dim <= rank
    ensures Excluding(rank, [dim]) == seq(if dim < rank then rank - 1 else rank, k => SkipOne(k, dim))
  {
    if dim < rank {
      SkipOneVisitsAll(rank - 1, dim);
    } else {
      NothingExcluded(rank, dim);
    }
  }

  lemma {:induction false} NothingExcluded(n: nat, dim: nat)
    requires n <= dim
    ensures Excluding(n, [dim]) == seq(n, k => SkipOne(k, dim))
  {
    if n > 0 { NothingExcluded(n - 1, dim); }
  }

  lemma WithoutDimEntries(s: seq<int>, dim: nat, k: nat)
    requires dim <= |s| && k < |WithoutDim(s, dim)|
    ensures 0 <= SkipOne(k, dim) < |s| && WithoutDim(s, dim)[k] == s[SkipOne(k, dim)]
  {
  }

  // ----- the shape and bounds loops

  method CollectBatchDims(resultRank: nat, offsetDims: seq<int>) returns (batchDims: seq<int>)
    ensures batchDims == Excluding(resultRank, offsetDims)
  {
    batchDims := [];
    for dim := 0 to resultRank
      invariant batchDims == Excluding(dim, offsetDims)
    {
      if dim !in offsetDims { batchDims := batchDims + [dim]; }
    }
  }

  /** What the shape loop needs: enough slice sizes for the offset positions, enough start_indices
      dimensions for the batch positions. */
  ghost predicate Fits(resultRank: nat, startShape: seq<int>, sliceSizes: seq<int>, gone: seq<int>,
                       offsetDims: seq<int>, indexVectorDim: int)
  {
    && Distinct(gone) && InRange(gone, |sliceSizes|)
    && |offsetDims| == |Excluding(|sliceSizes|, gone)|
    && 0 <= indexVectorDim <= |startShape|
    && |WithoutDim(startShape, indexVectorDim)| == |Excluding(resultRank, offsetDims)|
  }

  function ShapeOf(resultRank: nat, startShape: seq<int>, sliceSizes: seq<int>, gone: seq<int>,
                   offsetDims: seq<int>, indexVectorDim: int): seq<int>
    requires Fits(resultRank, startShape, sliceSizes, gone, offsetDims, indexVectorDim)
  {
    ExcludingProperties(|sliceSizes|, gone);
    Interleave(resultRank, offsetDims, Pick(sliceSizes, Excluding(|sliceSizes|, gone)), WithoutDim(startShape, indexVectorDim))
  }

  method InferGatherShape(resultRank: nat, startShape: seq<int>, sliceSizes: seq<int>, offsetDims: seq<int>,
                          collapsedSliceDims: seq<int>, operandBatchingDims: seq<int>, indexVectorDim: int)
    returns (shape: seq<int>)
    requires Fits(resultRank, startShape, sliceSizes, collapsedSliceDims + operandBatchingDims, offsetDims, indexVectorDim)
    ensures shape == ShapeOf(resultRank, startShape, sliceSizes, collapsedSliceDims + operandBatchingDims, offsetDims, indexVectorDim)
  {
    var collapsedAndBatchDims := collapsedSliceDims + operandBatchingDims;
    ghost var spec := ShapeOf(resultRank, startShape, sliceSizes, collapsedAndBatchDims, offsetDims, indexVectorDim);
    var adjustedSliceSizePrefix := AdjustedSlicePrefix(sliceSizes, collapsedAndBatchDims);
    var batchDims := CollectBatchDims(resultRank, offsetDims);
    shape := [];
    for i := 0 to resultRank
      invariant shape == spec[..i]
    {
      var size := ResultDim(i, resultRank, startShape, sliceSizes, collapsedAndBatchDims, offsetDims, indexVectorDim,
                            adjustedSliceSizePrefix, batchDims);
      shape := shape + [size];
    }
  }

  /** One iteration of the shape loop. */
  method ResultDim(i: nat, resultRank: nat, startShape: seq<int>, sliceSizes: seq<int>, gone: seq<int>,
                   offsetDims: seq<int>, indexVectorDim: int, prefix: seq<int>, batchDims: seq<int>)
    returns (size: int)
    requires Fits(resultRank, startShape, sliceSizes, gone, offsetDims, indexVectorDim) && i < resultRank
    requires InRange(Excluding(MaxOr(gone, -1) + 1, gone), |sliceSizes|)
    requires prefix == Pick(sliceSizes, Excluding(MaxOr(gone, -1) + 1, gone))
    requires batchDims == Excluding(resultRank, offsetDims)
    ensures size == ShapeOf(resultRank, startShape, sliceSizes, gone, offsetDims, indexVectorDim)[i]
  {
    ShapeEntry(resultRank, startShape, sliceSizes, gone, offsetDims, indexVectorDim, i);
    if i in offsetDims {
      return AdjustedSliceDim(prefix, sliceSizes, gone, IndexOf(offsetDims, i));
    }
    var index := IndexOf(batchDims, i);
    if index >= indexVectorDim { index := index + 1; }
    return startShape[index];
  }

  /** Both lookups of the shape loop land on the entry the specification names. */
  lemma {:induction false} ShapeEntry(resultRank: nat, startShape: seq<int>, sliceSizes: seq<int>, gone: seq<int>,
                                      offsetDims: seq<int>, indexVectorDim: int, i: nat)
    requires Fits(resultRank, startShape, sliceSizes, gone, offsetDims, indexVectorDim) && i < resultRank
    ensures InRange(Excluding(MaxOr(gone, -1) + 1, gone), |sliceSizes|)
    ensures var entry := ShapeOf(resultRank, startShape, sliceSizes, gone, offsetDims, indexVectorDim)[i];
            var prefix := Pick(sliceSizes, Excluding(MaxOr(gone, -1) + 1, gone));
            if i in offsetDims then
              var index := IndexOf(offsetDims, i);
              (index >= |prefix| ==> index + |gone| < |sliceSizes|)
              && entry == AdjustedSliceDim(prefix, sliceSizes, gone, index)
            else
              i in Excluding(resultRank, offsetDims) &&
              var k := IndexOf(Excluding(resultRank, offsetDims), i);
              0 <= SkipOne(k, indexVectorDim) < |startShape| && entry == startShape[SkipOne(k, indexVectorDim)]
  {
    TopCovers(gone);
    ExcludingProperties(MaxOr(gone, -1) + 1, gone);
    if i in offsetDims {
      AdjustedSliceDimIsFiltered(sliceSizes, gone, IndexOf(offsetDims, i));
    } else {
      ExcludingProperties(resultRank, offsetDims);
      WithoutDimEntries(startShape, indexVectorDim, IndexOf(Excluding(resultRank, offsetDims), i));
    }
  }

  /** The separate loop over the result dimensions that propagates bounds. */
  method InferGatherBounds(resultRank: nat, startBounds: seq<int>, offsetDims: seq<int>, indexVectorDim: int)
    returns (inferredBounds: seq<int>)
    requires InRange(offsetDims, resultRank)
    requires startBounds != [] ==>
               0 <= indexVectorDim <= |startBounds| && |WithoutDim(startBounds, indexVectorDim)| == |Excluding(resultRank, offsetDims)|
    ensures startBounds == [] ==> inferredBounds == seq(resultRank, _ => DYNAMIC)
    ensures startBounds != [] ==>
              inferredBounds == Interleave(resultRank, offsetDims, seq(|offsetDims|, _ => DYNAMIC), WithoutDim(startBounds, indexVectorDim))
  {
    inferredBounds := seq(resultRank, _ => DYNAMIC);
    if startBounds != [] {
      var isOffsetDim := set d | d in offsetDims;
      ghost var spec := Interleave(resultRank, offsetDims, seq(|offsetDims|, _ => DYNAMIC), WithoutDim(startBounds, indexVectorDim));
      var startIndicesDim := 0;
      for resultDim := 0 to resultRank
        invariant |inferredBounds| == resultRank
        invariant forall d :: 0 <= d < resultDim ==> inferredBounds[d] == spec[d]
        invariant forall d :: resultDim <= d < resultRank ==> inferredBounds[d] == DYNAMIC
        invariant startIndicesDim == SkippedCount(|Excluding(resultDim, offsetDims)|, indexVectorDim)
      {
        BoundsEntry(resultRank, startBounds, offsetDims, indexVectorDim, resultDim, spec);
        if resultDim in isOffsetDim { continue; }
        if startIndicesDim == indexVectorDim { startIndicesDim := startIndicesDim + 1; }
        inferredBounds := inferredBounds[resultDim := startBounds[startIndicesDim]];
        startIndicesDim := startIndicesDim + 1;
      }
      assert inferredBounds == spec;
    }
  }

  /** The value of the skipping counter after `k` uses. */
  function SkippedCount(k: int, dim: int): int { if k <= dim then k else k + 1 }

  lemma {:induction false} ExcludingIndex(n: nat, xs: seq<int>, i: nat)
    requires i < n && i !in xs
    ensures i in Excluding(n, xs) && IndexOf(Excluding(n, xs), i) == |Excluding(i, xs)| < |Excluding(n, xs)|
  {
    ExcludingProperties(n, xs);
    ExcludingPrefix(n, xs, i);
    ExcludingPrefix(n, xs, i + 1);
    var all, p := Excluding(n, xs), |Excluding(i, xs)|;
    assert Excluding(i + 1, xs)[p] == i;
    assert all[p] == i && all[IndexOf(all, i)] == i;
  }

  lemma {:induction false} ExcludingPrefix(n: nat, xs: seq<int>, i: nat)
    requires i <= n
    ensures |Excluding(i, xs)| <= |Excluding(n, xs)| && Excluding(i, xs) == Excluding(n, xs)[..|Excluding(i, xs)|]
    decreases n
  {
    if i < n { ExcludingPrefix(n - 1, xs, i); }
  }

  /** What the bounds loop is to write for result dimension i. */
  lemma {:induction false} BoundsEntry(resultRank: nat, startBounds: seq<int>, offsetDims: seq<int>, indexVectorDim: int, i: nat,
                                       spec: seq<int>)
    requires 0 <= indexVectorDim <= |startBounds| && i < resultRank
    requires |WithoutDim(startBounds, indexVectorDim)| == |Excluding(resultRank, offsetDims)|
    requires spec == Interleave(resultRank, offsetDims, seq(|offsetDims|, _ => DYNAMIC), WithoutDim(startBounds, indexVectorDim))
    ensures i in offsetDims ==> spec[i] == DYNAMIC
    ensures i !in offsetDims ==>
              var k := SkipOne(|Excluding(i, offsetDims)|, indexVectorDim);
              0 <= k < |startBounds| && spec[i] == startBounds[k]
  {
    if i !in offsetDims {
      ExcludingIndex(resultRank, offsetDims, i);
      WithoutDimEntries(startBounds, indexVectorDim, |Excluding(i, offsetDims)|);
    }
  }

  /** The whole inference. */
  function Inferred(operand: seq<int>, start: TensorType, sliceSizes: seq<int>, g: GatherDims): Option<TensorType>
    requires start.WellFormed()
  {
    if !Accepts(operand, start.shape, sliceSizes, g) then None
    else
      GatheredBoundsKnown(operand, start, sliceSizes, g);
      Some(TensorType(GatheredShape(operand, start.shape, sliceSizes, g),
                      BoundsToEncoding(start.bounds, GatheredBounds(operand, start, sliceSizes, g))))
  }

  lemma GatheredBoundsKnown(operand: seq<int>, start: TensorType, sliceSizes: seq<int>, g: GatherDims)
    requires start.WellFormed() && Accepts(operand, start.shape, sliceSizes, g)
    ensures start.bounds != [] || AllDynamic(GatheredBounds(operand, start, sliceSizes, g))
  {
  }

  method InferGatherOp(operand: seq<int>, start: TensorType, sliceSizes: seq<int>, g: GatherDims)
    returns (r: Option<TensorType>)
    requires start.WellFormed()
    ensures r == Inferred(operand, start, sliceSizes, g)
  {
    var c := VerifyGather(operand, start.shape, |sliceSizes|, g);
    if !c { return None; }
    c := CheckSliceSizesOne(sliceSizes, g.collapsedSliceDims);
    if !c { return None; }
    c := CheckSliceSizesOne(sliceSizes, g.operandBatchingDims);
    if !c { return None; }
    for index := 0 to |sliceSizes|
      invariant forall d :: 0 <= d < index ==> 0 <= sliceSizes[d] && (IsDynamic(operand[d]) || sliceSizes[d] <= operand[d])
    {
      if sliceSizes[index] < 0 || (IsStatic(operand[index]) && sliceSizes[index] > operand[index]) { return None; }
    }
    r := InferGatherReturnTypeComponents(operand, start, sliceSizes, g);
  }

  lemma AcceptedFits(operand: seq<int>, start: TensorType, sliceSizes: seq<int>, g: GatherDims)
    requires start.WellFormed() && Accepts(operand, start.shape, sliceSizes, g)
    ensures var rank, gone := ResultRank(start.shape, g), g.collapsedSliceDims + g.operandBatchingDims;
            && rank >= 0
            && Fits(rank, start.shape, sliceSizes, gone, g.offsetDims, g.indexVectorDim)
            && ShapeOf(rank, start.shape, sliceSizes, gone, g.offsetDims, g.indexVectorDim)
               == GatheredShape(operand, start.shape, sliceSizes, g)
            && (start.bounds != [] ==> |WithoutDim(start.bounds, g.indexVectorDim)| == |Excluding(rank, g.offsetDims)|)
  {
    ResultDimensions(operand, start.shape, sliceSizes, g);
  }

  method InferGatherReturnTypeComponents(operand: seq<int>, start: TensorType, sliceSizes: seq<int>, g: GatherDims)
    returns (r: Option<TensorType>)
    requires start.WellFormed() && DimensionsOk(operand, start.shape, |sliceSizes|, g) && SlicesOk(operand, sliceSizes, g)
    ensures r == Inferred(operand, start, sliceSizes, g)
  {
    var startIndicesRank := |start.shape|;
    if g.indexVectorDim == startIndicesRank { startIndicesRank := startIndicesRank + 1; }
    var resultRank := |g.offsetDims| + startIndicesRank - 1;
    var c := CheckDimsInBounds(g.offsetDims, resultRank);
    if !c { return None; }
    AcceptedFits(operand, start, sliceSizes, g);
    var shape := InferGatherShape(resultRank, start.shape, sliceSizes, g.offsetDims, g.collapsedSliceDims,
                                  g.operandBatchingDims, g.indexVectorDim);
    var inferredBounds := InferGatherBounds(resultRank, start.bounds, g.offsetDims, g.indexVectorDim);
    GatheredBoundsKnown(operand, start, sliceSizes, g);
    return Some(TensorType(shape, BoundsToEncoding(start.bounds, inferredBounds)));
  }

  /** Both loops read the same start_indices dimension for every batch dimension of the result, and
      the result is well-formed exactly when it has dimensions or the start indices carry no bounds. */
  lemma {:induction false} BoundsFollowShape(operand: seq<int>, start: TensorType, sliceSizes: seq<int>, g: GatherDims)
    requires start.WellFormed() && Accepts(operand, start.shape, sliceSizes, g)
    ensures var rank := ResultRank(start.shape, g);
            forall i :: 0 <= i < rank && i !in g.offsetDims ==>
              var d := SkipOne(|Excluding(i, g.offsetDims)|, g.indexVectorDim);
              0 <= d < |start.shape|
              && GatheredShape(operand, start.shape, sliceSizes, g)[i] == start.shape[d]
              && GatheredBounds(operand, start, sliceSizes, g)[i] == start.Bound(d)
    ensures Inferred(operand, start, sliceSizes, g).value.WellFormed() <==> ResultRank(start.shape, g) >= 1 || start.bounds == []
    ensures ResultRank(start.shape, g) == 0 ==> Inferred(operand, start, sliceSizes, g).value == TensorType([], start.bounds)
  {
    ResultDimensions(operand, start.shape, sliceSizes, g);
    var rank := ResultRank(start.shape, g);
    var shape, bounds := GatheredShape(operand, start.shape, sliceSizes, g), GatheredBounds(operand, start, sliceSizes, g);
    forall i | 0 <= i < rank && i !in g.offsetDims
      ensures var d := SkipOne(|Excluding(i, g.offsetDims)|, g.indexVectorDim);
              0 <= d < |start.shape| && shape[i] == start.shape[d] && bounds[i] == start.Bound(d)
    {
      BatchEntry(operand, start, sliceSizes, g, i);
    }
    forall i | 0 <= i < rank ensures ValidSize(shape[i]) && ValidSize(bounds[i]) && (IsDynamic(bounds[i]) || IsDynamic(shape[i])) {
      if i in g.offsetDims { OffsetEntry(operand, start, sliceSizes, g, i); }
    }
    GatheredBoundsKnown(operand, start, sliceSizes, g);
    EncodingWellFormed(start.bounds, shape, bounds);
  }

  const VECTOR_OF_FOUR := TensorType([DYNAMIC], [4])
  const COLLAPSE_ALL := GatherDims([], [0], [], [], [0], 0)

  /** A single index vector of unknown length that collapses the whole operand: the scalar result carries
      the bound of the start indices. */
  lemma ScalarGatherKeepsBounds()
    ensures VECTOR_OF_FOUR.WellFormed() && Inferred([5], VECTOR_OF_FOUR, [1], COLLAPSE_ALL) == Some(TensorType([], [4]))
    ensures !Inferred([5], VECTOR_OF_FOUR, [1], COLLAPSE_ALL).value.WellFormed()
  {
    CollapseAllAccepted();
    GatheredBoundsKnown([5], VECTOR_OF_FOUR, [1], COLLAPSE_ALL);
    assert GatheredShape([5], VECTOR_OF_FOUR.shape, [1], COLLAPSE_ALL) == [];
    assert GatheredBounds([5], VECTOR_OF_FOUR, [1], COLLAPSE_ALL) == [];
  }

  lemma CollapseAllAccepted()
    ensures Accepts([5], VECTOR_OF_FOUR.shape, [1], COLLAPSE_ALL) && ResultRank(VECTOR_OF_FOUR.shape, COLLAPSE_ALL) == 0
  {
    assert COLLAPSE_ALL.collapsedSliceDims + COLLAPSE_ALL.operandBatchingDims == [0];
    assert COLLAPSE_ALL.startIndexMap + COLLAPSE_ALL.operandBatchingDims == [0];
    assert DimensionsOk([5], VECTOR_OF_FOUR.shape, 1, COLLAPSE_ALL);
    assert SlicesOk([5], [1], COLLAPSE_ALL);
  }

  lemma {:induction false} BatchEntry(operand: seq<int>, start: TensorType, sliceSizes: seq<int>, g: GatherDims, i: nat)
    requires start.WellFormed() && Accepts(operand, start.shape, sliceSizes, g)
    requires i < ResultRank(start.shape, g) && i !in g.offsetDims
    ensures var d := SkipOne(|Excluding(i, g.offsetDims)|, g.indexVectorDim);
            0 <= d < |start.shape|
            && GatheredShape(operand, start.shape, sliceSizes, g)[i] == start.shape[d]
            && GatheredBounds(operand, start, sliceSizes, g)[i] == start.Bound(d)
  {
    ResultDimensions(operand, start.shape, sliceSizes, g);
    ExcludingIndex(ResultRank(start.shape, g), g.offsetDims, i);
    WithoutDimEntries(start.shape, g.indexVectorDim, |Excluding(i, g.offsetDims)|);
    if start.bounds != [] {
      WithoutDimEntries(start.bounds, g.indexVectorDim, |Excluding(i, g.offsetDims)|);
    }
  }

  lemma {:induction false} OffsetEntry(operand: seq<int>, start: TensorType, sliceSizes: seq<int>, g: GatherDims, i: nat)
    requires start.WellFormed() && Accepts(operand, start.shape, sliceSizes, g)
    requires i < ResultRank(start.shape, g) && i in g.offsetDims
    ensures var k := IndexOf(g.offsetDims, i);
            k < |WindowDims(g, |operand|)| && 0 <= WindowDims(g, |operand|)[k] < |operand|
            && GatheredShape(operand, start.shape, sliceSizes, g)[i] == sliceSizes[WindowDims(g, |operand|)[k]] >= 0
    ensures GatheredBounds(operand, start, sliceSizes, g)[i] == DYNAMIC
  {
    ResultDimensions(operand, start.shape, sliceSizes, g);
  }
}
