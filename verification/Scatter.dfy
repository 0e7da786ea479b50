/** Scatter: dimension-number checks and the shape checks of the updates. */
module Scatter {
  import opened Sequences
  import opened Types
  import opened Gather
  import opened ReducerMatching

  datatype ScatterDims = ScatterDims(
    updateWindowDims: seq<int>, insertedWindowDims: seq<int>, inputBatchingDims: seq<int>,
    scatterIndicesBatchingDims: seq<int>, scatterDimsToOperandDims: seq<int>, indexVectorDim: int)

  /** The scatter indices with the implicit trailing dimension of size 1 made explicit. */
  function Expanded(indices: seq<int>, indexVectorDim: int): seq<int> {
    if |indices| == indexVectorDim then indices + [1] else indices
  }

  predicate DimensionNumbersOk(operand: seq<int>, expanded: seq<int>, updates: seq<int>, s: ScatterDims)
    requires 0 <= s.indexVectorDim < |expanded|
  {
    && |operand| == |s.updateWindowDims| + |s.insertedWindowDims| + |s.inputBatchingDims|
    && Sorted(s.updateWindowDims) && Distinct(s.updateWindowDims)
    && InRange(s.updateWindowDims, |updates|)
    && Distinct(s.insertedWindowDims + s.inputBatchingDims)
    && Sorted(s.insertedWindowDims) && InRange(s.insertedWindowDims, |operand|)
    && Sorted(s.inputBatchingDims) && InRange(s.inputBatchingDims, |operand|)
    && Distinct(s.scatterIndicesBatchingDims) && InRange(s.scatterIndicesBatchingDims, |expanded|)
    && s.indexVectorDim !in s.scatterIndicesBatchingDims
    && |s.inputBatchingDims| == |s.scatterIndicesBatchingDims|
    && PairsCompatible(operand, s.inputBatchingDims, expanded, s.scatterIndicesBatchingDims)
    && (IsDynamic(expanded[s.indexVectorDim]) || expanded[s.indexVectorDim] == |s.scatterDimsToOperandDims|)
    && Distinct(s.scatterDimsToOperandDims + s.inputBatchingDims)
    && InRange(s.scatterDimsToOperandDims, |operand|)
  }

  /** The operand dimensions a window of updates ranges over. */
  function ScatterWindow(operand: seq<int>, s: ScatterDims): seq<int> {
    Excluding(|operand|, s.insertedWindowDims + s.inputBatchingDims)
  }

  /** Every static window size of the updates is at most the operand's. */
  predicate WindowsFit(updates: seq<int>, updateWindowDims: seq<int>, sizes: seq<int>)
    requires InRange(updateWindowDims, |updates|) && |sizes| == |updateWindowDims|
  {
    forall k :: 0 <= k < |sizes| ==>
      IsDynamic(updates[updateWindowDims[k]]) || IsDynamic(sizes[k]) || updates[updateWindowDims[k]] <= sizes[k]
  }

  /** Update dimension `i`, when it is not a window dimension, matches the scatter index dimension of
      the same rank among the non-window ones. */
  predicate MatchesAt(updates: seq<int>, updateWindowDims: seq<int>, scattered: seq<int>, i: nat)
    requires i < |updates|
  {
    i !in updateWindowDims ==>
      |Excluding(i, updateWindowDims)| < |scattered| && CompatibleDims(updates[i], scattered[|Excluding(i, updateWindowDims)|])
  }

  /** The other update dimensions match, in order, the scatter indices without their index vector. */
  predicate ScatterDimsMatch(updates: seq<int>, updateWindowDims: seq<int>, scattered: seq<int>) {
    forall i :: 0 <= i < |updates| ==> MatchesAt(updates, updateWindowDims, scattered, i)
  }

  lemma {:induction false} ScatterSizes(operand: seq<int>, expanded: seq<int>, updates: seq<int>, s: ScatterDims)
    requires 0 <= s.indexVectorDim < |expanded| && |updates| == |expanded| - 1 + |s.updateWindowDims|
    requires DimensionNumbersOk(operand, expanded, updates, s)
    ensures InRange(ScatterWindow(operand, s), |operand|) && |ScatterWindow(operand, s)| == |s.updateWindowDims|
    ensures |WithoutDim(expanded, s.indexVectorDim)| == |Excluding(|updates|, s.updateWindowDims)|
  {
    ExcludingPermutation(|operand|, s.insertedWindowDims + s.inputBatchingDims);
    ExcludingProperties(|operand|, s.insertedWindowDims + s.inputBatchingDims);
    ExcludingPermutation(|updates|, s.updateWindowDims);
  }

  predicate UpdatesOk(operand: seq<int>, expanded: seq<int>, updates: seq<int>, s: ScatterDims)
    requires 0 <= s.indexVectorDim < |expanded| && |updates| == |expanded| - 1 + |s.updateWindowDims|
    requires DimensionNumbersOk(operand, expanded, updates, s)
  {
    ScatterSizes(operand, expanded, updates, s);
    && WindowsFit(updates, s.updateWindowDims, Pick(operand, ScatterWindow(operand, s)))
    && ScatterDimsMatch(updates, s.updateWindowDims, WithoutDim(expanded, s.indexVectorDim))
  }

  /** The checks on one operand and its updates. */
  predicate PairOk(operand: seq<int>, indices: seq<int>, updates: seq<int>, s: ScatterDims) {
    && 0 <= s.indexVectorDim <= |indices|
    && (var expanded := Expanded(indices, s.indexVectorDim);
        && |updates| == |expanded| - 1 + |s.updateWindowDims|
        && DimensionNumbersOk(operand, expanded, updates, s)
        && UpdatesOk(operand, expanded, updates, s))
  }

  /** The conditions of scatter on shapes: every pair of operand and updates, and a region over scalars. */
  ghost predicate AllOk(operands: seq<seq<int>>, indices: seq<int>, updates: seq<seq<int>>, s: ScatterDims, region: Region)
    requires |operands| == |updates|
  {
    && 0 <= s.indexVectorDim <= |indices|
    && RegionOk(region, Scalars(|operands|), [])
    && forall i :: 0 <= i < |operands| ==>
         CompatibleShapes(operands[0], operands[i]) && CompatibleShapes(updates[0], updates[i])
         && PairOk(operands[i], indices, updates[i], s)
  }

  const TWO_SCALARS := Region([[], []], [[]])

  /** Several operands pass if and only if there is one, each passes alone with its updates, operands have one rank
      and sizes that agree with the first where both are known, updates likewise, and the region takes two scalars
      and yields one for each operand. */
  lemma {:induction false} AllOkIff(operands: seq<seq<int>>, indices: seq<int>, updates: seq<seq<int>>, s: ScatterDims, region: Region)
    requires |operands| == |updates|
    ensures AllOk(operands, indices, updates, s, region)
            <==> && operands != []
                 && (forall i :: 0 <= i < |operands| ==> AllOk([operands[i]], indices, [updates[i]], s, TWO_SCALARS))
                 && (forall i :: 0 <= i < |operands| ==> Agrees(operands[0], operands[i]) && Agrees(updates[0], updates[i]))
                 && |region.results| == |operands| && |region.arguments| == 2 * |operands|
                 && AllScalars(region.results) && AllScalars(region.arguments)
  {
    ScalarRegionIff(region, |operands|);
    forall i | 0 <= i < |operands|
      ensures AllOk([operands[i]], indices, [updates[i]], s, TWO_SCALARS)
              <==> 0 <= s.indexVectorDim <= |indices| && PairOk(operands[i], indices, updates[i], s)
      ensures CompatibleShapes(operands[0], operands[i]) <==> Agrees(operands[0], operands[i])
      ensures CompatibleShapes(updates[0], updates[i]) <==> Agrees(updates[0], updates[i])
    {
      OneOk(operands[i], indices, updates[i], s);
    }
    if operands != [] && forall i :: 0 <= i < |operands| ==> AllOk([operands[i]], indices, [updates[i]], s, TWO_SCALARS) {
      assert AllOk([operands[0]], indices, [updates[0]], s, TWO_SCALARS);
    }
  }

  lemma OneOk(operand: seq<int>, indices: seq<int>, updates: seq<int>, s: ScatterDims)
    ensures AllOk([operand], indices, [updates], s, TWO_SCALARS)
            <==> 0 <= s.indexVectorDim <= |indices| && PairOk(operand, indices, updates, s)
  {
    ScalarRegionIff(TWO_SCALARS, 1);
    assert [operand][0] == operand && [updates][0] == updates;
  }

  // ----- the code

  method ValidateScatterDimensionNumbers(operand: seq<int>, scatterIndicesShape: seq<int>, updates: seq<int>, s: ScatterDims)
    returns (ok: bool)
    requires 0 <= s.indexVectorDim < |scatterIndicesShape|
    ensures ok == DimensionNumbersOk(operand, scatterIndicesShape, updates, s)
  {
    var windowSize := |s.updateWindowDims| + |s.insertedWindowDims| + |s.inputBatchingDims|;
    if |operand| != windowSize { return false; }
    var c := IsSorted(s.updateWindowDims);
    if !c { return false; }
    c := IsUnique(s.updateWindowDims);
    if !c { return false; }
    c := CheckDimsInBounds(s.updateWindowDims, |updates|);
    if !c { return false; }
    c := CheckDimsDistinct(s.insertedWindowDims, s.inputBatchingDims);
    if !c { return false; }
    c := IsSorted(s.insertedWindowDims);
    if !c { return false; }
    c := CheckDimsInBounds(s.insertedWindowDims, |operand|);
    if !c { return false; }
    c := IsSorted(s.inputBatchingDims);
    if !c { return false; }
    c := CheckDimsInBounds(s.inputBatchingDims, |operand|);
    if !c { return false; }
    c := IsUnique(s.scatterIndicesBatchingDims);
    if !c { return false; }
    c := CheckDimsInBounds(s.scatterIndicesBatchingDims, |scatterIndicesShape|);
    if !c { return false; }
    if s.indexVectorDim in s.scatterIndicesBatchingDims { return false; }
    if |s.inputBatchingDims| != |s.scatterIndicesBatchingDims| { return false; }
    c := CheckPairsCompatible(operand, s.inputBatchingDims, scatterIndicesShape, s.scatterIndicesBatchingDims);
    if !c { return false; }
    if s.indexVectorDim == |scatterIndicesShape| && |s.scatterDimsToOperandDims| != 1 { return false; }
    if IsStatic(scatterIndicesShape[s.indexVectorDim])
       && |s.scatterDimsToOperandDims| != scatterIndicesShape[s.indexVectorDim] { return false; }
    c := CheckDimsDistinct(s.scatterDimsToOperandDims, s.inputBatchingDims);
    if !c { return false; }
    c := CheckDimsInBounds(s.scatterDimsToOperandDims, |operand|);
    return c;
  }

  /** How far a pointer into an increasing list has advanced once all entries below `i` are passed. */
  predicate PointerAt(xs: seq<int>, seen: nat, i: int) {
    seen <= |xs| && (forall k :: 0 <= k < seen ==> xs[k] < i) && (forall k :: seen <= k < |xs| ==> xs[k] >= i)
  }

  lemma PointerHit(xs: seq<int>, seen: nat, i: int)
    requires StrictlyIncreasing(xs) && PointerAt(xs, seen, i)
    ensures seen < |xs| && xs[seen] == i <==> i in xs
    ensures PointerAt(xs, if i in xs then seen + 1 else seen, i + 1)
  {
  }

  /** The two-pointer merge: the operand sizes outside inserted and batching dimensions, in order. */
  method MaxUpdateSliceSizes(operand: seq<int>, insertedWindowDims: seq<int>, inputBatchingDims: seq<int>)
    returns (sizes: seq<int>)
    requires Sorted(insertedWindowDims) && Sorted(inputBatchingDims) && Distinct(insertedWindowDims + inputBatchingDims)
    requires InRange(insertedWindowDims, |operand|) && InRange(inputBatchingDims, |operand|)
    ensures InRange(Excluding(|operand|, insertedWindowDims + inputBatchingDims), |operand|)
    ensures sizes == Pick(operand, Excluding(|operand|, insertedWindowDims + inputBatchingDims))
  {
    ghost var gone := insertedWindowDims + inputBatchingDims;
    BothIncreasing(insertedWindowDims, inputBatchingDims);
    var insertedDimsSeen, batchingDimsSeen := 0, 0;
    sizes := [];
    for i := 0 to |operand|
      invariant PointerAt(insertedWindowDims, insertedDimsSeen, i) && PointerAt(inputBatchingDims, batchingDimsSeen, i)
      invariant InRange(Excluding(i, gone), |operand|) && sizes == Pick(operand, Excluding(i, gone))
    {
      PointerHit(insertedWindowDims, insertedDimsSeen, i);
      PointerHit(inputBatchingDims, batchingDimsSeen, i);
      InConcat(insertedWindowDims, inputBatchingDims, i);
      if insertedDimsSeen < |insertedWindowDims| && insertedWindowDims[insertedDimsSeen] == i {
        insertedDimsSeen := insertedDimsSeen + 1;
        NotInBoth(insertedWindowDims, inputBatchingDims, i);
      } else if batchingDimsSeen < |inputBatchingDims| && inputBatchingDims[batchingDimsSeen] == i {
        batchingDimsSeen := batchingDimsSeen + 1;
      } else {
        sizes := sizes + [operand[i]];
      }
    }
  }

  lemma BothIncreasing(xs: seq<int>, ys: seq<int>)
    requires Sorted(xs) && Sorted(ys) && Distinct(xs + ys)
    ensures StrictlyIncreasing(xs) && StrictlyIncreasing(ys)
  {
    var all := xs + ys;
    forall i, j | 0 <= i < j < |xs| ensures xs[i] < xs[j] { assert all[i] != all[j]; }
    forall i, j | 0 <= i < j < |ys| ensures ys[i] < ys[j] { assert all[|xs| + i] != all[|xs| + j]; }
  }

  lemma NotInBoth(xs: seq<int>, ys: seq<int>, x: int)
    requires Distinct(xs + ys) && x in xs
    ensures x !in ys
  {
    var all := xs + ys;
    var i :| 0 <= i < |xs| && xs[i] == x;
    forall j | 0 <= j < |ys| ensures ys[j] != x { assert all[i] != all[|xs| + j]; }
  }

  method CheckWindows(updates: seq<int>, updateWindowDims: seq<int>, maxUpdateSliceSizes: seq<int>) returns (ok: bool)
    requires InRange(updateWindowDims, |updates|) && |maxUpdateSliceSizes| == |updateWindowDims|
    ensures ok == WindowsFit(updates, updateWindowDims, maxUpdateSliceSizes)
  {
    for i := 0 to |updateWindowDims|
      invariant forall k :: 0 <= k < i ==>
        IsDynamic(updates[updateWindowDims[k]]) || IsDynamic(maxUpdateSliceSizes[k])
        || updates[updateWindowDims[k]] <= maxUpdateSliceSizes[k]
    {
      var updateWindowDim := updateWindowDims[i];
      if IsDynamic(updates[updateWindowDim]) || IsDynamic(maxUpdateSliceSizes[i]) { continue; }
      if updates[updateWindowDim] > maxUpdateSliceSizes[i] { return false; }
    }
    return true;
  }

  /** The skip counter: every expanded index dimension but the index vector is visited once, in order. */
  method CheckScatterDims(updates: seq<int>, updateWindowDims: seq<int>, expanded: seq<int>, indexVectorDim: int)
    returns (ok: bool)
    requires 0 <= indexVectorDim < |expanded|
    requires |WithoutDim(expanded, indexVectorDim)| == |Excluding(|updates|, updateWindowDims)|
    ensures ok == ScatterDimsMatch(updates, updateWindowDims, WithoutDim(expanded, indexVectorDim))
  {
    ghost var scattered := WithoutDim(expanded, indexVectorDim);
    var scatterDimsSeen := 0;
    for i := 0 to |updates|
      invariant scatterDimsSeen == SkippedCount(|Excluding(i, updateWindowDims)|, indexVectorDim)
      invariant forall d :: 0 <= d < i ==> MatchesAt(updates, updateWindowDims, scattered, d)
    {
      var isUpdateWindowDim := i in updateWindowDims;
      if isUpdateWindowDim { continue; }
      MatchesSeen(updates, updateWindowDims, expanded, indexVectorDim, i);
      if scatterDimsSeen == indexVectorDim { scatterDimsSeen := scatterDimsSeen + 1; }
      if !CompatibleDims(updates[i], expanded[scatterDimsSeen]) {
        assert !MatchesAt(updates, updateWindowDims, scattered, i);
        return false;
      }
      scatterDimsSeen := scatterDimsSeen + 1;
    }
    return true;
  }

  /** Which dimension the counter compares update dimension i with. */
  lemma {:induction false} MatchesSeen(updates: seq<int>, updateWindowDims: seq<int>, expanded: seq<int>, indexVectorDim: int, i: nat)
    requires 0 <= indexVectorDim < |expanded| && i < |updates| && i !in updateWindowDims
    requires |WithoutDim(expanded, indexVectorDim)| == |Excluding(|updates|, updateWindowDims)|
    ensures var seen := SkipOne(|Excluding(i, updateWindowDims)|, indexVectorDim);
            0 <= seen < |expanded|
            && (MatchesAt(updates, updateWindowDims, WithoutDim(expanded, indexVectorDim), i)
                <==> CompatibleDims(updates[i], expanded[seen]))
  {
    ExcludingIndex(|updates|, updateWindowDims, i);
    WithoutDimEntries(expanded, indexVectorDim, |Excluding(i, updateWindowDims)|);
  }

  method CheckUpdates(operand: seq<int>, expanded: seq<int>, updates: seq<int>, s: ScatterDims) returns (ok: bool)
    requires 0 <= s.indexVectorDim < |expanded| && |updates| == |expanded| - 1 + |s.updateWindowDims|
    requires DimensionNumbersOk(operand, expanded, updates, s)
    ensures ok == UpdatesOk(operand, expanded, updates, s)
  {
    ScatterSizes(operand, expanded, updates, s);
    var maxUpdateSliceSizes := MaxUpdateSliceSizes(operand, s.insertedWindowDims, s.inputBatchingDims);
    ok := CheckWindows(updates, s.updateWindowDims, maxUpdateSliceSizes);
    if ok {
      ok := CheckScatterDims(updates, s.updateWindowDims, expanded, s.indexVectorDim);
    }
  }

  method VerifyScatterOp(inputs: seq<seq<int>>, scatterIndices: seq<int>, updates: seq<seq<int>>, s: ScatterDims,
                         region: Region)
    returns (ok: bool)
    requires |inputs| == |updates|
    ensures ok == AllOk(inputs, scatterIndices, updates, s, region)
  {
    for i := 0 to |inputs|
      invariant forall k :: 0 <= k < i ==> CompatibleShapes(inputs[0], inputs[k])
    {
      if !CompatibleShapes(inputs[0], inputs[i]) { return false; }
    }
    for i := 0 to |updates|
      invariant forall k :: 0 <= k < i ==> CompatibleShapes(updates[0], updates[k])
    {
      if !CompatibleShapes(updates[0], updates[i]) { return false; }
    }
    if s.indexVectorDim < 0 || s.indexVectorDim >= |scatterIndices| + 1 { return false; }
    var regionOk := VerifyReducerShape(region, Scalars(|inputs|), []);
    if !regionOk { return false; }
    var expanded := scatterIndices;
    if |expanded| == s.indexVectorDim { expanded := expanded + [1]; }
    for i := 0 to |inputs|
      invariant forall k :: 0 <= k < i ==> |updates[k]| == |expanded| - 1 + |s.updateWindowDims|
    {
      var expectedUpdatesRank := |expanded| - 1 + |s.updateWindowDims|;
      if |updates[i]| != expectedUpdatesRank { return false; }
    }
    for i := 0 to |inputs|
      invariant forall k :: 0 <= k < i ==> DimensionNumbersOk(inputs[k], expanded, updates[k], s)
    {
      var c := ValidateScatterDimensionNumbers(inputs[i], expanded, updates[i], s);
      if !c { return false; }
    }
    for i := 0 to |inputs|
      invariant forall k :: 0 <= k < i ==> UpdatesOk(inputs[k], expanded, updates[k], s)
    {
      var c := CheckUpdates(inputs[i], expanded, updates[i], s);
      if !c { return false; }
    }
    return true;
  }
}
