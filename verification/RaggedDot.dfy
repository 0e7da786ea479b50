/** ragged_dot: constraints and result dimensions. */
module RaggedDot {
  import opened Sequences
  import opened Types
  import opened BoundedDims
  import opened DotGeneral

  datatype RaggedDims = RaggedDims(dot: DotDims, lhsRagged: seq<int>, rhsGroup: seq<int>)

  datatype Mode = NonContracting | Contracting | Batch

  function ModeOf(d: DotDims, raggedDim: int): Mode {
    if raggedDim in d.lhsBatching then Batch
    else if raggedDim in d.lhsContracting then Contracting
    else NonContracting
  }

  /** The lhs dimensions that the group sizes may be broadcast over. */
  function PrefixDims(lhsRank: nat, d: DotDims, raggedDim: int): seq<int>
    requires 0 <= raggedDim < lhsRank
  {
    match ModeOf(d, raggedDim)
    case Batch => d.lhsBatching[..IndexOf(d.lhsBatching, raggedDim)]
    case Contracting => d.lhsBatching + d.lhsContracting[..IndexOf(d.lhsContracting, raggedDim)]
    case NonContracting => d.lhsBatching + Excluding(raggedDim, d.lhsBatching + d.lhsContracting)
  }

  lemma PrefixInRange(lhsRank: nat, d: DotDims, raggedDim: int)
    requires 0 <= raggedDim < lhsRank && InRange(d.lhsBatching, lhsRank) && InRange(d.lhsContracting, lhsRank)
    ensures InRange(PrefixDims(lhsRank, d, raggedDim), lhsRank)
  {
    ExcludingProperties(raggedDim, d.lhsBatching + d.lhsContracting);
  }

  /** Group sizes have shape [g], or the prefix sizes followed by g. */
  predicate GroupShapeOk(lhs: seq<int>, groups: seq<int>, prefix: seq<int>)
    requires InRange(prefix, |lhs|)
  {
    |groups| != 1 ==> |groups| == |prefix| + 1 && groups[..|prefix|] == Pick(lhs, prefix)
  }

  predicate GroupDimsOk(rhs: seq<int>, groups: seq<int>, r: RaggedDims, mode: Mode)
    requires groups != []
  {
    && InRange(r.rhsGroup, |rhs|)
    && Distinct(r.rhsGroup + r.dot.rhsBatching) && Distinct(r.rhsGroup + r.dot.rhsContracting)
    && (if mode.NonContracting? then |r.rhsGroup| == 1 && CompatibleDims(groups[|groups| - 1], rhs[r.rhsGroup[0]])
        else r.rhsGroup == [])
  }

  predicate RaggedOk(lhs: seq<int>, rhs: seq<int>, groups: seq<int>, r: RaggedDims)
    requires ConstraintsOk(lhs, rhs, r.dot)
  {
    && |r.lhsRagged| == 1 && 0 <= r.lhsRagged[0] < |lhs|
    && (PrefixInRange(|lhs|, r.dot, r.lhsRagged[0]); GroupShapeOk(lhs, groups, PrefixDims(|lhs|, r.dot, r.lhsRagged[0])))
    && groups != []
    && GroupDimsOk(rhs, groups, r, ModeOf(r.dot, r.lhsRagged[0]))
  }

  method CollectPrefix(lhs: seq<int>, d: DotDims, raggedDim: int, mode: Mode) returns (prefixDims: seq<int>)
    requires 0 <= raggedDim < |lhs| && mode == ModeOf(d, raggedDim)
    ensures prefixDims == PrefixDims(|lhs|, d, raggedDim)
  {
    prefixDims := d.lhsBatching;
    match mode {
      case Batch => prefixDims := prefixDims[..IndexOf(d.lhsBatching, raggedDim)];
      case Contracting => prefixDims := prefixDims + d.lhsContracting[..IndexOf(d.lhsContracting, raggedDim)];
      case NonContracting =>
        for i := 0 to raggedDim
          invariant prefixDims == d.lhsBatching + Excluding(i, d.lhsBatching + d.lhsContracting)
        {
          InConcat(d.lhsBatching, d.lhsContracting, i);
          if i !in d.lhsBatching && i !in d.lhsContracting { prefixDims := prefixDims + [i]; }
        }
    }
  }

  method CheckRaggedDotConstraints(lhs: seq<int>, rhs: seq<int>, groups: seq<int>, r: RaggedDims) returns (ok: bool)
    requires ConstraintsOk(lhs, rhs, r.dot)
    ensures ok == RaggedOk(lhs, rhs, groups, r)
  {
    if |r.lhsRagged| != 1 { return false; }
    var lhsRaggedDim := r.lhsRagged[0];
    if lhsRaggedDim < 0 || lhsRaggedDim >= |lhs| { return false; }
    var mode := if lhsRaggedDim in r.dot.lhsBatching then Batch
                else if lhsRaggedDim in r.dot.lhsContracting then Contracting else NonContracting;
    var prefixDims := CollectPrefix(lhs, r.dot, lhsRaggedDim, mode);
    PrefixInRange(|lhs|, r.dot, lhsRaggedDim);
    var expectedPrefix := [];
    for i := 0 to |prefixDims|
      invariant |expectedPrefix| == i && forall k :: 0 <= k < i ==> expectedPrefix[k] == lhs[prefixDims[k]]
    {
      expectedPrefix := expectedPrefix + [lhs[prefixDims[i]]];
    }
    assert expectedPrefix == Pick(lhs, prefixDims);
    if |groups| != 1 {
      if |groups| != |expectedPrefix| + 1 { return false; }
      if expectedPrefix != groups[..|expectedPrefix|] { return false; }
    }
    var numGroups := groups[|groups| - 1];
    var c := CheckDimsInBounds(r.rhsGroup, |rhs|);
    if !c { return false; }
    c := CheckDimsDistinct(r.rhsGroup, r.dot.rhsBatching);
    if !c { return false; }
    c := CheckDimsDistinct(r.rhsGroup, r.dot.rhsContracting);
    if !c { return false; }
    match mode {
      case Batch => return r.rhsGroup == [];
      case Contracting => return r.rhsGroup == [];
      case NonContracting =>
        if |r.rhsGroup| != 1 { return false; }
        return CompatibleDims(numGroups, rhs[r.rhsGroup[0]]);
    }
  }

  // ----- what is accepted

  /** One list of group sizes for all, or one for each of the listed sizes, in front of which they come. */
  predicate GroupSizesOver(groups: seq<int>, sizes: seq<int>) {
    groups != [] && (|groups| == 1 || (|groups| == |sizes| + 1 && forall i :: 0 <= i < |sizes| ==> groups[i] == sizes[i]))
  }

  lemma GroupSizesOverIff(lhs: seq<int>, groups: seq<int>, prefix: seq<int>, sizes: seq<int>)
    requires InRange(prefix, |lhs|) && |sizes| == |prefix| && forall i :: 0 <= i < |sizes| ==> sizes[i] == lhs[prefix[i]]
    ensures GroupShapeOk(lhs, groups, prefix) && groups != [] <==> GroupSizesOver(groups, sizes)
  {
    if |groups| == |prefix| + 1 {
      assert groups[..|prefix|] == Pick(lhs, prefix) <==> forall i :: 0 <= i < |sizes| ==> groups[i] == sizes[i] by {
        assert forall i :: 0 <= i < |prefix| ==> groups[..|prefix|][i] == groups[i];
      }
    }
  }

  /** A ragged dimension must be given, once, and be one of lhs. */
  lemma OneRagged(lhs: seq<int>, rhs: seq<int>, groups: seq<int>, r: RaggedDims)
    requires ConstraintsOk(lhs, rhs, r.dot) && RaggedOk(lhs, rhs, groups, r)
    ensures |r.lhsRagged| == 1 && 0 <= r.lhsRagged[0] < |lhs|
  {
  }

  /** When batching dimension k is ragged: no group dimensions, and group sizes over the batching dimensions before it. */
  lemma {:induction false} RaggedBatchIff(lhs: seq<int>, rhs: seq<int>, groups: seq<int>, r: RaggedDims, k: nat)
    requires ConstraintsOk(lhs, rhs, r.dot) && k < |r.dot.lhsBatching| && r.lhsRagged == [r.dot.lhsBatching[k]]
    ensures RaggedOk(lhs, rhs, groups, r)
            <==> r.rhsGroup == [] && GroupSizesOver(groups, Pick(lhs, r.dot.lhsBatching)[..k])
  {
    var x := r.lhsRagged[0];
    DistinctConcatIff(r.dot.lhsBatching, r.dot.lhsContracting);
    DistinctConcatIff(r.dot.rhsBatching, r.dot.rhsContracting);
    DistinctIndex(r.dot.lhsBatching, k);
    PrefixInRange(|lhs|, r.dot, x);
    GroupSizesOverIff(lhs, groups, r.dot.lhsBatching[..k], Pick(lhs, r.dot.lhsBatching)[..k]);
    NoGroupDims(rhs, groups, r);
  }

  lemma NoGroupDims(rhs: seq<int>, groups: seq<int>, r: RaggedDims)
    requires Distinct(r.dot.rhsBatching) && Distinct(r.dot.rhsContracting)
    ensures groups != [] ==> (GroupDimsOk(rhs, groups, r, Batch) <==> r.rhsGroup == [])
    ensures groups != [] ==> (GroupDimsOk(rhs, groups, r, Contracting) <==> r.rhsGroup == [])
  {
    if r.rhsGroup == [] {
      assert r.rhsGroup + r.dot.rhsBatching == r.dot.rhsBatching && r.rhsGroup + r.dot.rhsContracting == r.dot.rhsContracting;
    }
  }

  /** When contracting dimension k is ragged: no group dimensions, and group sizes over all batching dimensions and
      the contracting dimensions before it. */
  lemma {:induction false} RaggedContractingIff(lhs: seq<int>, rhs: seq<int>, groups: seq<int>, r: RaggedDims, k: nat)
    requires ConstraintsOk(lhs, rhs, r.dot) && k < |r.dot.lhsContracting| && r.lhsRagged == [r.dot.lhsContracting[k]]
    ensures RaggedOk(lhs, rhs, groups, r)
            <==> && r.rhsGroup == []
                 && GroupSizesOver(groups, Pick(lhs, r.dot.lhsBatching) + Pick(lhs, r.dot.lhsContracting)[..k])
  {
    var x := r.lhsRagged[0];
    DistinctConcatIff(r.dot.lhsBatching, r.dot.lhsContracting);
    DistinctConcatIff(r.dot.rhsBatching, r.dot.rhsContracting);
    NotInFirst(r.dot.lhsBatching, r.dot.lhsContracting, k);
    DistinctIndex(r.dot.lhsContracting, k);
    PrefixInRange(|lhs|, r.dot, x);
    GroupSizesOverIff(lhs, groups, r.dot.lhsBatching + r.dot.lhsContracting[..k],
                      Pick(lhs, r.dot.lhsBatching) + Pick(lhs, r.dot.lhsContracting)[..k]);
    NoGroupDims(rhs, groups, r);
  }

  lemma NotInFirst(xs: seq<int>, ys: seq<int>, k: nat)
    requires Disjoint(xs, ys) && k < |ys|
    ensures ys[k] !in xs
  {
    assert forall i :: 0 <= i < |xs| && xs[i] == ys[k] ==> xs[i] in ys;
  }

  /** When another dimension x is ragged: one group dimension of rhs, neither batching nor contracting, as large as
      the number of groups where both are known, and group sizes over all batching dimensions and the other free
      dimensions before x. */
  lemma {:induction false} RaggedFreeIff(lhs: seq<int>, rhs: seq<int>, groups: seq<int>, r: RaggedDims, x: nat, before: seq<int>)
    requires ConstraintsOk(lhs, rhs, r.dot) && r.lhsRagged == [x] && x < |lhs|
    requires x !in r.dot.lhsBatching && x !in r.dot.lhsContracting
    requires Remaining(before, x, r.dot.lhsBatching, r.dot.lhsContracting)
    ensures InRange(before, |lhs|)
    ensures RaggedOk(lhs, rhs, groups, r)
            <==> && GroupSizesOver(groups, Pick(lhs, r.dot.lhsBatching) + Pick(lhs, before))
                 && |r.rhsGroup| == 1 && 0 <= r.rhsGroup[0] < |rhs|
                 && r.rhsGroup[0] !in r.dot.rhsBatching && r.rhsGroup[0] !in r.dot.rhsContracting
                 && (var n, m := groups[|groups| - 1], rhs[r.rhsGroup[0]]; n == DYNAMIC || m == DYNAMIC || n == m)
  {
    DistinctConcatIff(r.dot.lhsBatching, r.dot.lhsContracting);
    DistinctConcatIff(r.dot.rhsBatching, r.dot.rhsContracting);
    RemainingIs(before, x, r.dot.lhsBatching, r.dot.lhsContracting);
    PrefixInRange(|lhs|, r.dot, x);
    GroupSizesOverIff(lhs, groups, r.dot.lhsBatching + before, Pick(lhs, r.dot.lhsBatching) + Pick(lhs, before));
    DistinctConcatIff(r.rhsGroup, r.dot.rhsBatching);
    DistinctConcatIff(r.rhsGroup, r.dot.rhsContracting);
  }

  /** The free rhs dimensions without the group dimensions. */
  function RhsUngrouped(rhs: seq<int>, r: RaggedDims): (s: seq<int>)
    ensures InRange(s, |rhs|)
  {
    ExcludingProperties(|rhs|, r.dot.rhsBatching + r.dot.rhsContracting + r.rhsGroup);
    Excluding(|rhs|, r.dot.rhsBatching + r.dot.rhsContracting + r.rhsGroup)
  }

  method AppendDims(shape: seq<int>, excluded: seq<int>, dims: seq<int>) returns (dimensions: seq<int>)
    requires InRange(Excluding(|shape|, excluded), |shape|)
    ensures dimensions == dims + Pick(shape, Excluding(|shape|, excluded))
  {
    dimensions := dims;
    ghost var kept := [];
    for i := 0 to |shape|
      invariant kept == Excluding(i, excluded) && InRange(kept, |shape|)
      invariant dimensions == dims + Pick(shape, kept)
    {
      if i !in excluded {
        PickAppend(dims, shape, kept, i);
        dimensions := dimensions + [shape[i]];
        kept := kept + [i];
      }
    }
  }

  lemma PickAppend(dims: seq<int>, shape: seq<int>, at: seq<int>, i: int)
    requires InRange(at, |shape|) && 0 <= i < |shape|
    ensures InRange(at + [i], |shape|) && dims + Pick(shape, at + [i]) == dims + Pick(shape, at) + [shape[i]]
  {
  }

  method AppendListed(shape: seq<int>, listed: seq<int>, dims: seq<int>) returns (dimensions: seq<int>)
    requires InRange(listed, |shape|)
    ensures dimensions == dims + Pick(shape, listed)
  {
    dimensions := dims;
    for i := 0 to |listed|
      invariant |dimensions| == |dims| + i && dimensions[..|dims|] == dims
      invariant forall k :: 0 <= k < i ==> dimensions[|dims| + k] == shape[listed[k]]
    {
      dimensions := dimensions + [shape[listed[i]]];
    }
    assert dimensions == dims + Pick(shape, listed);
  }

  function RaggedDimensions(lhs: seq<int>, rhs: seq<int>, groups: seq<int>, r: RaggedDims): seq<int>
    requires ConstraintsOk(lhs, rhs, r.dot) && RaggedOk(lhs, rhs, groups, r)
  {
    (if r.lhsRagged[0] in r.dot.lhsContracting then [groups[|groups| - 1]] else [])
    + Pick(lhs, r.dot.lhsBatching) + Pick(lhs, LhsFree(lhs, r.dot)) + Pick(rhs, RhsUngrouped(rhs, r))
  }

  method InferRaggedDotOutputDimensions(lhs: seq<int>, rhs: seq<int>, groups: seq<int>, r: RaggedDims)
    returns (dimensions: seq<int>)
    requires ConstraintsOk(lhs, rhs, r.dot) && RaggedOk(lhs, rhs, groups, r)
    ensures dimensions == RaggedDimensions(lhs, rhs, groups, r)
  {
    var lhsRaggedDim, numGroups := r.lhsRagged[0], groups[|groups| - 1];
    dimensions := [];
    if lhsRaggedDim in r.dot.lhsContracting { dimensions := dimensions + [numGroups]; }
    assert dimensions == if lhsRaggedDim in r.dot.lhsContracting then [numGroups] else [];
    dimensions := AppendListed(lhs, r.dot.lhsBatching, dimensions);
    ghost var l, u := LhsFree(lhs, r.dot), RhsUngrouped(rhs, r);
    dimensions := AppendDims(lhs, r.dot.lhsBatching + r.dot.lhsContracting, dimensions);
    dimensions := AppendDims(rhs, r.dot.rhsBatching + r.dot.rhsContracting + r.rhsGroup, dimensions);
  }

  /** In front the number of groups if the ragged dimension is contracting; then the batching sizes as lhs has them; then,
      in order, the sizes of the free dimensions of lhs, and of those of rhs that are not the group dimension. */
  lemma {:induction false} RaggedExact(lhs: seq<int>, rhs: seq<int>, groups: seq<int>, r: RaggedDims, lhsFree: seq<int>, rhsFree: seq<int>)
    requires ConstraintsOk(lhs, rhs, r.dot) && RaggedOk(lhs, rhs, groups, r)
    requires Remaining(lhsFree, |lhs|, r.dot.lhsBatching, r.dot.lhsContracting)
    requires Remaining(rhsFree, |rhs|, r.dot.rhsBatching + r.dot.rhsContracting, r.rhsGroup)
    ensures InRange(r.dot.lhsBatching, |lhs|)
    ensures RaggedDimensions(lhs, rhs, groups, r)
            == (if r.lhsRagged[0] in r.dot.lhsContracting then [groups[|groups| - 1]] else [])
               + Pick(lhs, r.dot.lhsBatching) + Pick(lhs, lhsFree) + Pick(rhs, rhsFree)
  {
    RemainingIs(lhsFree, |lhs|, r.dot.lhsBatching, r.dot.lhsContracting);
    RemainingIs(rhsFree, |rhs|, r.dot.rhsBatching + r.dot.rhsContracting, r.rhsGroup);
  }

  // ----- relation to dot_general

  /** The result sizes of dot_general on these shapes: unknown batch sizes of lhs are taken from rhs. */
  function DotSizes(lhs: seq<int>, rhs: seq<int>, d: DotDims): seq<int>
    requires ConstraintsOk(lhs, rhs, d)
  {
    MergedBatch(lhs, rhs, d) + Pick(lhs, LhsFree(lhs, d)) + Pick(rhs, RhsFree(rhs, d))
  }

  function MergedBatch(lhs: seq<int>, rhs: seq<int>, d: DotDims): (m: seq<int>)
    requires ConstraintsOk(lhs, rhs, d)
    ensures |m| == |d.lhsBatching|
    ensures forall i :: 0 <= i < |m| ==>
              m[i] == if IsStatic(lhs[d.lhsBatching[i]]) then lhs[d.lhsBatching[i]] else rhs[d.rhsBatching[i]]
  {
    seq(|d.lhsBatching|, i requires 0 <= i < |d.lhsBatching| =>
      if IsStatic(lhs[d.lhsBatching[i]]) then lhs[d.lhsBatching[i]] else rhs[d.rhsBatching[i]])
  }

  lemma {:induction false} DotSizesAreInferred(lhs: TensorType, rhs: TensorType, d: DotDims)
    requires lhs.WellFormed() && rhs.WellFormed() && DotType(lhs, rhs, d).Some?
    ensures DotType(lhs, rhs, d).value.shape == DotSizes(lhs.shape, rhs.shape, d)
  {
    forall i | 0 <= i < |d.lhsBatching|
      ensures BatchDims(lhs, rhs, d)[i].size
              == if IsStatic(lhs.shape[d.lhsBatching[i]]) then lhs.shape[d.lhsBatching[i]] else rhs.shape[d.rhsBatching[i]]
    {
      assert Some(BatchDims(lhs, rhs, d)[i]) == BatchDim(lhs, rhs, d, i);
    }
  }

  /** The position of the rhs group dimension among the dot_general result dimensions. */
  function GroupPosition(lhs: seq<int>, rhs: seq<int>, r: RaggedDims): nat
    requires r.rhsGroup != [] && r.rhsGroup[0] in RhsFree(rhs, r.dot)
  {
    |r.dot.lhsBatching| + |LhsFree(lhs, r.dot)| + IndexOf(RhsFree(rhs, r.dot), r.rhsGroup[0])
  }

  function RemoveAt<T>(s: seq<T>, k: nat): seq<T>
    requires k < |s|
  {
    s[..k] + s[k + 1..]
  }

  /** `s` without x. */
  function Minus(s: seq<int>, x: int): seq<int> {
    if s == [] then []
    else Minus(s[..|s| - 1], x) + (if s[|s| - 1] == x then [] else [s[|s| - 1]])
  }

  lemma MinusStep(before: seq<int>, after: seq<int>, last: int, skip: bool, skip': bool, x: int)
    requires after == Minus(before, x) && skip' == (skip || last == x)
    ensures after + (if skip' then [] else [last]) == Minus(before + (if skip then [] else [last]), x)
  {
    if skip {
      assert before + [] == before && after + [] == after;
    } else {
      assert (before + [last])[..|before|] == before;
    }
  }

  /** Leaving out one more index removes it from the list. */
  lemma {:induction false} ExcludeOneMore(n: nat, xs: seq<int>, ys: seq<int>, x: int)
    requires forall i :: i in ys <==> i in xs || i == x
    ensures Excluding(n, ys) == Minus(Excluding(n, xs), x)
  {
    if n > 0 {
      ExcludeOneMore(n - 1, xs, ys, x);
      MinusStep(Excluding(n - 1, xs), Excluding(n - 1, ys), n - 1, n - 1 in xs, n - 1 in ys, x);
    }
  }

  lemma {:induction false} MinusAbsent(s: seq<int>, x: int)
    requires x !in s
    ensures Minus(s, x) == s
  {
    if s != [] {
      MinusAbsent(s[..|s| - 1], x);
      InitLast([], s);
    }
  }

  lemma {:induction false} MinusRemoves(s: seq<int>, x: int)
    requires Distinct(s) && x in s
    ensures Minus(s, x) == RemoveAt(s, IndexOf(s, x))
  {
    var before, last := s[..|s| - 1], s[|s| - 1];
    InitLast([], s);
    InConcat(before, [last], x);
    if last == x {
      MinusAbsent(before, x);
      LastDropped(before, x);
    } else {
      MinusRemoves(before, x);
      LastKept(before, [last], x);
    }
  }

  lemma LastKept(before: seq<int>, tail: seq<int>, x: int)
    requires x in before
    ensures x in before + tail && IndexOf(before + tail, x) == IndexOf(before, x)
    ensures RemoveAt(before + tail, IndexOf(before, x)) == RemoveAt(before, IndexOf(before, x)) + tail
  {
    IndexInPrefix(before, tail, x);
    RemoveInPrefix(before, tail, IndexOf(before, x));
  }

  lemma IndexInPrefix(before: seq<int>, tail: seq<int>, x: int)
    requires x in before
    ensures x in before + tail && IndexOf(before + tail, x) == IndexOf(before, x)
  {
    var all, k := before + tail, IndexOf(before, x);
    assert all[k] == before[k] == x;
    var j := IndexOf(all, x);
    assert j <= k;
    assert before[j] == all[j];
  }

  lemma RemoveInPrefix<T>(before: seq<T>, tail: seq<T>, k: nat)
    requires k < |before|
    ensures RemoveAt(before + tail, k) == RemoveAt(before, k) + tail
  {
  }

  lemma LastDropped(before: seq<int>, x: int)
    requires x !in before
    ensures IndexOf(before + [x], x) == |before| && RemoveAt(before + [x], |before|) == before
  {
    var all := before + [x];
    assert all[|before|] == x;
    assert all[IndexOf(all, x)] == x;
    assert forall j :: 0 <= j < |before| ==> all[j] == before[j] && before[j] in before;
  }

  /** The ragged result is [numGroups] followed by the dot_general result when a contracting dimension
      is ragged, the dot_general result when a batch dimension is, and the dot_general result without
      the rhs group dimension otherwise; this holds exactly when no batch size is known from rhs alone. */
  lemma {:induction false} RaggedFromDot(lhs: seq<int>, rhs: seq<int>, groups: seq<int>, r: RaggedDims)
    requires ConstraintsOk(lhs, rhs, r.dot) && RaggedOk(lhs, rhs, groups, r)
    ensures ModeOf(r.dot, r.lhsRagged[0]).NonContracting? ==> r.rhsGroup[0] in RhsFree(rhs, r.dot)
    ensures RaggedDimensions(lhs, rhs, groups, r) ==
              (match ModeOf(r.dot, r.lhsRagged[0])
               case Contracting => [groups[|groups| - 1]] + DotSizes(lhs, rhs, r.dot)
               case Batch => DotSizes(lhs, rhs, r.dot)
               case NonContracting => RemoveAt(DotSizes(lhs, rhs, r.dot), GroupPosition(lhs, rhs, r)))
            <==> forall i :: 0 <= i < |r.dot.lhsBatching| ==>
                   IsStatic(lhs[r.dot.lhsBatching[i]]) || IsDynamic(rhs[r.dot.rhsBatching[i]])
  {
    BatchSizesEqualIff(lhs, rhs, r.dot, MergedBatch(lhs, rhs, r.dot));
    if ModeOf(r.dot, r.lhsRagged[0]).NonContracting? {
      UngroupedResult(lhs, rhs, groups, r);
    } else {
      GroupedResult(lhs, rhs, groups, r);
    }
  }

  /** The same against the result type that dot_general infers for the operands. */
  lemma {:induction false} RaggedFromDotGeneral(lhs: TensorType, rhs: TensorType, groups: seq<int>, r: RaggedDims)
    requires lhs.WellFormed() && rhs.WellFormed() && DotType(lhs, rhs, r.dot).Some? && RaggedOk(lhs.shape, rhs.shape, groups, r)
    ensures ModeOf(r.dot, r.lhsRagged[0]).NonContracting? ==>
              r.rhsGroup[0] in RhsFree(rhs.shape, r.dot)
              && GroupPosition(lhs.shape, rhs.shape, r) < |DotType(lhs, rhs, r.dot).value.shape|
    ensures var shape := DotType(lhs, rhs, r.dot).value.shape;
            RaggedDimensions(lhs.shape, rhs.shape, groups, r) ==
              (match ModeOf(r.dot, r.lhsRagged[0])
               case Contracting => [groups[|groups| - 1]] + shape
               case Batch => shape
               case NonContracting => RemoveAt(shape, GroupPosition(lhs.shape, rhs.shape, r)))
            <==> forall i :: 0 <= i < |r.dot.lhsBatching| ==>
                   IsStatic(lhs.shape[r.dot.lhsBatching[i]]) || IsDynamic(rhs.shape[r.dot.rhsBatching[i]])
  {
    DotSizesAreInferred(lhs, rhs, r.dot);
    RaggedFromDot(lhs.shape, rhs.shape, groups, r);
  }

  /** A ragged batch dimension of unknown lhs size 7 on the rhs: dot_general infers 7, ragged dot does not. */
  lemma BatchSizeFromRhsOnly()
    ensures var lhs, rhs := TensorType([DYNAMIC], []), TensorType([7], []);
            var r := RaggedDims(DotDims([0], [0], [], []), [0], []);
            && lhs.WellFormed() && rhs.WellFormed()
            && DotType(lhs, rhs, r.dot) == Some(TensorType([7], []))
            && RaggedOk(lhs.shape, rhs.shape, [2], r)
            && RaggedDimensions(lhs.shape, rhs.shape, [2], r) == [DYNAMIC]
  {
    BatchOnlyDot();
    BatchOnlyRagged();
  }

  lemma BatchOnlyDot()
    ensures var lhs, rhs, d := TensorType([DYNAMIC], []), TensorType([7], []), DotDims([0], [0], [], []);
            lhs.WellFormed() && rhs.WellFormed() && DotType(lhs, rhs, d) == Some(TensorType([7], []))
  {
    var lhs, rhs, d := TensorType([DYNAMIC], []), TensorType([7], []), DotDims([0], [0], [], []);
    OneBatchDimension([DYNAMIC], [7]);
    assert BatchDim(lhs, rhs, d, 0) == Some(Dim(7, DYNAMIC));
    assert Inferable(lhs, rhs, d);
    assert ResultDims(lhs, rhs, d) == [Dim(7, DYNAMIC)];
    assert SizesOf([Dim(7, DYNAMIC)]) == [7];
  }

  lemma OneBatchDimension(lhs: seq<int>, rhs: seq<int>)
    requires |lhs| == |rhs| == 1 && (IsDynamic(lhs[0]) || IsDynamic(rhs[0]) || lhs[0] == rhs[0])
    ensures var d := DotDims([0], [0], [], []);
            ConstraintsOk(lhs, rhs, d) && LhsFree(lhs, d) == [] && RhsFree(rhs, d) == []
  {
    assert [0] + [] == [0];
    assert Excluding(0, [0]) == [] && Excluding(1, [0]) == [];
  }

  lemma BatchOnlyRagged()
    ensures var r := RaggedDims(DotDims([0], [0], [], []), [0], []);
            ConstraintsOk([DYNAMIC], [7], r.dot) && RaggedOk([DYNAMIC], [7], [2], r)
            && RaggedDimensions([DYNAMIC], [7], [2], r) == [DYNAMIC]
  {
    var d := DotDims([0], [0], [], []);
    var r := RaggedDims(d, [0], []);
    OneBatchDimension([DYNAMIC], [7]);
    assert [0] + [] + [] == [0] && r.rhsGroup + d.rhsBatching == [0] && r.rhsGroup + d.rhsContracting == [];
    assert ModeOf(d, 0) == Batch;
    assert RhsUngrouped([7], r) == Excluding(1, [0]);
    assert Pick([DYNAMIC], [0]) == [DYNAMIC] && Pick([DYNAMIC], []) == [] && Pick([7], []) == [];
  }

  lemma {:induction false} UngroupedResult(lhs: seq<int>, rhs: seq<int>, groups: seq<int>, r: RaggedDims)
    requires ConstraintsOk(lhs, rhs, r.dot) && RaggedOk(lhs, rhs, groups, r) && ModeOf(r.dot, r.lhsRagged[0]).NonContracting?
    ensures r.rhsGroup[0] in RhsFree(rhs, r.dot)
    ensures RaggedDimensions(lhs, rhs, groups, r) == RemoveAt(DotSizes(lhs, rhs, r.dot), GroupPosition(lhs, rhs, r))
            <==> Pick(lhs, r.dot.lhsBatching) == MergedBatch(lhs, rhs, r.dot)
  {
    GroupIsFree(rhs, groups, r);
    UngroupedSizes(rhs, r);
    var merged, batch := MergedBatch(lhs, rhs, r.dot), Pick(lhs, r.dot.lhsBatching);
    var free, tail := Pick(lhs, LhsFree(lhs, r.dot)), Pick(rhs, RhsFree(rhs, r.dot));
    var k := IndexOf(RhsFree(rhs, r.dot), r.rhsGroup[0]);
    UngroupedIs(lhs, rhs, groups, r, RemoveAt(tail, k));
    RemovedDecides(RaggedDimensions(lhs, rhs, groups, r), DotSizes(lhs, rhs, r.dot), GroupPosition(lhs, rhs, r),
                   batch, merged, free, tail, k);
  }

  lemma RemovedDecides<T>(out: seq<T>, all: seq<T>, at: nat, a: seq<T>, b: seq<T>, x: seq<T>, y: seq<T>, k: nat)
    requires |a| == |b| && k < |y| && at == |b| + |x| + k
    requires out == a + x + RemoveAt(y, k) && all == b + x + y
    ensures at < |all| && (out == RemoveAt(all, at) <==> a == b)
  {
    RemoveFromTail(b, x, y, k);
    BatchAlone(a, b, x, RemoveAt(y, k));
  }

  lemma UngroupedIs(lhs: seq<int>, rhs: seq<int>, groups: seq<int>, r: RaggedDims, tail: seq<int>)
    requires ConstraintsOk(lhs, rhs, r.dot) && RaggedOk(lhs, rhs, groups, r) && ModeOf(r.dot, r.lhsRagged[0]).NonContracting?
    requires tail == Pick(rhs, RhsUngrouped(rhs, r))
    ensures RaggedDimensions(lhs, rhs, groups, r) == Pick(lhs, r.dot.lhsBatching) + Pick(lhs, LhsFree(lhs, r.dot)) + tail
  {
    EmptyHead(Pick(lhs, r.dot.lhsBatching), Pick(lhs, LhsFree(lhs, r.dot)), tail);
  }

  lemma BatchAlone<T>(a: seq<T>, b: seq<T>, x: seq<T>, y: seq<T>)
    requires |a| == |b|
    ensures a + x + y == b + x + y <==> a == b
  {
    BatchDecides([], a, b, x, y);
    EmptyHead(a, x, y);
    EmptyHead(b, x, y);
  }

  lemma {:induction false} GroupedResult(lhs: seq<int>, rhs: seq<int>, groups: seq<int>, r: RaggedDims)
    requires ConstraintsOk(lhs, rhs, r.dot) && RaggedOk(lhs, rhs, groups, r) && !ModeOf(r.dot, r.lhsRagged[0]).NonContracting?
    ensures var head := if ModeOf(r.dot, r.lhsRagged[0]).Contracting? then [groups[|groups| - 1]] else [];
            && (RaggedDimensions(lhs, rhs, groups, r) == head + DotSizes(lhs, rhs, r.dot)
                <==> Pick(lhs, r.dot.lhsBatching) == MergedBatch(lhs, rhs, r.dot))
            && [] + DotSizes(lhs, rhs, r.dot) == DotSizes(lhs, rhs, r.dot)
  {
    NoGroups(rhs, r);
    NotBothSpecial(lhs, r);
    var head := if ModeOf(r.dot, r.lhsRagged[0]).Contracting? then [groups[|groups| - 1]] else [];
    BatchDecides(head, Pick(lhs, r.dot.lhsBatching), MergedBatch(lhs, rhs, r.dot), Pick(lhs, LhsFree(lhs, r.dot)),
                 Pick(rhs, RhsFree(rhs, r.dot)));
    EmptyHead(MergedBatch(lhs, rhs, r.dot), Pick(lhs, LhsFree(lhs, r.dot)), Pick(rhs, RhsFree(rhs, r.dot)));
  }

  lemma NoGroups(rhs: seq<int>, r: RaggedDims)
    requires r.rhsGroup == []
    ensures RhsUngrouped(rhs, r) == RhsFree(rhs, r.dot)
  {
    assert r.dot.rhsBatching + r.dot.rhsContracting + r.rhsGroup == r.dot.rhsBatching + r.dot.rhsContracting;
  }

  lemma EmptyHead<T>(a: seq<T>, x: seq<T>, y: seq<T>)
    ensures [] + (a + x + y) == a + x + y && [] + a + x + y == a + x + y
  {
    assert [] + a == a;
  }

  lemma BatchSizesEqualIff(lhs: seq<int>, rhs: seq<int>, d: DotDims, merged: seq<int>)
    requires ConstraintsOk(lhs, rhs, d) && |merged| == |d.lhsBatching|
    requires forall i :: 0 <= i < |merged| ==>
               merged[i] == if IsStatic(lhs[d.lhsBatching[i]]) then lhs[d.lhsBatching[i]] else rhs[d.rhsBatching[i]]
    ensures Pick(lhs, d.lhsBatching) == merged
            <==> forall i :: 0 <= i < |d.lhsBatching| ==> IsStatic(lhs[d.lhsBatching[i]]) || IsDynamic(rhs[d.rhsBatching[i]])
  {
    if Pick(lhs, d.lhsBatching) == merged {
      forall i | 0 <= i < |d.lhsBatching| ensures IsStatic(lhs[d.lhsBatching[i]]) || IsDynamic(rhs[d.rhsBatching[i]]) {
        assert Pick(lhs, d.lhsBatching)[i] == merged[i];
      }
    }
  }

  /** Concatenations that agree around two parts of equal length are equal when the parts are. */
  lemma BatchDecides<T>(head: seq<T>, a: seq<T>, b: seq<T>, x: seq<T>, y: seq<T>)
    requires |a| == |b|
    ensures head + a + x + y == head + (b + x + y) <==> a == b
  {
    var left, right := head + a + x + y, head + (b + x + y);
    assert left[|head|..|head| + |a|] == a;
    assert right[|head|..|head| + |b|] == b;
    if a == b { assert left == right; }
  }

  lemma RemoveFromTail<T>(a: seq<T>, x: seq<T>, y: seq<T>, k: nat)
    requires k < |y|
    ensures RemoveAt(a + x + y, |a| + |x| + k) == a + x + RemoveAt(y, k)
  {
  }

  lemma GroupIsFree(rhs: seq<int>, groups: seq<int>, r: RaggedDims)
    requires groups != [] && GroupDimsOk(rhs, groups, r, NonContracting)
    ensures r.rhsGroup == [r.rhsGroup[0]] && r.rhsGroup[0] in RhsFree(rhs, r.dot)
  {
    var g := r.rhsGroup[0];
    NotIn(g, r.rhsGroup, r.dot.rhsBatching);
    NotIn(g, r.rhsGroup, r.dot.rhsContracting);
    InConcat(r.dot.rhsBatching, r.dot.rhsContracting, g);
    ExcludingProperties(|rhs|, r.dot.rhsBatching + r.dot.rhsContracting);
  }

  lemma NotIn(x: int, xs: seq<int>, ys: seq<int>)
    requires Distinct(xs + ys) && xs != [] && xs[0] == x
    ensures x !in ys
  {
    var all := xs + ys;
    forall j | 0 <= j < |ys| ensures ys[j] != x { assert all[0] != all[|xs| + j]; }
  }

  lemma UngroupedSizes(rhs: seq<int>, r: RaggedDims)
    requires |r.rhsGroup| == 1 && r.rhsGroup[0] in RhsFree(rhs, r.dot)
    ensures var k := IndexOf(RhsFree(rhs, r.dot), r.rhsGroup[0]);
            Pick(rhs, RhsUngrouped(rhs, r)) == RemoveAt(Pick(rhs, RhsFree(rhs, r.dot)), k)
  {
    assert r.rhsGroup == [r.rhsGroup[0]];
    var special := r.dot.rhsBatching + r.dot.rhsContracting;
    ExcludeOneMore(|rhs|, special, special + r.rhsGroup, r.rhsGroup[0]);
    ExcludingProperties(|rhs|, special);
    MinusRemoves(RhsFree(rhs, r.dot), r.rhsGroup[0]);
    PickRemoveAt(rhs, RhsFree(rhs, r.dot), IndexOf(RhsFree(rhs, r.dot), r.rhsGroup[0]));
  }

  lemma PickRemoveAt<T>(s: seq<T>, idx: seq<int>, k: nat)
    requires InRange(idx, |s|) && k < |idx|
    ensures InRange(RemoveAt(idx, k), |s|) && Pick(s, RemoveAt(idx, k)) == RemoveAt(Pick(s, idx), k)
  {
  }

  /** A batch dimension of lhs is not contracting. */
  lemma NotBothSpecial(lhs: seq<int>, r: RaggedDims)
    requires Distinct(r.dot.lhsBatching + r.dot.lhsContracting) && |r.lhsRagged| == 1
    ensures r.lhsRagged[0] in r.dot.lhsBatching ==> r.lhsRagged[0] !in r.dot.lhsContracting
  {
    if r.lhsRagged[0] in r.dot.lhsBatching {
      var all := r.dot.lhsBatching + r.dot.lhsContracting;
      var i := IndexOf(r.dot.lhsBatching, r.lhsRagged[0]);
      forall j | 0 <= j < |r.dot.lhsContracting| ensures r.dot.lhsContracting[j] != r.lhsRagged[0] {
        assert all[i] != all[|r.dot.lhsBatching| + j];
      }
    }
  }
}
