/** Type inference with bounds over lists of types: most and least specific types, and the compatibility
    of two types. */
module BoundedInference {
  import opened Sequences
  import opened Types
  import opened BoundedDims

  function DimOf(t: TensorType, d: int): Dim
    requires 0 <= d < t.Rank() && (t.bounds == [] || |t.bounds| == t.Rank())
  {
    Dim(t.shape[d], t.Bound(d))
  }

  lemma DimOfValid(t: TensorType, d: int)
    requires t.WellFormed() && 0 <= d < t.Rank()
    ensures DimOf(t, d).Valid()
  {
  }

  /** The concrete shapes that a type stands for. */
  predicate Inhabits(c: seq<int>, t: TensorType)
    requires t.WellFormed()
  {
    |c| == t.Rank() && forall d :: 0 <= d < |c| ==> DimOf(t, d).Has(c[d])
  }

  /** The fully static type of a concrete shape. */
  function StaticType(c: seq<int>): TensorType { TensorType(c, []) }

  predicate AllWellFormed(ts: seq<TensorType>) {
    forall i :: 0 <= i < |ts| ==> ts[i].WellFormed()
  }

  predicate SameRank(ts: seq<TensorType>, rank: nat) {
    forall i :: 0 <= i < |ts| ==> ts[i].Rank() == rank
  }

  /** Dimension `d` of every type. */
  function Column(ts: seq<TensorType>, d: nat): (r: seq<Dim>)
    requires AllWellFormed(ts) && forall i :: 0 <= i < |ts| ==> d < ts[i].Rank()
    ensures |r| == |ts| && forall i :: 0 <= i < |ts| ==> r[i] == DimOf(ts[i], d)
    ensures AllValid(r)
  {
    var r := seq(|ts|, i requires 0 <= i < |ts| => DimOf(ts[i], d));
    assert AllValid(r) by {
      forall i | 0 <= i < |r| ensures r[i].Valid() { DimOfValid(ts[i], d); }
    }
    r
  }

  datatype Rule = MostSpecific | LeastSpecific

  function Apply(rule: Rule, l: Dim, r: Dim): Option<Dim> {
    match rule
    case MostSpecific => InferMostSpecificDimAndBound(l, r)
    case LeastSpecific => InferLeastSpecificDimAndBound(l, r)
  }

  function Fold(rule: Rule, ds: seq<Dim>): Option<Dim>
    requires ds != []
  {
    match rule
    case MostSpecific => FoldMost(ds)
    case LeastSpecific => FoldLeast(ds)
  }

  lemma FoldSnoc(rule: Rule, ds: seq<Dim>, d: Dim)
    requires ds != []
    ensures Fold(rule, ds + [d]) == match Fold(rule, ds) case None => None case Some(m) => Apply(rule, m, d)
  {
    assert (ds + [d])[..|ds|] == ds;
  }

  lemma {:induction false} FoldValid(rule: Rule, ds: seq<Dim>)
    requires ds != [] && AllValid(ds) && Fold(rule, ds).Some?
    ensures Fold(rule, ds).value.Valid()
  {
    if rule.MostSpecific? { FoldMostMeaning(ds); } else { FoldLeastMeaning(ds); }
  }

  /** Every dimension merges. */
  predicate Mergeable(rule: Rule, ts: seq<TensorType>)
    requires ts != [] && AllWellFormed(ts)
  {
    SameRank(ts, ts[0].Rank()) && forall d :: 0 <= d < ts[0].Rank() ==> Fold(rule, Column(ts, d)).Some?
  }

  function MergedSizes(rule: Rule, ts: seq<TensorType>): (r: seq<int>)
    requires ts != [] && AllWellFormed(ts) && Mergeable(rule, ts)
    ensures |r| == ts[0].Rank() && forall d :: 0 <= d < |r| ==> r[d] == Fold(rule, Column(ts, d)).value.size
  {
    seq(ts[0].Rank(), d requires 0 <= d < ts[0].Rank() => Fold(rule, Column(ts, d)).value.size)
  }

  function MergedBounds(rule: Rule, ts: seq<TensorType>): (r: seq<int>)
    requires ts != [] && AllWellFormed(ts) && Mergeable(rule, ts)
    ensures |r| == ts[0].Rank() && forall d :: 0 <= d < |r| ==> r[d] == Fold(rule, Column(ts, d)).value.bound
  {
    seq(ts[0].Rank(), d requires 0 <= d < ts[0].Rank() => Fold(rule, Column(ts, d)).value.bound)
  }

  /** The inferred type: bounds are kept only if the first type has them. */
  function InferType(rule: Rule, ts: seq<TensorType>): Option<TensorType>
    requires ts != [] && AllWellFormed(ts)
  {
    if !Mergeable(rule, ts) then None
    else Some(TensorType(MergedSizes(rule, ts),
                         BoundsToEncoding(ts[0].bounds, if ts[0].bounds != [] then MergedBounds(rule, ts) else [])))
  }

  method InferTypeWithCustomFn(rule: Rule, rankedTypes: seq<TensorType>) returns (r: Option<TensorType>)
    requires rankedTypes != [] && AllWellFormed(rankedTypes)
    ensures r == InferType(rule, rankedTypes)
  {
    var rank := rankedTypes[0].Rank();
    for i := 0 to |rankedTypes|
      invariant SameRank(rankedTypes[..i], rank)
    {
      if rankedTypes[i].Rank() != rank { return None; }
    }
    assert SameRank(rankedTypes, rank);
    var inferredSizes := rankedTypes[0].shape;
    var inferredBounds := seq(rank, _ => DYNAMIC);
    if rankedTypes[0].bounds != [] { inferredBounds := rankedTypes[0].bounds; }
    var anyInputHaveBounds := rankedTypes[0].bounds != [];
    for i := 1 to |rankedTypes|
      invariant Agree(rule, rankedTypes, rank, 0, i, inferredSizes, inferredBounds)
    {
      for dim := 0 to rank
        invariant Agree(rule, rankedTypes, rank, dim, i, inferredSizes, inferredBounds)
      {
        var inferred := Apply(rule, Dim(inferredSizes[dim], inferredBounds[dim]),
                              Dim(rankedTypes[i].shape[dim], rankedTypes[i].Bound(dim)));
        AgreeStep(rule, rankedTypes, rank, dim, i, inferredSizes, inferredBounds);
        if inferred.None? { return None; }
        inferredSizes := inferredSizes[dim := inferred.value.size];
        inferredBounds := inferredBounds[dim := inferred.value.bound];
      }
      AgreeRow(rule, rankedTypes, rank, i, inferredSizes, inferredBounds);
    }
    AgreeEnd(rule, rankedTypes, rank, inferredSizes, inferredBounds);
    return Some(TensorType(inferredSizes,
                           BoundsToEncoding(rankedTypes[0].bounds, if anyInputHaveBounds then inferredBounds else [])));
  }

  /** The arrays of the double loop hold the folds of the columns: up to and including type `i` before
      dimension `dim`, up to the previous type from there on. */
  ghost predicate Agree(rule: Rule, ts: seq<TensorType>, rank: nat, dim: nat, i: nat, sizes: seq<int>, bounds: seq<int>)
    requires AllWellFormed(ts) && SameRank(ts, rank)
  {
    && 1 <= i <= |ts| && dim <= rank && |sizes| == |bounds| == rank && (dim > 0 ==> i < |ts|)
    && (forall d :: 0 <= d < dim ==> Fold(rule, Column(ts, d)[..i + 1]) == Some(Dim(sizes[d], bounds[d])))
    && (forall d :: dim <= d < rank ==> Fold(rule, Column(ts, d)[..i]) == Some(Dim(sizes[d], bounds[d])))
  }

  lemma AgreeStep(rule: Rule, ts: seq<TensorType>, rank: nat, dim: nat, i: nat, sizes: seq<int>, bounds: seq<int>)
    requires AllWellFormed(ts) && SameRank(ts, rank) && Agree(rule, ts, rank, dim, i, sizes, bounds)
    requires dim < rank && i < |ts|
    ensures var merged := Apply(rule, Dim(sizes[dim], bounds[dim]), Dim(ts[i].shape[dim], ts[i].Bound(dim)));
            && (merged.Some? ==> Agree(rule, ts, rank, dim + 1, i, sizes[dim := merged.value.size], bounds[dim := merged.value.bound]))
            && (merged.None? ==> Fold(rule, Column(ts, dim)).None?)
  {
    var col := Column(ts, dim);
    FoldPrefix(rule, col, i);
    var merged := Apply(rule, Dim(sizes[dim], bounds[dim]), col[i]);
    if merged.None? {
      FoldFails(rule, col, i + 1);
    } else {
      AgreeUpdate(rule, ts, rank, dim, i, sizes, bounds, merged.value);
    }
  }

  lemma FoldPrefix(rule: Rule, ds: seq<Dim>, i: nat)
    requires 1 <= i < |ds|
    ensures Fold(rule, ds[..i + 1]) == match Fold(rule, ds[..i]) case None => None case Some(m) => Apply(rule, m, ds[i])
  {
    assert ds[..i + 1] == ds[..i] + [ds[i]];
    FoldSnoc(rule, ds[..i], ds[i]);
  }

  lemma AgreeUpdate(rule: Rule, ts: seq<TensorType>, rank: nat, dim: nat, i: nat, sizes: seq<int>, bounds: seq<int>, m: Dim)
    requires AllWellFormed(ts) && SameRank(ts, rank) && Agree(rule, ts, rank, dim, i, sizes, bounds)
    requires dim < rank && i < |ts| && Fold(rule, Column(ts, dim)[..i + 1]) == Some(m)
    ensures Agree(rule, ts, rank, dim + 1, i, sizes[dim := m.size], bounds[dim := m.bound])
  {
  }

  lemma {:induction false} FoldFails(rule: Rule, ds: seq<Dim>, n: nat)
    requires 1 <= n <= |ds| && Fold(rule, ds[..n]).None?
    ensures Fold(rule, ds).None?
    decreases |ds|
  {
    if n == |ds| {
      assert ds[..n] == ds;
    } else {
      var m := |ds| - 1;
      assert ds[..m][..n] == ds[..n];
      FoldFails(rule, ds[..m], n);
    }
  }

  lemma AgreeRow(rule: Rule, ts: seq<TensorType>, rank: nat, i: nat, sizes: seq<int>, bounds: seq<int>)
    requires AllWellFormed(ts) && SameRank(ts, rank) && 1 <= i < |ts| && Agree(rule, ts, rank, rank, i, sizes, bounds)
    ensures Agree(rule, ts, rank, 0, i + 1, sizes, bounds)
  {
  }

  lemma AgreeEnd(rule: Rule, ts: seq<TensorType>, rank: nat, sizes: seq<int>, bounds: seq<int>)
    requires ts != [] && AllWellFormed(ts) && SameRank(ts, rank) && Agree(rule, ts, rank, 0, |ts|, sizes, bounds)
    requires rank == ts[0].Rank()
    ensures Mergeable(rule, ts) && sizes == MergedSizes(rule, ts) && bounds == MergedBounds(rule, ts)
  {
    forall d | 0 <= d < rank ensures Fold(rule, Column(ts, d)) == Some(Dim(sizes[d], bounds[d])) {
      assert Column(ts, d)[..|ts|] == Column(ts, d);
    }
  }

  // ----- compatibility of two types

  /** Every static size is within the known bounds. */
  predicate WithinBounds(shape: seq<int>, bounds: seq<int>) {
    forall d :: 0 <= d < |shape| && d < |bounds| && IsStatic(bounds[d]) ==> bounds[d] >= shape[d]
  }

  predicate TypesCompatible(t: TensorType, u: TensorType) {
    CompatibleShapes(t.shape, u.shape) && WithinBounds(t.shape, u.bounds) && WithinBounds(u.shape, t.bounds)
  }

  method CheckWithinBounds(shape: seq<int>, bounds: seq<int>) returns (ok: bool)
    ensures ok == WithinBounds(shape, bounds)
  {
    if shape == [] || bounds == [] { return true; }
    var count := Min(|shape|, |bounds|);
    for d := 0 to count
      invariant forall k :: 0 <= k < d && IsStatic(bounds[k]) ==> bounds[k] >= shape[k]
    {
      if IsStatic(bounds[d]) && bounds[d] < shape[d] { return false; }
    }
    return true;
  }

  method VerifyCompatibleShapeWithBounds(t: TensorType, u: TensorType) returns (ok: bool)
    ensures ok == TypesCompatible(t, u)
  {
    if !CompatibleShapes(t.shape, u.shape) { return false; }
    ok := CheckWithinBounds(t.shape, u.bounds);
    if ok { ok := CheckWithinBounds(u.shape, t.bounds); }
  }

  lemma TypesCompatibleByDim(t: TensorType, u: TensorType)
    requires t.WellFormed() && u.WellFormed() && t.Rank() == u.Rank()
    ensures TypesCompatible(t, u) <==> forall d :: 0 <= d < t.Rank() ==> Compatible(DimOf(t, d), DimOf(u, d))
  {
    if forall d :: 0 <= d < t.Rank() ==> Compatible(DimOf(t, d), DimOf(u, d)) {
      forall d | 0 <= d < t.Rank()
        ensures CompatibleDims(t.shape[d], u.shape[d])
                && (u.bounds != [] && IsStatic(u.bounds[d]) ==> u.bounds[d] >= t.shape[d])
                && (t.bounds != [] && IsStatic(t.bounds[d]) ==> t.bounds[d] >= u.shape[d])
      {
        assert Compatible(DimOf(t, d), DimOf(u, d));
      }
    }
  }

  predicate PairwiseTypesCompatible(ts: seq<TensorType>) {
    forall i, j :: 0 <= i < |ts| && 0 <= j < |ts| ==> TypesCompatible(ts[i], ts[j])
  }

  /** The most specific type exists if and only if the types have equal rank and every pair passes the
      compatibility check. */
  lemma {:induction false} MostSpecificExistsIff(ts: seq<TensorType>)
    requires ts != [] && AllWellFormed(ts)
    ensures InferType(MostSpecific, ts).Some? <==> SameRank(ts, ts[0].Rank()) && PairwiseTypesCompatible(ts)
  {
    if SameRank(ts, ts[0].Rank()) {
      var rank := ts[0].Rank();
      forall d | 0 <= d < rank ensures FoldMost(Column(ts, d)).Some? <==> PairwiseCompatible(Column(ts, d)) {
        FoldMostMeaning(Column(ts, d));
      }
      if PairwiseTypesCompatible(ts) {
        forall d, i, j | 0 <= d < rank && 0 <= i < |ts| && 0 <= j < |ts|
          ensures Compatible(DimOf(ts[i], d), DimOf(ts[j], d))
        {
          TypesCompatibleByDim(ts[i], ts[j]);
        }
      }
      if forall d :: 0 <= d < rank ==> PairwiseCompatible(Column(ts, d)) {
        forall i, j | 0 <= i < |ts| && 0 <= j < |ts| ensures TypesCompatible(ts[i], ts[j]) {
          forall d | 0 <= d < rank ensures Compatible(DimOf(ts[i], d), DimOf(ts[j], d)) {
            var col := Column(ts, d);
            assert Compatible(col[i], col[j]);
          }
          TypesCompatibleByDim(ts[i], ts[j]);
        }
      }
    }
  }

  lemma ColumnElements(ts: seq<TensorType>, us: seq<TensorType>, d: nat)
    requires AllWellFormed(ts) && AllWellFormed(us) && forall t :: t in ts ==> t in us
    requires forall i :: 0 <= i < |ts| ==> d < ts[i].Rank()
    requires forall i :: 0 <= i < |us| ==> d < us[i].Rank()
    ensures forall x :: x in Column(ts, d) ==> x in Column(us, d)
  {
    forall x | x in Column(ts, d) ensures x in Column(us, d) {
      var i :| 0 <= i < |ts| && Column(ts, d)[i] == x;
      assert ts[i] in us;
      var j :| 0 <= j < |us| && us[j] == ts[i];
      assert Column(us, d)[j] == x;
    }
  }

  /** In every dimension some type is static, or no type has a bound: nothing is lost without bounds. */
  predicate NoBoundToLose(ts: seq<TensorType>)
    requires ts != [] && AllWellFormed(ts) && SameRank(ts, ts[0].Rank())
  {
    forall d :: 0 <= d < ts[0].Rank() ==> NoBoundAt(ts, d)
  }

  predicate NoBoundAt(ts: seq<TensorType>, d: nat)
    requires ts != [] && AllWellFormed(ts) && SameRank(ts, ts[0].Rank()) && d < ts[0].Rank()
  {
    (exists i :: 0 <= i < |ts| && IsStatic(ts[i].shape[d])) || (forall i :: 0 <= i < |ts| ==> IsDynamic(ts[i].Bound(d)))
  }

  lemma {:induction false} NoBoundMerged(ts: seq<TensorType>)
    requires ts != [] && AllWellFormed(ts) && Mergeable(MostSpecific, ts)
    ensures AllDynamic(MergedBounds(MostSpecific, ts)) <==> NoBoundToLose(ts)
  {
    forall d | 0 <= d < ts[0].Rank() ensures IsDynamic(MergedBounds(MostSpecific, ts)[d]) <==> NoBoundAt(ts, d) {
      BoundlessColumn(ts, d);
    }
  }

  lemma BoundlessColumn(ts: seq<TensorType>, d: nat)
    requires ts != [] && AllWellFormed(ts) && SameRank(ts, ts[0].Rank()) && d < ts[0].Rank()
    requires FoldMost(Column(ts, d)).Some?
    ensures IsDynamic(FoldMost(Column(ts, d)).value.bound) <==> NoBoundAt(ts, d)
  {
    var col := Column(ts, d);
    FoldMostBoundless(col);
    assert forall i :: 0 <= i < |ts| ==> col[i].size == ts[i].shape[d] && col[i].bound == ts[i].Bound(d);
  }

  /** For every order of the same types the inferred sizes and bounds are the same, and so is success.
      The whole type is the same exactly when both orders start with a type with bounds, or both
      without, or there is no bound to lose. */
  lemma {:induction false} MostSpecificIgnoresOrder(ts: seq<TensorType>, us: seq<TensorType>)
    requires ts != [] && us != [] && AllWellFormed(ts) && AllWellFormed(us)
    requires forall t :: t in ts <==> t in us
    ensures Mergeable(MostSpecific, ts) <==> Mergeable(MostSpecific, us)
    ensures Mergeable(MostSpecific, ts) ==>
              && MergedSizes(MostSpecific, ts) == MergedSizes(MostSpecific, us)
              && MergedBounds(MostSpecific, ts) == MergedBounds(MostSpecific, us)
              && (InferType(MostSpecific, ts) == InferType(MostSpecific, us)
                  <==> (ts[0].bounds == [] <==> us[0].bounds == []) || NoBoundToLose(ts))
  {
    SameRankTransfer(ts, us);
    SameRankTransfer(us, ts);
    if SameRank(ts, ts[0].Rank()) {
      forall d | 0 <= d < ts[0].Rank() ensures FoldMost(Column(ts, d)) == FoldMost(Column(us, d)) {
        ColumnElements(ts, us, d);
        ColumnElements(us, ts, d);
        FoldMostIgnoresOrder(Column(ts, d), Column(us, d));
      }
    }
    if Mergeable(MostSpecific, ts) {
      assert MergedSizes(MostSpecific, ts) == MergedSizes(MostSpecific, us);
      assert MergedBounds(MostSpecific, ts) == MergedBounds(MostSpecific, us);
      NoBoundMerged(ts);
    }
  }

  /** A bounded and an unbounded unknown size: the bound survives only with the bounded type in front. */
  lemma EncodingLost()
    ensures var bounded, free := TensorType([DYNAMIC], [4]), TensorType([DYNAMIC], []);
            && bounded.WellFormed() && free.WellFormed()
            && InferType(MostSpecific, [bounded, free]) == Some(bounded)
            && InferType(MostSpecific, [free, bounded]) == Some(free)
  {
    var bounded, free := TensorType([DYNAMIC], [4]), TensorType([DYNAMIC], []);
    MergedPair(bounded, free);
    MergedPair(free, bounded);
  }

  lemma MergedPair(t: TensorType, u: TensorType)
    requires t.WellFormed() && u.WellFormed() && t.Rank() == u.Rank() == 1
    requires InferMostSpecificDimAndBound(DimOf(t, 0), DimOf(u, 0)) == Some(Dim(DYNAMIC, 4))
    ensures InferType(MostSpecific, [t, u]) == Some(TensorType([DYNAMIC], BoundsToEncoding(t.bounds, if t.bounds != [] then [4] else [])))
  {
    var ts := [t, u];
    var col := Column(ts, 0);
    assert col[..1] == [DimOf(t, 0)];
    assert FoldMost(col) == Some(Dim(DYNAMIC, 4));
    assert MergedSizes(MostSpecific, ts) == [DYNAMIC] && MergedBounds(MostSpecific, ts) == [4];
  }

  /** In every dimension all types are static, or some type is unknown and has no bound: the least specific
      type has no bound to lose. */
  predicate NoLeastBoundToLose(ts: seq<TensorType>)
    requires ts != [] && AllWellFormed(ts) && SameRank(ts, ts[0].Rank())
  {
    forall d :: 0 <= d < ts[0].Rank() ==> NoLeastBoundAt(ts, d)
  }

  predicate NoLeastBoundAt(ts: seq<TensorType>, d: nat)
    requires ts != [] && AllWellFormed(ts) && SameRank(ts, ts[0].Rank()) && d < ts[0].Rank()
  {
    (forall i :: 0 <= i < |ts| ==> IsStatic(ts[i].shape[d]))
    || (exists i :: 0 <= i < |ts| && IsDynamic(ts[i].shape[d]) && IsDynamic(ts[i].Bound(d)))
  }

  lemma {:induction false} NoLeastBoundMerged(ts: seq<TensorType>)
    requires ts != [] && AllWellFormed(ts) && Mergeable(LeastSpecific, ts)
    ensures AllDynamic(MergedBounds(LeastSpecific, ts)) <==> NoLeastBoundToLose(ts)
  {
    forall d | 0 <= d < ts[0].Rank() ensures IsDynamic(MergedBounds(LeastSpecific, ts)[d]) <==> NoLeastBoundAt(ts, d) {
      LeastBoundlessColumn(ts, d);
    }
  }

  lemma LeastBoundlessColumn(ts: seq<TensorType>, d: nat)
    requires ts != [] && AllWellFormed(ts) && SameRank(ts, ts[0].Rank()) && d < ts[0].Rank()
    requires FoldLeast(Column(ts, d)).Some?
    ensures IsDynamic(FoldLeast(Column(ts, d)).value.bound) <==> NoLeastBoundAt(ts, d)
  {
    var col := Column(ts, d);
    FoldLeastBound(col);
    assert forall i :: 0 <= i < |ts| ==> col[i].size == ts[i].shape[d] && col[i].bound == ts[i].Bound(d);
  }

  lemma SameRankTransfer(ts: seq<TensorType>, us: seq<TensorType>)
    requires ts != [] && us != [] && forall t :: t in us ==> t in ts
    ensures SameRank(ts, ts[0].Rank()) ==> us[0].Rank() == ts[0].Rank() && SameRank(us, us[0].Rank())
  {
    if SameRank(ts, ts[0].Rank()) {
      forall i | 0 <= i < |us| ensures us[i].Rank() == ts[0].Rank() {
        assert us[i] in ts;
        var j :| 0 <= j < |ts| && ts[j] == us[i];
      }
    }
  }

  /** No unknown size is pinned to 0 by its bound. */
  predicate KnownSizes(operand: TensorType)
    requires operand.WellFormed()
  {
    forall d :: 0 <= d < operand.Rank() ==> IsStatic(operand.shape[d]) || operand.Bound(d) != 0
  }

  /** A concrete operand whose unknown dimension `d` differs from `n`. */
  lemma Different(t: TensorType, d: int, n: int) returns (c: seq<int>)
    requires t.WellFormed() && KnownSizes(t) && 0 <= d < t.Rank() && IsDynamic(t.shape[d])
    ensures Inhabits(c, t) && c[d] != n && IsStatic(c[d])
  {
    c := seq(t.Rank(), k requires 0 <= k < t.Rank() =>
      if IsStatic(t.shape[k]) then t.shape[k] else if k == d && n == 0 then 1 else 0);
    forall k | 0 <= k < |c| ensures DimOf(t, k).Has(c[k]) {
      assert DimOf(t, k).Valid();
    }
  }

  // ----- soundness

  lemma {:induction false} InferredWellFormed(rule: Rule, ts: seq<TensorType>)
    requires ts != [] && AllWellFormed(ts) && InferType(rule, ts).Some?
    ensures InferType(rule, ts).value.WellFormed()
  {
    forall d | 0 <= d < ts[0].Rank() ensures Fold(rule, Column(ts, d)).value.Valid() {
      FoldValid(rule, Column(ts, d));
    }
  }

  /** The most specific type knows the sizes that some operand knows, the least specific one those that all operands
      know alike. Without bounds on the first type there are none on the result. */
  lemma {:induction false} InferredSizes(rule: Rule, ts: seq<TensorType>, d: nat, n: int)
    requires ts != [] && AllWellFormed(ts) && InferType(rule, ts).Some?
    ensures InferType(rule, ts).value.Rank() == ts[0].Rank() && SameRank(ts, ts[0].Rank())
    ensures ts[0].bounds == [] ==> InferType(rule, ts).value.bounds == []
    ensures d < ts[0].Rank() && n != DYNAMIC ==>
              (InferType(rule, ts).value.shape[d] == n
               <==> if rule.MostSpecific? then exists i :: 0 <= i < |ts| && ts[i].shape[d] == n
                    else forall i :: 0 <= i < |ts| ==> ts[i].shape[d] == n)
  {
    if d < ts[0].Rank() && n != DYNAMIC {
      var ds := Column(ts, d);
      assert forall i :: 0 <= i < |ts| ==> ds[i].size == ts[i].shape[d];
      if rule.MostSpecific? { FoldMostMeaning(ds); } else { FoldLeastSize(ds, n); }
    }
  }

  /** Dropping bounds only enlarges the set of shapes. */
  lemma InhabitsArrays(c: seq<int>, rule: Rule, ts: seq<TensorType>)
    requires ts != [] && AllWellFormed(ts) && InferType(rule, ts).Some? && InferType(rule, ts).value.WellFormed()
    requires |c| == ts[0].Rank() && forall d :: 0 <= d < |c| ==> Fold(rule, Column(ts, d)).value.Has(c[d])
    ensures Inhabits(c, InferType(rule, ts).value)
  {
    var t := InferType(rule, ts).value;
    forall d | 0 <= d < |c| ensures DimOf(t, d).Has(c[d]) {
      assert Fold(rule, Column(ts, d)).value.Has(c[d]);
    }
  }

  /** Every shape of every operand type is a shape of the least specific type. */
  lemma {:induction false} LeastSpecificSound(ts: seq<TensorType>, i: nat, c: seq<int>)
    requires ts != [] && AllWellFormed(ts) && InferType(LeastSpecific, ts).Some? && i < |ts| && Inhabits(c, ts[i])
    ensures InferType(LeastSpecific, ts).value.WellFormed() && Inhabits(c, InferType(LeastSpecific, ts).value)
  {
    InferredWellFormed(LeastSpecific, ts);
    forall d | 0 <= d < |c| ensures FoldLeast(Column(ts, d)).value.Has(c[d]) {
      FoldLeastMeaning(Column(ts, d));
      assert Column(ts, d)[i].Has(c[d]);
    }
    InhabitsArrays(c, LeastSpecific, ts);
  }

  /** No type holds every shape of every operand and fewer besides: with bounds on the first operand, the least specific
      type is the least one. */
  lemma {:induction false} LeastSpecificLeast(ts: seq<TensorType>, u: TensorType, c: seq<int>)
    requires ts != [] && AllWellFormed(ts) && InferType(LeastSpecific, ts).Some? && ts[0].bounds != [] && u.WellFormed()
    requires forall i, b :: 0 <= i < |ts| && Inhabits(b, ts[i]) ==> Inhabits(b, u)
    ensures InferType(LeastSpecific, ts).value.WellFormed()
    ensures Inhabits(c, InferType(LeastSpecific, ts).value) ==> Inhabits(c, u)
  {
    InferredWellFormed(LeastSpecific, ts);
    var t := InferType(LeastSpecific, ts).value;
    if Inhabits(c, t) {
      var zero := WithSize(ts[0], 0, 0);
      assert Inhabits(zero, u);
      forall d | 0 <= d < |c| ensures DimOf(u, d).Has(c[d]) {
        forall i, n | 0 <= i < |ts| && Column(ts, d)[i].Has(n) ensures DimOf(u, d).Has(n) {
          var b := WithSize(ts[i], d, n);
          assert Inhabits(b, u);
        }
        DimOfValid(u, d);
        FoldLeastIsLeast(Column(ts, d), DimOf(u, d));
        assert DimOf(t, d) == FoldLeast(Column(ts, d)).value;
      }
    }
  }

  /** With bounds on the first type, a size that the least specific type leaves unknown can be anything up to what some
      operand can have. */
  lemma {:induction false} LeastSpecificReach(ts: seq<TensorType>, d: nat, n: nat)
    requires ts != [] && AllWellFormed(ts) && InferType(LeastSpecific, ts).Some? && ts[0].bounds != []
    requires d < ts[0].Rank() && InferType(LeastSpecific, ts).value.shape[d] == DYNAMIC
    ensures SameRank(ts, ts[0].Rank()) && InferType(LeastSpecific, ts).value.WellFormed()
    ensures DimOf(InferType(LeastSpecific, ts).value, d).Has(n) <==> exists i :: 0 <= i < |ts| && Reaches(DimOf(ts[i], d), n)
  {
    InferredWellFormed(LeastSpecific, ts);
    var col := Column(ts, d);
    assert DimOf(InferType(LeastSpecific, ts).value, d) == FoldLeast(col).value;
    FoldLeastReach(col, n);
    assert forall i :: 0 <= i < |ts| ==> col[i] == DimOf(ts[i], d);
  }

  /** A shape of the type whose dimension d, if there is one, has size n when it can. */
  lemma WithSize(t: TensorType, d: nat, n: int) returns (c: seq<int>)
    requires t.WellFormed()
    ensures Inhabits(c, t) && (d < t.Rank() && DimOf(t, d).Has(n) ==> c[d] == n)
  {
    c := seq(t.Rank(), k requires 0 <= k < t.Rank() =>
      if k == d && DimOf(t, d).Has(n) then n else if IsStatic(t.shape[k]) then t.shape[k] else 0);
    forall k | 0 <= k < |c| ensures DimOf(t, k).Has(c[k]) { DimOfValid(t, k); }
  }

  /** `dim` has exactly the sizes that dimension d of every operand has. */
  ghost predicate MeetsColumn(dim: Dim, ts: seq<TensorType>, d: nat)
    requires AllWellFormed(ts) && forall i :: 0 <= i < |ts| ==> d < ts[i].Rank()
  {
    forall n :: dim.Has(n) <==> forall i :: 0 <= i < |ts| ==> DimOf(ts[i], d).Has(n)
  }

  lemma {:induction false} ColumnMeaning(ts: seq<TensorType>, d: nat)
    requires ts != [] && AllWellFormed(ts) && InferType(MostSpecific, ts).Some? && d < ts[0].Rank()
    ensures SameRank(ts, ts[0].Rank()) && FoldMost(Column(ts, d)).Some?
    ensures MeetsColumn(FoldMost(Column(ts, d)).value, ts, d)
  {
    FoldMostMeaning(Column(ts, d));
    forall n ensures FoldMost(Column(ts, d)).value.Has(n) <==> forall i :: 0 <= i < |ts| ==> DimOf(ts[i], d).Has(n) {
      assert forall i :: 0 <= i < |ts| ==> (Column(ts, d)[i].Has(n) <==> DimOf(ts[i], d).Has(n));
    }
  }

  /** Every shape common to all operand types is a shape of the most specific type; with bounds on the
      first type there are no others. */
  lemma {:induction false} MostSpecificSound(ts: seq<TensorType>, c: seq<int>)
    requires ts != [] && AllWellFormed(ts) && InferType(MostSpecific, ts).Some?
    ensures InferType(MostSpecific, ts).value.WellFormed()
    ensures (forall i :: 0 <= i < |ts| ==> Inhabits(c, ts[i])) ==> Inhabits(c, InferType(MostSpecific, ts).value)
    ensures ts[0].bounds != [] && Inhabits(c, InferType(MostSpecific, ts).value) ==> forall i :: 0 <= i < |ts| ==> Inhabits(c, ts[i])
  {
    InferredWellFormed(MostSpecific, ts);
    var t, rank := InferType(MostSpecific, ts).value, ts[0].Rank();
    forall d | 0 <= d < rank ensures FoldMost(Column(ts, d)).Some? && MeetsColumn(FoldMost(Column(ts, d)).value, ts, d) {
      ColumnMeaning(ts, d);
    }
    if forall i :: 0 <= i < |ts| ==> Inhabits(c, ts[i]) {
      assert Inhabits(c, ts[0]);
      InhabitsArrays(c, MostSpecific, ts);
    }
    if ts[0].bounds != [] && Inhabits(c, t) {
      forall i | 0 <= i < |ts| ensures Inhabits(c, ts[i]) {
        forall d | 0 <= d < rank ensures DimOf(ts[i], d).Has(c[d]) {
          assert DimOf(t, d).Has(c[d]);
          assert FoldMost(Column(ts, d)).value.Has(c[d]);
        }
      }
    }
  }
}
