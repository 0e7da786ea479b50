/** When the order of branches matters: to the merge of their types, and to the conditional as a whole. */
module BranchOrder {
  import opened Sequences
  import opened Types
  import opened BoundedDims
  import opened BoundedInference
  import opened Concatenation

  // ----- when the merge succeeds

  /** How many dimensions come before the first unknown size. */
  function FirstUnknown(ds: seq<Dim>): (n: nat)
    ensures n <= |ds|
    ensures forall i :: 0 <= i < n ==> IsStatic(ds[i].size)
    ensures n < |ds| ==> IsDynamic(ds[n].size)
  {
    if ds == [] || IsDynamic(ds[0].size) then 0 else 1 + FirstUnknown(ds[1..])
  }

  /** The sizes before the first unknown one are equal. */
  predicate AgreeBeforeUnknown(ds: seq<Dim>) {
    forall i, j :: 0 <= i < FirstUnknown(ds) && 0 <= j < FirstUnknown(ds) ==> ds[i].size == ds[j].size
  }

  predicate StaticSizesEqual(ds: seq<Dim>) {
    forall i, j :: 0 <= i < |ds| && 0 <= j < |ds| && IsStatic(ds[i].size) && IsStatic(ds[j].size) ==> ds[i].size == ds[j].size
  }

  lemma FirstUnknownIs(ds: seq<Dim>, n: nat)
    requires n <= |ds| && (n < |ds| ==> IsDynamic(ds[n].size))
    requires forall i :: 0 <= i < n ==> IsStatic(ds[i].size)
    ensures FirstUnknown(ds) == n
  {
    assert !(n < FirstUnknown(ds)) && !(FirstUnknown(ds) < n);
  }

  lemma FirstUnknownInit(ds: seq<Dim>)
    requires ds != []
    ensures FirstUnknown(ds[..|ds| - 1]) == if FirstUnknown(ds) == |ds| then |ds| - 1 else FirstUnknown(ds)
  {
    FirstUnknownIs(ds[..|ds| - 1], if FirstUnknown(ds) == |ds| then |ds| - 1 else FirstUnknown(ds));
  }

  /** The merge of branch types succeeds if and only if no two different sizes come before the first
      unknown one; the result is static exactly when every operand is. */
  lemma {:induction false} FoldLeastSomeIff(ds: seq<Dim>)
    requires ds != [] && AllValid(ds)
    ensures FoldLeast(ds).Some? <==> AgreeBeforeUnknown(ds)
    ensures FoldLeast(ds).Some? ==> (IsStatic(FoldLeast(ds).value.size) <==> NoUnknown(ds))
    ensures FoldLeast(ds).Some? && NoUnknown(ds) ==> FoldLeast(ds).value.size == ds[0].size
  {
    var n := |ds| - 1;
    if n == 0 {
      assert FirstUnknown(ds) <= 1;
    } else {
      var rest, last := ds[..n], ds[n];
      assert AllValid(rest);
      FoldLeastSomeIff(rest);
      FirstUnknownInit(ds);
      assert last.Valid();
      assert forall i :: 0 <= i < n ==> rest[i] == ds[i];
      assert NoUnknown(ds) <==> NoUnknown(rest) && IsStatic(last.size);
      if FirstUnknown(ds) == |ds| {
        assert AgreeBeforeUnknown(ds) <==> AgreeBeforeUnknown(rest) && ds[0].size == last.size;
      } else {
        assert AgreeBeforeUnknown(ds) <==> AgreeBeforeUnknown(rest);
      }
    }
  }

  // ----- when its order matters

  /** Valid dimensions that stand for the same sizes and are both static or both unknown are equal. */
  lemma SameSizesSameDim(d: Dim, e: Dim)
    requires d.Valid() && e.Valid() && (IsStatic(d.size) <==> IsStatic(e.size))
    requires forall n :: d.Has(n) <==> e.Has(n)
    ensures d == e
  {
    if IsStatic(d.size) {
      assert d.Has(d.size) && e.Has(d.size);
    } else {
      assert IsStatic(d.bound) ==> d.Has(d.bound) && e.Has(d.bound) && !d.Has(d.bound + 1) && !e.Has(d.bound + 1);
      assert IsStatic(e.bound) ==> e.Has(e.bound) && d.Has(e.bound) && !e.Has(e.bound + 1) && !d.Has(e.bound + 1);
    }
  }

  /** Merges of the same dimensions that succeed are equal, whatever the order and the repetitions. */
  lemma {:induction false} FoldLeastAgrees(ds: seq<Dim>, es: seq<Dim>)
    requires ds != [] && es != [] && AllValid(ds) && AllValid(es) && forall d :: d in ds <==> d in es
    requires FoldLeast(ds).Some? && FoldLeast(es).Some?
    ensures FoldLeast(ds) == FoldLeast(es)
  {
    FoldLeastSomeIff(ds);
    FoldLeastSomeIff(es);
    FoldLeastMeaning(ds);
    FoldLeastMeaning(es);
    CoversAll(ds, es);
    CoversAll(es, ds);
    FoldLeastIsLeast(ds, FoldLeast(es).value);
    FoldLeastIsLeast(es, FoldLeast(ds).value);
    NoUnknownTransfer(ds, es);
    NoUnknownTransfer(es, ds);
    SameSizesSameDim(FoldLeast(ds).value, FoldLeast(es).value);
  }

  lemma CoversAll(ds: seq<Dim>, es: seq<Dim>)
    requires es != [] && AllValid(es) && FoldLeast(es).Some? && forall d :: d in ds ==> d in es
    ensures forall i, n :: 0 <= i < |ds| && ds[i].Has(n) ==> FoldLeast(es).value.Has(n)
  {
    FoldLeastMeaning(es);
    forall i, n | 0 <= i < |ds| && ds[i].Has(n) ensures FoldLeast(es).value.Has(n) {
      assert ds[i] in es;
      var j :| 0 <= j < |es| && es[j] == ds[i];
      assert es[j].Has(n);
    }
  }

  lemma NoUnknownTransfer(ds: seq<Dim>, es: seq<Dim>)
    requires forall d :: d in es ==> d in ds
    ensures NoUnknown(ds) ==> NoUnknown(es)
  {
    forall i | 0 <= i < |es| ensures NoUnknown(ds) ==> IsStatic(es[i].size) { assert es[i] in ds; }
  }

  lemma ValidTransfer(ds: seq<Dim>, es: seq<Dim>)
    requires AllValid(ds) && forall d :: d in es ==> d in ds
    ensures AllValid(es)
  {
    forall i | 0 <= i < |es| ensures es[i].Valid() { assert es[i] in ds; }
  }

  lemma StaticSizesTransfer(ds: seq<Dim>, es: seq<Dim>)
    requires StaticSizesEqual(ds) && forall d :: d in es ==> d in ds
    ensures StaticSizesEqual(es)
  {
    forall i, j | 0 <= i < |es| && 0 <= j < |es| && IsStatic(es[i].size) && IsStatic(es[j].size)
      ensures es[i].size == es[j].size
    {
      assert es[i] in ds && es[j] in ds;
    }
  }

  ghost predicate OrderIsImmaterial(ds: seq<Dim>)
    requires ds != []
  {
    forall es: seq<Dim> :: es != [] && multiset(es) == multiset(ds) ==> FoldLeast(es) == FoldLeast(ds)
  }

  lemma SameMembers<T>(s: seq<T>, t: seq<T>)
    requires multiset(s) == multiset(t)
    ensures forall x :: x in s <==> x in t
    ensures |s| == |t|
  {
    forall x ensures x in s <==> x in t { assert x in s <==> x in multiset(s); assert x in t <==> x in multiset(t); }
    assert |multiset(s)| == |s| && |multiset(t)| == |t|;
  }

  /** Every order of the branches merges alike if and only if the static sizes are all equal, or no size
      is unknown. */
  lemma {:induction false} LeastSpecificOrderIff(ds: seq<Dim>)
    requires ds != [] && AllValid(ds)
    ensures OrderIsImmaterial(ds) <==> StaticSizesEqual(ds) || NoUnknown(ds)
  {
    if StaticSizesEqual(ds) || NoUnknown(ds) {
      forall es: seq<Dim> | es != [] && multiset(es) == multiset(ds) ensures FoldLeast(es) == FoldLeast(ds) {
        SameOrderResult(ds, es);
      }
    } else {
      OrderMatters(ds);
    }
  }

  lemma SameOrderResult(ds: seq<Dim>, es: seq<Dim>)
    requires ds != [] && es != [] && AllValid(ds) && multiset(es) == multiset(ds)
    requires StaticSizesEqual(ds) || NoUnknown(ds)
    ensures FoldLeast(es) == FoldLeast(ds)
  {
    SameMembers(ds, es);
    ValidTransfer(ds, es);
    FoldLeastSomeIff(ds);
    FoldLeastSomeIff(es);
    if StaticSizesEqual(ds) {
      StaticSizesTransfer(ds, es);
      FoldLeastAgrees(ds, es);
    } else {
      NoUnknownTransfer(ds, es);
      assert FirstUnknown(ds) == |ds| && FirstUnknown(es) == |es|;
      if AgreeBeforeUnknown(es) {
        assert StaticSizesEqual(es);
        StaticSizesTransfer(es, ds);
      }
    }
  }

  lemma OrderMatters(ds: seq<Dim>)
    requires ds != [] && AllValid(ds) && !StaticSizesEqual(ds) && !NoUnknown(ds)
    ensures !OrderIsImmaterial(ds)
  {
    var i, j :| 0 <= i < |ds| && 0 <= j < |ds| && IsStatic(ds[i].size) && IsStatic(ds[j].size) && ds[i].size != ds[j].size;
    var u :| 0 <= u < |ds| && IsDynamic(ds[u].size);
    var front := MoveToFront(ds, u);
    var one := MoveToFront(ds, j);
    var k := IndexOf(one, ds[i]);
    var two := MoveToFront(one, k);
    ValidTransfer(ds, front);
    ValidTransfer(ds, two);
    FoldLeastSomeIff(front);
    FoldLeastSomeIff(two);
    FirstUnknownIs(front, 0);
    assert FirstUnknown(two) != 0 && FirstUnknown(two) != 1;
    assert multiset(front) == multiset(ds) && multiset(two) == multiset(ds);
  }

  lemma MoveToFront<T>(s: seq<T>, k: nat) returns (t: seq<T>)
    requires k < |s|
    ensures t != [] && multiset(t) == multiset(s) && t[0] == s[k] && |t| == |s|
    ensures forall x :: x in s <==> x in t
    ensures k > 0 ==> |t| > 1 && t[1] == s[0]
  {
    t := [s[k]] + s[..k] + s[k + 1..];
    assert s == s[..k] + [s[k]] + s[k + 1..];
    SameMembers(s, t);
  }

  // ----- conditionals

  /** Any two orders of the same types that merge give the same sizes and bounds. */
  lemma {:induction false} LeastSpecificIgnoresOrder(ts: seq<TensorType>, us: seq<TensorType>)
    requires ts != [] && us != [] && AllWellFormed(ts) && AllWellFormed(us) && forall t :: t in ts <==> t in us
    requires Mergeable(LeastSpecific, ts) && Mergeable(LeastSpecific, us)
    ensures MergedSizes(LeastSpecific, ts) == MergedSizes(LeastSpecific, us)
    ensures MergedBounds(LeastSpecific, ts) == MergedBounds(LeastSpecific, us)
  {
    SameRankTransfer(ts, us);
    forall d | 0 <= d < ts[0].Rank() ensures FoldLeast(Column(ts, d)) == FoldLeast(Column(us, d)) {
      ColumnElements(ts, us, d);
      ColumnElements(us, ts, d);
      FoldLeastAgrees(Column(ts, d), Column(us, d));
    }
    assert MergedSizes(LeastSpecific, ts) == MergedSizes(LeastSpecific, us);
    assert MergedBounds(LeastSpecific, ts) == MergedBounds(LeastSpecific, us);
  }

  predicate CompatibleWithAll(x: Branch, branches: seq<Branch>) {
    forall c :: 0 <= c < |branches| ==> ResultsCompatible(x.results, branches[c].results)
  }

  predicate PairwiseBranchesCompatible(branches: seq<Branch>) {
    forall b :: 0 <= b < |branches| ==> CompatibleWithAll(branches[b], branches)
  }

  ghost predicate EveryOrderAccepted(branches: seq<Branch>) {
    forall bs: seq<Branch> :: multiset(bs) == multiset(branches) ==> ConditionalOk(0, bs)
  }

  ghost predicate EveryOrderAlike(branches: seq<Branch>) {
    forall bs: seq<Branch> :: multiset(bs) == multiset(branches) ==> (ConditionalOk(0, bs) <==> ConditionalOk(0, branches))
  }

  /** Which branch comes first decides, and nothing else about the order does. */
  lemma FirstBranchDecides(branches: seq<Branch>, bs: seq<Branch>)
    requires branches != [] && multiset(bs) == multiset(branches)
    ensures bs != []
    ensures ConditionalOk(0, bs) <==> NoArguments(branches) && CompatibleWithAll(bs[0], branches)
  {
    SameMembers(bs, branches);
    MembersAlike(bs, branches, bs[0]);
    MembersAlike(branches, bs, bs[0]);
    var results := ResultsOf(bs);
    if CompatibleWithAll(bs[0], bs) {
      forall b | 0 <= b < |results| ensures ResultsCompatible(results[0], results[b]) {
        assert ResultsCompatible(bs[0].results, bs[b].results);
      }
    }
    if BranchesCompatible(results) {
      forall b | 0 <= b < |bs| ensures ResultsCompatible(bs[0].results, bs[b].results) {
        assert ResultsCompatible(results[0], results[b]);
      }
    }
  }

  lemma MembersAlike(bs: seq<Branch>, branches: seq<Branch>, x: Branch)
    requires forall b :: b in branches ==> b in bs
    ensures NoArguments(bs) ==> NoArguments(branches)
    ensures CompatibleWithAll(x, bs) ==> CompatibleWithAll(x, branches)
  {
    forall c | 0 <= c < |branches|
      ensures NoArguments(bs) ==> branches[c].numArguments == 0
      ensures CompatibleWithAll(x, bs) ==> ResultsCompatible(x.results, branches[c].results)
    {
      var b := IndexOf(bs, branches[c]);
      assert bs[b] == branches[c];
    }
  }

  /** A conditional is accepted in every order of its branches if and only if they are pairwise
      compatible; the orders are treated alike if and only if all branches, or none, are compatible
      with all the others, or some branch takes arguments. */
  lemma {:induction false} ConditionalOrderIff(branches: seq<Branch>)
    requires branches != []
    ensures EveryOrderAccepted(branches) <==> NoArguments(branches) && PairwiseBranchesCompatible(branches)
    ensures EveryOrderAlike(branches) <==>
              !NoArguments(branches)
              || PairwiseBranchesCompatible(branches)
              || forall b :: 0 <= b < |branches| ==> !CompatibleWithAll(branches[b], branches)
  {
    FirstBranchDecides(branches, branches);
    forall bs: seq<Branch> | multiset(bs) == multiset(branches)
      ensures bs != [] && bs[0] in branches
      ensures ConditionalOk(0, bs) <==> NoArguments(branches) && CompatibleWithAll(bs[0], branches)
    {
      FirstBranchDecides(branches, bs);
      SameMembers(bs, branches);
    }
    forall b | 0 <= b < |branches|
      ensures EveryOrderAccepted(branches) ==> NoArguments(branches) && CompatibleWithAll(branches[b], branches)
      ensures EveryOrderAlike(branches) ==>
                (NoArguments(branches) && CompatibleWithAll(branches[b], branches) <==> ConditionalOk(0, branches))
    {
      var bs := MoveToFront(branches, b);
      FirstBranchDecides(branches, bs);
    }
  }

  /** Whatever orders of the branches are accepted, they infer the same shapes. The whole types are the same
      exactly when both orders start with bounds, or both without, or there is no bound to lose. */
  lemma {:induction false} AcceptedOrdersAgree(branches: seq<Branch>, bs: seq<Branch>, k: nat)
    requires multiset(bs) == multiset(branches) && ConditionalOk(0, branches) && ConditionalOk(0, bs)
    requires BranchesWellFormed(ResultsOf(branches)) && BranchesWellFormed(ResultsOf(bs)) && k < |branches[0].results|
    ensures |bs[0].results| == |branches[0].results|
    ensures Merges(ResultsOf(branches), k)
    ensures var t, u := ConditionalTypes(ResultsOf(branches))[k], ConditionalTypes(ResultsOf(bs))[k];
            && t.shape == u.shape
            && (t == u <==> (branches[0].results[k].bounds == [] <==> bs[0].results[k].bounds == [])
                            || NoLeastBoundToLose(ResultTypes(ResultsOf(branches), k)))
  {
    SameMembers(bs, branches);
    var i := IndexOf(branches, bs[0]);
    assert ResultsCompatible(ResultsOf(branches)[0], ResultsOf(branches)[i]);
    CheckedBranchesMerge(ResultsOf(branches), k);
    CheckedBranchesMerge(ResultsOf(bs), k);
    TypesAlike(branches, bs, k);
    TypesAlike(bs, branches, k);
    var ts, us := ResultTypes(ResultsOf(branches), k), ResultTypes(ResultsOf(bs), k);
    LeastTypesAlike(ts, us);
  }

  lemma {:induction false} LeastTypesAlike(ts: seq<TensorType>, us: seq<TensorType>)
    requires ts != [] && us != [] && AllWellFormed(ts) && AllWellFormed(us) && forall t :: t in ts <==> t in us
    requires InferType(LeastSpecific, ts).Some? && InferType(LeastSpecific, us).Some?
    ensures InferType(LeastSpecific, ts).value.shape == InferType(LeastSpecific, us).value.shape
    ensures InferType(LeastSpecific, ts) == InferType(LeastSpecific, us)
            <==> (ts[0].bounds == [] <==> us[0].bounds == []) || NoLeastBoundToLose(ts)
  {
    LeastSpecificIgnoresOrder(ts, us);
    NoLeastBoundMerged(ts);
    SameRankTransfer(ts, us);
  }

  /** A bounded size and a static one, accepted in both orders: the bound survives only with the bounded
      branch in front. */
  lemma BranchBoundLost()
    ensures var bounded, three := Branch(0, [TensorType([DYNAMIC], [4])]), Branch(0, [TensorType([3], [])]);
            var front, back := ResultsOf([bounded, three]), ResultsOf([three, bounded]);
            && ConditionalOk(0, [bounded, three]) && BranchesWellFormed(front)
            && ConditionalOk(0, [three, bounded]) && BranchesWellFormed(back)
            && ConditionalTypes(front) == [TensorType([DYNAMIC], [4])]
            && ConditionalTypes(back) == [TensorType([DYNAMIC], [])]
  {
    var bounded, three := TensorType([DYNAMIC], [4]), TensorType([3], []);
    TwoBranches(bounded, three);
    TwoBranches(three, bounded);
  }

  lemma TwoBranches(t: TensorType, u: TensorType)
    requires t.WellFormed() && u.WellFormed() && t.Rank() == u.Rank() == 1
    requires TypesCompatible(t, t) && TypesCompatible(t, u)
    requires InferLeastSpecificDimAndBound(DimOf(t, 0), DimOf(u, 0)) == Some(Dim(DYNAMIC, 4))
    ensures var branches := [Branch(0, [t]), Branch(0, [u])];
            && ConditionalOk(0, branches) && BranchesWellFormed(ResultsOf(branches))
            && ConditionalTypes(ResultsOf(branches))
               == [TensorType([DYNAMIC], BoundsToEncoding(t.bounds, if t.bounds != [] then [4] else []))]
  {
    var branches := [Branch(0, [t]), Branch(0, [u])];
    assert ResultsOf(branches) == [[t], [u]];
    assert ResultsCompatible([t], [t]) && ResultsCompatible([t], [u]);
    assert ResultTypes([[t], [u]], 0) == [t, u];
    LeastPair(t, u);
  }

  lemma LeastPair(t: TensorType, u: TensorType)
    requires t.WellFormed() && u.WellFormed() && t.Rank() == u.Rank() == 1
    requires InferLeastSpecificDimAndBound(DimOf(t, 0), DimOf(u, 0)) == Some(Dim(DYNAMIC, 4))
    ensures InferType(LeastSpecific, [t, u]) == Some(TensorType([DYNAMIC], BoundsToEncoding(t.bounds, if t.bounds != [] then [4] else [])))
  {
    var ts := [t, u];
    var col := Column(ts, 0);
    assert col[..1] == [DimOf(t, 0)];
    assert FoldLeast(col) == Some(Dim(DYNAMIC, 4));
    assert MergedSizes(LeastSpecific, ts) == [DYNAMIC] && MergedBounds(LeastSpecific, ts) == [4];
  }

  lemma TypesAlike(branches: seq<Branch>, bs: seq<Branch>, k: nat)
    requires forall b :: 0 <= b < |branches| ==> k < |branches[b].results|
    requires forall b :: 0 <= b < |bs| ==> k < |bs[b].results|
    requires forall b :: b in bs ==> b in branches
    ensures forall t :: t in ResultTypes(ResultsOf(bs), k) ==> t in ResultTypes(ResultsOf(branches), k)
  {
    var ts, us := ResultTypes(ResultsOf(branches), k), ResultTypes(ResultsOf(bs), k);
    forall t | t in us ensures t in ts {
      var b :| 0 <= b < |us| && us[b] == t;
      assert bs[b] in branches;
      var c := IndexOf(branches, bs[b]);
      assert ts[c] == t;
    }
  }

  /** Branches of sizes ?, 2 and 3 are accepted in this order, and rejected with 2 in front. */
  lemma BranchOrderMatters()
    ensures var any := Branch(0, [TensorType([DYNAMIC], [])]);
            var two := Branch(0, [TensorType([2], [])]);
            var three := Branch(0, [TensorType([3], [])]);
            ConditionalOk(0, [any, two, three]) && !ConditionalOk(0, [two, any, three])
  {
    var two, any, three := Branch(0, [TensorType([2], [])]), Branch(0, [TensorType([DYNAMIC], [])]), Branch(0, [TensorType([3], [])]);
    var results: seq<seq<TensorType>> := ResultsOf([two, any, three]);
    assert !CompatibleDims(two.results[0].shape[0], three.results[0].shape[0]);
    assert !TypesCompatible(two.results[0], three.results[0]);
    assert !ResultsCompatible(results[0], results[2]);
  }
}
