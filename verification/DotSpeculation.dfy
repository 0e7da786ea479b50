/** When dot_general may be executed speculatively. */
module DotSpeculation {
  import opened Sequences
  import opened Types
  import opened BoundedDims
  import opened BoundedInference
  import opened DotGeneral

  predicate AllStatic(shape: seq<int>, dims: seq<int>)
    requires InRange(dims, |shape|)
  {
    forall i :: 0 <= i < |dims| ==> IsStatic(shape[dims[i]])
  }

  /** Free dimensions of an operand that are declared static in the result, from `offset` on, are
      static in the operand. */
  predicate FreeStatic(shape: seq<int>, free: seq<int>, result: seq<int>, offset: nat)
    requires InRange(free, |shape|) && offset + |free| <= |result|
  {
    forall k :: 0 <= k < |free| && IsStatic(result[offset + k]) ==> IsStatic(shape[free[k]])
  }

  predicate Speculatable(lhs: seq<int>, rhs: seq<int>, d: DotDims, result: seq<int>)
    requires ConstraintsOk(lhs, rhs, d) && |result| == ResultRank(lhs, rhs, d)
  {
    && AllStatic(lhs, d.lhsBatching) && AllStatic(lhs, d.lhsContracting)
    && AllStatic(rhs, d.rhsBatching) && AllStatic(rhs, d.rhsContracting)
    && FreeStatic(lhs, LhsFree(lhs, d), result, |d.lhsBatching|)
    && FreeStatic(rhs, RhsFree(rhs, d), result, |d.lhsBatching| + |LhsFree(lhs, d)|)
  }

  // ----- the code

  method CheckAllStatic(shape: seq<int>, dims: seq<int>) returns (ok: bool)
    requires InRange(dims, |shape|)
    ensures ok == AllStatic(shape, dims)
  {
    for i := 0 to |dims|
      invariant forall k :: 0 <= k < i ==> IsStatic(shape[dims[k]])
    {
      if IsDynamic(shape[dims[i]]) { return false; }
    }
    return true;
  }

  lemma FreeNext(rank: nat, special: seq<int>, i: nat)
    requires i < rank
    ensures |Excluding(i, special)| <= |Excluding(rank, special)|
    ensures Excluding(i, special) == Excluding(rank, special)[..|Excluding(i, special)|]
    ensures i !in special ==>
              |Excluding(i, special)| < |Excluding(rank, special)| && Excluding(rank, special)[|Excluding(i, special)|] == i
    decreases rank
  {
    if i < rank - 1 {
      FreeNext(rank - 1, special, i);
    }
  }

  /** The walk over one operand: `resultIndex` always names the result dimension that inference filled
      from the current free dimension. */
  method WalkFreeDims(shape: seq<int>, special: seq<int>, result: seq<int>, start: nat)
    returns (ok: bool, resultIndex: nat)
    requires start + |Excluding(|shape|, special)| <= |result| && InRange(Excluding(|shape|, special), |shape|)
    ensures ok == FreeStatic(shape, Excluding(|shape|, special), result, start)
    ensures ok ==> resultIndex == start + |Excluding(|shape|, special)|
  {
    ghost var free := Excluding(|shape|, special);
    resultIndex := start;
    for i := 0 to |shape|
      invariant resultIndex == start + |Excluding(i, special)| && |Excluding(i, special)| <= |free|
      invariant forall k :: 0 <= k < |Excluding(i, special)| && IsStatic(result[start + k]) ==> IsStatic(shape[free[k]])
    {
      FreeNext(|shape|, special, i);
      if i in special { continue; }
      if IsStatic(result[resultIndex]) && IsDynamic(shape[i]) {
        return false, resultIndex;
      }
      resultIndex := resultIndex + 1;
    }
    return true, resultIndex;
  }

  method GetSpeculatability(lhs: seq<int>, rhs: seq<int>, d: DotDims, result: seq<int>) returns (speculatable: bool)
    requires ConstraintsOk(lhs, rhs, d) && |result| == ResultRank(lhs, rhs, d)
    ensures speculatable == Speculatable(lhs, rhs, d, result)
  {
    var c := CheckAllStatic(lhs, d.lhsBatching);
    if !c { return false; }
    c := CheckAllStatic(lhs, d.lhsContracting);
    if !c { return false; }
    c := CheckAllStatic(rhs, d.rhsBatching);
    if !c { return false; }
    c := CheckAllStatic(rhs, d.rhsContracting);
    if !c { return false; }
    var ok, resultIndex := WalkFreeDims(lhs, d.lhsBatching + d.lhsContracting, result, |d.lhsBatching|);
    if !ok { return false; }
    ok, resultIndex := WalkFreeDims(rhs, d.rhsBatching + d.rhsContracting, result, resultIndex);
    return ok;
  }

  // ----- soundness

  /** Static special dimensions leave nothing to disagree about at run time. */
  lemma {:induction false} ConcreteConstraints(lhs: TensorType, rhs: TensorType, d: DotDims, cl: seq<int>, cr: seq<int>)
    requires lhs.WellFormed() && rhs.WellFormed() && Inferable(lhs, rhs, d) && Inhabits(cl, lhs) && Inhabits(cr, rhs)
    requires AllStatic(lhs.shape, d.lhsBatching) && AllStatic(lhs.shape, d.lhsContracting)
    requires AllStatic(rhs.shape, d.rhsBatching) && AllStatic(rhs.shape, d.rhsContracting)
    ensures StaticType(cl).WellFormed() && StaticType(cr).WellFormed()
    ensures DotType(StaticType(cl), StaticType(cr), d).Some?
  {
    StaticInhabitant(cl, lhs);
    StaticInhabitant(cr, rhs);
    forall i | 0 <= i < |d.lhsBatching| ensures cl[d.lhsBatching[i]] == cr[d.rhsBatching[i]] {
      assert DimOf(lhs, d.lhsBatching[i]).Has(cl[d.lhsBatching[i]]);
      assert DimOf(rhs, d.rhsBatching[i]).Has(cr[d.rhsBatching[i]]);
    }
    forall i | 0 <= i < |d.lhsContracting| ensures cl[d.lhsContracting[i]] == cr[d.rhsContracting[i]] {
      assert DimOf(lhs, d.lhsContracting[i]).Has(cl[d.lhsContracting[i]]);
      assert DimOf(rhs, d.rhsContracting[i]).Has(cr[d.rhsContracting[i]]);
    }
    var sl, sr := StaticType(cl), StaticType(cr);
    assert ConstraintsOk(sl.shape, sr.shape, d);
    forall i | 0 <= i < |d.lhsBatching| ensures BatchDim(sl, sr, d, i).Some? {
    }
  }

  /** If a verified dot_general is speculatable, then for every concrete operand shape matching the
      operand types all checks succeed and the result has the declared shape. */
  lemma {:induction false} SpeculatableSound(lhs: TensorType, rhs: TensorType, d: DotDims, result: seq<int>, cl: seq<int>, cr: seq<int>)
    requires lhs.WellFormed() && rhs.WellFormed() && DotType(lhs, rhs, d).Some?
    requires CompatibleShapes(DotType(lhs, rhs, d).value.shape, result)
    requires Speculatable(lhs.shape, rhs.shape, d, result)
    requires Inhabits(cl, lhs) && Inhabits(cr, rhs)
    ensures StaticType(cl).WellFormed() && StaticType(cr).WellFormed()
    ensures DotType(StaticType(cl), StaticType(cr), d).Some?
    ensures CompatibleShapes(DotType(StaticType(cl), StaticType(cr), d).value.shape, result)
  {
    ConcreteConstraints(lhs, rhs, d, cl, cr);
    var c := DotType(StaticType(cl), StaticType(cr), d).value.shape;
    var dims, concrete := ResultDims(lhs, rhs, d), ResultDims(StaticType(cl), StaticType(cr), d);
    forall i | 0 <= i < |result| ensures CompatibleDims(c[i], result[i]) {
      ResultDimSound(lhs, rhs, d, cl, cr, i);
      assert CompatibleDims(dims[i].size, result[i]);
      if IsStatic(result[i]) {
        DeclaredStatic(lhs, rhs, d, result, i);
        assert dims[i].Has(concrete[i].size);
      }
    }
  }

  /** A result dimension declared static was inferred from static operand dimensions. */
  lemma {:induction false} DeclaredStatic(lhs: TensorType, rhs: TensorType, d: DotDims, result: seq<int>, i: nat)
    requires lhs.WellFormed() && rhs.WellFormed() && Inferable(lhs, rhs, d)
    requires |result| == ResultRank(lhs.shape, rhs.shape, d) && Speculatable(lhs.shape, rhs.shape, d, result)
    requires i < |result| && IsStatic(result[i])
    ensures IsStatic(ResultDims(lhs, rhs, d)[i].size)
  {
    var b, f := |d.lhsBatching|, |LhsFree(lhs.shape, d)|;
    if i < b {
      assert ResultDims(lhs, rhs, d)[i] == BatchDims(lhs, rhs, d)[i];
      assert IsStatic(lhs.shape[d.lhsBatching[i]]);
      assert Some(BatchDims(lhs, rhs, d)[i]) == BatchDim(lhs, rhs, d, i);
    } else if i < b + f {
      assert IsStatic(result[b + (i - b)]);
      assert IsStatic(lhs.shape[LhsFree(lhs.shape, d)[i - b]]);
    } else {
      assert IsStatic(result[(b + f) + (i - b - f)]);
      assert IsStatic(rhs.shape[RhsFree(rhs.shape, d)[i - b - f]]);
    }
  }

  // ----- completeness

  /** All checks succeed and the result has the declared shape, whatever the operands. */
  ghost predicate NeverFails(lhs: TensorType, rhs: TensorType, d: DotDims, result: seq<int>)
    requires lhs.WellFormed() && rhs.WellFormed()
  {
    forall cl, cr :: Inhabits(cl, lhs) && Inhabits(cr, rhs) ==> Succeeds(cl, cr, d, result)
  }

  predicate Succeeds(cl: seq<int>, cr: seq<int>, d: DotDims, result: seq<int>) {
    && StaticType(cl).WellFormed() && StaticType(cr).WellFormed()
    && DotType(StaticType(cl), StaticType(cr), d).Some?
    && CompatibleShapes(DotType(StaticType(cl), StaticType(cr), d).value.shape, result)
  }

  /** A verified dot_general whose operands have no unknown size pinned to 0 is speculatable if and only if
      it never fails. */
  lemma {:induction false} SpeculatableComplete(lhs: TensorType, rhs: TensorType, d: DotDims, result: seq<int>)
    requires lhs.WellFormed() && rhs.WellFormed() && DotType(lhs, rhs, d).Some? && KnownSizes(lhs) && KnownSizes(rhs)
    requires CompatibleShapes(DotType(lhs, rhs, d).value.shape, result)
    ensures Speculatable(lhs.shape, rhs.shape, d, result) <==> NeverFails(lhs, rhs, d, result)
  {
    VerifiedRank(lhs, rhs, d, result);
    if Speculatable(lhs.shape, rhs.shape, d, result) {
      forall cl, cr | Inhabits(cl, lhs) && Inhabits(cr, rhs) ensures Succeeds(cl, cr, d, result) {
        SpeculatableSound(lhs, rhs, d, result, cl, cr);
      }
    } else {
      var cl, cr := Failing(lhs, rhs, d, result);
    }
  }

  lemma VerifiedRank(lhs: TensorType, rhs: TensorType, d: DotDims, result: seq<int>)
    requires lhs.WellFormed() && rhs.WellFormed() && DotType(lhs, rhs, d).Some?
    requires CompatibleShapes(DotType(lhs, rhs, d).value.shape, result)
    ensures ConstraintsOk(lhs.shape, rhs.shape, d) && |result| == ResultRank(lhs.shape, rhs.shape, d)
  {
  }

  lemma {:induction false} Failing(lhs: TensorType, rhs: TensorType, d: DotDims, result: seq<int>) returns (cl: seq<int>, cr: seq<int>)
    requires lhs.WellFormed() && rhs.WellFormed() && KnownSizes(lhs) && KnownSizes(rhs)
    requires ConstraintsOk(lhs.shape, rhs.shape, d) && |result| == ResultRank(lhs.shape, rhs.shape, d)
    requires !Speculatable(lhs.shape, rhs.shape, d, result)
    ensures Inhabits(cl, lhs) && Inhabits(cr, rhs) && !Succeeds(cl, cr, d, result)
  {
    if !AllStatic(lhs.shape, d.lhsBatching) || !AllStatic(rhs.shape, d.rhsBatching) {
      cl, cr := Disagreeing(lhs, rhs, d, d.lhsBatching, d.rhsBatching);
    } else if !AllStatic(lhs.shape, d.lhsContracting) || !AllStatic(rhs.shape, d.rhsContracting) {
      cl, cr := Disagreeing(lhs, rhs, d, d.lhsContracting, d.rhsContracting);
    } else if !FreeStatic(lhs.shape, LhsFree(lhs.shape, d), result, |d.lhsBatching|) {
      cl, cr := FailingLhs(lhs, rhs, d, result, |d.lhsBatching|);
    } else {
      cl, cr := FailingRhs(lhs, rhs, d, result, |d.lhsBatching| + |LhsFree(lhs.shape, d)|);
    }
  }

  lemma {:induction false} FailingLhs(lhs: TensorType, rhs: TensorType, d: DotDims, result: seq<int>, b: nat)
    returns (cl: seq<int>, cr: seq<int>)
    requires lhs.WellFormed() && rhs.WellFormed() && KnownSizes(lhs) && KnownSizes(rhs) && b == |d.lhsBatching|
    requires b + |LhsFree(lhs.shape, d)| <= |result| && !FreeStatic(lhs.shape, LhsFree(lhs.shape, d), result, b)
    ensures Inhabits(cl, lhs) && Inhabits(cr, rhs) && !Succeeds(cl, cr, d, result)
  {
    var free := LhsFree(lhs.shape, d);
    var k :| 0 <= k < |free| && IsStatic(result[b + k]) && IsDynamic(lhs.shape[free[k]]);
    cr := LargeInhabitant(rhs, 0);
    cl := Different(lhs, free[k], result[b + k]);
    LhsMismatch(cl, cr, d, result, k);
  }

  lemma {:induction false} FailingRhs(lhs: TensorType, rhs: TensorType, d: DotDims, result: seq<int>, b: nat)
    returns (cl: seq<int>, cr: seq<int>)
    requires lhs.WellFormed() && rhs.WellFormed() && KnownSizes(lhs) && KnownSizes(rhs)
    requires b == |d.lhsBatching| + |LhsFree(lhs.shape, d)|
    requires b + |RhsFree(rhs.shape, d)| <= |result| && !FreeStatic(rhs.shape, RhsFree(rhs.shape, d), result, b)
    ensures Inhabits(cl, lhs) && Inhabits(cr, rhs) && !Succeeds(cl, cr, d, result)
  {
    var free := RhsFree(rhs.shape, d);
    var k :| 0 <= k < |free| && IsStatic(result[b + k]) && IsDynamic(rhs.shape[free[k]]);
    cl := LargeInhabitant(lhs, 0);
    cr := Different(rhs, free[k], result[b + k]);
    RhsMismatch(cl, cr, d, result, k);
  }

  /** Operands that disagree in a paired dimension whose size is not known on both sides. */
  lemma {:induction false} Disagreeing(lhs: TensorType, rhs: TensorType, d: DotDims, ls: seq<int>, rs: seq<int>)
    returns (cl: seq<int>, cr: seq<int>)
    requires lhs.WellFormed() && rhs.WellFormed() && KnownSizes(lhs) && KnownSizes(rhs)
    requires |ls| == |rs| && InRange(ls, lhs.Rank()) && InRange(rs, rhs.Rank())
    requires (ls == d.lhsBatching && rs == d.rhsBatching) || (ls == d.lhsContracting && rs == d.rhsContracting)
    requires !AllStatic(lhs.shape, ls) || !AllStatic(rhs.shape, rs)
    ensures Inhabits(cl, lhs) && Inhabits(cr, rhs) && !ConstraintsOk(cl, cr, d)
  {
    var i;
    if !AllStatic(lhs.shape, ls) {
      i :| 0 <= i < |ls| && IsDynamic(lhs.shape[ls[i]]);
      cr := LargeInhabitant(rhs, 0);
      cl := Different(lhs, ls[i], cr[rs[i]]);
      StaticInhabitant(cr, rhs);
    } else {
      i :| 0 <= i < |rs| && IsDynamic(rhs.shape[rs[i]]);
      cl := LargeInhabitant(lhs, 0);
      cr := Different(rhs, rs[i], cl[ls[i]]);
      StaticInhabitant(cl, lhs);
    }
    assert !CompatibleDims(cl[ls[i]], cr[rs[i]]);
  }

  lemma {:induction false} LhsMismatch(cl: seq<int>, cr: seq<int>, d: DotDims, result: seq<int>, k: nat)
    requires k < |LhsFree(cl, d)| && |d.lhsBatching| + k < |result|
    requires !CompatibleDims(cl[LhsFree(cl, d)[k]], result[|d.lhsBatching| + k])
    ensures !Succeeds(cl, cr, d, result)
  {
    var sl, sr := StaticType(cl), StaticType(cr);
    if sl.WellFormed() && sr.WellFormed() && DotType(sl, sr, d).Some? {
      assert ResultDims(sl, sr, d)[|d.lhsBatching| + k] == DimOf(sl, LhsFree(cl, d)[k]);
    }
  }

  lemma {:induction false} RhsMismatch(cl: seq<int>, cr: seq<int>, d: DotDims, result: seq<int>, k: nat)
    requires k < |RhsFree(cr, d)| && |d.lhsBatching| + |LhsFree(cl, d)| + k < |result|
    requires !CompatibleDims(cr[RhsFree(cr, d)[k]], result[|d.lhsBatching| + |LhsFree(cl, d)| + k])
    ensures !Succeeds(cl, cr, d, result)
  {
    var sl, sr := StaticType(cl), StaticType(cr);
    if sl.WellFormed() && sr.WellFormed() && DotType(sl, sr, d).Some? {
      assert ResultDims(sl, sr, d)[|d.lhsBatching| + |LhsFree(cl, d)| + k] == DimOf(sr, RhsFree(cr, d)[k]);
    }
  }

  // ----- declared bounds are not part of the promise

  /** Verification compares shapes only. A declared bound tighter than the inferred one passes it and
      the speculatability test, and a concrete result can exceed it. */
  lemma {:induction false} DeclaredBoundNotChecked()
    ensures var lhs, rhs, d := TensorType([DYNAMIC], [10]), TensorType([], []), DotDims([], [], [], []);
            var result := TensorType([DYNAMIC], [5]);
            && lhs.WellFormed() && rhs.WellFormed() && result.WellFormed()
            && DotType(lhs, rhs, d).Some? && CompatibleShapes(DotType(lhs, rhs, d).value.shape, result.shape)
            && Speculatable(lhs.shape, rhs.shape, d, result.shape)
            && Inhabits([7], lhs) && Inhabits([], rhs) && StaticType([7]).WellFormed() && StaticType([]).WellFormed()
            && DotType(StaticType([7]), StaticType([]), d) == Some(StaticType([7])) && !Inhabits([7], result)
  {
    var lhs, rhs, d := TensorType([DYNAMIC], [10]), TensorType([], []), DotDims([], [], [], []);
    OuterWithScalar(lhs);
    OuterWithScalar(StaticType([7]));
    assert DotType(lhs, rhs, d).value.shape == [DYNAMIC];
    assert DotType(StaticType([7]), StaticType([]), d).value.shape == [7];
    assert DimOf(lhs, 0).Has(7);
    assert !DimOf(TensorType([DYNAMIC], [5]), 0).Has(7);
  }

  /** The product of a vector with a scalar has the dimension of the vector. */
  lemma {:induction false} OuterWithScalar(t: TensorType)
    requires t.WellFormed() && t.Rank() == 1
    ensures var scalar, d := TensorType([], []), DotDims([], [], [], []);
            && Inferable(t, scalar, d) && ResultDims(t, scalar, d) == [DimOf(t, 0)]
            && LhsFree(t.shape, d) == [0] && RhsFree([], d) == []
            && SizesOf(ResultDims(t, scalar, d)) == t.shape
  {
    var d := DotDims([], [], [], []);
    NothingExcluded();
    assert LhsFree(t.shape, d) == [0] && RhsFree([], d) == [];
    assert Dims(t, [0]) == [DimOf(t, 0)];
  }

  lemma NothingExcluded()
    ensures Excluding(0, [] + []) == [] && Excluding(1, [] + []) == [0]
  {
  }

  /** A declared bound admits every size of the inferred dimension. */
  predicate Covers(x: Dim, bound: int) {
    IsStatic(bound) ==> (if IsStatic(x.size) then x.size <= bound else IsStatic(x.bound) && x.bound <= bound)
  }

  /** The declared type admits every inferred size. */
  predicate BoundsCover(dims: seq<Dim>, result: TensorType)
    requires result.WellFormed() && |dims| == result.Rank()
  {
    forall i :: 0 <= i < |dims| ==> Covers(dims[i], result.Bound(i))
  }

  ghost predicate AlwaysDeclared(lhs: TensorType, rhs: TensorType, d: DotDims, result: TensorType)
    requires lhs.WellFormed() && rhs.WellFormed() && result.WellFormed()
  {
    forall cl, cr :: Inhabits(cl, lhs) && Inhabits(cr, rhs) && StaticType(cl).WellFormed() && StaticType(cr).WellFormed()
                     && DotType(StaticType(cl), StaticType(cr), d).Some?
                     ==> Inhabits(DotType(StaticType(cl), StaticType(cr), d).value.shape, result)
  }

  /** With declared bounds in play, a speculatable verified op always yields a shape of the declared type
      if and only if each declared bound is at least the inferred size or bound. */
  lemma {:induction false} DeclaredTypeIff(lhs: TensorType, rhs: TensorType, d: DotDims, result: TensorType)
    requires lhs.WellFormed() && rhs.WellFormed() && result.WellFormed() && DotType(lhs, rhs, d).Some?
    requires CompatibleShapes(DotType(lhs, rhs, d).value.shape, result.shape)
    requires Speculatable(lhs.shape, rhs.shape, d, result.shape)
    ensures AlwaysDeclared(lhs, rhs, d, result) <==> BoundsCover(ResultDims(lhs, rhs, d), result)
  {
    var dims := ResultDims(lhs, rhs, d);
    if BoundsCover(dims, result) {
      forall cl, cr | Inhabits(cl, lhs) && Inhabits(cr, rhs) && StaticType(cl).WellFormed() && StaticType(cr).WellFormed()
                      && DotType(StaticType(cl), StaticType(cr), d).Some?
        ensures Inhabits(DotType(StaticType(cl), StaticType(cr), d).value.shape, result)
      {
        CoveredResult(lhs, rhs, d, result, cl, cr);
      }
    } else {
      var i :| 0 <= i < |dims| && !Covers(dims[i], result.Bound(i));
      var cl, cr := Exceeding(lhs, rhs, d, result, i);
    }
  }

  lemma {:induction false} CoveredResult(lhs: TensorType, rhs: TensorType, d: DotDims, result: TensorType, cl: seq<int>, cr: seq<int>)
    requires lhs.WellFormed() && rhs.WellFormed() && result.WellFormed() && DotType(lhs, rhs, d).Some?
    requires CompatibleShapes(DotType(lhs, rhs, d).value.shape, result.shape)
    requires Speculatable(lhs.shape, rhs.shape, d, result.shape) && BoundsCover(ResultDims(lhs, rhs, d), result)
    requires Inhabits(cl, lhs) && Inhabits(cr, rhs) && StaticType(cl).WellFormed() && StaticType(cr).WellFormed()
    requires DotType(StaticType(cl), StaticType(cr), d).Some?
    ensures Inhabits(DotType(StaticType(cl), StaticType(cr), d).value.shape, result)
  {
    SpeculatableSound(lhs, rhs, d, result.shape, cl, cr);
    var c := DotType(StaticType(cl), StaticType(cr), d).value.shape;
    var dims, concrete := ResultDims(lhs, rhs, d), ResultDims(StaticType(cl), StaticType(cr), d);
    forall i | 0 <= i < |c| ensures DimOf(result, i).Has(c[i]) {
      ResultDimSound(lhs, rhs, d, cl, cr, i);
      assert dims[i].Has(concrete[i].size);
      assert CompatibleDims(c[i], result.shape[i]);
    }
  }

  /** A member of a dimension beyond `limit`, when the dimension reaches beyond it; the least otherwise. */
  function Beyond(x: Dim, limit: int): int {
    if IsStatic(x.size) then x.size
    else if IsStatic(x.bound) then x.bound
    else Max(limit, 0) + 1
  }

  function LargeInhabitant(t: TensorType, limit: int): (c: seq<int>)
    requires t.WellFormed()
    ensures Inhabits(c, t) && forall k :: 0 <= k < |c| ==> c[k] == Beyond(DimOf(t, k), limit)
  {
    var c := seq(t.Rank(), k requires 0 <= k < t.Rank() => Beyond(DimOf(t, k), limit));
    assert forall k :: 0 <= k < |c| ==> DimOf(t, k).Has(c[k]) by {
      forall k | 0 <= k < |c| ensures DimOf(t, k).Has(c[k]) { DimOfValid(t, k); }
    }
    c
  }

  lemma {:induction false} Exceeding(lhs: TensorType, rhs: TensorType, d: DotDims, result: TensorType, i: nat)
    returns (cl: seq<int>, cr: seq<int>)
    requires lhs.WellFormed() && rhs.WellFormed() && result.WellFormed() && DotType(lhs, rhs, d).Some?
    requires CompatibleShapes(DotType(lhs, rhs, d).value.shape, result.shape)
    requires Speculatable(lhs.shape, rhs.shape, d, result.shape)
    requires i < |ResultDims(lhs, rhs, d)| && !Covers(ResultDims(lhs, rhs, d)[i], result.Bound(i))
    ensures Inhabits(cl, lhs) && Inhabits(cr, rhs) && StaticType(cl).WellFormed() && StaticType(cr).WellFormed()
    ensures DotType(StaticType(cl), StaticType(cr), d).Some?
    ensures !Inhabits(DotType(StaticType(cl), StaticType(cr), d).value.shape, result)
  {
    var limit := result.Bound(i);
    cl, cr := LargeInhabitant(lhs, limit), LargeInhabitant(rhs, limit);
    ConcreteConstraints(lhs, rhs, d, cl, cr);
    var c := DotType(StaticType(cl), StaticType(cr), d).value.shape;
    var dims := ResultDims(lhs, rhs, d);
    ResultDimSound(lhs, rhs, d, cl, cr, i);
    ConcreteEntry(lhs, rhs, d, cl, cr, limit, i);
    assert c[i] > limit;
    assert DimOf(result, i).Valid();
    assert !DimOf(result, i).Has(c[i]);
  }

  lemma {:induction false} ConcreteEntry(lhs: TensorType, rhs: TensorType, d: DotDims, cl: seq<int>, cr: seq<int>, limit: int, i: nat)
    requires lhs.WellFormed() && rhs.WellFormed() && Inferable(lhs, rhs, d)
    requires AllStatic(lhs.shape, d.lhsBatching) && AllStatic(rhs.shape, d.rhsBatching)
    requires cl == LargeInhabitant(lhs, limit) && cr == LargeInhabitant(rhs, limit)
    requires StaticType(cl).WellFormed() && StaticType(cr).WellFormed() && Inferable(StaticType(cl), StaticType(cr), d)
    requires i < |ResultDims(lhs, rhs, d)|
    ensures i < |ResultDims(StaticType(cl), StaticType(cr), d)|
    ensures ResultDims(StaticType(cl), StaticType(cr), d)[i].size == Beyond(ResultDims(lhs, rhs, d)[i], limit)
  {
    var sl, sr := StaticType(cl), StaticType(cr);
    var b, f := |d.lhsBatching|, |LhsFree(lhs.shape, d)|;
    if i < b {
      assert ResultDims(lhs, rhs, d)[i] == BatchDims(lhs, rhs, d)[i] && ResultDims(sl, sr, d)[i] == BatchDims(sl, sr, d)[i];
      assert Some(BatchDims(lhs, rhs, d)[i]) == BatchDim(lhs, rhs, d, i);
      assert Some(BatchDims(sl, sr, d)[i]) == BatchDim(sl, sr, d, i);
      assert IsStatic(lhs.shape[d.lhsBatching[i]]);
    } else if i < b + f {
      assert ResultDims(lhs, rhs, d)[i] == DimOf(lhs, LhsFree(lhs.shape, d)[i - b]);
    } else {
      assert ResultDims(lhs, rhs, d)[i] == DimOf(rhs, RhsFree(rhs.shape, d)[i - b - f]);
    }
  }
}
