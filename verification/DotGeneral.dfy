/** dot_general: constraints, result type, volume. */
module DotGeneral {
  import opened Sequences
  import opened Types
  import opened BoundedDims
  import opened BoundedInference

  datatype DotDims = DotDims(lhsBatching: seq<int>, rhsBatching: seq<int>, lhsContracting: seq<int>, rhsContracting: seq<int>)

  predicate ConstraintsOk(lhs: seq<int>, rhs: seq<int>, d: DotDims) {
    && |d.lhsBatching| == |d.rhsBatching|
    && |d.lhsContracting| == |d.rhsContracting|
    && Distinct(d.lhsBatching + d.lhsContracting)
    && Distinct(d.rhsBatching + d.rhsContracting)
    && InRange(d.lhsBatching, |lhs|) && InRange(d.lhsContracting, |lhs|)
    && InRange(d.rhsBatching, |rhs|) && InRange(d.rhsContracting, |rhs|)
    && PairsCompatible(lhs, d.lhsBatching, rhs, d.rhsBatching)
    && PairsCompatible(lhs, d.lhsContracting, rhs, d.rhsContracting)
  }

  method CheckDotGeneralConstraints(lhs: seq<int>, rhs: seq<int>, d: DotDims) returns (ok: bool)
    ensures ok == ConstraintsOk(lhs, rhs, d)
  {
    if |d.lhsBatching| != |d.rhsBatching| { return false; }
    if |d.lhsContracting| != |d.rhsContracting| { return false; }
    var c := CheckDimsDistinct(d.lhsBatching, d.lhsContracting);
    if !c { return false; }
    c := CheckDimsDistinct(d.rhsBatching, d.rhsContracting);
    if !c { return false; }
    c := CheckDimsInBounds(d.lhsBatching, |lhs|);
    if !c { return false; }
    c := CheckDimsInBounds(d.lhsContracting, |lhs|);
    if !c { return false; }
    c := CheckDimsInBounds(d.rhsBatching, |rhs|);
    if !c { return false; }
    c := CheckDimsInBounds(d.rhsContracting, |rhs|);
    if !c { return false; }
    c := CheckPairsCompatible(lhs, d.lhsBatching, rhs, d.rhsBatching);
    if !c { return false; }
    c := CheckPairsCompatible(lhs, d.lhsContracting, rhs, d.rhsContracting);
    return c;
  }

  /** The dimensions of an operand that are neither batching nor contracting, in order. */
  function FreeDims(rank: nat, batching: seq<int>, contracting: seq<int>): (r: seq<int>)
    ensures InRange(r, rank)
  {
    ExcludingProperties(rank, batching + contracting);
    Excluding(rank, batching + contracting)
  }

  function LhsFree(lhs: seq<int>, d: DotDims): seq<int> { FreeDims(|lhs|, d.lhsBatching, d.lhsContracting) }

  function RhsFree(rhs: seq<int>, d: DotDims): seq<int> { FreeDims(|rhs|, d.rhsBatching, d.rhsContracting) }

  function ResultRank(lhs: seq<int>, rhs: seq<int>, d: DotDims): nat {
    |d.lhsBatching| + |LhsFree(lhs, d)| + |RhsFree(rhs, d)|
  }

  function Dims(t: TensorType, at: seq<int>): (r: seq<Dim>)
    requires t.WellFormed() && InRange(at, t.Rank())
    ensures |r| == |at| && forall i :: 0 <= i < |r| ==> r[i] == DimOf(t, at[i])
  {
    seq(|at|, i requires 0 <= i < |at| => DimOf(t, at[i]))
  }

  function BatchDim(lhs: TensorType, rhs: TensorType, d: DotDims, i: int): Option<Dim>
    requires lhs.WellFormed() && rhs.WellFormed() && ConstraintsOk(lhs.shape, rhs.shape, d) && 0 <= i < |d.lhsBatching|
  {
    InferMostSpecificDimAndBound(DimOf(lhs, d.lhsBatching[i]), DimOf(rhs, d.rhsBatching[i]))
  }

  predicate Inferable(lhs: TensorType, rhs: TensorType, d: DotDims)
    requires lhs.WellFormed() && rhs.WellFormed()
  {
    ConstraintsOk(lhs.shape, rhs.shape, d) && forall i :: 0 <= i < |d.lhsBatching| ==> BatchDim(lhs, rhs, d, i).Some?
  }

  function BatchDims(lhs: TensorType, rhs: TensorType, d: DotDims): (r: seq<Dim>)
    requires lhs.WellFormed() && rhs.WellFormed() && Inferable(lhs, rhs, d)
    ensures |r| == |d.lhsBatching| && forall i :: 0 <= i < |r| ==> Some(r[i]) == BatchDim(lhs, rhs, d, i)
  {
    seq(|d.lhsBatching|, i requires 0 <= i < |d.lhsBatching| => BatchDim(lhs, rhs, d, i).value)
  }

  /** The result dimensions: merged batch dimensions, then the free dimensions of lhs, then of rhs. */
  function ResultDims(lhs: TensorType, rhs: TensorType, d: DotDims): seq<Dim>
    requires lhs.WellFormed() && rhs.WellFormed() && Inferable(lhs, rhs, d)
  {
    BatchDims(lhs, rhs, d) + Dims(lhs, LhsFree(lhs.shape, d)) + Dims(rhs, RhsFree(rhs.shape, d))
  }

  function SizesOf(ds: seq<Dim>): (r: seq<int>)
    ensures |r| == |ds| && forall i :: 0 <= i < |r| ==> r[i] == ds[i].size
  {
    seq(|ds|, i requires 0 <= i < |ds| => ds[i].size)
  }

  function BoundsOf(ds: seq<Dim>): (r: seq<int>)
    ensures |r| == |ds| && forall i :: 0 <= i < |r| ==> r[i] == ds[i].bound
  {
    seq(|ds|, i requires 0 <= i < |ds| => ds[i].bound)
  }

  function OutputEncoding(lhs: TensorType, rhs: TensorType): seq<int> {
    if lhs.bounds != [] then lhs.bounds else rhs.bounds
  }

  lemma {:induction false} ResultDimsValid(lhs: TensorType, rhs: TensorType, d: DotDims)
    requires lhs.WellFormed() && rhs.WellFormed() && Inferable(lhs, rhs, d)
    ensures AllValid(ResultDims(lhs, rhs, d))
    ensures OutputEncoding(lhs, rhs) != [] || AllDynamic(BoundsOf(ResultDims(lhs, rhs, d)))
  {
    var batch := BatchDims(lhs, rhs, d);
    forall i | 0 <= i < |batch|
      ensures batch[i].Valid() && (OutputEncoding(lhs, rhs) == [] ==> IsDynamic(batch[i].bound))
    {
      BatchDimMeaning(lhs, rhs, d, i);
    }
    var dims := ResultDims(lhs, rhs, d);
    forall i | 0 <= i < |dims|
      ensures dims[i].Valid() && (OutputEncoding(lhs, rhs) == [] ==> IsDynamic(dims[i].bound))
    {
      if i < |batch| {
        assert dims[i] == batch[i];
      } else if i < |batch| + |LhsFree(lhs.shape, d)| {
        DimOfValid(lhs, LhsFree(lhs.shape, d)[i - |batch|]);
      } else {
        DimOfValid(rhs, RhsFree(rhs.shape, d)[i - |batch| - |LhsFree(lhs.shape, d)|]);
      }
    }
  }

  lemma BatchDimMeaning(lhs: TensorType, rhs: TensorType, d: DotDims, i: int)
    requires lhs.WellFormed() && rhs.WellFormed() && Inferable(lhs, rhs, d) && 0 <= i < |d.lhsBatching|
    ensures BatchDim(lhs, rhs, d, i).value.Valid()
    ensures forall n :: BatchDim(lhs, rhs, d, i).value.Has(n)
                        <==> DimOf(lhs, d.lhsBatching[i]).Has(n) && DimOf(rhs, d.rhsBatching[i]).Has(n)
    ensures lhs.bounds == [] && rhs.bounds == [] ==> IsDynamic(BatchDim(lhs, rhs, d, i).value.bound)
  {
    DimOfValid(lhs, d.lhsBatching[i]);
    DimOfValid(rhs, d.rhsBatching[i]);
    MostSpecificIsIntersection(DimOf(lhs, d.lhsBatching[i]), DimOf(rhs, d.rhsBatching[i]));
  }

  function DotType(lhs: TensorType, rhs: TensorType, d: DotDims): Option<TensorType>
    requires lhs.WellFormed() && rhs.WellFormed()
  {
    if !Inferable(lhs, rhs, d) then None
    else
      ResultDimsValid(lhs, rhs, d);
      var dims := ResultDims(lhs, rhs, d);
      Some(TensorType(SizesOf(dims), BoundsToEncoding(OutputEncoding(lhs, rhs), BoundsOf(dims))))
  }

  method AppendFreeDims(t: TensorType, batching: seq<int>, contracting: seq<int>, dims: seq<int>, bounds: seq<int>, ghost done: seq<Dim>)
    returns (inferredDimensions: seq<int>, inferredBounds: seq<int>)
    requires t.WellFormed() && dims == SizesOf(done) && bounds == BoundsOf(done)
    ensures var all := done + Dims(t, FreeDims(t.Rank(), batching, contracting));
            inferredDimensions == SizesOf(all) && inferredBounds == BoundsOf(all)
  {
    inferredDimensions, inferredBounds := dims, bounds;
    ghost var free, all := [], done;
    for i := 0 to t.Rank()
      invariant free == Excluding(i, batching + contracting) && InRange(free, t.Rank())
      invariant all == done + Dims(t, free)
      invariant inferredDimensions == SizesOf(all) && inferredBounds == BoundsOf(all)
    {
      InConcat(batching, contracting, i);
      if i !in batching && i !in contracting {
        DimsAppend(t, done, free, i);
        OneMoreDim(all, DimOf(t, i));
        inferredDimensions := inferredDimensions + [t.shape[i]];
        inferredBounds := inferredBounds + [t.Bound(i)];
        free, all := free + [i], all + [DimOf(t, i)];
      }
    }
  }

  lemma OneMoreDim(ds: seq<Dim>, dim: Dim)
    ensures SizesOf(ds + [dim]) == SizesOf(ds) + [dim.size] && BoundsOf(ds + [dim]) == BoundsOf(ds) + [dim.bound]
  {
  }

  lemma DimsAppend(t: TensorType, done: seq<Dim>, at: seq<int>, i: int)
    requires t.WellFormed() && InRange(at, t.Rank()) && 0 <= i < t.Rank()
    ensures InRange(at + [i], t.Rank()) && done + Dims(t, at + [i]) == done + Dims(t, at) + [DimOf(t, i)]
  {
  }

  method MergeBatchDims(lhs: TensorType, rhs: TensorType, d: DotDims) returns (r: Option<(seq<int>, seq<int>)>)
    requires lhs.WellFormed() && rhs.WellFormed() && ConstraintsOk(lhs.shape, rhs.shape, d)
    ensures r.Some? <==> Inferable(lhs, rhs, d)
    ensures r.Some? ==> r.value == (SizesOf(BatchDims(lhs, rhs, d)), BoundsOf(BatchDims(lhs, rhs, d)))
  {
    var inferredDimensions, inferredBounds := [], [];
    for i := 0 to |d.lhsBatching|
      invariant |inferredDimensions| == |inferredBounds| == i
      invariant forall k :: 0 <= k < i ==> BatchDim(lhs, rhs, d, k) == Some(Dim(inferredDimensions[k], inferredBounds[k]))
    {
      var lhsDim, rhsDim := d.lhsBatching[i], d.rhsBatching[i];
      var inferred := InferMostSpecificDimAndBound(Dim(lhs.shape[lhsDim], lhs.Bound(lhsDim)), Dim(rhs.shape[rhsDim], rhs.Bound(rhsDim)));
      if inferred.None? {
        assert BatchDim(lhs, rhs, d, i).None?;
        return None;
      }
      inferredDimensions := inferredDimensions + [inferred.value.size];
      inferredBounds := inferredBounds + [inferred.value.bound];
    }
    assert inferredDimensions == SizesOf(BatchDims(lhs, rhs, d)) && inferredBounds == BoundsOf(BatchDims(lhs, rhs, d));
    return Some((inferredDimensions, inferredBounds));
  }

  method InferDotGeneralOp(lhs: TensorType, rhs: TensorType, d: DotDims) returns (r: Option<TensorType>)
    requires lhs.WellFormed() && rhs.WellFormed()
    ensures r == DotType(lhs, rhs, d)
  {
    var c := CheckDotGeneralConstraints(lhs.shape, rhs.shape, d);
    if !c { return None; }
    var batch := MergeBatchDims(lhs, rhs, d);
    if batch.None? { return None; }
    var inferredDimensions, inferredBounds := batch.value.0, batch.value.1;
    inferredDimensions, inferredBounds := AppendFreeDims(lhs, d.lhsBatching, d.lhsContracting, inferredDimensions, inferredBounds,
                                                         BatchDims(lhs, rhs, d));
    inferredDimensions, inferredBounds := AppendFreeDims(rhs, d.rhsBatching, d.rhsContracting, inferredDimensions, inferredBounds,
                                                         BatchDims(lhs, rhs, d) + Dims(lhs, LhsFree(lhs.shape, d)));
    var outputEncoding := if lhs.bounds != [] then lhs.bounds else rhs.bounds;
    ResultDimsValid(lhs, rhs, d);
    return Some(TensorType(inferredDimensions, BoundsToEncoding(outputEncoding, inferredBounds)));
  }

  /** The inferred type is well-formed exactly when it has dimensions or no operand has bounds: a rank-0
      result inherits the bounds list of lhs, or of rhs if lhs has none. */
  lemma {:induction false} DotTypeWellFormedIff(lhs: TensorType, rhs: TensorType, d: DotDims)
    requires lhs.WellFormed() && rhs.WellFormed() && DotType(lhs, rhs, d).Some?
    ensures DotType(lhs, rhs, d).value.WellFormed()
            <==> ResultRank(lhs.shape, rhs.shape, d) >= 1 || (lhs.bounds == [] && rhs.bounds == [])
    ensures ResultRank(lhs.shape, rhs.shape, d) == 0 ==>
              DotType(lhs, rhs, d).value == TensorType([], if lhs.bounds != [] then lhs.bounds else rhs.bounds)
  {
    ResultDimsValid(lhs, rhs, d);
    var dims := ResultDims(lhs, rhs, d);
    forall i | 0 <= i < |dims|
      ensures ValidSize(dims[i].size) && ValidSize(dims[i].bound) && (IsDynamic(dims[i].bound) || IsDynamic(dims[i].size))
    {
      assert dims[i].Valid();
    }
    EncodingWellFormed(OutputEncoding(lhs, rhs), SizesOf(dims), BoundsOf(dims));
  }

  /** Contracting two vectors of bounded length yields a scalar type that carries a bound. */
  lemma {:induction false} ScalarResultKeepsBounds()
    ensures var v, d := TensorType([DYNAMIC], [4]), DotDims([], [], [0], [0]);
            v.WellFormed() && DotType(v, v, d) == Some(TensorType([], [4])) && !DotType(v, v, d).value.WellFormed()
  {
    var v, d := TensorType([DYNAMIC], [4]), DotDims([], [], [0], [0]);
    assert [] + [0] == [0];
    assert Excluding(0, [0]) == [] && Excluding(1, [0]) == [];
    assert Inferable(v, v, d);
    assert ResultDims(v, v, d) == [];
    assert SizesOf([]) == [] && BoundsOf([]) == [];
  }

  // ----- soundness

  lemma StaticInhabitant(c: seq<int>, t: TensorType)
    requires t.WellFormed() && Inhabits(c, t)
    ensures StaticType(c).WellFormed() && forall i :: 0 <= i < |c| ==> c[i] >= 0
  {
    forall i | 0 <= i < |c| ensures c[i] >= 0 { assert DimOf(t, i).Has(c[i]); }
  }

  /** The dot product of concrete shapes has a shape of the inferred type. */
  lemma {:induction false} DotGeneralSound(lhs: TensorType, rhs: TensorType, d: DotDims, cl: seq<int>, cr: seq<int>)
    requires lhs.WellFormed() && rhs.WellFormed() && DotType(lhs, rhs, d).Some?
    requires Inhabits(cl, lhs) && Inhabits(cr, rhs)
    ensures StaticType(cl).WellFormed() && StaticType(cr).WellFormed()
    ensures DotType(StaticType(cl), StaticType(cr), d).Some? && DotType(lhs, rhs, d).value.WellFormed() ==>
              Inhabits(DotType(StaticType(cl), StaticType(cr), d).value.shape, DotType(lhs, rhs, d).value)
  {
    StaticInhabitant(cl, lhs);
    StaticInhabitant(cr, rhs);
    var sl, sr := StaticType(cl), StaticType(cr);
    if DotType(sl, sr, d).Some? && DotType(lhs, rhs, d).value.WellFormed() {
      var t, c := DotType(lhs, rhs, d).value, DotType(sl, sr, d).value.shape;
      var dims, concrete := ResultDims(lhs, rhs, d), ResultDims(sl, sr, d);
      forall i | 0 <= i < |c| ensures DimOf(t, i).Has(c[i]) {
        ResultDimSound(lhs, rhs, d, cl, cr, i);
        assert dims[i].Has(concrete[i].size);
      }
    }
  }

  lemma {:induction false} ResultDimSound(lhs: TensorType, rhs: TensorType, d: DotDims, cl: seq<int>, cr: seq<int>, i: nat)
    requires lhs.WellFormed() && rhs.WellFormed() && Inferable(lhs, rhs, d)
    requires Inhabits(cl, lhs) && Inhabits(cr, rhs) && StaticType(cl).WellFormed() && StaticType(cr).WellFormed()
    requires Inferable(StaticType(cl), StaticType(cr), d)
    requires i < |ResultDims(lhs, rhs, d)|
    ensures i < |ResultDims(StaticType(cl), StaticType(cr), d)|
    ensures ResultDims(lhs, rhs, d)[i].Has(ResultDims(StaticType(cl), StaticType(cr), d)[i].size)
  {
    var sl, sr := StaticType(cl), StaticType(cr);
    var b, f := |d.lhsBatching|, |LhsFree(lhs.shape, d)|;
    if i < b {
      BatchDimMeaning(lhs, rhs, d, i);
      var l, r := d.lhsBatching[i], d.rhsBatching[i];
      assert DimOf(lhs, l).Has(cl[l]) && DimOf(rhs, r).Has(cr[r]);
      assert BatchDim(sl, sr, d, i).value == Dim(cl[l], DYNAMIC);
      assert cl[l] == cr[r];
      assert ResultDims(lhs, rhs, d)[i] == BatchDims(lhs, rhs, d)[i];
      assert ResultDims(sl, sr, d)[i] == BatchDims(sl, sr, d)[i];
    } else if i < b + f {
      var k := LhsFree(lhs.shape, d)[i - b];
      assert DimOf(lhs, k).Has(cl[k]);
    } else {
      var k := RhsFree(rhs.shape, d)[i - b - f];
      assert DimOf(rhs, k).Has(cr[k]);
    }
  }

  ghost predicate ShareASize(l: Dim, r: Dim) {
    exists n :: l.Has(n) && r.Has(n)
  }

  /** The exact condition under which dot_general infers a type: well-formed dimension lists, batching dimensions
      that have a size in common, and contracting dimensions of equal or unknown sizes. */
  lemma {:induction false} DotTypeIff(lhs: TensorType, rhs: TensorType, d: DotDims)
    requires lhs.WellFormed() && rhs.WellFormed()
    ensures DotType(lhs, rhs, d).Some?
            <==> && |d.lhsBatching| == |d.rhsBatching| && |d.lhsContracting| == |d.rhsContracting|
                 && Distinct(d.lhsBatching) && Distinct(d.lhsContracting) && Disjoint(d.lhsBatching, d.lhsContracting)
                 && Distinct(d.rhsBatching) && Distinct(d.rhsContracting) && Disjoint(d.rhsBatching, d.rhsContracting)
                 && InRange(d.lhsBatching, lhs.Rank()) && InRange(d.lhsContracting, lhs.Rank())
                 && InRange(d.rhsBatching, rhs.Rank()) && InRange(d.rhsContracting, rhs.Rank())
                 && (forall i :: 0 <= i < |d.lhsBatching| ==>
                       ShareASize(DimOf(lhs, d.lhsBatching[i]), DimOf(rhs, d.rhsBatching[i])))
                 && (forall i :: 0 <= i < |d.lhsContracting| ==>
                       var l, r := lhs.shape[d.lhsContracting[i]], rhs.shape[d.rhsContracting[i]];
                       l == DYNAMIC || r == DYNAMIC || l == r)
  {
    DistinctConcatIff(d.lhsBatching, d.lhsContracting);
    DistinctConcatIff(d.rhsBatching, d.rhsContracting);
    if |d.lhsBatching| == |d.rhsBatching| && InRange(d.lhsBatching, lhs.Rank()) && InRange(d.rhsBatching, rhs.Rank()) {
      BatchesMerge(lhs, rhs, d.lhsBatching, d.rhsBatching);
    }
    if ConstraintsOk(lhs.shape, rhs.shape, d) {
      forall i | 0 <= i < |d.lhsBatching|
        ensures BatchDim(lhs, rhs, d, i) == InferMostSpecificDimAndBound(DimOf(lhs, d.lhsBatching[i]), DimOf(rhs, d.rhsBatching[i]))
      {
      }
    }
  }

  lemma BatchesMerge(lhs: TensorType, rhs: TensorType, ls: seq<int>, rs: seq<int>)
    requires lhs.WellFormed() && rhs.WellFormed() && InRange(ls, lhs.Rank()) && InRange(rs, rhs.Rank()) && |ls| == |rs|
    ensures (forall i :: 0 <= i < |ls| ==> ShareASize(DimOf(lhs, ls[i]), DimOf(rhs, rs[i])))
            <==> PairsCompatible(lhs.shape, ls, rhs.shape, rs)
                 && forall i :: 0 <= i < |ls| ==> InferMostSpecificDimAndBound(DimOf(lhs, ls[i]), DimOf(rhs, rs[i])).Some?
  {
    forall i | 0 <= i < |ls|
      ensures ShareASize(DimOf(lhs, ls[i]), DimOf(rhs, rs[i]))
              <==> InferMostSpecificDimAndBound(DimOf(lhs, ls[i]), DimOf(rhs, rs[i])).Some?
      ensures ShareASize(DimOf(lhs, ls[i]), DimOf(rhs, rs[i])) ==> CompatibleDims(lhs.shape[ls[i]], rhs.shape[rs[i]])
    {
      DimOfValid(lhs, ls[i]);
      DimOfValid(rhs, rs[i]);
      MostSpecificIsIntersection(DimOf(lhs, ls[i]), DimOf(rhs, rs[i]));
    }
  }

  /** The inferred type is exact, bounds included: its dimensions are the pairs of batching dimensions, with the
      sizes that both have, then the dimensions that are free in lhs, and then those that are free in rhs. */
  lemma {:induction false} DotGeneralExact(lhs: TensorType, rhs: TensorType, d: DotDims, lhsFree: seq<int>, rhsFree: seq<int>)
    requires lhs.WellFormed() && rhs.WellFormed() && DotType(lhs, rhs, d).Some?
    requires Remaining(lhsFree, lhs.Rank(), d.lhsBatching, d.lhsContracting)
    requires Remaining(rhsFree, rhs.Rank(), d.rhsBatching, d.rhsContracting)
    requires DotType(lhs, rhs, d).value.shape != []
    ensures InRange(d.lhsBatching, lhs.Rank()) && InRange(d.rhsBatching, rhs.Rank()) && |d.lhsBatching| == |d.rhsBatching|
    ensures var t, b, f := DotType(lhs, rhs, d).value, |d.lhsBatching|, |lhsFree|;
            && t.WellFormed() && t.Rank() == b + f + |rhsFree|
            && (forall i, n :: 0 <= i < b ==>
                  (DimOf(t, i).Has(n) <==> DimOf(lhs, d.lhsBatching[i]).Has(n) && DimOf(rhs, d.rhsBatching[i]).Has(n)))
            && (forall i :: 0 <= i < f ==> DimOf(t, b + i) == DimOf(lhs, lhsFree[i]))
            && (forall i :: 0 <= i < |rhsFree| ==> DimOf(t, b + f + i) == DimOf(rhs, rhsFree[i]))
  {
    var t, dims := DotType(lhs, rhs, d).value, ResultDims(lhs, rhs, d);
    RemainingIs(lhsFree, lhs.Rank(), d.lhsBatching, d.lhsContracting);
    RemainingIs(rhsFree, rhs.Rank(), d.rhsBatching, d.rhsContracting);
    DotTypeWellFormedIff(lhs, rhs, d);
    DotDimsAre(lhs, rhs, d);
    ResultDimsSplit(lhs, rhs, d, lhsFree, rhsFree);
    forall i, n | 0 <= i < |d.lhsBatching|
      ensures DimOf(t, i).Has(n) <==> DimOf(lhs, d.lhsBatching[i]).Has(n) && DimOf(rhs, d.rhsBatching[i]).Has(n)
    {
      BatchDimMeaning(lhs, rhs, d, i);
      assert DimOf(t, i) == dims[i];
    }
  }

  /** The dimensions of the inferred type are the inferred dimensions, with their bounds. */
  lemma {:induction false} DotDimsAre(lhs: TensorType, rhs: TensorType, d: DotDims)
    requires lhs.WellFormed() && rhs.WellFormed() && DotType(lhs, rhs, d).Some? && DotType(lhs, rhs, d).value.WellFormed()
    ensures DotType(lhs, rhs, d).value.Rank() == |ResultDims(lhs, rhs, d)|
    ensures forall i :: 0 <= i < |ResultDims(lhs, rhs, d)| ==> DimOf(DotType(lhs, rhs, d).value, i) == ResultDims(lhs, rhs, d)[i]
  {
    ResultDimsValid(lhs, rhs, d);
    var dims := ResultDims(lhs, rhs, d);
    assert DotType(lhs, rhs, d).value.shape == SizesOf(dims);
    assert DotType(lhs, rhs, d).value.bounds == BoundsToEncoding(OutputEncoding(lhs, rhs), BoundsOf(dims));
  }

  lemma ResultDimsSplit(lhs: TensorType, rhs: TensorType, d: DotDims, lhsFree: seq<int>, rhsFree: seq<int>)
    requires lhs.WellFormed() && rhs.WellFormed() && Inferable(lhs, rhs, d)
    requires lhsFree == LhsFree(lhs.shape, d) && rhsFree == RhsFree(rhs.shape, d)
    ensures var dims, b, f := ResultDims(lhs, rhs, d), |d.lhsBatching|, |lhsFree|;
            && |dims| == b + f + |rhsFree|
            && (forall i :: 0 <= i < b ==> Some(dims[i]) == BatchDim(lhs, rhs, d, i))
            && (forall i :: 0 <= i < f ==> dims[b + i] == DimOf(lhs, lhsFree[i]))
            && (forall i :: 0 <= i < |rhsFree| ==> dims[b + f + i] == DimOf(rhs, rhsFree[i]))
  {
  }

  // ----- volume

  lemma {:induction false} OperandVolume(s: seq<int>, batching: seq<int>, contracting: seq<int>)
    requires Distinct(batching + contracting) && InRange(batching, |s|) && InRange(contracting, |s|)
    ensures Product(s) == Product(Pick(s, FreeDims(|s|, batching, contracting))) * Product(Pick(s, batching)) * Product(Pick(s, contracting))
  {
    var free := FreeDims(|s|, batching, contracting);
    var p := free + (batching + contracting);
    ExcludingPermutation(|s|, batching + contracting);
    PickPermutation(s, p);
    FoldsIgnoreOrder(Pick(s, p), s);
    PickTriple(s, free, batching, contracting);
    ProductConcat(Pick(s, free), Pick(s, batching) + Pick(s, contracting));
    ProductConcat(Pick(s, batching), Pick(s, contracting));
    MulAssociative(Product(Pick(s, free)), Product(Pick(s, batching)), Product(Pick(s, contracting)));
  }

  lemma PickTriple(s: seq<int>, a: seq<int>, b: seq<int>, c: seq<int>)
    requires InRange(a, |s|) && InRange(b, |s|) && InRange(c, |s|)
    ensures InRange(a + (b + c), |s|) && Pick(s, a + (b + c)) == Pick(s, a) + (Pick(s, b) + Pick(s, c))
  {
  }

  lemma MulAssociative(x: int, y: int, z: int)
    ensures x * (y * z) == x * y * z
  {
  }

  lemma VolumeAlgebra(fl: int, fr: int, b: int, c: int)
    ensures (fl * b * c) * (fr * b * c) == ((b * fl) * fr) * b * (c * c)
  {
    assert (fl * b * c) * (fr * b * c) == (fl * b) * (c * (fr * b * c)) by { MulAssociative(fl * b, c, fr * b * c); }
    assert c * (fr * b * c) == (fr * b) * (c * c) by { MulAssociative(fr * b, c, c); }
    MulAssociative(fl * b, fr * b, c * c);
    assert (fl * b) * (fr * b) == ((b * fl) * fr) * b by { MulAssociative(b * fl, fr, b); }
  }

  /** For static operands, the volumes of the operands multiply to the volume of the result times the
      batch volume times the square of the contracted volume. */
  lemma {:induction false} VolumeConserved(cl: seq<int>, cr: seq<int>, d: DotDims)
    requires StaticType(cl).WellFormed() && StaticType(cr).WellFormed() && DotType(StaticType(cl), StaticType(cr), d).Some?
    requires (forall i :: 0 <= i < |cl| ==> IsStatic(cl[i])) && (forall i :: 0 <= i < |cr| ==> IsStatic(cr[i]))
    ensures InRange(d.lhsBatching, |cl|) && InRange(d.lhsContracting, |cl|)
    ensures Product(cl) * Product(cr)
            == Product(DotType(StaticType(cl), StaticType(cr), d).value.shape)
               * Product(Pick(cl, d.lhsBatching)) * (Product(Pick(cl, d.lhsContracting)) * Product(Pick(cl, d.lhsContracting)))
  {
    var sl, sr := StaticType(cl), StaticType(cr);
    OperandVolume(cl, d.lhsBatching, d.lhsContracting);
    OperandVolume(cr, d.rhsBatching, d.rhsContracting);
    assert Pick(cr, d.rhsBatching) == Pick(cl, d.lhsBatching);
    assert Pick(cr, d.rhsContracting) == Pick(cl, d.lhsContracting);
    var batch, free, free' := Pick(cl, d.lhsBatching), Pick(cl, LhsFree(cl, d)), Pick(cr, RhsFree(cr, d));
    StaticResult(cl, cr, d);
    ProductConcat(batch + free, free');
    ProductConcat(batch, free);
    VolumeAlgebra(Product(free), Product(free'), Product(batch), Product(Pick(cl, d.lhsContracting)));
  }

  lemma {:induction false} StaticResult(cl: seq<int>, cr: seq<int>, d: DotDims)
    requires StaticType(cl).WellFormed() && StaticType(cr).WellFormed() && DotType(StaticType(cl), StaticType(cr), d).Some?
    requires (forall i :: 0 <= i < |cl| ==> IsStatic(cl[i])) && (forall i :: 0 <= i < |cr| ==> IsStatic(cr[i]))
    ensures DotType(StaticType(cl), StaticType(cr), d).value.shape
            == Pick(cl, d.lhsBatching) + Pick(cl, LhsFree(cl, d)) + Pick(cr, RhsFree(cr, d))
  {
    var sl, sr := StaticType(cl), StaticType(cr);
    forall i | 0 <= i < |d.lhsBatching| ensures BatchDims(sl, sr, d)[i].size == cl[d.lhsBatching[i]] {
      assert Some(BatchDims(sl, sr, d)[i]) == BatchDim(sl, sr, d, i);
    }
  }
}
