/** Shape inference of conditionals and concatenation. */
module Concatenation {
  import opened Sequences
  import opened Types
  import opened BoundedDims
  import opened BoundedInference

  // ----- if and case

  predicate ResultsCompatible(ts: seq<TensorType>, us: seq<TensorType>) {
    |ts| == |us| && forall k :: 0 <= k < |ts| ==> TypesCompatible(ts[k], us[k])
  }

  method CheckResultsCompatible(ts: seq<TensorType>, us: seq<TensorType>) returns (ok: bool)
    ensures ok == ResultsCompatible(ts, us)
  {
    if |ts| != |us| { return false; }
    for k := 0 to |ts|
      invariant forall j :: 0 <= j < k ==> TypesCompatible(ts[j], us[j])
    {
      var c := VerifyCompatibleShapeWithBounds(ts[k], us[k]);
      if !c { return false; }
    }
    return true;
  }

  predicate BranchesWellFormed(branches: seq<seq<TensorType>>) {
    forall b :: 0 <= b < |branches| ==> AllWellFormed(branches[b])
  }

  predicate BranchesCompatible(branches: seq<seq<TensorType>>)
    requires branches != []
  {
    forall b :: 0 <= b < |branches| ==> ResultsCompatible(branches[0], branches[b])
  }

  /** The types of result `k` in all branches. */
  function ResultTypes(branches: seq<seq<TensorType>>, k: nat): (r: seq<TensorType>)
    requires forall b :: 0 <= b < |branches| ==> k < |branches[b]|
    ensures |r| == |branches| && forall b :: 0 <= b < |branches| ==> r[b] == branches[b][k]
  {
    seq(|branches|, b requires 0 <= b < |branches| => branches[b][k])
  }

  /** After the check against the first branch, the merge of the branch types never fails. */
  lemma {:induction false} CheckedBranchesMerge(branches: seq<seq<TensorType>>, k: nat)
    requires branches != [] && BranchesWellFormed(branches) && BranchesCompatible(branches)
    requires k < |branches[0]|
    ensures (forall b :: 0 <= b < |branches| ==> k < |branches[b]|) && AllWellFormed(ResultTypes(branches, k))
    ensures InferType(LeastSpecific, ResultTypes(branches, k)).Some?
  {
    forall b | 0 <= b < |branches|
      ensures k < |branches[b]| && branches[b][k].WellFormed() && TypesCompatible(branches[0][k], branches[b][k])
    {
      assert ResultsCompatible(branches[0], branches[b]);
      assert AllWellFormed(branches[b]);
    }
    var ts := ResultTypes(branches, k);
    forall d | 0 <= d < ts[0].Rank() ensures FoldLeast(Column(ts, d)).Some? {
      var col := Column(ts, d);
      forall b | 0 <= b < |ts| ensures Compatible(col[0], col[b]) {
        TypesCompatibleByDim(ts[0], ts[b]);
      }
      FoldLeastMeaning(col);
    }
  }

  /** A branch region: how many arguments it takes, and the types it yields. */
  datatype Branch = Branch(numArguments: nat, results: seq<TensorType>)

  function ResultsOf(branches: seq<Branch>): (r: seq<seq<TensorType>>)
    ensures |r| == |branches| && forall b :: 0 <= b < |r| ==> r[b] == branches[b].results
  {
    seq(|branches|, b requires 0 <= b < |branches| => branches[b].results)
  }

  predicate NoArguments(branches: seq<Branch>) {
    forall b :: 0 <= b < |branches| ==> branches[b].numArguments == 0
  }

  predicate ConditionalOk(operandRank: nat, branches: seq<Branch>) {
    operandRank == 0 && branches != [] && NoArguments(branches) && BranchesCompatible(ResultsOf(branches))
  }

  /** The result types: least specific over the branches. */
  function ConditionalTypes(branches: seq<seq<TensorType>>): (r: seq<TensorType>)
    requires branches != [] && BranchesWellFormed(branches) && BranchesCompatible(branches)
    ensures |r| == |branches[0]|
    ensures forall k :: 0 <= k < |r| ==>
              Merges(branches, k) && r[k] == InferType(LeastSpecific, ResultTypes(branches, k)).value
  {
    assert forall k :: 0 <= k < |branches[0]| ==> Merges(branches, k) by {
      forall k | 0 <= k < |branches[0]| ensures Merges(branches, k) { CheckedBranchesMerge(branches, k); }
    }
    seq(|branches[0]|, k requires 0 <= k < |branches[0]| =>
      assert Merges(branches, k);
      InferType(LeastSpecific, ResultTypes(branches, k)).value)
  }

  predicate Merges(branches: seq<seq<TensorType>>, k: nat) {
    && branches != [] && (forall b :: 0 <= b < |branches| ==> k < |branches[b]|)
    && AllWellFormed(ResultTypes(branches, k)) && InferType(LeastSpecific, ResultTypes(branches, k)).Some?
  }

  method CollectResultTypes(branches: seq<seq<TensorType>>, k: nat) returns (inputTypes: seq<TensorType>)
    requires forall b :: 0 <= b < |branches| ==> k < |branches[b]|
    ensures inputTypes == ResultTypes(branches, k)
  {
    inputTypes := [];
    for b := 0 to |branches|
      invariant |inputTypes| == b && forall j :: 0 <= j < b ==> inputTypes[j] == branches[j][k]
    {
      inputTypes := inputTypes + [branches[b][k]];
    }
  }

  method MergeResult(branches: seq<seq<TensorType>>, k: nat, ghost spec: seq<TensorType>) returns (t: TensorType)
    requires branches != [] && BranchesWellFormed(branches) && BranchesCompatible(branches) && k < |branches[0]|
    requires spec == ConditionalTypes(branches)
    ensures t == spec[k]
  {
    CheckedBranchesMerge(branches, k);
    var inputTypes := CollectResultTypes(branches, k);
    var inferred := InferTypeWithCustomFn(LeastSpecific, inputTypes);
    return inferred.value;
  }

  method MergeResults(branches: seq<seq<TensorType>>) returns (inferredReturnTypes: seq<TensorType>)
    requires branches != [] && BranchesWellFormed(branches) && BranchesCompatible(branches)
    ensures inferredReturnTypes == ConditionalTypes(branches)
  {
    ghost var spec := ConditionalTypes(branches);
    inferredReturnTypes := [];
    for k := 0 to |branches[0]|
      invariant inferredReturnTypes == spec[..k]
    {
      var t := MergeResult(branches, k, spec);
      inferredReturnTypes := inferredReturnTypes + [t];
    }
  }

  /** Succeeds if and only if there is a branch and every branch takes no arguments and passes the check
      against the first. */
  method InferConditionalOp(operandRank: nat, branches: seq<Branch>) returns (r: Option<seq<TensorType>>)
    requires BranchesWellFormed(ResultsOf(branches))
    ensures r.Some? <==> ConditionalOk(operandRank, branches)
    ensures r.Some? ==> r.value == ConditionalTypes(ResultsOf(branches))
  {
    if operandRank != 0 { return None; }
    if branches == [] { return None; }
    var results := ResultsOf(branches);
    for i := 0 to |branches|
      invariant forall b :: 0 <= b < i ==> branches[b].numArguments == 0 && ResultsCompatible(results[0], results[b])
    {
      if branches[i].numArguments != 0 { return None; }
      var c := CheckResultsCompatible(results[0], results[i]);
      if !c { return None; }
    }
    var inferredReturnTypes := MergeResults(results);
    return Some(inferredReturnTypes);
  }

  /** Whatever shape any branch yields is a shape of the conditional's result type. */
  lemma {:induction false} ConditionalSound(branches: seq<seq<TensorType>>, b: nat, k: nat, c: seq<int>)
    requires branches != [] && BranchesWellFormed(branches) && BranchesCompatible(branches)
    requires b < |branches| && k < |branches[0]| && k < |branches[b]|
    requires branches[b][k].WellFormed() && Inhabits(c, branches[b][k])
    ensures ConditionalTypes(branches)[k].WellFormed() && Inhabits(c, ConditionalTypes(branches)[k])
  {
    CheckedBranchesMerge(branches, k);
    LeastSpecificSound(ResultTypes(branches, k), b, c);
  }

  /** A result has a known size where all branches have it. Where it has none, and the first branch has bounds, it can
      have any size up to what some branch can have. */
  lemma {:induction false} ConditionalExact(branches: seq<seq<TensorType>>, k: nat, ts: seq<TensorType>, d: nat, n: nat)
    requires branches != [] && BranchesWellFormed(branches) && BranchesCompatible(branches) && k < |branches[0]|
    requires |ts| == |branches| && forall b :: 0 <= b < |ts| ==> k < |branches[b]| && ts[b] == branches[b][k]
    requires d < ts[0].Rank()
    ensures |ConditionalTypes(branches)| == |branches[0]| && AllWellFormed(ts) && SameRank(ts, ts[0].Rank())
    ensures var t := ConditionalTypes(branches)[k];
            && t.WellFormed() && t.Rank() == ts[0].Rank() && (ts[0].bounds == [] ==> t.bounds == [])
            && (t.shape[d] == n <==> forall b :: 0 <= b < |ts| ==> ts[b].shape[d] == n)
            && (ts[0].bounds != [] && t.shape[d] == DYNAMIC ==>
                  (DimOf(t, d).Has(n) <==> exists b :: 0 <= b < |ts| && Reaches(DimOf(ts[b], d), n)))
  {
    assert ts == ResultTypes(branches, k);
    CheckedBranchesMerge(branches, k);
    InferredWellFormed(LeastSpecific, ts);
    InferredSizes(LeastSpecific, ts, d, n);
    if ts[0].bounds != [] && ConditionalTypes(branches)[k].shape[d] == DYNAMIC { LeastSpecificReach(ts, d, n); }
  }

  // ----- concatenate

  function FoldSum(ds: seq<Dim>): Dim {
    if ds == [] then Dim(0, DYNAMIC) else InferConcatenatedDimAndBound(FoldSum(ds[..|ds| - 1]), ds[|ds| - 1])
  }

  /** What the concatenation loop computes for a dimension: sums along the concatenation dimension,
      intersections elsewhere. */
  function ConcatDim(ds: seq<Dim>, summed: bool): Option<Dim> {
    if summed then Some(FoldSum(ds)) else if ds == [] then Some(Dim(DYNAMIC, DYNAMIC)) else FoldMost(ds)
  }

  function ConcatStep(l: Dim, r: Dim, summed: bool): Option<Dim> {
    if summed then Some(InferConcatenatedDimAndBound(l, r)) else InferMostSpecificDimAndBound(l, r)
  }

  lemma ConcatDimStep(ds: seq<Dim>, i: nat, summed: bool)
    requires i < |ds| && AllValid(ds)
    ensures ConcatDim(ds[..i + 1], summed)
            == match ConcatDim(ds[..i], summed) case None => None case Some(m) => ConcatStep(m, ds[i], summed)
  {
    assert ds[..i + 1][..i] == ds[..i] && ds[..i + 1][i] == ds[i];
    assert ds[i].Valid();
  }

  lemma {:induction false} ConcatDimFails(ds: seq<Dim>, n: nat, summed: bool)
    requires n <= |ds| && AllValid(ds) && ConcatDim(ds[..n], summed).None?
    ensures ConcatDim(ds, summed).None?
    decreases |ds| - n
  {
    if n < |ds| {
      ConcatDimStep(ds, n, summed);
      ConcatDimFails(ds, n + 1, summed);
    } else {
      assert ds[..n] == ds;
    }
  }

  predicate InputsOk(inputs: seq<TensorType>, dimension: nat)
    requires inputs != []
  {
    && dimension < inputs[0].Rank()
    && SameRank(inputs, inputs[0].Rank())
    && forall i, d :: 0 <= i < |inputs| && 0 <= d < inputs[0].Rank() && d != dimension ==>
         CompatibleDims(inputs[0].shape[d], inputs[i].shape[d])
  }

  predicate Concatenable(inputs: seq<TensorType>, dimension: nat)
    requires inputs != [] && AllWellFormed(inputs)
  {
    InputsOk(inputs, dimension) &&
    forall d :: 0 <= d < inputs[0].Rank() ==> ConcatDim(Column(inputs, d), d == dimension).Some?
  }

  function ConcatSizes(inputs: seq<TensorType>, dimension: nat): (r: seq<int>)
    requires inputs != [] && AllWellFormed(inputs) && Concatenable(inputs, dimension)
    ensures |r| == inputs[0].Rank()
    ensures forall d :: 0 <= d < |r| ==> r[d] == ConcatDim(Column(inputs, d), d == dimension).value.size
  {
    seq(inputs[0].Rank(), d requires 0 <= d < inputs[0].Rank() => ConcatDim(Column(inputs, d), d == dimension).value.size)
  }

  function ConcatBounds(inputs: seq<TensorType>, dimension: nat): (r: seq<int>)
    requires inputs != [] && AllWellFormed(inputs) && Concatenable(inputs, dimension)
    ensures |r| == inputs[0].Rank()
    ensures forall d :: 0 <= d < |r| ==> r[d] == ConcatDim(Column(inputs, d), d == dimension).value.bound
  {
    seq(inputs[0].Rank(), d requires 0 <= d < inputs[0].Rank() => ConcatDim(Column(inputs, d), d == dimension).value.bound)
  }

  /** The first encoding present, if any. */
  function WitnessEncoding(inputs: seq<TensorType>): (r: seq<int>)
    ensures r == [] <==> forall i :: 0 <= i < |inputs| ==> inputs[i].bounds == []
  {
    if inputs == [] then []
    else if inputs[0].bounds != [] then inputs[0].bounds
    else
      assert forall i :: 0 < i < |inputs| ==> inputs[i] == inputs[1..][i - 1];
      WitnessEncoding(inputs[1..])
  }

  function Concatenated(inputs: seq<TensorType>, dimension: nat): Option<TensorType>
    requires inputs != [] && AllWellFormed(inputs)
  {
    if !Concatenable(inputs, dimension) then None
    else
      var witnessEncoding := WitnessEncoding(inputs);
      Some(TensorType(ConcatSizes(inputs, dimension),
                      BoundsToEncoding(witnessEncoding, if witnessEncoding != [] then ConcatBounds(inputs, dimension) else [])))
  }

  ghost predicate AnyBounds(inputs: seq<TensorType>, n: nat) {
    n <= |inputs| && exists k :: 0 <= k < n && inputs[k].bounds != []
  }

  method InferConcatenateOp(inputTypes: seq<TensorType>, dimension: nat) returns (r: Option<TensorType>)
    requires inputTypes != [] && AllWellFormed(inputTypes)
    ensures r == Concatenated(inputTypes, dimension)
  {
    var c := CheckConcatInputs(inputTypes, dimension);
    if !c { return None; }
    var rank := inputTypes[0].Rank();
    var inferredSizes, inferredBounds := seq(rank, _ => DYNAMIC), seq(rank, _ => DYNAMIC);
    inferredSizes := inferredSizes[dimension := 0];
    var anyInputHaveBounds := false;
    for i := 0 to |inputTypes|
      invariant Progress(inputTypes, rank, dimension, 0, i, inferredSizes, inferredBounds)
      invariant anyInputHaveBounds == AnyBounds(inputTypes, i)
    {
      if inputTypes[i].bounds != [] { anyInputHaveBounds := true; }
      var row := MergeInput(inputTypes, rank, dimension, i, inferredSizes, inferredBounds);
      if row.None? { return None; }
      inferredSizes, inferredBounds := row.value.0, row.value.1;
    }
    ProgressEnd(inputTypes, rank, dimension, inferredSizes, inferredBounds);
    return Some(TensorType(inferredSizes,
                           BoundsToEncoding(WitnessEncoding(inputTypes), if anyInputHaveBounds then inferredBounds else [])));
  }

  /** The inner loop over the dimensions of one input. */
  method MergeInput(inputTypes: seq<TensorType>, rank: nat, dimension: nat, i: nat, sizes: seq<int>, bounds: seq<int>)
    returns (r: Option<(seq<int>, seq<int>)>)
    requires inputTypes != [] && AllWellFormed(inputTypes) && SameRank(inputTypes, rank) && dimension < rank
    requires i < |inputTypes| && Progress(inputTypes, rank, dimension, 0, i, sizes, bounds)
    ensures r.Some? ==> Progress(inputTypes, rank, dimension, 0, i + 1, r.value.0, r.value.1)
    ensures r.None? ==> !Concatenable(inputTypes, dimension)
  {
    var inferredSizes, inferredBounds := sizes, bounds;
    for dim := 0 to rank
      invariant Progress(inputTypes, rank, dimension, dim, i, inferredSizes, inferredBounds)
    {
      var left := Dim(inferredSizes[dim], inferredBounds[dim]);
      var right := Dim(inputTypes[i].shape[dim], inputTypes[i].Bound(dim));
      ProgressStep(inputTypes, rank, dimension, dim, i, inferredSizes, inferredBounds);
      var inferred := ConcatStep(left, right, dim == dimension);
      if inferred.None? { return None; }
      inferredSizes := inferredSizes[dim := inferred.value.size];
      inferredBounds := inferredBounds[dim := inferred.value.bound];
    }
    return Some((inferredSizes, inferredBounds));
  }

  method CheckConcatInputs(inputTypes: seq<TensorType>, dimension: nat) returns (ok: bool)
    requires inputTypes != []
    ensures ok == InputsOk(inputTypes, dimension)
  {
    var rank := inputTypes[0].Rank();
    if rank == 0 { return false; }
    if dimension >= rank { return false; }
    for i := 0 to |inputTypes|
      invariant forall k :: 0 <= k < i ==> inputTypes[k].Rank() == rank
      invariant forall k, d :: 0 <= k < i && 0 <= d < rank && d != dimension ==>
        CompatibleDims(inputTypes[0].shape[d], inputTypes[k].shape[d])
    {
      if inputTypes[i].Rank() != rank { return false; }
      for d := 0 to rank
        invariant forall e :: 0 <= e < d && e != dimension ==> CompatibleDims(inputTypes[0].shape[e], inputTypes[i].shape[e])
      {
        if d != dimension && !CompatibleDims(inputTypes[0].shape[d], inputTypes[i].shape[d]) { return false; }
      }
    }
    return true;
  }

  ghost predicate Progress(ts: seq<TensorType>, rank: nat, dimension: nat, dim: nat, i: nat, sizes: seq<int>, bounds: seq<int>)
    requires AllWellFormed(ts) && SameRank(ts, rank)
  {
    && i <= |ts| && dim <= rank && |sizes| == |bounds| == rank && (dim > 0 ==> i < |ts|)
    && (forall d :: 0 <= d < dim ==> ConcatDim(Column(ts, d)[..i + 1], d == dimension) == Some(Dim(sizes[d], bounds[d])))
    && (forall d :: dim <= d < rank ==> ConcatDim(Column(ts, d)[..i], d == dimension) == Some(Dim(sizes[d], bounds[d])))
  }

  lemma ProgressStep(ts: seq<TensorType>, rank: nat, dimension: nat, dim: nat, i: nat, sizes: seq<int>, bounds: seq<int>)
    requires ts != [] && AllWellFormed(ts) && SameRank(ts, rank) && Progress(ts, rank, dimension, dim, i, sizes, bounds)
    requires dim < rank && i < |ts|
    ensures var merged := ConcatStep(Dim(sizes[dim], bounds[dim]), Dim(ts[i].shape[dim], ts[i].Bound(dim)), dim == dimension);
            && (merged.Some? ==> Progress(ts, rank, dimension, dim + 1, i, sizes[dim := merged.value.size], bounds[dim := merged.value.bound]))
            && (merged.None? ==> ConcatDim(Column(ts, dim), dim == dimension).None?)
  {
    var col := Column(ts, dim);
    ConcatDimStep(col, i, dim == dimension);
    var merged := ConcatStep(Dim(sizes[dim], bounds[dim]), col[i], dim == dimension);
    if merged.None? {
      ConcatDimFails(col, i + 1, dim == dimension);
    } else {
      ProgressUpdate(ts, rank, dimension, dim, i, sizes, bounds, merged.value);
    }
  }

  lemma ProgressUpdate(ts: seq<TensorType>, rank: nat, dimension: nat, dim: nat, i: nat, sizes: seq<int>, bounds: seq<int>, m: Dim)
    requires AllWellFormed(ts) && SameRank(ts, rank) && Progress(ts, rank, dimension, dim, i, sizes, bounds)
    requires dim < rank && i < |ts| && ConcatDim(Column(ts, dim)[..i + 1], dim == dimension) == Some(m)
    ensures Progress(ts, rank, dimension, dim + 1, i, sizes[dim := m.size], bounds[dim := m.bound])
  {
  }

  lemma ProgressEnd(ts: seq<TensorType>, rank: nat, dimension: nat, sizes: seq<int>, bounds: seq<int>)
    requires ts != [] && AllWellFormed(ts) && SameRank(ts, rank) && Progress(ts, rank, dimension, 0, |ts|, sizes, bounds)
    requires rank == ts[0].Rank() && InputsOk(ts, dimension)
    ensures Concatenable(ts, dimension) && sizes == ConcatSizes(ts, dimension) && bounds == ConcatBounds(ts, dimension)
  {
    forall d | 0 <= d < rank ensures ConcatDim(Column(ts, d), d == dimension) == Some(Dim(sizes[d], bounds[d])) {
      assert Column(ts, d)[..|ts|] == Column(ts, d);
    }
  }

  // ----- concatenation is sound

  /** Sums of members are members of the summed dimension. */
  lemma {:induction false} FoldSumMeaning(ds: seq<Dim>, ns: seq<int>)
    requires |ds| == |ns| && AllValid(ds) && forall i :: 0 <= i < |ds| ==> ds[i].Has(ns[i])
    ensures FoldSum(ds).Valid() && FoldSum(ds).Has(Sum(ns))
  {
    if ds != [] {
      var n := |ds| - 1;
      FoldSumMeaning(ds[..n], ns[..n]);
      ConcatenatedIsSum(FoldSum(ds[..n]), ds[n]);
      SumStep(ns, n);
      assert ns[..n + 1] == ns;
    }
  }

  lemma {:induction false} FoldSumValid(ds: seq<Dim>)
    requires AllValid(ds)
    ensures FoldSum(ds).Valid()
  {
    if ds != [] {
      FoldSumValid(ds[..|ds| - 1]);
      ConcatenatedIsSum(FoldSum(ds[..|ds| - 1]), ds[|ds| - 1]);
    }
  }

  lemma {:induction false} FoldSumStatic(ds: seq<Dim>, ns: seq<int>)
    requires |ds| == |ns| && forall i :: 0 <= i < |ds| ==> ns[i] >= 0 && ds[i] == Dim(ns[i], DYNAMIC)
    ensures Sum(ns) >= 0 && FoldSum(ds) == Dim(Sum(ns), DYNAMIC)
  {
    if ds != [] {
      var n := |ds| - 1;
      FoldSumStatic(ds[..n], ns[..n]);
      SumStep(ns, n);
      assert ns[..n + 1] == ns;
    }
  }

  function StaticTypes(cs: seq<seq<int>>): (r: seq<TensorType>)
    ensures |r| == |cs| && forall i :: 0 <= i < |cs| ==> r[i] == StaticType(cs[i])
  {
    seq(|cs|, i requires 0 <= i < |cs| => StaticType(cs[i]))
  }

  lemma {:induction false} ConcatenatedWellFormed(inputs: seq<TensorType>, dimension: nat)
    requires inputs != [] && AllWellFormed(inputs) && Concatenated(inputs, dimension).Some?
    ensures Concatenated(inputs, dimension).value.WellFormed()
  {
    forall d | 0 <= d < inputs[0].Rank() ensures ConcatDim(Column(inputs, d), d == dimension).value.Valid() {
      if d == dimension { FoldSumValid(Column(inputs, d)); } else { FoldMostMeaning(Column(inputs, d)); }
    }
  }

  /** The shape of concatenating concrete shapes lies in the inferred type: the sum along the
      dimension, the common size elsewhere. */
  lemma {:induction false} ConcatenateSound(inputs: seq<TensorType>, cs: seq<seq<int>>, dimension: nat)
    requires inputs != [] && AllWellFormed(inputs) && Concatenated(inputs, dimension).Some?
    requires |cs| == |inputs| && forall i :: 0 <= i < |cs| ==> Inhabits(cs[i], inputs[i])
    ensures AllWellFormed(StaticTypes(cs)) && Concatenated(inputs, dimension).value.WellFormed()
    ensures Concatenated(StaticTypes(cs), dimension).Some? ==>
              Inhabits(Concatenated(StaticTypes(cs), dimension).value.shape, Concatenated(inputs, dimension).value)
  {
    ConcatenatedWellFormed(inputs, dimension);
    StaticsWellFormed(inputs, cs);
    var ss, t := StaticTypes(cs), Concatenated(inputs, dimension).value;
    if Concatenated(ss, dimension).Some? {
      var c := Concatenated(ss, dimension).value.shape;
      assert Inhabits(cs[0], inputs[0]);
      forall d | 0 <= d < |c| ensures DimOf(t, d).Has(c[d]) {
        ConcatDimSound(inputs, cs, dimension, d);
        assert c[d] == ConcatDim(Column(ss, d), d == dimension).value.size;
      }
    }
  }

  lemma StaticsWellFormed(inputs: seq<TensorType>, cs: seq<seq<int>>)
    requires AllWellFormed(inputs) && |cs| == |inputs| && forall i :: 0 <= i < |cs| ==> Inhabits(cs[i], inputs[i])
    ensures AllWellFormed(StaticTypes(cs))
  {
    forall i | 0 <= i < |cs| ensures ValidShape(cs[i]) {
      assert Inhabits(cs[i], inputs[i]);
      forall d | 0 <= d < |cs[i]| ensures ValidSize(cs[i][d]) { assert DimOf(inputs[i], d).Has(cs[i][d]); }
    }
  }

  lemma {:induction false} ConcatDimSound(inputs: seq<TensorType>, cs: seq<seq<int>>, dimension: nat, d: nat)
    requires inputs != [] && AllWellFormed(inputs) && Concatenable(inputs, dimension)
    requires |cs| == |inputs| && forall i :: 0 <= i < |cs| ==> Inhabits(cs[i], inputs[i])
    requires AllWellFormed(StaticTypes(cs)) && cs != [] && Concatenable(StaticTypes(cs), dimension)
    requires d < inputs[0].Rank() && d < |cs[0]|
    ensures ConcatDim(Column(inputs, d), d == dimension).value.Has(ConcatDim(Column(StaticTypes(cs), d), d == dimension).value.size)
  {
    var ss := StaticTypes(cs);
    var col, scol := Column(inputs, d), Column(ss, d);
    var ns := seq(|cs|, i requires 0 <= i < |cs| => ss[i].shape[d]);
    forall i | 0 <= i < |cs| ensures col[i].Has(ns[i]) && scol[i] == Dim(ns[i], DYNAMIC) && ns[i] >= 0 {
      assert Inhabits(cs[i], inputs[i]);
      assert DimOf(inputs[i], d).Has(cs[i][d]);
    }
    if d == dimension {
      FoldSumMeaning(col, ns);
      FoldSumStatic(scol, ns);
    } else {
      FoldMostMeaning(col);
      FoldMostMeaning(scol);
      var m := FoldMost(scol).value;
      assert scol[0].size == m.size;
      forall i | 0 <= i < |cs| ensures col[i].Has(m.size) { assert scol[i].size == m.size; }
    }
  }

  // ----- what concatenate accepts and infers

  predicate AllHave(ds: seq<Dim>, n: int) {
    forall i :: 0 <= i < |ds| ==> ds[i].Has(n)
  }

  ghost predicate HaveCommonSize(ds: seq<Dim>) {
    exists n :: AllHave(ds, n)
  }

  /** The inputs are concatenated if and only if they have the same rank, the dimension exists, and there is a size
      for every other dimension that all inputs can have. */
  lemma {:induction false} ConcatenatedIff(inputs: seq<TensorType>, dimension: nat)
    requires inputs != [] && AllWellFormed(inputs)
    ensures Concatenated(inputs, dimension).Some?
            <==> && dimension < inputs[0].Rank()
                 && (forall i :: 0 <= i < |inputs| ==> inputs[i].Rank() == inputs[0].Rank())
                 && (forall d :: 0 <= d < inputs[0].Rank() && d != dimension ==> HaveCommonSize(Column(inputs, d)))
  {
    if SameRank(inputs, inputs[0].Rank()) {
      forall d | 0 <= d < inputs[0].Rank() && d != dimension
        ensures HaveCommonSize(Column(inputs, d)) <==> ConcatDim(Column(inputs, d), false).Some?
        ensures HaveCommonSize(Column(inputs, d)) ==> FirstCompatible(inputs, d)
      {
        CommonSizeIff(Column(inputs, d));
        FirstCompatibleColumn(inputs, d);
      }
      InputsOkIff(inputs, dimension);
    }
  }

  /** All inputs are compatible with the first in dimension d. */
  predicate FirstCompatible(inputs: seq<TensorType>, d: nat)
    requires inputs != [] && forall i :: 0 <= i < |inputs| ==> d < |inputs[i].shape|
  {
    forall i :: 0 <= i < |inputs| ==> CompatibleDims(inputs[0].shape[d], inputs[i].shape[d])
  }

  lemma FirstCompatibleColumn(inputs: seq<TensorType>, d: nat)
    requires inputs != [] && AllWellFormed(inputs) && forall i :: 0 <= i < |inputs| ==> d < inputs[i].Rank()
    ensures var col := Column(inputs, d);
            (forall i :: 0 <= i < |col| ==> CompatibleDims(col[0].size, col[i].size)) ==> FirstCompatible(inputs, d)
  {
    assert forall i :: 0 <= i < |inputs| ==> Column(inputs, d)[i].size == inputs[i].shape[d];
  }

  lemma InputsOkIff(inputs: seq<TensorType>, dimension: nat)
    requires inputs != [] && SameRank(inputs, inputs[0].Rank())
    ensures InputsOk(inputs, dimension)
            <==> dimension < inputs[0].Rank()
                 && forall d :: 0 <= d < inputs[0].Rank() && d != dimension ==> FirstCompatible(inputs, d)
  {
    if forall d :: 0 <= d < inputs[0].Rank() && d != dimension ==> FirstCompatible(inputs, d) {
      forall i, d | 0 <= i < |inputs| && 0 <= d < inputs[0].Rank() && d != dimension
        ensures CompatibleDims(inputs[0].shape[d], inputs[i].shape[d])
      {
        assert FirstCompatible(inputs, d);
      }
    }
  }

  lemma {:induction false} CommonSizeIff(ds: seq<Dim>)
    requires ds != [] && AllValid(ds)
    ensures HaveCommonSize(ds) <==> FoldMost(ds).Some?
    ensures HaveCommonSize(ds) ==> forall i :: 0 <= i < |ds| ==> CompatibleDims(ds[0].size, ds[i].size)
  {
    FoldMostMeaning(ds);
    if FoldMost(ds).Some? {
      var m := FoldMost(ds).value;
      var n := if IsStatic(m.size) then m.size else 0;
      assert m.Has(n);
      assert AllHave(ds, n);
    }
    if n :| AllHave(ds, n) {
      forall i, j | 0 <= i < |ds| && 0 <= j < |ds| ensures Compatible(ds[i], ds[j]) { CommonSize(ds[i], ds[j], n); }
    }
  }

  lemma CommonSize(l: Dim, r: Dim, n: int)
    requires l.Valid() && r.Valid() && l.Has(n) && r.Has(n)
    ensures Compatible(l, r)
  {
  }

  /** The conditional is accepted if and only if its selector has rank 0, there is a branch, and every branch takes no
      arguments and yields as many results as the first one, of the same ranks, with a size in common in every
      dimension. */
  lemma {:induction false} ConditionalIff(operandRank: nat, branches: seq<Branch>)
    requires BranchesWellFormed(ResultsOf(branches))
    ensures ConditionalOk(operandRank, branches)
            <==> && operandRank == 0 && branches != []
                 && (forall b :: 0 <= b < |branches| ==>
                       && branches[b].numArguments == 0 && |branches[b].results| == |branches[0].results|
                       && (forall k :: 0 <= k < |branches[0].results| ==> ShareAllSizes(branches[0].results[k], branches[b].results[k])))
  {
    var results := ResultsOf(branches);
    forall b, k | 0 <= b < |branches| && 0 <= k < |branches[0].results| && |branches[b].results| == |branches[0].results|
      ensures TypesCompatible(branches[0].results[k], branches[b].results[k])
              <==> ShareAllSizes(branches[0].results[k], branches[b].results[k])
    {
      assert AllWellFormed(results[0]) && AllWellFormed(results[b]);
      ShareAllSizesIff(branches[0].results[k], branches[b].results[k]);
    }
  }

  ghost predicate ShareAllSizes(t: TensorType, u: TensorType) {
    && t.WellFormed() && u.WellFormed() && t.Rank() == u.Rank()
    && forall d :: 0 <= d < t.Rank() ==> HaveCommonSize([DimOf(t, d), DimOf(u, d)])
  }

  lemma {:induction false} ShareAllSizesIff(t: TensorType, u: TensorType)
    requires t.WellFormed() && u.WellFormed()
    ensures TypesCompatible(t, u) <==> ShareAllSizes(t, u)
  {
    if t.Rank() == u.Rank() {
      TypesCompatibleByDim(t, u);
      forall d | 0 <= d < t.Rank() ensures HaveCommonSize([DimOf(t, d), DimOf(u, d)]) <==> Compatible(DimOf(t, d), DimOf(u, d)) {
        DimOfValid(t, d);
        DimOfValid(u, d);
        CommonPairIff(DimOf(t, d), DimOf(u, d));
      }
    }
  }

  lemma CommonPairIff(l: Dim, r: Dim)
    requires l.Valid() && r.Valid()
    ensures HaveCommonSize([l, r]) <==> Compatible(l, r)
  {
    if n :| AllHave([l, r], n) {
      assert [l, r][0].Has(n) && [l, r][1].Has(n);
    }
    if Compatible(l, r) {
      var n := if IsStatic(l.size) then l.size else if IsStatic(r.size) then r.size else 0;
      assert AllHave([l, r], n);
    }
  }

  /** The known size, or else the bound, of every input in one dimension. */
  function SizesOrBounds(ds: seq<Dim>): (r: seq<int>)
    ensures |r| == |ds| && forall i :: 0 <= i < |r| ==> r[i] == if ds[i].size != DYNAMIC then ds[i].size else ds[i].bound
  {
    seq(|ds|, i requires 0 <= i < |ds| => if ds[i].size != DYNAMIC then ds[i].size else ds[i].bound)
  }

  /** Outside the concatenation dimension the result has exactly the sizes that all inputs can have. Along it, the
      size is known when all are, and is their sum; otherwise the bound is known when every input has a size or a
      bound, and is the sum of these. */
  lemma {:induction false} ConcatenateExact(inputs: seq<TensorType>, dimension: nat, d: nat)
    requires inputs != [] && AllWellFormed(inputs) && Concatenated(inputs, dimension).Some?
    requires d < inputs[0].Rank() && forall i :: 0 <= i < |inputs| ==> d < inputs[i].Rank()
    ensures var t, col := Concatenated(inputs, dimension).value, Column(inputs, d);
            && t.WellFormed() && t.Rank() == inputs[0].Rank()
            && (d != dimension ==> forall n :: DimOf(t, d).Has(n) <==> AllHave(col, n))
            && (d == dimension ==>
                  if forall i :: 0 <= i < |inputs| ==> inputs[i].shape[d] != DYNAMIC then t.shape[d] == Sum(SizesOrBounds(col))
                  else t.shape[d] == DYNAMIC && t.Bound(d) == if DYNAMIC in SizesOrBounds(col) then DYNAMIC else Sum(SizesOrBounds(col)))
  {
    ConcatenatedWellFormed(inputs, dimension);
    var t, col := Concatenated(inputs, dimension).value, Column(inputs, d);
    ConcatDimIs(inputs, dimension, d);
    if d == dimension { FoldSumIs(col, SizesOrBounds(col)); } else { FoldMostMeaning(col); }
    assert forall i :: 0 <= i < |inputs| ==> col[i].size == inputs[i].shape[d];
  }

  /** The inferred dimension, with its bound. */
  lemma {:induction false} ConcatDimIs(inputs: seq<TensorType>, dimension: nat, d: nat)
    requires inputs != [] && AllWellFormed(inputs) && Concatenated(inputs, dimension).Some? && d < inputs[0].Rank()
    requires Concatenated(inputs, dimension).value.WellFormed()
    ensures Some(DimOf(Concatenated(inputs, dimension).value, d)) == ConcatDim(Column(inputs, d), d == dimension)
  {
    if WitnessEncoding(inputs) == [] {
      var col := Column(inputs, d);
      assert forall i :: 0 <= i < |col| ==> col[i].bound == DYNAMIC;
      if d == dimension { FoldSumBoundless(col); } else { FoldMostMeaning(col); }
    }
  }

  lemma {:induction false} FoldSumBoundless(ds: seq<Dim>)
    requires forall i :: 0 <= i < |ds| ==> ds[i].bound == DYNAMIC
    ensures FoldSum(ds).bound == DYNAMIC
  {
    if ds != [] { FoldSumBoundless(ds[..|ds| - 1]); }
  }

  lemma {:induction false} FoldSumIs(ds: seq<Dim>, ns: seq<int>)
    requires AllValid(ds) && |ns| == |ds|
    requires forall i :: 0 <= i < |ds| ==> ns[i] == if ds[i].size != DYNAMIC then ds[i].size else ds[i].bound
    ensures if forall i :: 0 <= i < |ds| ==> ds[i].size != DYNAMIC then FoldSum(ds) == Dim(Sum(ns), DYNAMIC)
            else FoldSum(ds).size == DYNAMIC && FoldSum(ds).bound == if DYNAMIC in ns then DYNAMIC else Sum(ns)
    ensures DYNAMIC !in ns ==> Sum(ns) >= 0
  {
    if ds != [] {
      var n := |ds| - 1;
      FoldSumIs(ds[..n], ns[..n]);
      SumStep(ns, n);
      assert ns[..n + 1] == ns;
      InitLast([], ns);
      InConcat(ns[..n], [ns[n]], DYNAMIC);
      AllKnownLast(ds);
    }
  }

  lemma AllKnownLast(ds: seq<Dim>)
    requires ds != []
    ensures var n := |ds| - 1;
            (forall i :: 0 <= i < |ds| ==> ds[i].size != DYNAMIC)
            <==> (forall i :: 0 <= i < n ==> ds[..n][i].size != DYNAMIC) && ds[n].size != DYNAMIC
  {
    var n := |ds| - 1;
    assert forall i :: 0 <= i < n ==> ds[..n][i] == ds[i];
  }
}
