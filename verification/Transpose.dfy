/** transpose: result type and speculatability. */
module Transpose {
  import opened Sequences
  import opened Types
  import opened BoundedInference

  function Transposed(t: TensorType, permutation: seq<int>): Option<TensorType>
    requires t.WellFormed()
  {
    if !IsPermutation(permutation, t.Rank()) then None
    else
      Some(TensorType(Pick(t.shape, permutation),
                      if t.bounds == [] then [] else BoundsToEncoding(t.bounds, Pick(t.bounds, permutation))))
  }

  method InferTransposeOp(t: TensorType, permutation: seq<int>) returns (r: Option<TensorType>)
    requires t.WellFormed()
    ensures r == Transposed(t, permutation)
  {
    var rank := t.Rank();
    if |permutation| != rank { return None; }
    var c := CheckDimsInBounds(permutation, rank);
    if !c { return None; }
    c := IsUnique(permutation);
    if !c { return None; }
    var resultShape, resultBounds := [], [];
    for i := 0 to |permutation|
      invariant |resultShape| == i && forall k :: 0 <= k < i ==> resultShape[k] == t.shape[permutation[k]]
      invariant t.bounds == [] ==> resultBounds == []
      invariant t.bounds != [] ==> |resultBounds| == i && forall k :: 0 <= k < i ==> resultBounds[k] == t.bounds[permutation[k]]
    {
      resultShape := resultShape + [t.shape[permutation[i]]];
      if t.bounds != [] { resultBounds := resultBounds + [t.bounds[permutation[i]]]; }
    }
    assert resultShape == Pick(t.shape, permutation);
    assert t.bounds != [] ==> resultBounds == Pick(t.bounds, permutation);
    return Some(TensorType(resultShape, BoundsToEncoding(t.bounds, resultBounds)));
  }

  /** The result holds exactly the transposed shapes of the operand. */
  lemma {:induction false} TransposeExact(t: TensorType, permutation: seq<int>, c: seq<int>)
    requires t.WellFormed() && IsPermutation(permutation, t.Rank()) && |c| == t.Rank()
    ensures Transposed(t, permutation).value.WellFormed()
    ensures Inhabits(c, t) <==> Inhabits(Pick(c, permutation), Transposed(t, permutation).value)
  {
    TransposedDims(t, permutation);
    if Inhabits(Pick(c, permutation), Transposed(t, permutation).value) { TransposedBack(t, permutation, c); }
  }

  /** Dimension i of the result is dimension permutation[i] of the operand, bound included. */
  lemma TransposedDims(t: TensorType, permutation: seq<int>)
    requires t.WellFormed() && IsPermutation(permutation, t.Rank())
    ensures var u := Transposed(t, permutation).value;
            u.WellFormed() && u.Rank() == t.Rank() && forall i :: 0 <= i < t.Rank() ==> DimOf(u, i) == DimOf(t, permutation[i])
  {
  }

  lemma {:induction false} TransposedBack(t: TensorType, permutation: seq<int>, c: seq<int>)
    requires t.WellFormed() && IsPermutation(permutation, t.Rank()) && |c| == t.Rank()
    requires Transposed(t, permutation).value.WellFormed() && Inhabits(Pick(c, permutation), Transposed(t, permutation).value)
    ensures Inhabits(c, t)
  {
    TransposedDims(t, permutation);
    forall d | 0 <= d < |c| ensures DimOf(t, d).Has(c[d]) {
      PermutationCovers(permutation, |c|, d);
      var i :| 0 <= i < |c| && permutation[i] == d;
      assert DimOf(Transposed(t, permutation).value, i).Has(Pick(c, permutation)[i]);
    }
  }

  // ----- speculatability

  /** Every dimension declared static in the result is static in the operand. */
  predicate Speculatable(operand: seq<int>, permutation: seq<int>, result: seq<int>)
    requires IsPermutation(permutation, |operand|) && |result| == |operand|
  {
    forall i :: 0 <= i < |result| && IsStatic(result[i]) ==> IsStatic(operand[permutation[i]])
  }

  method GetSpeculatability(operand: seq<int>, permutation: seq<int>, result: seq<int>) returns (speculatable: bool)
    requires IsPermutation(permutation, |operand|) && |result| == |operand|
    ensures speculatable == Speculatable(operand, permutation, result)
  {
    for i := 0 to |result|
      invariant forall k :: 0 <= k < i && IsStatic(result[k]) ==> IsStatic(operand[permutation[k]])
    {
      if IsStatic(result[i]) && IsDynamic(operand[permutation[i]]) { return false; }
    }
    return true;
  }

  ghost predicate NeverMismatches(operand: TensorType, permutation: seq<int>, result: seq<int>)
    requires operand.WellFormed() && IsPermutation(permutation, operand.Rank())
  {
    forall c :: Inhabits(c, operand) ==> CompatibleShapes(Pick(c, permutation), result)
  }

  /** A speculatable verified op never yields a shape other than the declared one. */
  lemma {:induction false} SpeculatableSound(operand: TensorType, permutation: seq<int>, result: seq<int>)
    requires operand.WellFormed() && IsPermutation(permutation, operand.Rank())
    requires CompatibleShapes(Transposed(operand, permutation).value.shape, result)
    ensures Speculatable(operand.shape, permutation, result) ==> NeverMismatches(operand, permutation, result)
  {
    if Speculatable(operand.shape, permutation, result) {
      forall c | Inhabits(c, operand) ensures CompatibleShapes(Pick(c, permutation), result) {
        forall i | 0 <= i < |result| ensures CompatibleDims(c[permutation[i]], result[i]) {
          assert DimOf(operand, permutation[i]).Has(c[permutation[i]]);
          assert CompatibleDims(operand.shape[permutation[i]], result[i]);
        }
      }
    }
  }

  /** Conversely, an op that can never mismatch is found speculatable. */
  lemma {:induction false} SpeculatableComplete(operand: TensorType, permutation: seq<int>, result: seq<int>)
    requires operand.WellFormed() && IsPermutation(permutation, operand.Rank()) && KnownSizes(operand)
    requires CompatibleShapes(Transposed(operand, permutation).value.shape, result)
    ensures Speculatable(operand.shape, permutation, result) <==> NeverMismatches(operand, permutation, result)
  {
    SpeculatableSound(operand, permutation, result);
    if !Speculatable(operand.shape, permutation, result) {
      var i :| 0 <= i < |result| && IsStatic(result[i]) && IsDynamic(operand.shape[permutation[i]]);
      var c := Different(operand, permutation[i], result[i]);
      assert !CompatibleDims(Pick(c, permutation)[i], result[i]);
    }
  }
}
