/** Ranked tensor types with bounded dynamism, and the checks on dimension lists that shape functions share. */
module Types {
  import opened Sequences

  /** The size or bound that stands for "unknown". */
  const DYNAMIC := -0x8000_0000_0000_0000

  predicate IsDynamic(n: int) { n == DYNAMIC }

  predicate IsStatic(n: int) { !IsDynamic(n) }

  /** A size or bound as it occurs in a type: non-negative or unknown. */
  predicate ValidSize(n: int) { n >= 0 || IsDynamic(n) }

  predicate ValidShape(s: seq<int>) {
    forall d :: 0 <= d < |s| ==> ValidSize(s[d])
  }

  /** Shape and bounds; an empty bounds list means that the type has no bounds encoding. */
  datatype TensorType = TensorType(shape: seq<int>, bounds: seq<int>) {
    predicate WellFormed() {
      ValidShape(shape) && ValidShape(bounds) && (bounds == [] || BoundsFit(bounds, shape))
    }

    function Rank(): nat { |shape| }

    /** The bound of dimension `d`, unknown when there is no encoding. */
    function Bound(d: int): int
      requires bounds == [] || 0 <= d < |bounds|
    {
      if bounds == [] then DYNAMIC else bounds[d]
    }
  }

  /** One bound per dimension, and none on a static dimension. */
  predicate BoundsFit(bounds: seq<int>, shape: seq<int>) {
    && |bounds| == |shape|
    && forall d :: 0 <= d < |shape| ==> IsDynamic(bounds[d]) || IsDynamic(shape[d])
  }

  predicate CompatibleDims(a: int, b: int) {
    IsDynamic(a) || IsDynamic(b) || a == b
  }

  predicate CompatibleShapes(s: seq<int>, t: seq<int>) {
    |s| == |t| && forall d :: 0 <= d < |s| ==> CompatibleDims(s[d], t[d])
  }

  method VerifyBounds(bounds: seq<int>, shape: seq<int>) returns (ok: bool)
    ensures ok <==> BoundsFit(bounds, shape)
  {
    if |bounds| != |shape| { return false; }
    for dim := 0 to |shape|
      invariant forall d :: 0 <= d < dim ==> IsDynamic(bounds[d]) || IsDynamic(shape[d])
    {
      if bounds[dim] != DYNAMIC && shape[dim] != DYNAMIC { return false; }
    }
    return true;
  }

  predicate AllDynamic(bounds: seq<int>) {
    forall d :: 0 <= d < |bounds| ==> IsDynamic(bounds[d])
  }

  /** The encoding that carries `bounds`: the prototype itself for an empty list, none when every
      bound is unknown. A known bound needs a prototype to take the dialect from. */
  function BoundsToEncoding(prototype: seq<int>, bounds: seq<int>): seq<int>
    requires prototype != [] || AllDynamic(bounds)
  {
    if bounds == [] then prototype
    else if AllDynamic(bounds) then []
    else bounds
  }

  /** The result type keeps its bounds well-formed exactly when it has dimensions, or the prototype
      had nothing to leak. */
  lemma EncodingWellFormed(prototype: seq<int>, shape: seq<int>, bounds: seq<int>)
    requires prototype != [] || AllDynamic(bounds)
    requires ValidShape(shape) && ValidShape(bounds) && BoundsFit(bounds, shape) && ValidShape(prototype)
    ensures TensorType(shape, BoundsToEncoding(prototype, bounds)).WellFormed() <==> shape != [] || prototype == []
  {
  }

  // ----- checks on dimension lists

  predicate Sorted(s: seq<int>) {
    forall i, j :: 0 <= i < j < |s| ==> s[i] <= s[j]
  }

  method IsUnique(nums: seq<int>) returns (r: bool)
    ensures r <==> Distinct(nums)
  {
    var dimSet: set<int> := {};
    for i := 0 to |nums|
      invariant dimSet == set k | 0 <= k < i :: nums[k]
      invariant Distinct(nums[..i])
    {
      if nums[i] in dimSet { return false; }
      dimSet := dimSet + {nums[i]};
    }
    assert nums[..|nums|] == nums;
    return true;
  }

  method CheckDimsDistinct(lhs: seq<int>, rhs: seq<int>) returns (ok: bool)
    ensures ok <==> Distinct(lhs + rhs)
  {
    ok := IsUnique(lhs + rhs);
  }

  method CheckDimsInBounds(dims: seq<int>, upperBound: int) returns (ok: bool)
    ensures ok <==> InRange(dims, upperBound)
  {
    for i := 0 to |dims|
      invariant InRange(dims[..i], upperBound)
    {
      if dims[i] < 0 || dims[i] >= upperBound { return false; }
    }
    assert dims[..|dims|] == dims;
    return true;
  }

  method IsSorted(s: seq<int>) returns (ok: bool)
    ensures ok <==> Sorted(s)
  {
    if s == [] { return true; }
    for i := 1 to |s|
      invariant Sorted(s[..i])
    {
      if s[i] < s[i - 1] { return false; }
    }
    assert s[..|s|] == s;
    return true;
  }

  /** Each listed pair of dimensions has compatible sizes. */
  predicate PairsCompatible(s: seq<int>, sDims: seq<int>, t: seq<int>, tDims: seq<int>)
    requires InRange(sDims, |s|) && InRange(tDims, |t|)
  {
    forall i :: 0 <= i < |sDims| && i < |tDims| ==> CompatibleDims(s[sDims[i]], t[tDims[i]])
  }

  method CheckPairsCompatible(s: seq<int>, sDims: seq<int>, t: seq<int>, tDims: seq<int>) returns (ok: bool)
    requires InRange(sDims, |s|) && InRange(tDims, |t|) && |sDims| == |tDims|
    ensures ok <==> PairsCompatible(s, sDims, t, tDims)
  {
    for i := 0 to |sDims|
      invariant forall k :: 0 <= k < i ==> CompatibleDims(s[sDims[k]], t[tDims[k]])
    {
      if !CompatibleDims(s[sDims[i]], t[tDims[i]]) { return false; }
    }
    return true;
  }
}
