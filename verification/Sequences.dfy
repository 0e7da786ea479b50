/** Facts about sequences, permutations, products and sums that every other module uses. */
module Sequences {

  datatype Option<+T> = None | Some(value: T)

  predicate Distinct<T(==)>(s: seq<T>) {
    forall i, j :: 0 <= i < j < |s| ==> s[i] != s[j]
  }

  predicate InRange(s: seq<int>, n: int) {
    forall i :: 0 <= i < |s| ==> 0 <= s[i] < n
  }

  predicate Positive(s: seq<int>) {
    forall i :: 0 <= i < |s| ==> s[i] >= 1
  }

  predicate StrictlyIncreasing(s: seq<int>) {
    forall i, j :: 0 <= i < j < |s| ==> s[i] < s[j]
  }

  /** `p` lists every one of 0..n-1 exactly once. */
  predicate IsPermutation(p: seq<int>, n: int) {
    |p| == n && InRange(p, n) && Distinct(p)
  }

  function Iota(n: nat): (r: seq<int>)
    ensures |r| == n && forall i :: 0 <= i < n ==> r[i] == i
  {
    seq(n, i => i)
  }

  /** The elements of `a` at the positions listed in `idx`. */
  function Pick<T>(a: seq<T>, idx: seq<int>): (r: seq<T>)
    requires InRange(idx, |a|)
    ensures |r| == |idx| && forall k :: 0 <= k < |idx| ==> r[k] == a[idx[k]]
  {
    seq(|idx|, k requires 0 <= k < |idx| => a[idx[k]])
  }

  function Product(s: seq<int>): int {
    if s == [] then 1 else s[0] * Product(s[1..])
  }

  function Sum(s: seq<int>): int {
    if s == [] then 0 else s[0] + Sum(s[1..])
  }

  function IndexOf<T(==)>(s: seq<T>, x: T): (i: nat)
    requires x in s
    ensures i < |s| && s[i] == x
    ensures forall j :: 0 <= j < i ==> s[j] != x
  {
    if s[0] == x then 0 else 1 + IndexOf(s[1..], x)
  }

  /** The indices below `n` that do not occur in `xs`, ascending. */
  function Excluding(n: nat, xs: seq<int>): seq<int> {
    if n == 0 then [] else Excluding(n - 1, xs) + (if n - 1 in xs then [] else [n - 1])
  }

  function Concat<T>(ss: seq<seq<T>>): seq<T> {
    if ss == [] then [] else ss[0] + Concat(ss[1..])
  }

  // ----- permutations and multisets

  lemma {:induction false} DistinctMultiplicity<T>(s: seq<T>, x: T)
    requires Distinct(s)
    ensures multiset(s)[x] == if x in s then 1 else 0
  {
    if s != [] {
      DistinctMultiplicity(s[1..], x);
      assert s == [s[0]] + s[1..];
    }
  }

  /** Two duplicate-free sequences over the same elements are permutations of each other. */
  lemma {:induction false} SameElementsSameMultiset<T>(s: seq<T>, t: seq<T>)
    requires Distinct(s) && Distinct(t)
    requires forall x :: x in s <==> x in t
    ensures multiset(s) == multiset(t) && |s| == |t|
  {
    forall x ensures multiset(s)[x] == multiset(t)[x] {
      DistinctMultiplicity(s, x);
      DistinctMultiplicity(t, x);
    }
    assert multiset(s) == multiset(t);
    assert |multiset(s)| == |s| && |multiset(t)| == |t|;
  }

  /** Pigeonhole: n distinct numbers below n are all of them. */
  lemma {:induction false} PermutationMultiset(p: seq<int>, n: nat)
    requires IsPermutation(p, n)
    ensures multiset(p) == multiset(Iota(n))
  {
    var a, b := multiset(p), multiset(Iota(n));
    forall x ensures a[x] <= b[x] {
      DistinctMultiplicity(p, x);
      DistinctMultiplicity(Iota(n), x);
      if 0 <= x < n { assert Iota(n)[x] == x; }
    }
    assert a <= b;
    assert |b - a| == |b| - |a| == 0;
    assert b == a + (b - a);
  }

  lemma {:induction false} PermutationCovers(p: seq<int>, n: nat, x: int)
    requires IsPermutation(p, n) && 0 <= x < n
    ensures x in p
  {
    PermutationMultiset(p, n);
    assert Iota(n)[x] == x;
    assert x in multiset(p);
  }

  /** A duplicate-free list of in-range numbers that covers the range has the range's length. */
  lemma {:induction false} CoveringIsPermutation(p: seq<int>, n: nat)
    requires Distinct(p) && InRange(p, n)
    requires forall x :: 0 <= x < n ==> x in p
    ensures IsPermutation(p, n)
  {
    forall x ensures x in p <==> x in Iota(n) {
      if 0 <= x < n { assert Iota(n)[x] == x; }
    }
    SameElementsSameMultiset(p, Iota(n));
  }

  lemma {:induction false} RemoveAt<T>(s: seq<T>, k: int)
    requires 0 <= k < |s|
    ensures multiset(s[..k] + s[k + 1..]) == multiset(s) - multiset{s[k]}
  {
    assert s == s[..k] + [s[k]] + s[k + 1..];
  }

  lemma {:induction false} RepeatedMultiplicity<T>(s: seq<T>, i: int, j: int)
    requires 0 <= i < j < |s|
    ensures s[i] == s[j] ==> multiset(s)[s[i]] >= 2
  {
    assert s == s[..i] + [s[i]] + s[i + 1..j] + [s[j]] + s[j + 1..];
  }

  lemma {:induction false} MultisetPermutation(p: seq<int>, n: nat)
    requires multiset(p) == multiset(Iota(n))
    ensures IsPermutation(p, n)
  {
    assert |multiset(p)| == |p| && |multiset(Iota(n))| == n;
    forall i | 0 <= i < |p| ensures 0 <= p[i] < n {
      assert p[i] in multiset(p);
      assert p[i] in Iota(n);
    }
    forall i, j | 0 <= i < j < |p| ensures p[i] != p[j] {
      DistinctMultiplicity(Iota(n), p[i]);
      RepeatedMultiplicity(p, i, j);
    }
  }

  lemma {:induction false} PickRemove<T>(a: seq<T>, p: seq<int>, k: int)
    requires InRange(p, |a|) && 0 <= k < |p|
    ensures multiset(Pick(a, p)) == multiset{a[p[k]]} + multiset(Pick(a, p[..k] + p[k + 1..]))
  {
    var q := p[..k] + p[k + 1..];
    var whole := Pick(a, p);
    assert whole == whole[..k] + [a[p[k]]] + whole[k + 1..];
    assert Pick(a, q) == whole[..k] + whole[k + 1..];
  }

  /** Picking along two reorderings of the same index list gives the same elements. */
  lemma {:induction false} PickMultiset<T>(a: seq<T>, p: seq<int>, q: seq<int>)
    requires InRange(p, |a|) && InRange(q, |a|) && multiset(p) == multiset(q)
    ensures multiset(Pick(a, p)) == multiset(Pick(a, q))
    decreases |p|
  {
    if p == [] {
      assert |multiset(q)| == |q| == 0;
    } else {
      var k := FindMatch(p, q);
      var q' := q[..k] + q[k + 1..];
      PickMultiset(a, p[1..], q');
      PickFirst(a, p);
      PickRemove(a, q, k);
    }
  }

  lemma PickFirst<T>(a: seq<T>, p: seq<int>)
    requires InRange(p, |a|) && p != []
    ensures multiset(Pick(a, p)) == multiset{a[p[0]]} + multiset(Pick(a, p[1..]))
  {
    assert Pick(a, p) == [a[p[0]]] + Pick(a, p[1..]);
  }

  lemma {:induction false} PickPermutation<T>(a: seq<T>, p: seq<int>)
    requires IsPermutation(p, |a|)
    ensures multiset(Pick(a, p)) == multiset(a)
  {
    PermutationMultiset(p, |a|);
    PickMultiset(a, p, Iota(|a|));
    assert Pick(a, Iota(|a|)) == a;
  }

  // ----- sums and products

  lemma {:induction false} ProductConcat(s: seq<int>, t: seq<int>)
    ensures Product(s + t) == Product(s) * Product(t)
  {
    if s == [] {
      assert s + t == t;
    } else {
      assert (s + t)[1..] == s[1..] + t;
      ProductConcat(s[1..], t);
      var x, y, z := s[0], Product(s[1..]), Product(t);
      assert x * (y * z) == (x * y) * z;
    }
  }

  lemma {:induction false} ProductSnoc(s: seq<int>, x: int)
    ensures Product(s + [x]) == Product(s) * x
  {
    ProductConcat(s, [x]);
    assert Product([x]) == x * Product([]);
  }

  lemma {:induction false} SumConcat(s: seq<int>, t: seq<int>)
    ensures Sum(s + t) == Sum(s) + Sum(t)
  {
    if s == [] {
      assert s + t == t;
    } else {
      assert (s + t)[1..] == s[1..] + t;
      SumConcat(s[1..], t);
    }
  }

  lemma {:induction false} ProductPositive(s: seq<int>)
    requires Positive(s)
    ensures Product(s) >= 1
  {
    if s != [] {
      ProductPositive(s[1..]);
    }
  }

  lemma {:induction false} ProductRemove(s: seq<int>, k: int)
    requires 0 <= k < |s|
    ensures Product(s) == s[k] * Product(s[..k] + s[k + 1..])
  {
    assert s == s[..k] + ([s[k]] + s[k + 1..]);
    ProductConcat(s[..k], [s[k]] + s[k + 1..]);
    ProductConcat([s[k]], s[k + 1..]);
    assert Product([s[k]]) == s[k];
    ProductConcat(s[..k], s[k + 1..]);
    var x, y, z := Product(s[..k]), s[k], Product(s[k + 1..]);
    assert x * (y * z) == y * (x * z);
  }

  lemma {:induction false} SumRemove(s: seq<int>, k: int)
    requires 0 <= k < |s|
    ensures Sum(s) == s[k] + Sum(s[..k] + s[k + 1..])
  {
    assert s == s[..k] + ([s[k]] + s[k + 1..]);
    SumConcat(s[..k], [s[k]] + s[k + 1..]);
    SumConcat(s[..k], s[k + 1..]);
  }

  lemma {:induction false} FindMatch<T>(s: seq<T>, t: seq<T>) returns (k: int)
    requires s != [] && multiset(s) == multiset(t)
    ensures 0 <= k < |t| && t[k] == s[0]
    ensures multiset(s[1..]) == multiset(t[..k] + t[k + 1..])
  {
    assert s[0] in multiset(s);
    assert s[0] in t;
    k := IndexOf(t, s[0]);
    RemoveFirst(s);
    RemoveAt(t, k);
  }

  lemma {:induction false} RemoveFirst<T>(s: seq<T>)
    requires s != []
    ensures multiset(s[1..]) == multiset(s) - multiset{s[0]}
  {
    assert s == [s[0]] + s[1..];
  }

  /** Products and sums do not depend on the order of the operands. */
  lemma {:induction false} FoldsIgnoreOrder(s: seq<int>, t: seq<int>)
    requires multiset(s) == multiset(t)
    ensures Product(s) == Product(t) && Sum(s) == Sum(t)
    decreases |s|
  {
    assert |multiset(s)| == |s| && |multiset(t)| == |t|;
    if s != [] {
      var k := FindMatch(s, t);
      FoldsIgnoreOrder(s[1..], t[..k] + t[k + 1..]);
      ProductRemove(t, k);
      SumRemove(t, k);
    }
  }

  lemma {:induction false} SumStep(s: seq<int>, k: int)
    requires 0 <= k < |s|
    ensures Sum(s[..k + 1]) == Sum(s[..k]) + s[k]
  {
    assert s[..k + 1] == s[..k] + [s[k]];
    SumConcat(s[..k], [s[k]]);
    assert Sum([s[k]]) == s[k] + Sum([]);
  }

  // ----- sequence algebra, instantiated by hand where the solver needs it

  lemma ConcatAssociative<T>(a: seq<T>, b: seq<T>, c: seq<T>)
    ensures (a + b) + c == a + (b + c)
  {
  }

  lemma SplitAt<T>(s: seq<T>, a: nat)
    requires a < |s|
    ensures s == s[..a] + [s[a]] + s[a + 1..]
  {
  }

  lemma InitLast<T>(x: seq<T>, y: seq<T>)
    ensures y == [] ==> x + y == x
    ensures y != [] ==> y == y[..|y| - 1] + [y[|y| - 1]]
  {
  }

  lemma InConcat<T>(a: seq<T>, b: seq<T>, x: T)
    ensures x in a + b <==> x in a || x in b
  {
  }

  lemma DistinctSnoc<T>(s: seq<T>, x: T)
    requires Distinct(s) && x !in s
    ensures Distinct(s + [x])
  {
  }

  lemma IncreasingFirst(b: seq<int>, j: int)
    requires StrictlyIncreasing(b) && 0 <= j < |b|
    ensures b[0] <= b[j] && (b[0] == b[j] ==> j == 0)
  {
  }

  // ----- Excluding

  lemma {:induction false} ExcludingProperties(n: nat, xs: seq<int>)
    ensures StrictlyIncreasing(Excluding(n, xs))
    ensures InRange(Excluding(n, xs), n)
    ensures forall i :: i in Excluding(n, xs) <==> 0 <= i < n && i !in xs
  {
    if n > 0 {
      ExcludingProperties(n - 1, xs);
      var rest := Excluding(n - 1, xs);
      forall i ensures i in Excluding(n, xs) <==> 0 <= i < n && i !in xs {
        if i == n - 1 && i !in xs { assert Excluding(n, xs)[|rest|] == i; }
      }
    }
  }

  /** The excluded indices followed by the remaining ones list every index once. */
  lemma {:induction false} ExcludingPermutation(n: nat, xs: seq<int>)
    requires Distinct(xs) && InRange(xs, n)
    ensures IsPermutation(Excluding(n, xs) + xs, n)
    ensures |Excluding(n, xs)| == n - |xs|
  {
    ExcludingProperties(n, xs);
    var rest := Excluding(n, xs);
    var p := rest + xs;
    forall x | 0 <= x < n ensures x in p {
      if x in xs { assert x in p; } else { assert x in rest; }
    }
    forall i, j | 0 <= i < j < |p| ensures p[i] != p[j] {
      if i < |rest| <= j {
        assert p[i] in rest && p[j] in xs;
      }
    }
    CoveringIsPermutation(p, n);
  }

  /** Only the set of excluded indices matters. */
  lemma {:induction false} ExcludingCongruence(n: nat, xs: seq<int>, ys: seq<int>)
    requires forall i :: 0 <= i < n ==> (i in xs <==> i in ys)
    ensures Excluding(n, xs) == Excluding(n, ys)
  {
    if n > 0 { ExcludingCongruence(n - 1, xs, ys); }
  }

  /** A strictly increasing sequence is determined by its elements. */
  lemma {:induction false} IncreasingUnique(s: seq<int>, t: seq<int>)
    requires StrictlyIncreasing(s) && StrictlyIncreasing(t)
    requires forall x :: x in s <==> x in t
    ensures s == t
  {
    BothEmpty(s, t);
    if s != [] {
      assert s[0] in t && t[0] in s;
      forall x ensures (x in s[1..] <==> x in s && x > s[0]) && (x in t[1..] <==> x in t && x > t[0]) {
        IncreasingTail(s, x);
        IncreasingTail(t, x);
      }
      IncreasingUnique(s[1..], t[1..]);
      assert s == [s[0]] + s[1..] && t == [t[0]] + t[1..];
    }
  }

  lemma BothEmpty<T>(s: seq<T>, t: seq<T>)
    requires forall x :: x in s <==> x in t
    ensures s == [] <==> t == []
  {
    assert s != [] ==> s[0] in s;
    assert t != [] ==> t[0] in t;
  }

  /** The first element is the least, and the tail holds the others. */
  lemma IncreasingTail(s: seq<int>, x: int)
    requires StrictlyIncreasing(s) && s != []
    ensures x in s ==> x >= s[0]
    ensures x in s[1..] <==> x in s && x > s[0]
  {
    if x in s {
      var i :| 0 <= i < |s| && s[i] == x;
      if i > 0 { assert s[1..][i - 1] == x; }
    }
  }

  // ----- several lists of indices

  /** No number is in both lists. */
  predicate Disjoint(xs: seq<int>, ys: seq<int>) {
    forall k :: 0 <= k < |xs| ==> xs[k] !in ys
  }

  lemma DistinctConcatIff(xs: seq<int>, ys: seq<int>)
    ensures Distinct(xs + ys) <==> Distinct(xs) && Distinct(ys) && Disjoint(xs, ys)
  {
    var all := xs + ys;
    if Distinct(all) {
      forall i, j | 0 <= i < j < |xs| ensures xs[i] != xs[j] { assert all[i] != all[j]; }
      forall i, j | 0 <= i < j < |ys| ensures ys[i] != ys[j] { assert all[|xs| + i] != all[|xs| + j]; }
      forall i, j | 0 <= i < |xs| && 0 <= j < |ys| ensures xs[i] != ys[j] { assert all[i] != all[|xs| + j]; }
    }
    if Distinct(xs) && Distinct(ys) && Disjoint(xs, ys) {
      forall i, j | 0 <= i < j < |all| ensures all[i] != all[j] {
        if i < |xs| <= j { assert ys[j - |xs|] in ys; }
      }
    }
  }

  lemma DistinctIndex<T>(xs: seq<T>, k: nat)
    requires Distinct(xs) && k < |xs|
    ensures IndexOf(xs, xs[k]) == k
  {
    var j := IndexOf(xs, xs[k]);
    assert !(j < k) && !(k < j);
  }

  /** `xs` lists, in ascending order, the numbers below n that are in neither of two lists. */
  predicate Remaining(xs: seq<int>, n: int, ys: seq<int>, zs: seq<int>) {
    StrictlyIncreasing(xs) && InRange(xs, n) && forall x :: 0 <= x < n ==> (x in xs <==> x !in ys && x !in zs)
  }

  lemma RemainingIs(xs: seq<int>, n: nat, ys: seq<int>, zs: seq<int>)
    requires Remaining(xs, n, ys, zs)
    ensures xs == Excluding(n, ys + zs)
  {
    ExcludingProperties(n, ys + zs);
    assert forall k :: 0 <= k < |xs| ==> 0 <= xs[k] < n;
    forall x ensures x in xs <==> x in Excluding(n, ys + zs) { InConcat(ys, zs, x); }
    IncreasingUnique(xs, Excluding(n, ys + zs));
  }
}
