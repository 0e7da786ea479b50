/** Mixed-radix numerals: the row-major correspondence between linear indices and grid coordinates. */
module MixedRadix {
  import opened Sequences

  /** Coordinate `k` of linear index `x`, as the code computes it: divide by the stride, reduce by the size. */
  function Coord(x: int, sizes: seq<int>, k: int): int
    requires Positive(sizes) && 0 <= k < |sizes|
  {
    ProductPositive(sizes[k + 1..]);
    (x / Product(sizes[k + 1..])) % sizes[k]
  }

  function Digits(x: int, sizes: seq<int>): (c: seq<int>)
    requires Positive(sizes)
    ensures |c| == |sizes| && forall k :: 0 <= k < |sizes| ==> c[k] == Coord(x, sizes, k)
  {
    seq(|sizes|, k requires 0 <= k < |sizes| => Coord(x, sizes, k))
  }

  function Strides(sizes: seq<int>): (r: seq<int>)
    ensures |r| == |sizes| && forall k :: 0 <= k < |sizes| ==> r[k] == Product(sizes[k + 1..])
  {
    seq(|sizes|, k requires 0 <= k < |sizes| => Product(sizes[k + 1..]))
  }

  predicate InBox(c: seq<int>, sizes: seq<int>) {
    |c| == |sizes| && forall k :: 0 <= k < |sizes| ==> 0 <= c[k] < sizes[k]
  }

  function Encode(c: seq<int>, sizes: seq<int>): int
    requires |c| == |sizes|
  {
    if c == [] then 0 else c[0] * Product(sizes[1..]) + Encode(c[1..], sizes[1..])
  }

  /** Sum of coordinate times weight, the accumulation loop of the decoder. */
  function Weighted(c: seq<int>, w: seq<int>): int
    requires |c| == |w|
  {
    Sum(Times(c, w))
  }

  function Times(c: seq<int>, w: seq<int>): (r: seq<int>)
    requires |c| == |w|
    ensures |r| == |c| && forall k :: 0 <= k < |c| ==> r[k] == c[k] * w[k]
  {
    seq(|c|, k requires 0 <= k < |c| => c[k] * w[k])
  }

  // ----- division facts

  lemma DivUnique(x: int, d: int, q: int, r: int)
    requires d > 0 && x == q * d + r && 0 <= r < d
    ensures x / d == q && x % d == r
  {
    var e := q - x / d;
    assert e * d == x % d - r by {
      assert x == (x / d) * d + x % d;
      assert e * d == q * d - (x / d) * d;
    }
    assert e >= 1 ==> e * d >= d;
    assert e <= -1 ==> e * d <= -d;
  }

  lemma ModShift(a: int, n: int, b: int)
    requires n > 0
    ensures (a * n + b) % n == b % n
  {
    var q := b / n;
    assert a * n + q * n == (a + q) * n;
    DivUnique(a * n + b, n, a + q, b % n);
  }

  lemma DivDiv(m: int, a: int, t: int)
    requires a > 0 && t > 0
    ensures a * t > 0 && m / (a * t) == (m / t) / a
  {
    var q, r := m / t, m % t;
    var u, v := q / a, q % a;
    DigitPair(v, t, a, r);
    DivStep(m, q, t, u, a, v, r);
    DivUnique(m, a * t, u, v * t + r);
  }

  lemma DigitPair(v: int, t: int, a: int, r: int)
    requires 0 <= v < a && 0 <= r < t
    ensures 0 <= v * t + r < a * t
  {
    assert v * t <= (a - 1) * t == a * t - t;
    assert v * t >= 0;
  }

  lemma DivStep(m: int, q: int, t: int, u: int, a: int, v: int, r: int)
    requires m == q * t + r && q == u * a + v
    ensures m == u * (a * t) + (v * t + r)
  {
    assert (u * a + v) * t == u * a * t + v * t;
    assert u * a * t == u * (a * t);
  }

  // ----- Encode

  lemma {:induction false} EncodeBound(c: seq<int>, sizes: seq<int>)
    requires InBox(c, sizes)
    ensures 0 <= Encode(c, sizes) < Product(sizes)
  {
    if c != [] {
      EncodeBound(c[1..], sizes[1..]);
      DigitPair(c[0], Product(sizes[1..]), sizes[0], Encode(c[1..], sizes[1..]));
    }
  }

  /** Coordinates that are at most others encode at most their position. */
  lemma {:induction false} EncodeAtMost(c: seq<int>, d: seq<int>, sizes: seq<int>)
    requires InBox(c, sizes) && InBox(d, sizes) && forall k :: 0 <= k < |c| ==> c[k] <= d[k]
    ensures Encode(c, sizes) <= Encode(d, sizes)
  {
    if c != [] {
      EncodeAtMost(c[1..], d[1..], sizes[1..]);
      EncodeBound(c[1..], sizes[1..]);
      InBoxPositive(c[1..], sizes[1..]);
      ProductPositive(sizes[1..]);
      ScaleAtMost(c[0], d[0], Product(sizes[1..]));
    }
  }

  lemma ScaleAtMost(a: int, b: int, p: int)
    requires a <= b && p >= 1
    ensures a * p <= b * p
    ensures a < b ==> a * p + p <= b * p
  {
    if a < b { assert (a + 1) * p <= b * p; }
  }

  /** The first coordinate that differs decides which position comes first. */
  lemma {:induction false} EncodeLess(c: seq<int>, d: seq<int>, sizes: seq<int>, k: nat)
    requires InBox(c, sizes) && InBox(d, sizes) && k < |c| && c[k] < d[k] && forall l :: 0 <= l < k ==> c[l] == d[l]
    ensures Encode(c, sizes) < Encode(d, sizes)
  {
    InBoxPositive(c, sizes);
    ProductPositive(sizes[1..]);
    EncodeBound(c[1..], sizes[1..]);
    EncodeBound(d[1..], sizes[1..]);
    if k == 0 {
      ScaleAtMost(c[0], d[0], Product(sizes[1..]));
    } else {
      EncodeLess(c[1..], d[1..], sizes[1..], k - 1);
    }
  }

  /** A smaller position differs first in a smaller coordinate. */
  lemma {:induction false} FirstDifference(x: int, y: int, sizes: seq<int>) returns (k: nat)
    requires Positive(sizes) && 0 <= x < y < Product(sizes)
    ensures k < |sizes| && Coord(x, sizes, k) < Coord(y, sizes, k)
    ensures forall l :: 0 <= l < k ==> Coord(x, sizes, l) == Coord(y, sizes, l)
  {
    EncodeDigits(x, sizes);
    EncodeDigits(y, sizes);
    var c, d := Digits(x, sizes), Digits(y, sizes);
    k := 0;
    while k < |c| && c[k] == d[k]
      invariant k <= |c| && forall l :: 0 <= l < k ==> c[l] == d[l]
    {
      k := k + 1;
    }
    assert k == |c| ==> c == d;
    if k < |c| && c[k] > d[k] { EncodeLess(d, c, sizes, k); }
  }

  /** The last position has the largest coordinates. */
  lemma {:induction false} LastDigits(sizes: seq<int>, last: int)
    requires Positive(sizes) && last == Product(sizes) - 1
    ensures forall k :: 0 <= k < |sizes| ==> Digits(last, sizes)[k] == sizes[k] - 1
  {
    ProductPositive(sizes);
    var top := seq(|sizes|, k requires 0 <= k < |sizes| => sizes[k] - 1);
    TopEncodes(top, sizes);
    DigitsOfEncode(top, sizes);
    assert forall k :: 0 <= k < |sizes| ==> Digits(Encode(top, sizes), sizes)[k] == top[k];
  }

  lemma {:induction false} TopEncodes(top: seq<int>, sizes: seq<int>)
    requires |top| == |sizes| && forall k :: 0 <= k < |sizes| ==> top[k] == sizes[k] - 1
    ensures Encode(top, sizes) == Product(sizes) - 1
  {
    if top != [] {
      TopEncodes(top[1..], sizes[1..]);
      var n, p := sizes[0], Product(sizes[1..]);
      assert (n - 1) * p == n * p - p;
    }
  }

  lemma {:induction false} EncodeConcat(c: seq<int>, s: seq<int>, d: seq<int>, t: seq<int>)
    requires |c| == |s| && |d| == |t|
    ensures Encode(c + d, s + t) == Encode(c, s) * Product(t) + Encode(d, t)
  {
    if c == [] {
      assert c + d == d && s + t == t;
    } else {
      assert (c + d)[1..] == c[1..] + d && (s + t)[1..] == s[1..] + t;
      EncodeConcat(c[1..], s[1..], d, t);
      ProductConcat(s[1..], t);
      FactorOut(c[0], Product(s[1..]), Product(t), Encode(c[1..], s[1..]));
    }
  }

  lemma FactorOut(x: int, p: int, q: int, e: int)
    ensures x * (p * q) + e * q == (x * p + e) * q
  {
  }

  lemma {:induction false} ProductSplit(sizes: seq<int>, k: int)
    requires 0 <= k < |sizes|
    ensures Product(sizes) == (Product(sizes[..k]) * sizes[k]) * Product(sizes[k + 1..])
  {
    var lo := sizes[k + 1..];
    assert sizes == sizes[..k] + ([sizes[k]] + lo);
    ProductConcat(sizes[..k], [sizes[k]] + lo);
    assert ([sizes[k]] + lo)[1..] == lo;
    var a, n, p := Product(sizes[..k]), sizes[k], Product(lo);
    assert a * (n * p) == (a * n) * p;
  }

  lemma {:induction false} EncodeSplit(c: seq<int>, sizes: seq<int>, k: int) returns (a: int)
    requires |c| == |sizes| && 0 <= k < |sizes|
    ensures Encode(c, sizes)
            == (a * sizes[k] + c[k]) * Product(sizes[k + 1..]) + Encode(c[k + 1..], sizes[k + 1..])
  {
    var lo, cl := sizes[k + 1..], c[k + 1..];
    assert c == c[..k] + ([c[k]] + cl) && sizes == sizes[..k] + ([sizes[k]] + lo);
    EncodeConcat(c[..k], sizes[..k], [c[k]] + cl, [sizes[k]] + lo);
    assert ([sizes[k]] + lo)[1..] == lo && ([c[k]] + cl)[1..] == cl;
    a := Encode(c[..k], sizes[..k]);
    Regroup(a, sizes[k], Product(lo), c[k]);
  }

  lemma Regroup(a: int, n: int, p: int, d: int)
    ensures a * (n * p) + d * p == (a * n + d) * p
  {
  }

  lemma CoordStep(x: int, a: int, n: int, d: int, p: int, r: int)
    requires 0 <= d < n && 0 <= r < p && x == (a * n + d) * p + r
    ensures (x / p) % n == d
  {
    DivUnique(x, p, a * n + d, r);
    ModShift(a, n, d);
    DivUnique(d, n, 0, d);
  }

  lemma InBoxPositive(c: seq<int>, sizes: seq<int>)
    requires InBox(c, sizes)
    ensures Positive(sizes)
  {
    forall i | 0 <= i < |sizes| ensures sizes[i] >= 1 { assert 0 <= c[i] < sizes[i]; }
  }

  /** Decoding an encoded coordinate gives it back. */
  lemma {:induction false} CoordEncode(c: seq<int>, sizes: seq<int>, k: int)
    requires InBox(c, sizes) && 0 <= k < |sizes|
    ensures Positive(sizes)
    ensures Coord(Encode(c, sizes), sizes, k) == c[k]
  {
    InBoxPositive(c, sizes);
    ProductPositive(sizes[k + 1..]);
    var a := EncodeSplit(c, sizes, k);
    EncodeBound(c[k + 1..], sizes[k + 1..]);
    CoordStep(Encode(c, sizes), a, sizes[k], c[k], Product(sizes[k + 1..]), Encode(c[k + 1..], sizes[k + 1..]));
  }

  lemma Quotient(x: int, p: int, n: int) returns (q: int, r: int)
    requires p > 0 && 0 <= x < n * p
    ensures x == q * p + r && 0 <= r < p && 0 <= q < n
  {
    q, r := x / p, x % p;
    assert q >= n ==> q * p >= n * p;
    assert q <= -1 ==> q * p <= -p;
  }

  lemma {:induction false} Representable(x: int, sizes: seq<int>) returns (c: seq<int>)
    requires Positive(sizes) && 0 <= x < Product(sizes)
    ensures InBox(c, sizes) && Encode(c, sizes) == x
  {
    if sizes == [] {
      c := [];
    } else {
      var p := Product(sizes[1..]);
      ProductPositive(sizes[1..]);
      var q, r := Quotient(x, p, sizes[0]);
      var rest := Representable(r, sizes[1..]);
      c := [q] + rest;
      assert c[1..] == rest;
    }
  }

  /** Encoding the decoded coordinates gives the index back. */
  lemma {:induction false} EncodeDigits(x: int, sizes: seq<int>)
    requires Positive(sizes) && 0 <= x < Product(sizes)
    ensures InBox(Digits(x, sizes), sizes)
    ensures Encode(Digits(x, sizes), sizes) == x
  {
    var c := Representable(x, sizes);
    forall k | 0 <= k < |sizes| ensures Digits(x, sizes)[k] == c[k] {
      CoordEncode(c, sizes, k);
    }
    assert Digits(x, sizes) == c;
  }

  lemma {:induction false} DigitsInBox(x: int, sizes: seq<int>)
    requires Positive(sizes)
    ensures InBox(Digits(x, sizes), sizes)
  {
  }

  lemma {:induction false} DigitsOfEncode(c: seq<int>, sizes: seq<int>)
    requires InBox(c, sizes)
    ensures Positive(sizes) && Digits(Encode(c, sizes), sizes) == c
  {
    InBoxPositive(c, sizes);
    forall k | 0 <= k < |sizes| ensures Coord(Encode(c, sizes), sizes, k) == c[k] {
      CoordEncode(c, sizes, k);
    }
  }

  /** Coordinates wrap around at the volume of the grid. */
  lemma {:induction false} CoordWraps(x: int, sizes: seq<int>, k: int)
    requires Positive(sizes) && 0 <= k < |sizes|
    ensures Product(sizes) >= 1
    ensures Coord(x, sizes, k) == Coord(x % Product(sizes), sizes, k)
  {
    ProductPositive(sizes);
    ProductPositive(sizes[k + 1..]);
    ProductSplit(sizes, k);
    var p := Product(sizes);
    WrapStep(x, x / p, Product(sizes[..k]), sizes[k], Product(sizes[k + 1..]), x % p);
  }

  lemma WrapStep(x: int, q: int, a: int, n: int, lo: int, r: int)
    requires lo >= 1 && n >= 1 && x == q * ((a * n) * lo) + r
    ensures (x / lo) % n == (r / lo) % n
  {
    var u, v := r / lo, r % lo;
    assert q * ((a * n) * lo) == (q * a * n) * lo;
    assert (q * a * n) * lo + u * lo == (q * a * n + u) * lo;
    DivUnique(x, lo, q * a * n + u, v);
    ModShift(q * a, n, u);
  }

  lemma {:induction false} EncodeIsWeighted(c: seq<int>, sizes: seq<int>)
    requires |c| == |sizes|
    ensures Encode(c, sizes) == Weighted(c, Strides(sizes))
  {
    if c != [] {
      var w := Strides(sizes);
      EncodeIsWeighted(c[1..], sizes[1..]);
      forall k | 0 <= k < |c| - 1 ensures w[1..][k] == Strides(sizes[1..])[k] {
        assert sizes[k + 2..] == sizes[1..][k + 1..];
      }
      assert w[1..] == Strides(sizes[1..]);
      assert Times(c, w)[1..] == Times(c[1..], w[1..]);
    }
  }

  lemma {:induction false} WeightedConcat(c: seq<int>, v: seq<int>, d: seq<int>, w: seq<int>)
    requires |c| == |v| && |d| == |w|
    ensures Weighted(c + d, v + w) == Weighted(c, v) + Weighted(d, w)
  {
    assert Times(c + d, v + w) == Times(c, v) + Times(d, w);
    SumConcat(Times(c, v), Times(d, w));
  }

  /** Scaling every weight scales the sum. */
  lemma {:induction false} WeightedScale(c: seq<int>, v: seq<int>, w: seq<int>, f: int)
    requires |c| == |v| == |w|
    requires forall k :: 0 <= k < |v| ==> w[k] == v[k] * f
    ensures Weighted(c, w) == Weighted(c, v) * f
  {
    if c != [] {
      WeightedScale(c[1..], v[1..], w[1..], f);
      assert Times(c, v)[1..] == Times(c[1..], v[1..]);
      assert Times(c, w)[1..] == Times(c[1..], w[1..]);
      var x, y, z := c[0], v[0], Weighted(c[1..], v[1..]);
      assert x * (y * f) + z * f == (x * y + z) * f;
    }
  }

  /** A weighted sum does not depend on the order of its terms. */
  lemma {:induction false} WeightedPermuted(c: seq<int>, w: seq<int>, p: seq<int>)
    requires |c| == |w| && IsPermutation(p, |c|)
    ensures Weighted(Pick(c, p), Pick(w, p)) == Weighted(c, w)
  {
    assert Times(Pick(c, p), Pick(w, p)) == Pick(Times(c, w), p);
    PickPermutation(Times(c, w), p);
    FoldsIgnoreOrder(Pick(Times(c, w), p), Times(c, w));
  }

  /** Row-major digits of i * |inner| + j over outer + inner are those of i, then those of j. */
  lemma {:induction false} DigitsSplit(i: int, j: int, m: int, outer: seq<int>, inner: seq<int>)
    requires Positive(outer) && Positive(inner)
    requires 0 <= i < Product(outer) && 0 <= j < Product(inner) && m == i * Product(inner) + j
    ensures Positive(outer + inner)
    ensures Digits(m, outer + inner) == Digits(i, outer) + Digits(j, inner)
  {
    EncodeDigits(i, outer);
    EncodeDigits(j, inner);
    JoinDigits(Digits(i, outer), outer, Digits(j, inner), inner, m);
  }

  lemma {:induction false} JoinDigits(c: seq<int>, outer: seq<int>, d: seq<int>, inner: seq<int>, m: int)
    requires InBox(c, outer) && InBox(d, inner) && m == Encode(c, outer) * Product(inner) + Encode(d, inner)
    ensures Positive(outer + inner)
    ensures Digits(m, outer + inner) == c + d
  {
    EncodeConcat(c, outer, d, inner);
    InBoxConcat(c, outer, d, inner);
    DigitsOfEncode(c + d, outer + inner);
  }

  lemma InBoxConcat(c: seq<int>, s: seq<int>, d: seq<int>, t: seq<int>)
    requires InBox(c, s) && InBox(d, t)
    ensures InBox(c + d, s + t) && Positive(s + t)
  {
  }
}
