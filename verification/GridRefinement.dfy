/** Splitting one grouped axis of a device grid into consecutive smaller axes, all grouped in order,
    leaves the groups unchanged. */
module GridRefinement {
  import opened Sequences
  import opened MixedRadix
  import opened TransposedGroups

  /** `x` with entry `d` replaced by the sequence `y`. */
  function Refine<T>(x: seq<T>, d: int, y: seq<T>): (r: seq<T>)
    requires 0 <= d < |x|
    ensures |r| == |x| - 1 + |y|
  {
    x[..d] + y + x[d + 1..]
  }

  /** Where index `i` moves when entry `d` is replaced by `k` entries. */
  function Shift(i: int, d: int, k: nat): int {
    if i <= d then i else i + k - 1
  }

  function ShiftAll(s: seq<int>, d: int, k: nat): (r: seq<int>)
    ensures |r| == |s| && forall i :: 0 <= i < |s| ==> r[i] == Shift(s[i], d, k)
  {
    seq(|s|, i requires 0 <= i < |s| => Shift(s[i], d, k))
  }

  function Range(d: int, k: nat): (r: seq<int>)
    ensures |r| == k && forall b :: 0 <= b < k ==> r[b] == d + b
  {
    seq(k, b => d + b)
  }

  /** An index list mentioning `d` once, between `a` and `b`, after the replacement. */
  function RefineIndices(a: seq<int>, b: seq<int>, d: int, k: nat): seq<int> {
    ShiftAll(a, d, k) + Range(d, k) + ShiftAll(b, d, k)
  }

  lemma {:induction false} ProductRefine(t: seq<int>, e: int, s: seq<int>)
    requires 0 <= e < |t| && Product(s) == t[e]
    ensures Product(Refine(t, e, s)) == Product(t)
  {
    ProductConcat(t[..e] + s, t[e + 1..]);
    ProductConcat(t[..e], s);
    ProductSplit(t, e);
  }

  lemma {:induction false} RefineSuffix(t: seq<int>, e: int, s: seq<int>, k: int)
    requires 0 <= k < e < |t|
    ensures Refine(t, e, s)[k + 1..] == Refine(t[k + 1..], e - k - 1, s)
  {
    var u := t[k + 1..];
    assert t[..e][k + 1..] == u[..e - k - 1];
    assert t[e + 1..] == u[e - k..];
  }

  lemma {:induction false} SuffixProducts(t: seq<int>, e: int, s: seq<int>, k: int)
    requires 0 <= e < |t| && Product(s) == t[e] && 0 <= k < |Refine(t, e, s)|
    ensures k < e ==> Product(Refine(t, e, s)[k + 1..]) == Product(t[k + 1..])
    ensures e <= k < e + |s| ==> Product(Refine(t, e, s)[k + 1..]) == Product(s[k - e + 1..]) * Product(t[e + 1..])
    ensures k >= e + |s| ==> Refine(t, e, s)[k + 1..] == t[k + 2 - |s|..]
  {
    var r := Refine(t, e, s);
    if k < e {
      RefineSuffix(t, e, s, k);
      ProductRefine(t[k + 1..], e - k - 1, s);
    } else if k < e + |s| {
      assert r[k + 1..] == s[k - e + 1..] + t[e + 1..];
      ProductConcat(s[k - e + 1..], t[e + 1..]);
    } else {
      assert r[k + 1..] == t[k + 2 - |s|..];
    }
  }

  lemma {:induction false} RefinePositive(t: seq<int>, e: int, s: seq<int>)
    requires 0 <= e < |t| && Positive(t) && Positive(s)
    ensures Positive(Refine(t, e, s))
  {
  }

  lemma RefineEntry<T>(x: seq<T>, d: int, y: seq<T>, k: int)
    requires 0 <= d < |x| && 0 <= k < |Refine(x, d, y)|
    ensures k < d ==> Refine(x, d, y)[k] == x[k]
    ensures d <= k < d + |y| ==> Refine(x, d, y)[k] == y[k - d]
    ensures k >= d + |y| ==> Refine(x, d, y)[k] == x[k + 1 - |y|]
  {
  }

  /** The coordinates of the finer grid split the coordinate of the refined axis further. */
  lemma {:induction false} RefineDigits(m: int, t: seq<int>, e: int, s: seq<int>)
    requires 0 <= e < |t| && Positive(t) && Positive(s) && Product(s) == t[e]
    ensures Positive(Refine(t, e, s))
    ensures Digits(m, Refine(t, e, s)) == Refine(Digits(m, t), e, Digits(Coord(m, t, e), s))
  {
    RefinePositive(t, e, s);
    var fine := Digits(m, Refine(t, e, s));
    var split := Refine(Digits(m, t), e, Digits(Coord(m, t, e), s));
    forall k | 0 <= k < |fine| ensures fine[k] == split[k] {
      SuffixProducts(t, e, s, k);
      RefineEntry(t, e, s, k);
      RefineEntry(Digits(m, t), e, Digits(Coord(m, t, e), s), k);
      if e <= k < e + |s| {
        InnerDigit(m, t, e, s, k - e);
      }
    }
  }

  lemma {:induction false} InnerDigit(m: int, t: seq<int>, e: int, s: seq<int>, b: int)
    requires 0 <= e < |t| && Positive(t) && Positive(s) && Product(s) == t[e] && 0 <= b < |s|
    ensures Product(s[b + 1..]) * Product(t[e + 1..]) >= 1
    ensures (m / (Product(s[b + 1..]) * Product(t[e + 1..]))) % s[b] == Coord(Coord(m, t, e), s, b)
  {
    ProductPositive(s[b + 1..]);
    ProductPositive(t[e + 1..]);
    DivDiv(m, Product(s[b + 1..]), Product(t[e + 1..]));
    CoordWraps(m / Product(t[e + 1..]), s, b);
  }

  function ScaledStrides(s: seq<int>, f: int): (r: seq<int>)
    ensures |r| == |s| && forall b :: 0 <= b < |s| ==> r[b] == Strides(s)[b] * f
  {
    seq(|s|, b requires 0 <= b < |s| => Strides(s)[b] * f)
  }

  lemma {:induction false} RefineStrides(t: seq<int>, e: int, s: seq<int>)
    requires 0 <= e < |t| && Product(s) == t[e]
    ensures Strides(Refine(t, e, s)) == Refine(Strides(t), e, ScaledStrides(s, Strides(t)[e]))
  {
    var fine := Strides(Refine(t, e, s));
    var split := Refine(Strides(t), e, ScaledStrides(s, Strides(t)[e]));
    forall k | 0 <= k < |fine| ensures fine[k] == split[k] {
      SuffixProducts(t, e, s, k);
      RefineEntry(Strides(t), e, ScaledStrides(s, Strides(t)[e]), k);
    }
  }

  lemma {:induction false} PickRefined<T>(x: seq<T>, d: int, y: seq<T>, a: seq<int>, b: seq<int>)
    requires 0 <= d < |x| && InRange(a, |x|) && InRange(b, |x|) && d !in a && d !in b
    ensures InRange(RefineIndices(a, b, d, |y|), |Refine(x, d, y)|)
    ensures Pick(Refine(x, d, y), RefineIndices(a, b, d, |y|)) == Pick(x, a) + y + Pick(x, b)
  {
    PickShifted(x, d, y, a);
    PickShifted(x, d, y, b);
  }

  lemma {:induction false} PickShifted<T>(x: seq<T>, d: int, y: seq<T>, a: seq<int>)
    requires 0 <= d < |x| && InRange(a, |x|) && d !in a
    ensures InRange(ShiftAll(a, d, |y|), |Refine(x, d, y)|)
    ensures Pick(Refine(x, d, y), ShiftAll(a, d, |y|)) == Pick(x, a)
  {
    forall i | 0 <= i < |a|
      ensures 0 <= Shift(a[i], d, |y|) < |Refine(x, d, y)| && Refine(x, d, y)[Shift(a[i], d, |y|)] == x[a[i]]
    {
      assert a[i] in a && a[i] != d;
      RefineEntry(x, d, y, Shift(a[i], d, |y|));
    }
  }

  /** A weighted sum is unchanged when one term is expanded into its own weighted digits. */
  lemma {:induction false} RefineWeighted(c: seq<int>, w: seq<int>, e: int, s: seq<int>)
    requires |c| == |w| && 0 <= e < |c| && Positive(s) && 0 <= c[e] < Product(s)
    ensures Weighted(Refine(c, e, Digits(c[e], s)), w[..e] + ScaledStrides(s, w[e]) + w[e + 1..]) == Weighted(c, w)
  {
    var inner, scaled := Digits(c[e], s), ScaledStrides(s, w[e]);
    WeightedScale(inner, Strides(s), scaled, w[e]);
    EncodeIsWeighted(inner, s);
    EncodeDigits(c[e], s);
    WeightedOne(c[e], w[e]);
    SplitAt(c, e);
    SplitAt(w, e);
    WeightedAround(c[..e], w[..e], inner, scaled, [c[e]], [w[e]], c[e + 1..], w[e + 1..]);
  }

  lemma WeightedOne(x: int, f: int)
    ensures Weighted([x], [f]) == x * f
  {
    assert Times([x], [f]) == [x * f];
    assert Sum([x * f]) == x * f + Sum([]);
  }

  /** Parts of equal weighted sum can replace each other. */
  lemma WeightedAround(a: seq<int>, u: seq<int>, x: seq<int>, v: seq<int>, y: seq<int>, w: seq<int>, b: seq<int>, z: seq<int>)
    requires |a| == |u| && |x| == |v| && |y| == |w| && |b| == |z| && Weighted(x, v) == Weighted(y, w)
    ensures Weighted(a + x + b, u + v + z) == Weighted(a + y + b, u + w + z)
  {
    WeightedConcat(a, u, x, v);
    WeightedConcat(a, u, y, w);
    WeightedConcat(a + x, u + v, b, z);
    WeightedConcat(a + y, u + w, b, z);
  }

  /** The transposed numbering of the finer grid visits the same positions. */
  lemma {:induction false} RefineSource(m: int, sizes: seq<int>, d: int, s: seq<int>, a: seq<int>, b: seq<int>)
    requires Positive(sizes) && Positive(s) && 0 <= d < |sizes| && Product(s) == sizes[d]
    requires IsPermutation(a + [d] + b, |sizes|)
    requires Positive(Refine(sizes, d, s)) && IsPermutation(RefineIndices(a, b, d, |s|), |Refine(sizes, d, s)|)
    ensures SourceIndex(m, Refine(sizes, d, s), RefineIndices(a, b, d, |s|)) == SourceIndex(m, sizes, a + [d] + b)
  {
    AroundOnce(a, d, b, |sizes|);
    var t := Pick(sizes, a + [d] + b);
    var w := Pick(Strides(sizes), a + [d] + b);
    RefinedShape(sizes, d, s, a, b);
    RefinedWeights(sizes, d, s, a, b);
    RefineDigits(m, t, |a|, s);
    RefineWeighted(Digits(m, t), w, |a|, s);
  }

  lemma {:induction false} RefinedShape(sizes: seq<int>, d: int, s: seq<int>, a: seq<int>, b: seq<int>)
    requires 0 <= d < |sizes| && InRange(a, |sizes|) && InRange(b, |sizes|) && d !in a && d !in b
    ensures InRange(a + [d] + b, |sizes|) && InRange(RefineIndices(a, b, d, |s|), |Refine(sizes, d, s)|)
    ensures Pick(sizes, a + [d] + b)[|a|] == sizes[d]
    ensures Pick(Refine(sizes, d, s), RefineIndices(a, b, d, |s|)) == Refine(Pick(sizes, a + [d] + b), |a|, s)
  {
    PickRefined(sizes, d, s, a, b);
    PickAround(sizes, a, d, b);
    RefineMiddle(Pick(sizes, a), sizes[d], Pick(sizes, b), s);
  }

  lemma {:induction false} RefinedWeights(sizes: seq<int>, d: int, s: seq<int>, a: seq<int>, b: seq<int>)
    requires 0 <= d < |sizes| && InRange(a, |sizes|) && InRange(b, |sizes|) && d !in a && d !in b
    requires Product(s) == sizes[d]
    ensures InRange(a + [d] + b, |sizes|) && InRange(RefineIndices(a, b, d, |s|), |Refine(sizes, d, s)|)
    ensures var w := Pick(Strides(sizes), a + [d] + b);
            Pick(Strides(Refine(sizes, d, s)), RefineIndices(a, b, d, |s|))
            == w[..|a|] + ScaledStrides(s, w[|a|]) + w[|a| + 1..]
  {
    var scaled := ScaledStrides(s, Strides(sizes)[d]);
    RefineStrides(sizes, d, s);
    PickRefined(Strides(sizes), d, scaled, a, b);
    PickAround(Strides(sizes), a, d, b);
    RefineMiddle(Pick(Strides(sizes), a), Strides(sizes)[d], Pick(Strides(sizes), b), scaled);
  }

  lemma {:induction false} AroundOnce(a: seq<int>, d: int, b: seq<int>, n: nat)
    requires IsPermutation(a + [d] + b, n)
    ensures InRange(a, n) && InRange(b, n) && 0 <= d < n && d !in a && d !in b
  {
    var p := a + [d] + b;
    assert p[|a|] == d;
    forall i | 0 <= i < |a| ensures 0 <= a[i] < n && a[i] != d { assert p[i] == a[i]; }
    forall i | 0 <= i < |b| ensures 0 <= b[i] < n && b[i] != d { assert p[|a| + 1 + i] == b[i]; }
  }

  // ----- the groups

  /** The axes outside the grouping keep their order; only their numbers shift. */
  lemma {:induction false} RefineOuter(n: nat, d: int, k: nat, g: seq<int>, h: seq<int>)
    requires 0 <= d < n && k >= 1 && InRange(g, n) && InRange(h, n) && d !in g && d !in h
    ensures Excluding(n - 1 + k, RefineIndices(g, h, d, k)) == ShiftAll(Excluding(n, g + [d] + h), d, k)
  {
    var fine, coarse := RefineIndices(g, h, d, k), g + [d] + h;
    var left, right := Excluding(n - 1 + k, fine), ShiftAll(Excluding(n, coarse), d, k);
    ExcludingProperties(n - 1 + k, fine);
    ExcludingProperties(n, coarse);
    forall x ensures x in left <==> x in right {
      OuterMember(n, d, k, g, h, x);
    }
    IncreasingUnique(left, right);
  }

  lemma {:induction false} OuterMember(n: nat, d: int, k: nat, g: seq<int>, h: seq<int>, x: int)
    requires 0 <= d < n && k >= 1 && InRange(g, n) && InRange(h, n) && d !in g && d !in h
    ensures x in Excluding(n - 1 + k, RefineIndices(g, h, d, k)) <==> x in ShiftAll(Excluding(n, g + [d] + h), d, k)
  {
    var fine, coarse := RefineIndices(g, h, d, k), g + [d] + h;
    ExcludingProperties(n - 1 + k, fine);
    ExcludingProperties(n, coarse);
    var outer := Excluding(n, coarse);
    var y := if x < d then x else x - (k - 1);
    ShiftMember(outer, d, k, x, y);
    FineMember(d, k, g, h, x, y);
    AroundMember(g, d, h, y);
    AroundMember(g, d, h, d);
    assert d !in outer;
  }

  lemma AroundMember(g: seq<int>, d: int, h: seq<int>, y: int)
    ensures y in g + [d] + h <==> y in g || y == d || y in h
  {
    InConcat(g, [d], y);
    InConcat(g + [d], h, y);
  }

  lemma {:induction false} ShiftMember(s: seq<int>, d: int, k: nat, x: int, y: int)
    requires d !in s && k >= 1 && y == if x < d then x else x - (k - 1)
    ensures x in ShiftAll(s, d, k) <==> !(d <= x < d + k) && y in s
  {
    var r := ShiftAll(s, d, k);
    if x in r {
      var i :| 0 <= i < |r| && r[i] == x;
      assert s[i] in s;
    }
    if !(d <= x < d + k) && y in s {
      var i :| 0 <= i < |s| && s[i] == y;
      assert r[i] == x;
    }
  }

  lemma {:induction false} FineMember(d: int, k: nat, g: seq<int>, h: seq<int>, x: int, y: int)
    requires d !in g && d !in h && k >= 1 && y == if x < d then x else x - (k - 1)
    ensures x in RefineIndices(g, h, d, k) <==> d <= x < d + k || y in g || y in h
  {
    ShiftMember(g, d, k, x, y);
    ShiftMember(h, d, k, x, y);
    RangeMember(d, k, x);
    InConcat(ShiftAll(g, d, k), Range(d, k), x);
    InConcat(ShiftAll(g, d, k) + Range(d, k), ShiftAll(h, d, k), x);
  }

  lemma RangeMember(d: int, k: nat, x: int)
    ensures x in Range(d, k) <==> d <= x < d + k
  {
    if d <= x < d + k { assert Range(d, k)[x - d] == x; }
  }

  lemma {:induction false} RefineValid(sizes: seq<int>, d: int, s: seq<int>, g: seq<int>, h: seq<int>)
    requires ValidGrouping(sizes, g + [d] + h) && Positive(s) && s != []
    ensures 0 <= d < |sizes| && InRange(g, |sizes|) && InRange(h, |sizes|) && d !in g && d !in h
    ensures ValidGrouping(Refine(sizes, d, s), RefineIndices(g, h, d, |s|))
  {
    var coarse := g + [d] + h;
    assert coarse[|g|] == d;
    forall i | 0 <= i < |g| ensures 0 <= g[i] < |sizes| && g[i] != d { assert coarse[i] == g[i]; }
    forall i | 0 <= i < |h| ensures 0 <= h[i] < |sizes| && h[i] != d { assert coarse[|g| + 1 + i] == h[i]; }
    RefinePositive(sizes, d, s);
    RefineDistinct(g, h, d, |s|);
    var fine := RefineIndices(g, h, d, |s|);
    forall i | 0 <= i < |fine| ensures 0 <= fine[i] < |Refine(sizes, d, s)| {
      FineMember(d, |s|, g, h, fine[i], if fine[i] < d then fine[i] else fine[i] - (|s| - 1));
      assert fine[i] in fine;
    }
  }

  lemma {:induction false} RefineDistinct(g: seq<int>, h: seq<int>, d: int, k: nat)
    requires Distinct(g + [d] + h) && k >= 1
    ensures Distinct(RefineIndices(g, h, d, k))
  {
    var coarse, fine := g + [d] + h, RefineIndices(g, h, d, k);
    forall i, j | 0 <= i < j < |fine| ensures fine[i] != fine[j] {
      var i', j' := Back(i, |g|, k), Back(j, |g|, k);
      FineEntry(g, h, d, k, i);
      FineEntry(g, h, d, k, j);
      if i' < j' { assert coarse[i'] != coarse[j']; }
      assert coarse[|g|] == d;
      if i' != |g| { assert coarse[i'] != d; }
      if j' != |g| { assert coarse[j'] != d; }
    }
  }

  /** The entry of the coarse index list that entry `i` of the fine one comes from. */
  function Back(i: int, e: int, k: nat): int {
    if i < e then i else if i < e + k then e else i + 1 - k
  }

  lemma FineEntry(g: seq<int>, h: seq<int>, d: int, k: nat, i: int)
    requires k >= 1 && 0 <= i < |RefineIndices(g, h, d, k)|
    ensures 0 <= Back(i, |g|, k) < |g + [d] + h|
    ensures Back(i, |g|, k) != |g| ==> RefineIndices(g, h, d, k)[i] == Shift((g + [d] + h)[Back(i, |g|, k)], d, k)
    ensures Back(i, |g|, k) == |g| ==> RefineIndices(g, h, d, k)[i] == d + (i - |g|)
  {
  }

  lemma {:induction false} RefineTranspose(sizes: seq<int>, d: int, s: seq<int>, g: seq<int>, h: seq<int>)
    requires ValidGrouping(sizes, g + [d] + h) && Positive(s) && s != []
    ensures 0 <= d < |sizes|
    ensures var outer := Excluding(|sizes|, g + [d] + h);
            TransposeAxes(|sizes|, g + [d] + h) == (outer + g) + [d] + h
            && TransposeAxes(|Refine(sizes, d, s)|, RefineIndices(g, h, d, |s|)) == RefineIndices(outer + g, h, d, |s|)
  {
    RefineValid(sizes, d, s, g, h);
    RefineOuter(|sizes|, d, |s|, g, h);
    var outer := Excluding(|sizes|, g + [d] + h);
    assert ShiftAll(outer, d, |s|) + ShiftAll(g, d, |s|) == ShiftAll(outer + g, d, |s|);
  }

  lemma {:induction false} RefineGroupSize(sizes: seq<int>, d: int, s: seq<int>, g: seq<int>, h: seq<int>)
    requires ValidGrouping(sizes, g + [d] + h) && Positive(s) && s != [] && 0 <= d < |sizes| && Product(s) == sizes[d]
    requires ValidGrouping(Refine(sizes, d, s), RefineIndices(g, h, d, |s|))
    ensures GroupSize(Refine(sizes, d, s), RefineIndices(g, h, d, |s|)) == GroupSize(sizes, g + [d] + h)
  {
    RefineValid(sizes, d, s, g, h);
    PickRefined(sizes, d, s, g, h);
    PickAround(sizes, g, d, h);
    RefineMiddle(Pick(sizes, g), sizes[d], Pick(sizes, h), s);
    ProductRefine(Pick(sizes, g + [d] + h), |g|, s);
  }

  lemma PickAround<T>(x: seq<T>, g: seq<int>, d: int, h: seq<int>)
    requires InRange(g, |x|) && InRange(h, |x|) && 0 <= d < |x|
    ensures InRange(g + [d] + h, |x|) && Pick(x, g + [d] + h) == Pick(x, g) + [x[d]] + Pick(x, h)
  {
  }

  lemma RefineMiddle<T>(a: seq<T>, m: T, b: seq<T>, s: seq<T>)
    ensures (a + [m] + b)[|a|] == m && Refine(a + [m] + b, |a|, s) == a + s + b
  {
    var x := a + [m] + b;
    assert x[..|a|] == a && x[|a| + 1..] == b;
  }

  /** Replacing a grouped axis by consecutive factors of it gives the same groups in the same order. */
  lemma {:induction false} RefinedGroupsEqual(sizes: seq<int>, d: int, s: seq<int>, g: seq<int>, h: seq<int>,
                                              ids: seq<int>, total: nat)
    requires ValidGrouping(sizes, g + [d] + h) && AllInReach(sizes, g + [d] + h, total, |ids|)
    requires Positive(s) && s != [] && 0 <= d < |sizes| && Product(s) == sizes[d]
    ensures ValidGrouping(Refine(sizes, d, s), RefineIndices(g, h, d, |s|))
    ensures AllInReach(Refine(sizes, d, s), RefineIndices(g, h, d, |s|), total, |ids|)
    ensures Groups(Refine(sizes, d, s), RefineIndices(g, h, d, |s|), ids, total) == Groups(sizes, g + [d] + h, ids, total)
  {
    RefineValid(sizes, d, s, g, h);
    RefineGroupSize(sizes, d, s, g, h);
    var fine, coarse := Refine(sizes, d, s), g + [d] + h;
    var fineGrouped := RefineIndices(g, h, d, |s|);
    forall i | 0 <= i < total / GroupSize(sizes, coarse)
      ensures InReach(i, fine, fineGrouped, |ids|) && Group(i, fine, fineGrouped, ids) == Group(i, sizes, coarse, ids)
    {
      RefinedGroup(i, sizes, d, s, g, h, ids);
    }
  }

  lemma {:induction false} RefinedGroup(i: int, sizes: seq<int>, d: int, s: seq<int>, g: seq<int>, h: seq<int>, ids: seq<int>)
    requires ValidGrouping(sizes, g + [d] + h) && InReach(i, sizes, g + [d] + h, |ids|)
    requires Positive(s) && s != [] && 0 <= d < |sizes| && Product(s) == sizes[d]
    requires ValidGrouping(Refine(sizes, d, s), RefineIndices(g, h, d, |s|))
    ensures InReach(i, Refine(sizes, d, s), RefineIndices(g, h, d, |s|), |ids|)
    ensures Group(i, Refine(sizes, d, s), RefineIndices(g, h, d, |s|), ids) == Group(i, sizes, g + [d] + h, ids)
  {
    RefineGroupSize(sizes, d, s, g, h);
    forall j | 0 <= j < GroupSize(sizes, g + [d] + h)
      ensures Position(i, j, Refine(sizes, d, s), RefineIndices(g, h, d, |s|)) == Position(i, j, sizes, g + [d] + h)
    {
      RefinePosition(i, j, sizes, d, s, g, h);
    }
  }

  lemma {:induction false} RefinePosition(i: int, j: int, sizes: seq<int>, d: int, s: seq<int>, g: seq<int>, h: seq<int>)
    requires ValidGrouping(sizes, g + [d] + h)
    requires Positive(s) && s != [] && 0 <= d < |sizes| && Product(s) == sizes[d]
    requires ValidGrouping(Refine(sizes, d, s), RefineIndices(g, h, d, |s|))
    ensures Position(i, j, Refine(sizes, d, s), RefineIndices(g, h, d, |s|)) == Position(i, j, sizes, g + [d] + h)
  {
    RefineGroupSize(sizes, d, s, g, h);
    var k := GroupSize(sizes, g + [d] + h);
    var m := i * k + j;
    PositionNumbered(i, j, k, m, sizes, g + [d] + h);
    PositionNumbered(i, j, k, m, Refine(sizes, d, s), RefineIndices(g, h, d, |s|));
    RefineTransposed(m, sizes, d, s, g, h);
  }

  lemma PositionNumbered(i: int, j: int, k: int, m: int, sizes: seq<int>, grouped: seq<int>)
    requires ValidGrouping(sizes, grouped) && k == GroupSize(sizes, grouped) && m == i * k + j
    ensures IsPermutation(TransposeAxes(|sizes|, grouped), |sizes|)
    ensures Position(i, j, sizes, grouped) == SourceIndex(m, sizes, TransposeAxes(|sizes|, grouped))
  {
    TransposeAxesPermutation(sizes, grouped);
  }

  lemma {:induction false} RefineTransposed(m: int, sizes: seq<int>, d: int, s: seq<int>, g: seq<int>, h: seq<int>)
    requires ValidGrouping(sizes, g + [d] + h)
    requires Positive(s) && s != [] && 0 <= d < |sizes| && Product(s) == sizes[d]
    requires ValidGrouping(Refine(sizes, d, s), RefineIndices(g, h, d, |s|))
    requires IsPermutation(TransposeAxes(|sizes|, g + [d] + h), |sizes|)
    requires IsPermutation(TransposeAxes(|Refine(sizes, d, s)|, RefineIndices(g, h, d, |s|)), |Refine(sizes, d, s)|)
    ensures SourceIndex(m, Refine(sizes, d, s), TransposeAxes(|Refine(sizes, d, s)|, RefineIndices(g, h, d, |s|)))
            == SourceIndex(m, sizes, TransposeAxes(|sizes|, g + [d] + h))
  {
    RefineTranspose(sizes, d, s, g, h);
    RefineSource(m, sizes, d, s, Excluding(|sizes|, g + [d] + h) + g, h);
  }
}
