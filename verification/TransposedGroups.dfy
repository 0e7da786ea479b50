/** Groups of devices read off a transposed row-major grid: the reshape-transpose step of
    replica-group flattening. */
module TransposedGroups {
  import opened Sequences
  import opened MixedRadix

  /** Every grid axis has at least one position, and the grouped axes are distinct axes of the grid. */
  predicate ValidGrouping(sizes: seq<int>, grouped: seq<int>) {
    Positive(sizes) && InRange(grouped, |sizes|) && Distinct(grouped)
  }

  /** Non-grouped axes in grid order, then the grouped axes in the requested order. */
  function TransposeAxes(n: nat, grouped: seq<int>): seq<int> {
    Excluding(n, grouped) + grouped
  }

  function OuterAxes(sizes: seq<int>, grouped: seq<int>): seq<int> {
    Excluding(|sizes|, grouped)
  }

  lemma TransposeAxesPermutation(sizes: seq<int>, grouped: seq<int>)
    requires ValidGrouping(sizes, grouped)
    ensures IsPermutation(TransposeAxes(|sizes|, grouped), |sizes|)
    ensures InRange(OuterAxes(sizes, grouped), |sizes|)
  {
    ExcludingPermutation(|sizes|, grouped);
    ExcludingProperties(|sizes|, grouped);
  }

  /** The position in the original grid of linear index `m` of the grid transposed by `p`. */
  function SourceIndex(m: int, sizes: seq<int>, p: seq<int>): int
    requires Positive(sizes) && IsPermutation(p, |sizes|)
  {
    Weighted(Digits(m, Pick(sizes, p)), Pick(Strides(sizes), p))
  }

  function GroupSize(sizes: seq<int>, grouped: seq<int>): (r: int)
    requires ValidGrouping(sizes, grouped)
    ensures r >= 1
  {
    ProductPositive(Pick(sizes, grouped));
    Product(Pick(sizes, grouped))
  }

  /** Grid position of member `j` of group `i`. */
  function Position(i: int, j: int, sizes: seq<int>, grouped: seq<int>): int
    requires ValidGrouping(sizes, grouped)
  {
    TransposeAxesPermutation(sizes, grouped);
    SourceIndex(i * GroupSize(sizes, grouped) + j, sizes, TransposeAxes(|sizes|, grouped))
  }

  /** The members of group `i` are at positions below `n`. */
  predicate InReach(i: int, sizes: seq<int>, grouped: seq<int>, n: int)
    requires ValidGrouping(sizes, grouped)
  {
    forall j :: 0 <= j < GroupSize(sizes, grouped) ==> 0 <= Position(i, j, sizes, grouped) < n
  }

  /** Every read of a device list of length `n` is in range. */
  predicate AllInReach(sizes: seq<int>, grouped: seq<int>, total: nat, n: int)
    requires ValidGrouping(sizes, grouped)
  {
    forall i :: 0 <= i < total / GroupSize(sizes, grouped) ==> InReach(i, sizes, grouped, n)
  }

  function Group(i: int, sizes: seq<int>, grouped: seq<int>, ids: seq<int>): (g: seq<int>)
    requires ValidGrouping(sizes, grouped) && InReach(i, sizes, grouped, |ids|)
    ensures |g| == GroupSize(sizes, grouped)
    ensures forall j {:trigger g[j]} :: 0 <= j < |g| ==>
              0 <= Position(i, j, sizes, grouped) < |ids| && g[j] == ids[Position(i, j, sizes, grouped)]
  {
    seq(GroupSize(sizes, grouped), j requires 0 <= j < GroupSize(sizes, grouped) => ids[Position(i, j, sizes, grouped)])
  }

  function Groups(sizes: seq<int>, grouped: seq<int>, ids: seq<int>, total: nat): (gs: seq<seq<int>>)
    requires ValidGrouping(sizes, grouped) && AllInReach(sizes, grouped, total, |ids|)
    ensures |gs| == total / GroupSize(sizes, grouped)
    ensures forall i {:trigger gs[i]} :: 0 <= i < |gs| ==>
              InReach(i, sizes, grouped, |ids|) && gs[i] == Group(i, sizes, grouped, ids)
  {
    seq(total / GroupSize(sizes, grouped), i requires 0 <= i < total / GroupSize(sizes, grouped) => Group(i, sizes, grouped, ids))
  }

  // ----- the transposed numbering

  /** The coordinates of the source position are the transposed coordinates, put back in place. */
  lemma {:induction false} SourceIndexCoords(m: int, sizes: seq<int>, p: seq<int>)
    requires Positive(sizes) && IsPermutation(p, |sizes|)
    ensures Positive(Pick(sizes, p))
    ensures 0 <= SourceIndex(m, sizes, p) < Product(sizes)
    ensures Pick(Digits(SourceIndex(m, sizes, p), sizes), p) == Digits(m, Pick(sizes, p))
  {
    var n := |sizes|;
    var c := Digits(m, Pick(sizes, p));
    forall j | 0 <= j < n ensures j in p { PermutationCovers(p, n, j); }
    var placed := seq(n, j requires 0 <= j < n => c[IndexOf(p, j)]);
    assert Pick(placed, p) == c;
    assert InBox(placed, sizes);
    WeightedPermuted(placed, Strides(sizes), p);
    EncodeIsWeighted(placed, sizes);
    EncodeBound(placed, sizes);
    DigitsOfEncode(placed, sizes);
  }

  lemma PositionInGrid(i: int, sizes: seq<int>, grouped: seq<int>)
    requires ValidGrouping(sizes, grouped)
    ensures forall j :: 0 <= Position(i, j, sizes, grouped) < Product(sizes)
  {
    forall j ensures 0 <= Position(i, j, sizes, grouped) < Product(sizes) { PositionWithin(i, j, sizes, grouped); }
  }

  lemma SourceInGrid(m: int, sizes: seq<int>, p: seq<int>)
    requires Positive(sizes) && IsPermutation(p, |sizes|)
    ensures 0 <= SourceIndex(m, sizes, p) < Product(sizes)
  {
    SourceIndexCoords(m, sizes, p);
  }

  lemma PositionWithin(i: int, j: int, sizes: seq<int>, grouped: seq<int>)
    requires ValidGrouping(sizes, grouped)
    ensures 0 <= Position(i, j, sizes, grouped) < Product(sizes)
  {
    var m := PositionIsSource(i, j, sizes, grouped);
    SourceInGrid(m, sizes, OuterAxes(sizes, grouped) + grouped);
  }

  /** The linear index in the transposed grid, by name. */
  lemma PositionIsSource(i: int, j: int, sizes: seq<int>, grouped: seq<int>) returns (m: int)
    requires ValidGrouping(sizes, grouped)
    ensures m == i * GroupSize(sizes, grouped) + j
    ensures IsPermutation(OuterAxes(sizes, grouped) + grouped, |sizes|)
    ensures Position(i, j, sizes, grouped) == SourceIndex(m, sizes, OuterAxes(sizes, grouped) + grouped)
  {
    TransposeAxesPermutation(sizes, grouped);
    m := i * GroupSize(sizes, grouped) + j;
  }

  lemma {:induction false} PickPositiveProduct(sizes: seq<int>, p: seq<int>)
    requires Positive(sizes) && IsPermutation(p, |sizes|)
    ensures Positive(Pick(sizes, p)) && Product(Pick(sizes, p)) == Product(sizes) >= 1
  {
    PickPermutation(sizes, p);
    FoldsIgnoreOrder(Pick(sizes, p), sizes);
    ProductPositive(sizes);
  }

  lemma {:induction false} SourceIndexInjective(m: int, m': int, sizes: seq<int>, p: seq<int>)
    requires Positive(sizes) && IsPermutation(p, |sizes|)
    requires 0 <= m < Product(sizes) && 0 <= m' < Product(sizes)
    requires SourceIndex(m, sizes, p) == SourceIndex(m', sizes, p)
    ensures m == m'
  {
    PickPositiveProduct(sizes, p);
    SourceIndexCoords(m, sizes, p);
    SourceIndexCoords(m', sizes, p);
    EncodeDigits(m, Pick(sizes, p));
    EncodeDigits(m', Pick(sizes, p));
  }

  function SourceIndices(count: nat, sizes: seq<int>, p: seq<int>): (r: seq<int>)
    requires Positive(sizes) && IsPermutation(p, |sizes|)
    ensures |r| == count && forall m :: 0 <= m < count ==> r[m] == SourceIndex(m, sizes, p)
  {
    seq(count, m => SourceIndex(m, sizes, p))
  }

  /** Decoding through the transposed strides and re-encoding through the original ones is a
      bijection of the grid positions. */
  lemma {:induction false} SourceIndicesPermutation(sizes: seq<int>, p: seq<int>)
    requires Positive(sizes) && IsPermutation(p, |sizes|)
    ensures Product(sizes) >= 1
    ensures IsPermutation(SourceIndices(Product(sizes), sizes, p), Product(sizes))
  {
    ProductPositive(sizes);
    var r := SourceIndices(Product(sizes), sizes, p);
    forall m | 0 <= m < |r| ensures 0 <= r[m] < Product(sizes) { SourceIndexCoords(m, sizes, p); }
    forall m, m' | 0 <= m < m' < |r| ensures r[m] != r[m'] {
      if r[m] == r[m'] { SourceIndexInjective(m, m', sizes, p); }
    }
  }

  // ----- which device lands in which group

  lemma PickConcat<T>(a: seq<T>, p: seq<int>, q: seq<int>)
    requires InRange(p, |a|) && InRange(q, |a|)
    ensures InRange(p + q, |a|) && Pick(a, p + q) == Pick(a, p) + Pick(a, q)
  {
  }

  lemma SplitEqual<T>(a: seq<T>, b: seq<T>, c: seq<T>, d: seq<T>)
    requires a + b == c + d && |a| == |c|
    ensures a == c && b == d
  {
    assert a == (a + b)[..|a|] && b == (a + b)[|a|..];
    assert c == (c + d)[..|c|] && d == (c + d)[|c|..];
  }

  /** Members of a group: the outer coordinates spell the group number, the grouped ones spell the
      rank within the group, row-major in the order the grouped axes are given. */
  lemma {:induction false} MemberCoordinates(i: int, j: int, sizes: seq<int>, grouped: seq<int>)
    requires ValidGrouping(sizes, grouped)
    requires InRange(OuterAxes(sizes, grouped), |sizes|)
    requires 0 <= i < Product(Pick(sizes, OuterAxes(sizes, grouped))) && 0 <= j < GroupSize(sizes, grouped)
    ensures 0 <= Position(i, j, sizes, grouped) < Product(sizes)
    ensures Pick(Digits(Position(i, j, sizes, grouped), sizes), OuterAxes(sizes, grouped))
            == Digits(i, Pick(sizes, OuterAxes(sizes, grouped)))
    ensures Pick(Digits(Position(i, j, sizes, grouped), sizes), grouped) == Digits(j, Pick(sizes, grouped))
  {
    var m := PositionIsSource(i, j, sizes, grouped);
    SplitSource(m, i, j, sizes, OuterAxes(sizes, grouped), grouped);
  }

  lemma {:induction false} SplitSource(m: int, i: int, j: int, sizes: seq<int>, u: seq<int>, g: seq<int>)
    requires Positive(sizes) && IsPermutation(u + g, |sizes|) && InRange(u, |sizes|) && InRange(g, |sizes|)
    requires 0 <= i < Product(Pick(sizes, u)) && 0 <= j < Product(Pick(sizes, g)) && m == i * Product(Pick(sizes, g)) + j
    ensures 0 <= SourceIndex(m, sizes, u + g) < Product(sizes)
    ensures Pick(Digits(SourceIndex(m, sizes, u + g), sizes), u) == Digits(i, Pick(sizes, u))
    ensures Pick(Digits(SourceIndex(m, sizes, u + g), sizes), g) == Digits(j, Pick(sizes, g))
  {
    DigitsAt(m, i, j, sizes, u, g);
    SplitSourceAt(m, sizes, u, g, Digits(i, Pick(sizes, u)), Digits(j, Pick(sizes, g)));
  }

  lemma {:induction false} DigitsAt(m: int, i: int, j: int, sizes: seq<int>, u: seq<int>, g: seq<int>)
    requires Positive(sizes) && InRange(u, |sizes|) && InRange(g, |sizes|)
    requires 0 <= i < Product(Pick(sizes, u)) && 0 <= j < Product(Pick(sizes, g)) && m == i * Product(Pick(sizes, g)) + j
    ensures InRange(u + g, |sizes|)
    ensures Digits(m, Pick(sizes, u + g)) == Digits(i, Pick(sizes, u)) + Digits(j, Pick(sizes, g))
  {
    PickConcat(sizes, u, g);
    DigitsSplit(i, j, m, Pick(sizes, u), Pick(sizes, g));
  }

  lemma {:induction false} SplitSourceAt(m: int, sizes: seq<int>, u: seq<int>, g: seq<int>, cu: seq<int>, cg: seq<int>)
    requires Positive(sizes) && IsPermutation(u + g, |sizes|) && InRange(u, |sizes|) && InRange(g, |sizes|)
    requires |cu| == |u| && Digits(m, Pick(sizes, u + g)) == cu + cg
    ensures 0 <= SourceIndex(m, sizes, u + g) < Product(sizes)
    ensures Pick(Digits(SourceIndex(m, sizes, u + g), sizes), u) == cu
    ensures Pick(Digits(SourceIndex(m, sizes, u + g), sizes), g) == cg
  {
    SourceIndexCoords(m, sizes, u + g);
    var c := Digits(SourceIndex(m, sizes, u + g), sizes);
    PickConcat(c, u, g);
    SplitEqual(Pick(c, u), Pick(c, g), cu, cg);
  }

  function GroupOf(x: int, sizes: seq<int>, grouped: seq<int>): int
    requires ValidGrouping(sizes, grouped)
  {
    TransposeAxesPermutation(sizes, grouped);
    var u := OuterAxes(sizes, grouped);
    Encode(Pick(Digits(x, sizes), u), Pick(sizes, u))
  }

  function RankOf(x: int, sizes: seq<int>, grouped: seq<int>): int
    requires ValidGrouping(sizes, grouped)
  {
    Encode(Pick(Digits(x, sizes), grouped), Pick(sizes, grouped))
  }

  lemma {:induction false} OuterTimesInner(sizes: seq<int>, grouped: seq<int>)
    requires ValidGrouping(sizes, grouped)
    ensures InRange(OuterAxes(sizes, grouped), |sizes|)
    ensures Positive(Pick(sizes, OuterAxes(sizes, grouped)))
    ensures Product(sizes) == Product(Pick(sizes, OuterAxes(sizes, grouped))) * GroupSize(sizes, grouped) >= 1
  {
    TransposeAxesPermutation(sizes, grouped);
    var u, p := OuterAxes(sizes, grouped), TransposeAxes(|sizes|, grouped);
    PickPositiveProduct(sizes, p);
    assert Pick(sizes, p) == Pick(sizes, u) + Pick(sizes, grouped);
    ProductConcat(Pick(sizes, u), Pick(sizes, grouped));
  }

  /** Every grid position is a member of exactly one group, at exactly one rank. */
  lemma {:induction false} PositionUnique(x: int, sizes: seq<int>, grouped: seq<int>)
    requires ValidGrouping(sizes, grouped) && 0 <= x < Product(sizes)
    ensures InRange(OuterAxes(sizes, grouped), |sizes|)
    ensures 0 <= GroupOf(x, sizes, grouped) < Product(Pick(sizes, OuterAxes(sizes, grouped)))
    ensures 0 <= RankOf(x, sizes, grouped) < GroupSize(sizes, grouped)
    ensures Position(GroupOf(x, sizes, grouped), RankOf(x, sizes, grouped), sizes, grouped) == x
    ensures forall i, j :: 0 <= i < Product(Pick(sizes, OuterAxes(sizes, grouped)))
                           && 0 <= j < GroupSize(sizes, grouped) && Position(i, j, sizes, grouped) == x
                           ==> i == GroupOf(x, sizes, grouped) && j == RankOf(x, sizes, grouped)
  {
    OuterTimesInner(sizes, grouped);
    TransposeAxesPermutation(sizes, grouped);
    var u, p := OuterAxes(sizes, grouped), TransposeAxes(|sizes|, grouped);
    var c := Digits(x, sizes);
    DigitsInBox(x, sizes);
    var i, j := GroupOf(x, sizes, grouped), RankOf(x, sizes, grouped);
    EncodeBound(Pick(c, u), Pick(sizes, u));
    EncodeBound(Pick(c, grouped), Pick(sizes, grouped));
    MemberCoordinates(i, j, sizes, grouped);
    DigitsOfEncode(Pick(c, u), Pick(sizes, u));
    DigitsOfEncode(Pick(c, grouped), Pick(sizes, grouped));
    var y := Position(i, j, sizes, grouped);
    CoordinatesDetermine(x, y, sizes, grouped);
    forall i', j' | 0 <= i' < Product(Pick(sizes, u)) && 0 <= j' < GroupSize(sizes, grouped)
                    && Position(i', j', sizes, grouped) == x
      ensures i' == i && j' == j
    {
      MemberCoordinates(i', j', sizes, grouped);
      EncodeDigits(i', Pick(sizes, u));
      EncodeDigits(j', Pick(sizes, grouped));
    }
  }

  /** A list with an entry for every grid position is long enough. */
  lemma GridInReach(sizes: seq<int>, grouped: seq<int>, total: nat, n: int)
    requires ValidGrouping(sizes, grouped) && Product(sizes) <= n
    ensures AllInReach(sizes, grouped, total, n)
  {
    forall i ensures InReach(i, sizes, grouped, n) { PositionInGrid(i, sizes, grouped); }
  }

  /** The number of groups that differ: later ones repeat them. */
  function OuterSize(sizes: seq<int>, grouped: seq<int>): (r: int)
    requires ValidGrouping(sizes, grouped)
    ensures r >= 1
  {
    OuterTimesInner(sizes, grouped);
    ProductPositive(Pick(sizes, OuterAxes(sizes, grouped)));
    Product(Pick(sizes, OuterAxes(sizes, grouped)))
  }

  /** The last group read, not counting repetitions. */
  function LastGroup(sizes: seq<int>, grouped: seq<int>, total: nat): int
    requires ValidGrouping(sizes, grouped)
  {
    (if total / GroupSize(sizes, grouped) < OuterSize(sizes, grouped) then total / GroupSize(sizes, grouped) else OuterSize(sizes, grouped)) - 1
  }

  /** The largest position read. */
  function LastRead(sizes: seq<int>, grouped: seq<int>, total: nat): int
    requires ValidGrouping(sizes, grouped)
  {
    Position(LastGroup(sizes, grouped, total), GroupSize(sizes, grouped) - 1, sizes, grouped)
  }

  /** The largest rank of a group, and a larger group, are at later positions. */
  lemma {:induction false} PositionMonotone(i: int, i': int, j: int, last: int, sizes: seq<int>, grouped: seq<int>)
    requires ValidGrouping(sizes, grouped) && 0 <= i <= i' < OuterSize(sizes, grouped)
    requires 0 <= j <= last == GroupSize(sizes, grouped) - 1
    ensures Position(i, j, sizes, grouped) <= Position(i', last, sizes, grouped)
  {
    RankMonotone(i, j, last, sizes, grouped);
    if i < i' { GroupMonotone(i, i', last, sizes, grouped); }
  }

  lemma {:induction false} RankMonotone(i: int, j: int, last: int, sizes: seq<int>, grouped: seq<int>)
    requires ValidGrouping(sizes, grouped) && 0 <= i < OuterSize(sizes, grouped)
    requires 0 <= j <= last == GroupSize(sizes, grouped) - 1
    ensures Position(i, j, sizes, grouped) <= Position(i, last, sizes, grouped)
  {
    EveryAxis(sizes, grouped);
    MemberCoordinates(i, j, sizes, grouped);
    MemberCoordinates(i, last, sizes, grouped);
    LargestRankLast(Position(i, j, sizes, grouped), Position(i, last, sizes, grouped), last, sizes, grouped);
  }

  /** Of two positions in one group, the one with the largest grouped coordinates is last. */
  lemma LargestRankLast(x: int, y: int, last: int, sizes: seq<int>, grouped: seq<int>)
    requires ValidGrouping(sizes, grouped) && InRange(OuterAxes(sizes, grouped), |sizes|)
    requires 0 <= x < Product(sizes) && 0 <= y < Product(sizes) && last == GroupSize(sizes, grouped) - 1
    requires Positive(Pick(sizes, grouped))
    requires Pick(Digits(x, sizes), OuterAxes(sizes, grouped)) == Pick(Digits(y, sizes), OuterAxes(sizes, grouped))
    requires Pick(Digits(y, sizes), grouped) == Digits(last, Pick(sizes, grouped))
    ensures x <= y
  {
    EncodeDigits(x, sizes);
    EncodeDigits(y, sizes);
    EveryAxis(sizes, grouped);
    LargestLast(Digits(x, sizes), Digits(y, sizes), last, sizes, OuterAxes(sizes, grouped), grouped);
  }

  lemma EveryAxis(sizes: seq<int>, grouped: seq<int>)
    ensures StrictlyIncreasing(OuterAxes(sizes, grouped)) && InRange(OuterAxes(sizes, grouped), |sizes|)
    ensures forall k :: 0 <= k < |sizes| ==> k in OuterAxes(sizes, grouped) || k in grouped
  {
    ExcludingProperties(|sizes|, grouped);
  }

  lemma LargestLast(c: seq<int>, d: seq<int>, last: int, sizes: seq<int>, u: seq<int>, g: seq<int>)
    requires InBox(c, sizes) && InBox(d, sizes) && InRange(u, |c|) && InRange(g, |c|)
    requires forall k :: 0 <= k < |c| ==> k in u || k in g
    requires Positive(Pick(sizes, g)) && Pick(c, u) == Pick(d, u)
    requires last == Product(Pick(sizes, g)) - 1 && Pick(d, g) == Digits(last, Pick(sizes, g))
    ensures Encode(c, sizes) <= Encode(d, sizes)
  {
    LastDigits(Pick(sizes, g), last);
    forall k | 0 <= k < |c| ensures c[k] <= d[k] { CoordinateAtMost(c, d, sizes, u, g, k); }
    EncodeAtMost(c, d, sizes);
  }

  lemma CoordinateAtMost(c: seq<int>, d: seq<int>, sizes: seq<int>, u: seq<int>, g: seq<int>, k: nat)
    requires InBox(c, sizes) && |d| == |c| && InRange(u, |c|) && InRange(g, |c|) && k < |c| && (k in u || k in g)
    requires Pick(c, u) == Pick(d, u) && forall b :: 0 <= b < |g| ==> Pick(d, g)[b] == Pick(sizes, g)[b] - 1
    ensures c[k] <= d[k]
  {
    if k in g {
      var b := IndexOf(g, k);
      assert Pick(d, g)[b] == d[k] && Pick(sizes, g)[b] == sizes[k];
    } else {
      var a := IndexOf(u, k);
      assert Pick(c, u)[a] == Pick(d, u)[a];
    }
  }

  lemma {:induction false} GroupMonotone(i: int, i': int, j: int, sizes: seq<int>, grouped: seq<int>)
    requires ValidGrouping(sizes, grouped) && 0 <= i < i' < OuterSize(sizes, grouped) && 0 <= j < GroupSize(sizes, grouped)
    ensures Position(i, j, sizes, grouped) < Position(i', j, sizes, grouped)
  {
    EveryAxis(sizes, grouped);
    MemberCoordinates(i, j, sizes, grouped);
    MemberCoordinates(i', j, sizes, grouped);
    var a := FirstDifference(i, i', Pick(sizes, OuterAxes(sizes, grouped)));
    OuterDecides(Position(i, j, sizes, grouped), Position(i', j, sizes, grouped), a, sizes, grouped);
  }

  /** Of two positions with the same grouped coordinates, the first outer coordinate that differs decides. */
  lemma {:induction false} OuterDecides(x: int, y: int, a: nat, sizes: seq<int>, grouped: seq<int>)
    requires ValidGrouping(sizes, grouped) && InRange(OuterAxes(sizes, grouped), |sizes|)
    requires 0 <= x < Product(sizes) && 0 <= y < Product(sizes) && a < |OuterAxes(sizes, grouped)|
    requires Pick(Digits(x, sizes), grouped) == Pick(Digits(y, sizes), grouped)
    requires var u := OuterAxes(sizes, grouped);
             && Pick(Digits(x, sizes), u)[a] < Pick(Digits(y, sizes), u)[a]
             && forall b :: 0 <= b < a ==> Pick(Digits(x, sizes), u)[b] == Pick(Digits(y, sizes), u)[b]
    ensures x < y
  {
    EncodeDigits(x, sizes);
    EncodeDigits(y, sizes);
    EveryAxis(sizes, grouped);
    FirstOuterDecides(Digits(x, sizes), Digits(y, sizes), a, sizes, OuterAxes(sizes, grouped), grouped);
  }

  lemma FirstOuterDecides(c: seq<int>, d: seq<int>, a: nat, sizes: seq<int>, u: seq<int>, g: seq<int>)
    requires InBox(c, sizes) && InBox(d, sizes) && InRange(u, |c|) && InRange(g, |c|) && a < |u|
    requires StrictlyIncreasing(u) && forall k :: 0 <= k < |c| ==> k in u || k in g
    requires Pick(c, g) == Pick(d, g) && Pick(c, u)[a] < Pick(d, u)[a]
    requires forall b :: 0 <= b < a ==> Pick(c, u)[b] == Pick(d, u)[b]
    ensures Encode(c, sizes) < Encode(d, sizes)
  {
    forall k | 0 <= k < u[a] ensures c[k] == d[k] { EarlierAlike(c, d, a, u, g, k); }
    EncodeLess(c, d, sizes, u[a]);
  }

  lemma EarlierAlike(c: seq<int>, d: seq<int>, a: nat, u: seq<int>, g: seq<int>, k: nat)
    requires |c| == |d| && InRange(u, |c|) && InRange(g, |c|) && a < |u| && StrictlyIncreasing(u)
    requires k < u[a] && (k in u || k in g)
    requires Pick(c, g) == Pick(d, g) && forall b :: 0 <= b < a ==> Pick(c, u)[b] == Pick(d, u)[b]
    ensures c[k] == d[k]
  {
    if k in g {
      var b := IndexOf(g, k);
      assert Pick(c, g)[b] == Pick(d, g)[b];
    } else {
      var b := IndexOf(u, k);
      assert !(a <= b);
      assert Pick(c, u)[b] == Pick(d, u)[b];
    }
  }

  /** Every read of a device list of length `n` is in range if and only if the last one is. */
  lemma {:induction false} ReadsInRangeIff(sizes: seq<int>, grouped: seq<int>, total: nat, n: int)
    requires ValidGrouping(sizes, grouped)
    ensures AllInReach(sizes, grouped, total, n)
            <==> total < GroupSize(sizes, grouped) || LastRead(sizes, grouped, total) < n
  {
    var size, last := GroupSize(sizes, grouped), LastGroup(sizes, grouped, total);
    QuotientZero(total, size);
    if total >= size {
      PositionInGrid(last, sizes, grouped);
      if AllInReach(sizes, grouped, total, n) { assert InReach(last, sizes, grouped, n); }
      if LastRead(sizes, grouped, total) < n { LastReadDecides(sizes, grouped, total, n); }
    }
  }

  lemma LastReadDecides(sizes: seq<int>, grouped: seq<int>, total: nat, n: int)
    requires ValidGrouping(sizes, grouped) && total / GroupSize(sizes, grouped) >= 1
    requires LastRead(sizes, grouped, total) < n
    ensures AllInReach(sizes, grouped, total, n)
  {
    var size := GroupSize(sizes, grouped);
    if total / size >= OuterSize(sizes, grouped) {
      LastPosition(sizes, grouped);
      GridInReach(sizes, grouped, total, n);
    } else {
      forall i | 0 <= i < total / size ensures InReach(i, sizes, grouped, n) {
        PositionInGrid(i, sizes, grouped);
        forall j | 0 <= j < size ensures Position(i, j, sizes, grouped) < n {
          PositionMonotone(i, LastGroup(sizes, grouped, total), j, size - 1, sizes, grouped);
        }
      }
    }
  }

  /** The last member of the last group is at the last grid position. */
  lemma {:induction false} LastPosition(sizes: seq<int>, grouped: seq<int>)
    requires ValidGrouping(sizes, grouped)
    ensures Position(OuterSize(sizes, grouped) - 1, GroupSize(sizes, grouped) - 1, sizes, grouped) == Product(sizes) - 1
  {
    var x := Product(sizes) - 1;
    OuterTimesInner(sizes, grouped);
    var i, j := MemberAt(x, sizes, grouped);
    PositionMonotone(i, OuterSize(sizes, grouped) - 1, j, GroupSize(sizes, grouped) - 1, sizes, grouped);
    PositionInGrid(OuterSize(sizes, grouped) - 1, sizes, grouped);
  }

  lemma MemberAt(x: int, sizes: seq<int>, grouped: seq<int>) returns (i: int, j: int)
    requires ValidGrouping(sizes, grouped) && 0 <= x < Product(sizes)
    ensures 0 <= i < OuterSize(sizes, grouped) && 0 <= j < GroupSize(sizes, grouped) && Position(i, j, sizes, grouped) == x
  {
    PositionUnique(x, sizes, grouped);
    i, j := GroupOf(x, sizes, grouped), RankOf(x, sizes, grouped);
  }

  /** When there are at least as many devices as grid positions, every position is read. */
  lemma {:induction false} WholeGridRead(sizes: seq<int>, grouped: seq<int>, total: nat, n: int)
    requires ValidGrouping(sizes, grouped) && Product(sizes) <= total
    ensures AllInReach(sizes, grouped, total, n) <==> Product(sizes) <= n
  {
    OuterTimesInner(sizes, grouped);
    QuotientAtLeast(OuterSize(sizes, grouped), GroupSize(sizes, grouped), total);
    LastPosition(sizes, grouped);
    ReadsInRangeIff(sizes, grouped, total, n);
    QuotientZero(total, GroupSize(sizes, grouped));
  }

  lemma QuotientZero(a: int, b: int)
    requires a >= 0 && b >= 1
    ensures a / b == 0 <==> a < b
    ensures a / b >= 0
  {
  }

  lemma QuotientAtLeast(a: int, b: int, total: int)
    requires b >= 1 && a * b <= total
    ensures a <= total / b
  {
    var q, r := total / b, total % b;
    assert total == q * b + r;
    assert a >= q + 1 ==> a * b >= (q + 1) * b == q * b + b;
  }

  lemma {:induction false} CoordinatesDetermine(x: int, y: int, sizes: seq<int>, grouped: seq<int>)
    requires ValidGrouping(sizes, grouped) && InRange(OuterAxes(sizes, grouped), |sizes|)
    requires 0 <= x < Product(sizes) && 0 <= y < Product(sizes)
    requires Pick(Digits(x, sizes), OuterAxes(sizes, grouped)) == Pick(Digits(y, sizes), OuterAxes(sizes, grouped))
    requires Pick(Digits(x, sizes), grouped) == Pick(Digits(y, sizes), grouped)
    ensures x == y
  {
    var u, c, d := OuterAxes(sizes, grouped), Digits(x, sizes), Digits(y, sizes);
    ExcludingProperties(|sizes|, grouped);
    forall k | 0 <= k < |sizes| ensures c[k] == d[k] {
      if k in grouped {
        var b :| 0 <= b < |grouped| && grouped[b] == k;
        assert Pick(c, grouped)[b] == Pick(d, grouped)[b];
      } else {
        assert k in u;
        var a :| 0 <= a < |u| && u[a] == k;
        assert Pick(c, u)[a] == Pick(d, u)[a];
      }
    }
    EncodeDigits(x, sizes);
    EncodeDigits(y, sizes);
    assert c == d;
  }

  predicate Together(x: int, y: int, i: int, j: int, j': int, sizes: seq<int>, grouped: seq<int>)
    requires ValidGrouping(sizes, grouped) && InRange(OuterAxes(sizes, grouped), |sizes|)
  {
    && 0 <= i < Product(Pick(sizes, OuterAxes(sizes, grouped)))
    && 0 <= j < GroupSize(sizes, grouped) && 0 <= j' < GroupSize(sizes, grouped)
    && Position(i, j, sizes, grouped) == x && Position(i, j', sizes, grouped) == y
  }

  /** Two positions share a group if and only if they agree on every axis outside the grouped ones. */
  lemma {:induction false} SameGroupIffAgree(x: int, y: int, sizes: seq<int>, grouped: seq<int>)
    requires ValidGrouping(sizes, grouped) && InRange(OuterAxes(sizes, grouped), |sizes|)
    requires 0 <= x < Product(sizes) && 0 <= y < Product(sizes)
    ensures (exists i, j, j' :: Together(x, y, i, j, j', sizes, grouped))
            <==> (forall k :: 0 <= k < |sizes| && k !in grouped ==> Coord(x, sizes, k) == Coord(y, sizes, k))
  {
    OuterAgree(x, y, sizes, grouped);
    PositionUnique(x, sizes, grouped);
    PositionUnique(y, sizes, grouped);
    if forall k :: 0 <= k < |sizes| && k !in grouped ==> Coord(x, sizes, k) == Coord(y, sizes, k) {
      assert Together(x, y, GroupOf(x, sizes, grouped), RankOf(x, sizes, grouped), RankOf(y, sizes, grouped), sizes, grouped);
    }
    if i, j, j' :| Together(x, y, i, j, j', sizes, grouped) {
      MemberCoordinates(i, j, sizes, grouped);
      MemberCoordinates(i, j', sizes, grouped);
    }
  }

  lemma {:induction false} OuterAgree(x: int, y: int, sizes: seq<int>, grouped: seq<int>)
    requires ValidGrouping(sizes, grouped) && InRange(OuterAxes(sizes, grouped), |sizes|)
    ensures (forall k :: 0 <= k < |sizes| && k !in grouped ==> Coord(x, sizes, k) == Coord(y, sizes, k))
            <==> Pick(Digits(x, sizes), OuterAxes(sizes, grouped)) == Pick(Digits(y, sizes), OuterAxes(sizes, grouped))
  {
    var u, c, d := OuterAxes(sizes, grouped), Digits(x, sizes), Digits(y, sizes);
    ExcludingProperties(|sizes|, grouped);
    if forall k :: 0 <= k < |sizes| && k !in grouped ==> Coord(x, sizes, k) == Coord(y, sizes, k) {
      forall a | 0 <= a < |u| ensures Pick(c, u)[a] == Pick(d, u)[a] { assert u[a] in u; }
    }
    if Pick(c, u) == Pick(d, u) {
      forall k | 0 <= k < |sizes| && k !in grouped ensures c[k] == d[k] {
        assert k in u;
        var a :| 0 <= a < |u| && u[a] == k;
        assert Pick(c, u)[a] == Pick(d, u)[a];
      }
    }
  }

  // ----- the groups as a whole

  lemma {:induction false} ConcatAppend<T>(rows: seq<seq<T>>, row: seq<T>)
    ensures Concat(rows + [row]) == Concat(rows) + row
  {
    if rows == [] {
      assert Concat([row]) == row + Concat([]) == row;
      assert rows + [row] == [row];
    } else {
      ConcatAppend(rows[1..], row);
      assert (rows + [row])[1..] == rows[1..] + [row];
    }
  }

  /** Rows cut out of a flat list at multiples of `n` concatenate back to its prefix. */
  lemma {:induction false} ConcatRows(rows: seq<seq<int>>, n: nat, flat: seq<int>, count: nat)
    requires count <= |rows|
    requires forall i :: 0 <= i < |rows| ==> IsRow(rows[i], i, n, flat)
    ensures count * n <= |flat| && Concat(rows[..count]) == flat[..count * n]
  {
    if count > 0 {
      ConcatRows(rows, n, flat, count - 1);
      assert IsRow(rows[count - 1], count - 1, n, flat);
      assert rows[..count] == rows[..count - 1] + [rows[count - 1]];
      ConcatAppend(rows[..count - 1], rows[count - 1]);
      RowAppend(rows[count - 1], count - 1, n, flat);
    }
  }

  lemma RowAppend(row: seq<int>, i: nat, n: nat, flat: seq<int>)
    requires IsRow(row, i, n, flat)
    ensures 0 <= i * n <= (i + 1) * n <= |flat| && flat[..i * n] + row == flat[..(i + 1) * n]
  {
    var prev := i * n;
    assert (i + 1) * n == prev + n;
    assert flat[..prev] + flat[prev..prev + n] == flat[..prev + n];
  }

  ghost predicate IsRow(row: seq<int>, i: nat, n: nat, flat: seq<int>) {
    i * n + n <= |flat| && row == flat[i * n..i * n + n]
  }

  /** Group `i` is the `i`-th row of a list that follows the source positions. */
  lemma GroupIsRow(i: nat, n: nat, g: seq<int>, flat: seq<int>)
    requires |g| == n && i * n + n <= |flat|
    requires forall j :: 0 <= j < n ==> g[j] == flat[i * n + j]
    ensures IsRow(g, i, n, flat)
  {
    assert g == flat[i * n..i * n + n];
  }

  lemma RowWithin(i: int, rows: int, n: int)
    requires 0 <= i < rows && n >= 0
    ensures 0 <= i * n && i * n + n <= rows * n
  {
    assert (i + 1) * n <= rows * n;
    assert (i + 1) * n == i * n + n;
  }

  /** The positions in the order in which the groups read them. */
  function ReadOrder(sizes: seq<int>, grouped: seq<int>, total: nat): (src: seq<int>)
    requires ValidGrouping(sizes, grouped)
    ensures |src| == (total / GroupSize(sizes, grouped)) * GroupSize(sizes, grouped)
  {
    TransposeAxesPermutation(sizes, grouped);
    RowWithin(0, total / GroupSize(sizes, grouped) + 1, GroupSize(sizes, grouped));
    CountNonNegative(total, GroupSize(sizes, grouped));
    SourceIndices((total / GroupSize(sizes, grouped)) * GroupSize(sizes, grouped), sizes, TransposeAxes(|sizes|, grouped))
  }

  lemma CountNonNegative(total: nat, n: int)
    requires n >= 1
    ensures (total / n) * n >= 0
  {
  }

  lemma ReadOrderAt(i: int, j: int, sizes: seq<int>, grouped: seq<int>, total: nat)
    requires ValidGrouping(sizes, grouped) && 0 <= i < total / GroupSize(sizes, grouped) && 0 <= j < GroupSize(sizes, grouped)
    ensures 0 <= i * GroupSize(sizes, grouped) + j < |ReadOrder(sizes, grouped, total)|
    ensures ReadOrder(sizes, grouped, total)[i * GroupSize(sizes, grouped) + j] == Position(i, j, sizes, grouped)
  {
    TransposeAxesPermutation(sizes, grouped);
    RowWithin(i, total / GroupSize(sizes, grouped), GroupSize(sizes, grouped));
  }

  lemma {:induction false} ReadOrderInReach(sizes: seq<int>, grouped: seq<int>, total: nat, n: int)
    requires ValidGrouping(sizes, grouped) && AllInReach(sizes, grouped, total, n)
    ensures InRange(ReadOrder(sizes, grouped, total), n) && InRange(ReadOrder(sizes, grouped, total), Product(sizes))
  {
    var src, size := ReadOrder(sizes, grouped, total), GroupSize(sizes, grouped);
    forall m | 0 <= m < |src| ensures 0 <= src[m] < n && src[m] < Product(sizes) {
      var i, j := Quotient(m, size, total / size);
      ReadOrderAt(i, j, sizes, grouped, total);
      PositionInGrid(i, sizes, grouped);
      assert InReach(i, sizes, grouped, n);
    }
  }

  lemma {:induction false} GroupRow(i: nat, sizes: seq<int>, grouped: seq<int>, ids: seq<int>, total: nat, flat: seq<int>)
    requires ValidGrouping(sizes, grouped) && i < total / GroupSize(sizes, grouped) && InReach(i, sizes, grouped, |ids|)
    requires InRange(ReadOrder(sizes, grouped, total), |ids|) && flat == Pick(ids, ReadOrder(sizes, grouped, total))
    ensures IsRow(Group(i, sizes, grouped, ids), i, GroupSize(sizes, grouped), flat)
  {
    var n, g := GroupSize(sizes, grouped), Group(i, sizes, grouped, ids);
    RowWithin(i, total / n, n);
    forall j | 0 <= j < n ensures g[j] == flat[i * n + j] { ReadOrderAt(i, j, sizes, grouped, total); }
    GroupIsRow(i, n, g, flat);
  }

  /** Reading the groups one after the other visits the device list along the source positions. */
  lemma {:induction false} ConcatGroups(sizes: seq<int>, grouped: seq<int>, ids: seq<int>, total: nat)
    requires ValidGrouping(sizes, grouped) && AllInReach(sizes, grouped, total, |ids|)
    ensures InRange(ReadOrder(sizes, grouped, total), |ids|) && InRange(ReadOrder(sizes, grouped, total), Product(sizes))
    ensures Concat(Groups(sizes, grouped, ids, total)) == Pick(ids, ReadOrder(sizes, grouped, total))
  {
    ReadOrderInReach(sizes, grouped, total, |ids|);
    var n, gs := GroupSize(sizes, grouped), Groups(sizes, grouped, ids, total);
    var flat := Pick(ids, ReadOrder(sizes, grouped, total));
    forall i | 0 <= i < |gs| ensures IsRow(gs[i], i, n, flat) { GroupRow(i, sizes, grouped, ids, total, flat); }
    ConcatRows(gs, n, flat, |gs|);
    assert gs[..|gs|] == gs && flat[..|flat|] == flat;
  }

  /** The groups partition a list of distinct devices if and only if they have as many members as there
      are devices, and the split grid has at least as many positions. */
  lemma {:induction false} GroupsPartitionIff(sizes: seq<int>, grouped: seq<int>, ids: seq<int>, total: nat)
    requires ValidGrouping(sizes, grouped) && AllInReach(sizes, grouped, total, |ids|) && Distinct(ids)
    ensures multiset(Concat(Groups(sizes, grouped, ids, total))) == multiset(ids)
            <==> (total / GroupSize(sizes, grouped)) * GroupSize(sizes, grouped) == |ids| <= Product(sizes)
  {
    ConcatGroups(sizes, grouped, ids, total);
    var src, flat := ReadOrder(sizes, grouped, total), Concat(Groups(sizes, grouped, ids, total));
    if |src| == |ids| <= Product(sizes) { GroupsPartition(sizes, grouped, ids, total); }
    assert |multiset(flat)| == |flat| && |multiset(ids)| == |ids|;
    ProductPositive(sizes);
    if Product(sizes) < |ids| { NeverRead(ids, src, Product(sizes)); }
  }

  lemma NeverRead(ids: seq<int>, src: seq<int>, lost: nat)
    requires InRange(src, |ids|) && Distinct(ids) && lost < |ids| && InRange(src, lost)
    ensures multiset(Pick(ids, src)) != multiset(ids)
  {
    assert ids[lost] in multiset(ids);
    assert ids[lost] !in Pick(ids, src);
  }

  /** The groups then rearrange the device list, repeated ids included. */
  lemma {:induction false} GroupsPartition(sizes: seq<int>, grouped: seq<int>, ids: seq<int>, total: nat)
    requires ValidGrouping(sizes, grouped) && AllInReach(sizes, grouped, total, |ids|)
    requires (total / GroupSize(sizes, grouped)) * GroupSize(sizes, grouped) == |ids| <= Product(sizes)
    ensures multiset(Concat(Groups(sizes, grouped, ids, total))) == multiset(ids)
  {
    ConcatGroups(sizes, grouped, ids, total);
    TransposeAxesPermutation(sizes, grouped);
    var src, p := ReadOrder(sizes, grouped, total), TransposeAxes(|sizes|, grouped);
    forall m, m' | 0 <= m < m' < |src| ensures src[m] != src[m'] {
      if src[m] == src[m'] { SourceIndexInjective(m, m', sizes, p); }
    }
    PickPermutation(ids, src);
  }

  // ----- the code

  /** Row-major strides, filled in backwards. */
  method ComputeStrides(sizes: array<int>) returns (strides: array<int>)
    ensures fresh(strides) && strides[..] == Strides(sizes[..])
  {
    var n := sizes.Length;
    strides := new int[n](_ => 1);
    var i := n - 2;
    while i >= 0
      invariant -2 <= i <= n - 2 && (n >= 1 ==> i >= -1)
      invariant forall k :: 0 <= k < n && (k == n - 1 || k > i) ==> strides[k] == Product(sizes[..][k + 1..])
      invariant forall k :: 0 <= k <= i ==> strides[k] == 1
    {
      strides[i] := strides[i + 1] * sizes[i + 1];
      assert sizes[..][i + 1..][0] == sizes[i + 1];
      assert sizes[..][i + 1..][1..] == sizes[..][i + 2..];
      i := i - 1;
    }
    assert strides[..] == Strides(sizes[..]);
  }

  method FlattenedReplicaGroupsFromTransposePermutation(
    axisSizes: seq<int>, groupedAxisIndices: seq<int>, deviceIds: seq<int>, totalDevices: nat)
    returns (groups: seq<seq<int>>)
    requires ValidGrouping(axisSizes, groupedAxisIndices)
    requires AllInReach(axisSizes, groupedAxisIndices, totalDevices, |deviceIds|)
    ensures groups == Groups(axisSizes, groupedAxisIndices, deviceIds, totalDevices)
  {
    var transposeAxes := ComputeTransposeAxes(|axisSizes|, groupedAxisIndices);
    TransposeAxesPermutation(axisSizes, groupedAxisIndices);
    var sizes := new int[|axisSizes|](i requires 0 <= i < |axisSizes| => axisSizes[i]);
    assert sizes[..] == axisSizes;
    var transposedSizes := TransposeSizes(axisSizes, transposeAxes);
    var originalStrides := ComputeStrides(sizes);
    var transposedStrides := ComputeStrides(transposedSizes);
    var numDevicesPerGroup := ComputeGroupSize(axisSizes, groupedAxisIndices);
    var numGroups := totalDevices / numDevicesPerGroup;
    groups := [];
    ghost var spec := Groups(axisSizes, groupedAxisIndices, deviceIds, totalDevices);
    for i := 0 to numGroups
      invariant groups == spec[..i]
      modifies {}
    {
      var group := CollectGroup(i, numDevicesPerGroup, axisSizes, groupedAxisIndices, deviceIds, transposeAxes,
                                transposedSizes, transposedStrides, originalStrides);
      groups := groups + [group];
    }
  }

  method TransposeSizes(axisSizes: seq<int>, transposeAxes: seq<int>) returns (transposedSizes: array<int>)
    requires IsPermutation(transposeAxes, |axisSizes|)
    ensures fresh(transposedSizes) && transposedSizes[..] == Pick(axisSizes, transposeAxes)
  {
    transposedSizes := new int[|axisSizes|];
    for i := 0 to |axisSizes|
      invariant forall k :: 0 <= k < i ==> transposedSizes[k] == axisSizes[transposeAxes[k]]
    {
      transposedSizes[i] := axisSizes[transposeAxes[i]];
    }
    assert transposedSizes[..] == Pick(axisSizes, transposeAxes);
  }

  /** The loop over the members of one group. */
  method CollectGroup(i: nat, numDevicesPerGroup: nat, axisSizes: seq<int>, groupedAxisIndices: seq<int>,
                      deviceIds: seq<int>, transposeAxes: seq<int>, transposedSizes: array<int>,
                      transposedStrides: array<int>, originalStrides: array<int>)
    returns (group: seq<int>)
    requires ValidGrouping(axisSizes, groupedAxisIndices)
    requires InReach(i, axisSizes, groupedAxisIndices, |deviceIds|)
    requires numDevicesPerGroup == GroupSize(axisSizes, groupedAxisIndices)
    requires transposeAxes == TransposeAxes(|axisSizes|, groupedAxisIndices) && IsPermutation(transposeAxes, |axisSizes|)
    requires transposedSizes[..] == Pick(axisSizes, transposeAxes)
    requires transposedStrides[..] == Strides(transposedSizes[..]) && originalStrides[..] == Strides(axisSizes)
    ensures group == Group(i, axisSizes, groupedAxisIndices, deviceIds)
  {
    group := [];
    for j := 0 to numDevicesPerGroup
      invariant |group| == j
      invariant group == Group(i, axisSizes, groupedAxisIndices, deviceIds)[..j]
      modifies {}
    {
      var originalIndex := DecodeSource(i * numDevicesPerGroup + j, axisSizes, transposeAxes,
                                        transposedSizes, transposedStrides, originalStrides);
      assert originalIndex == Position(i, j, axisSizes, groupedAxisIndices);
      group := group + [deviceIds[originalIndex]];
    }
  }

  method ComputeTransposeAxes(n: nat, groupedAxisIndices: seq<int>) returns (transposeAxes: seq<int>)
    ensures transposeAxes == TransposeAxes(n, groupedAxisIndices)
  {
    var groupedAxisSet := set idx | idx in groupedAxisIndices;
    transposeAxes := [];
    for i := 0 to n
      invariant transposeAxes == Excluding(i, groupedAxisIndices)
    {
      if i !in groupedAxisSet { transposeAxes := transposeAxes + [i]; }
    }
    for g := 0 to |groupedAxisIndices|
      invariant transposeAxes == Excluding(n, groupedAxisIndices) + groupedAxisIndices[..g]
    {
      transposeAxes := transposeAxes + [groupedAxisIndices[g]];
    }
  }

  method ComputeGroupSize(axisSizes: seq<int>, groupedAxisIndices: seq<int>) returns (numDevicesPerGroup: int)
    requires ValidGrouping(axisSizes, groupedAxisIndices)
    ensures numDevicesPerGroup == GroupSize(axisSizes, groupedAxisIndices)
  {
    numDevicesPerGroup := 1;
    for g := 0 to |groupedAxisIndices|
      invariant numDevicesPerGroup == Product(Pick(axisSizes, groupedAxisIndices[..g]))
    {
      numDevicesPerGroup := numDevicesPerGroup * axisSizes[groupedAxisIndices[g]];
      ProductAppend(axisSizes, groupedAxisIndices, g);
    }
    assert groupedAxisIndices[..|groupedAxisIndices|] == groupedAxisIndices;
  }

  lemma {:induction false} ProductAppend(sizes: seq<int>, idx: seq<int>, g: int)
    requires InRange(idx, |sizes|) && 0 <= g < |idx|
    ensures Product(Pick(sizes, idx[..g + 1])) == Product(Pick(sizes, idx[..g])) * sizes[idx[g]]
  {
    assert Pick(sizes, idx[..g + 1]) == Pick(sizes, idx[..g]) + [sizes[idx[g]]];
    ProductConcat(Pick(sizes, idx[..g]), [sizes[idx[g]]]);
  }

  /** The innermost loop: one linear index of the transposed grid to its original position. */
  method DecodeSource(linearTransposeIdx: int, axisSizes: seq<int>, transposeAxes: seq<int>,
                      transposedSizes: array<int>, transposedStrides: array<int>, originalStrides: array<int>)
    returns (originalIndex: int)
    requires Positive(axisSizes) && IsPermutation(transposeAxes, |axisSizes|)
    requires transposedSizes[..] == Pick(axisSizes, transposeAxes)
    requires transposedStrides[..] == Strides(transposedSizes[..]) && originalStrides[..] == Strides(axisSizes)
    ensures originalIndex == SourceIndex(linearTransposeIdx, axisSizes, transposeAxes)
  {
    ghost var ts := Pick(axisSizes, transposeAxes);
    ghost var terms := Times(Digits(linearTransposeIdx, ts), Pick(Strides(axisSizes), transposeAxes));
    originalIndex := 0;
    for k := 0 to |axisSizes|
      invariant originalIndex == Sum(terms[..k])
      modifies {}
    {
      ProductPositive(ts[k + 1..]);
      assert transposedSizes[k] == transposedSizes[..][k] && transposedStrides[k] == transposedStrides[..][k];
      assert originalStrides[transposeAxes[k]] == originalStrides[..][transposeAxes[k]];
      var coord := (linearTransposeIdx / transposedStrides[k]) % transposedSizes[k];
      assert coord == Digits(linearTransposeIdx, ts)[k];
      originalIndex := originalIndex + coord * originalStrides[transposeAxes[k]];
      SumStep(terms, k);
    }
    assert terms[..|axisSizes|] == terms;
  }
}
