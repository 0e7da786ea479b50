/** The printed form of convolution dimension numbers: "[b, 0, 1, f]x[0, 1, i, o]->[b, 0, 1, f]", or a
    struct when an index is out of range. Printing a group inverts a permutation; parsing inverts it back. */
module ConvDimensions {
  import opened Sequences
  import opened StructSyntax

  datatype ConvDims = ConvDims(
    inputBatch: int, inputFeature: int, inputSpatial: seq<int>,
    kernelInputFeature: int, kernelOutputFeature: int, kernelSpatial: seq<int>,
    outputBatch: int, outputFeature: int, outputSpatial: seq<int>)
  {
    function Input(): Group { Group(inputBatch, inputFeature, inputSpatial) }
    function Kernel(): Group { Group(kernelInputFeature, kernelOutputFeature, kernelSpatial) }
    function Output(): Group { Group(outputBatch, outputFeature, outputSpatial) }

    /** Every index is below the rank of its group. */
    predicate Printable() { Input().InBounds() && Kernel().InBounds() && Output().InBounds() }

    predicate Regular() { Input().Regular() && Kernel().Regular() && Output().Regular() }
  }

  /** The positions of the two non-spatial dimensions and of each spatial one. */
  datatype Group = Group(first: int, second: int, spatial: seq<int>) {
    function Rank(): nat { |spatial| + 2 }
    predicate InBounds() { 0 <= first < Rank() && 0 <= second < Rank() && InRange(spatial, Rank()) }

    /** In bounds and without duplicates. */
    predicate Regular() {
      InBounds() && first != second && first !in spatial && second !in spatial && Distinct(spatial)
    }

    /** As Regular, except that the first spatial dimension may share its position with another. */
    predicate Readable() {
      InBounds() && first != second && first !in spatial && second !in spatial && (spatial != [] ==> Distinct(spatial[1..]))
    }

    function Positions(): seq<int> { [first, second] + spatial }
  }

  /** Which two non-spatial dimensions a group has. */
  datatype Marks = Activation | Filter {
    function First(): int { if Activation? then -1 else -3 }
    function Second(): int { if Activation? then -2 else -4 }
    predicate Allows(dim: int) { dim >= 0 || dim == First() || dim == Second() }
    predicate AllowsAll(dims: seq<int>) { forall i :: 0 <= i < |dims| ==> Allows(dims[i]) }
  }

  function NonSpatialName(mark: int): char {
    if mark == -1 then 'b' else if mark == -2 then 'f' else if mark == -3 then 'i' else 'o'
  }

  // ----- printing a group

  /** What each tensor dimension is, after the first `n` spatial dimensions are entered. */
  function Filled(g: Group, m: Marks, n: nat): (dims: seq<int>)
    requires g.InBounds() && n <= |g.spatial|
    ensures |dims| == g.Rank() && m.AllowsAll(dims)
  {
    if n == 0 then seq(g.Rank(), i => 0)[g.first := m.First()][g.second := m.Second()]
    else Filled(g, m, n - 1)[g.spatial[n - 1] := n - 1]
  }

  function Layout(g: Group, m: Marks): seq<int>
    requires g.InBounds()
  {
    Filled(g, m, |g.spatial|)
  }

  function DimToken(dim: int): Token {
    if dim >= 0 then IntToken(dim) else Keyword([NonSpatialName(dim)])
  }

  function DimTokens(dims: seq<int>): seq<Token> {
    if dims == [] then [] else if |dims| == 1 then [DimToken(dims[0])] else [DimToken(dims[0]), Comma] + DimTokens(dims[1..])
  }

  function GroupTokens(g: Group, m: Marks): seq<Token>
    requires g.InBounds()
  {
    [LSquare] + DimTokens(Layout(g, m)) + [RSquare]
  }

  method PrintDims(g: Group, m: Marks) returns (ts: seq<Token>)
    requires g.InBounds()
    ensures ts == GroupTokens(g, m)
  {
    var dims := seq(g.Rank(), i => 0);
    dims := dims[g.first := m.First()];
    dims := dims[g.second := m.Second()];
    for k := 0 to |g.spatial|
      invariant dims == Filled(g, m, k)
    {
      dims := dims[g.spatial[k] := k];
    }
    var list := PrintDimTokens(dims);
    return [LSquare] + list + [RSquare];
  }

  method PrintDimTokens(dims: seq<int>) returns (ts: seq<Token>)
    ensures ts == DimTokens(dims)
  {
    ts := [];
    for i := 0 to |dims|
      invariant ts == DimTokens(dims[..i])
    {
      DimsSnoc(dims[..i], dims[i]);
      assert dims[..i + 1] == dims[..i] + [dims[i]];
      if i > 0 { ts := ts + [Comma]; }
      ts := ts + [DimToken(dims[i])];
    }
    assert dims[..|dims|] == dims;
  }

  lemma {:induction false} DimsSnoc(dims: seq<int>, d: int)
    ensures DimTokens(dims + [d]) == DimTokens(dims) + (if dims == [] then [] else [Comma]) + [DimToken(d)]
  {
    if |dims| >= 1 {
      assert (dims + [d])[1..] == dims[1..] + [d];
      DimsSnoc(dims[1..], d);
    }
  }

  // ----- reading a group

  function ReadDim(t: Token, m: Marks): (r: Option<int>)
    ensures r.Some? ==> m.Allows(r.value)
  {
    match t
    case IntToken(n) => if n < 0 then None else Some(n)
    case Keyword(s) =>
      if |s| != 1 then None
      else if s[0] == NonSpatialName(m.First()) then Some(m.First())
      else if s[0] == NonSpatialName(m.Second()) then Some(m.Second())
      else None
    case _ => None
  }

  lemma ReadDimIff(t: Token, m: Marks, d: int)
    ensures ReadDim(t, m) == Some(d) <==> m.Allows(d) && t == DimToken(d)
  {
    assert t.Keyword? && |t.name| == 1 ==> t.name == [t.name[0]];
  }

  /** A comma-separated list of dimensions, none of them twice. */
  function ReadDims(ts: seq<Token>, m: Marks, sofar: seq<int>): Option<(seq<int>, seq<Token>)>
    decreases |ts|
  {
    if ts == [] then None
    else
      match ReadDim(ts[0], m)
      case None => None
      case Some(d) =>
        if d in sofar then None
        else if |ts| >= 2 && ts[1].Comma? then ReadDims(ts[2..], m, sofar + [d])
        else Some((sofar + [d], ts[1..]))
  }

  /** One more than the largest dimension listed. */
  function SpatialCount(dims: seq<int>): (n: nat)
    ensures forall i :: 0 <= i < |dims| ==> dims[i] < n
    ensures n > 0 ==> n - 1 in dims
  {
    if dims == [] then 0
    else
      var n := SpatialCount(dims[..|dims| - 1]);
      var d := dims[|dims| - 1];
      assert forall i :: 0 <= i < |dims| - 1 ==> dims[i] == dims[..|dims| - 1][i];
      if d >= n then d + 1 else n
  }

  predicate NoGaps(dims: seq<int>) {
    forall k :: 0 <= k < SpatialCount(dims) ==> k in dims
  }

  function Inverse(dims: seq<int>, m: Marks): Group
    requires m.First() in dims && m.Second() in dims && NoGaps(dims)
  {
    Group(IndexOf(dims, m.First()), IndexOf(dims, m.Second()),
          seq(SpatialCount(dims), k requires 0 <= k < SpatialCount(dims) => IndexOf(dims, k)))
  }

  function ParsedGroup(ts: seq<Token>, m: Marks): Option<(Group, seq<Token>)> {
    if ts == [] || !ts[0].LSquare? then None
    else
      match ReadDims(ts[1..], m, [])
      case None => None
      case Some((dims, rest)) => Finished(dims, m, rest)
  }

  function Finished(dims: seq<int>, m: Marks, rest: seq<Token>): Option<(Group, seq<Token>)> {
    if m.First() !in dims || m.Second() !in dims then None
    else if rest == [] || !rest[0].RSquare? then None
    else if !NoGaps(dims) then None
    else Some((Inverse(dims, m), rest[1..]))
  }

  // ----- the loop that reads a group

  /** Where each spatial (or each non-spatial) dimension was read. */
  function Places(dims: seq<int>, spatial: bool): map<int, int> {
    if dims == [] then map[]
    else
      var d, before := dims[|dims| - 1], Places(dims[..|dims| - 1], spatial);
      if (d >= 0) == spatial then before[d := |dims| - 1] else before
  }

  /** The non-spatial dimensions that have not been read. */
  function Unread(dims: seq<int>, m: Marks): set<int> {
    if dims == [] then {m.First(), m.Second()} else Unread(dims[..|dims| - 1], m) - {dims[|dims| - 1]}
  }

  lemma Snoc(dims: seq<int>, m: Marks, d: int)
    ensures Places(dims + [d], true) == if d >= 0 then Places(dims, true)[d := |dims|] else Places(dims, true)
    ensures Places(dims + [d], false) == if d >= 0 then Places(dims, false) else Places(dims, false)[d := |dims|]
    ensures Unread(dims + [d], m) == Unread(dims, m) - {d}
    ensures SpatialCount(dims + [d]) == if d >= SpatialCount(dims) then d + 1 else SpatialCount(dims)
  {
    assert (dims + [d])[..|dims|] == dims;
  }

  /** What the variables of the loop hold once `dims` have been read. */
  ghost predicate Tracks(dims: seq<int>, m: Marks, spatialMap: map<int, int>, nonSpatial: map<int, int>, allowed: set<int>, maxSpatial: int) {
    && Distinct(dims)
    && spatialMap == Places(dims, true) && nonSpatial == Places(dims, false)
    && allowed == Unread(dims, m) && maxSpatial + 1 == SpatialCount(dims)
  }

  lemma TracksSnoc(dims: seq<int>, m: Marks, spatialMap: map<int, int>, nonSpatial: map<int, int>, allowed: set<int>, maxSpatial: int, d: int)
    requires Tracks(dims, m, spatialMap, nonSpatial, allowed, maxSpatial) && d !in dims
    ensures d >= 0 ==> Tracks(dims + [d], m, spatialMap[d := |dims|], nonSpatial, allowed, if d > maxSpatial then d else maxSpatial)
    ensures d < 0 ==> Tracks(dims + [d], m, spatialMap, nonSpatial[d := |dims|], allowed - {d}, maxSpatial)
  {
    DistinctSnoc(dims, d);
    Snoc(dims, m, d);
    if d >= 0 { UnreadMeaning(dims, m, d); NotMember(Unread(dims, m), d); }
  }

  lemma NotMember(s: set<int>, d: int)
    requires d !in s
    ensures s - {d} == s
  {
  }

  lemma {:induction false} PlacesMeaning(dims: seq<int>, spatial: bool, d: int)
    ensures d in Places(dims, spatial) <==> d in dims && (d >= 0) == spatial
    ensures d in Places(dims, spatial) ==> 0 <= Places(dims, spatial)[d] < |dims| && dims[Places(dims, spatial)[d]] == d
  {
    if dims != [] {
      var before := dims[..|dims| - 1];
      PlacesMeaning(before, spatial, d);
      InitLast([], dims);
      InConcat(before, [dims[|dims| - 1]], d);
    }
  }

  lemma {:induction false} UnreadMeaning(dims: seq<int>, m: Marks, d: int)
    ensures d in Unread(dims, m) <==> (d == m.First() || d == m.Second()) && d !in dims
  {
    if dims != [] {
      var before := dims[..|dims| - 1];
      UnreadMeaning(before, m, d);
      InitLast([], dims);
      InConcat(before, [dims[|dims| - 1]], d);
    }
  }

  /** Every recorded place is the place of the dimension in a duplicate-free list. */
  lemma PlaceOfRead(dims: seq<int>, d: int)
    requires Distinct(dims) && d in dims
    ensures d in Places(dims, d >= 0) && Places(dims, d >= 0)[d] == IndexOf(dims, d)
  {
    PlacesMeaning(dims, d >= 0, d);
    PlaceIsIndex(dims, d, Places(dims, d >= 0)[d]);
  }

  lemma PlaceIsIndex(dims: seq<int>, d: int, i: int)
    requires Distinct(dims) && 0 <= i < |dims| && dims[i] == d
    ensures IndexOf(dims, d) == i
  {
    var j := IndexOf(dims, d);
    assert !(j < i) && !(i < j);
  }

  /** What one dimension adds: the loop body up to the optional comma. */
  method ReadOne(token: Token, m: Marks, spatialMap: map<int, int>, allowed: set<int>, ghost dims: seq<int>) returns (r: Option<int>)
    requires spatialMap == Places(dims, true) && allowed == Unread(dims, m)
    ensures r == if ReadDim(token, m).Some? && ReadDim(token, m).value !in dims then ReadDim(token, m) else None
  {
    if token.IntToken? {
      PlacesMeaning(dims, true, token.n);
      if token.n < 0 || token.n in spatialMap { return None; }
      return Some(token.n);
    }
    if !token.Keyword? { return None; }
    UnreadMeaning(dims, m, m.First());
    UnreadMeaning(dims, m, m.Second());
    if |token.name| != 1 || allowed == {} { return None; }
    if m.First() in allowed && token.name[0] == NonSpatialName(m.First()) { return Some(m.First()); }
    if m.Second() in allowed && token.name[0] == NonSpatialName(m.Second()) { return Some(m.Second()); }
    return None;
  }

  method ParseGroup(ts: seq<Token>, m: Marks) returns (r: Option<(Group, seq<Token>)>)
    ensures r == ParsedGroup(ts, m)
  {
    if ts == [] || !ts[0].LSquare? { return None; }
    var rest := ts[1..];
    var spatialMap: map<int, int>, nonSpatial: map<int, int> := map[], map[];
    var allowed := {m.First(), m.Second()};
    var maxSpatial, index := -1, 0;
    ghost var dims: seq<int> := [];
    while true
      invariant Tracks(dims, m, spatialMap, nonSpatial, allowed, maxSpatial) && index == |dims|
      invariant ReadDims(ts[1..], m, []) == ReadDims(rest, m, dims)
      decreases |rest|
    {
      if rest == [] { return None; }
      var read := ReadOne(rest[0], m, spatialMap, allowed, dims);
      if read.None? { return None; }
      var d := read.value;
      TracksSnoc(dims, m, spatialMap, nonSpatial, allowed, maxSpatial, d);
      if d >= 0 {
        spatialMap := spatialMap[d := index];
        maxSpatial := if d > maxSpatial then d else maxSpatial;
      } else {
        nonSpatial := nonSpatial[d := index];
        allowed := allowed - {d};
      }
      ReadOneMore(rest, m, dims, d);
      dims := dims + [d];
      index := index + 1;
      rest := rest[1..];
      if rest == [] || !rest[0].Comma? { break; }
      rest := rest[1..];
    }
    assert ReadDims(ts[1..], m, []) == Some((dims, rest));
    r := FinishGroup(dims, m, spatialMap, nonSpatial, allowed, maxSpatial, rest);
  }

  /** The checks after the loop. */
  method FinishGroup(ghost dims: seq<int>, m: Marks, spatialMap: map<int, int>, nonSpatial: map<int, int>,
                     allowed: set<int>, maxSpatial: int, rest: seq<Token>) returns (r: Option<(Group, seq<Token>)>)
    requires Tracks(dims, m, spatialMap, nonSpatial, allowed, maxSpatial)
    ensures r == Finished(dims, m, rest)
  {
    AllRead(dims, m);
    if allowed != {} { return None; }
    if rest == [] || !rest[0].RSquare? { return None; }
    var spatial := CollectSpatial(dims, spatialMap, maxSpatial);
    if spatial.None? { return None; }
    PlaceOfRead(dims, m.First());
    PlaceOfRead(dims, m.Second());
    InverseIs(dims, m, spatial.value);
    return Some((Group(nonSpatial[m.First()], nonSpatial[m.Second()], spatial.value), rest[1..]));
  }

  lemma ReadOneMore(ts: seq<Token>, m: Marks, sofar: seq<int>, d: int)
    requires ts != [] && ReadDim(ts[0], m) == Some(d) && d !in sofar
    ensures var rest := ts[1..];
            ReadDims(ts, m, sofar) == if rest != [] && rest[0].Comma? then ReadDims(rest[1..], m, sofar + [d]) else Some((sofar + [d], rest))
  {
    if |ts| >= 2 { assert ts[1..][1..] == ts[2..]; }
  }

  lemma AllRead(dims: seq<int>, m: Marks)
    ensures Unread(dims, m) == {} <==> m.First() in dims && m.Second() in dims
  {
    UnreadMeaning(dims, m, m.First());
    UnreadMeaning(dims, m, m.Second());
    UnreadWithin(dims, m);
  }

  lemma InverseIs(dims: seq<int>, m: Marks, spatial: seq<int>)
    requires m.First() in dims && m.Second() in dims && NoGaps(dims)
    requires |spatial| == SpatialCount(dims) && forall k :: 0 <= k < |spatial| ==> spatial[k] == IndexOf(dims, k)
    ensures Inverse(dims, m) == Group(IndexOf(dims, m.First()), IndexOf(dims, m.Second()), spatial)
  {
    assert Inverse(dims, m).spatial == spatial;
  }

  lemma {:induction false} UnreadWithin(dims: seq<int>, m: Marks)
    ensures Unread(dims, m) <= {m.First(), m.Second()}
  {
    if dims != [] { UnreadWithin(dims[..|dims| - 1], m); }
  }

  /** The positions of the spatial dimensions in their own order; fails when one of them is missing. */
  method CollectSpatial(ghost dims: seq<int>, spatialMap: map<int, int>, maxSpatial: int) returns (r: Option<seq<int>>)
    requires Distinct(dims) && spatialMap == Places(dims, true) && maxSpatial + 1 == SpatialCount(dims)
    ensures r.Some? <==> NoGaps(dims)
    ensures r.Some? ==> |r.value| == SpatialCount(dims) && forall k :: 0 <= k < |r.value| ==> r.value[k] == IndexOf(dims, k)
  {
    var count := maxSpatial + 1;
    var spatial, unspecified := seq(count, i => 0), [];
    for dim := 0 to count
      invariant |spatial| == count
      invariant forall k :: 0 <= k < dim && k in spatialMap ==> spatial[k] == spatialMap[k]
      invariant unspecified == [] <==> forall k :: 0 <= k < dim ==> k in spatialMap
    {
      if dim !in spatialMap {
        if |unspecified| < 10 { unspecified := unspecified + [dim]; }
      } else {
        spatial := spatial[dim := spatialMap[dim]];
      }
    }
    forall k ensures k >= 0 ==> (k in spatialMap <==> k in dims) { PlacesMeaning(dims, true, k); }
    if unspecified != [] { return None; }
    forall k | 0 <= k < count ensures spatial[k] == IndexOf(dims, k) { PlaceOfRead(dims, k); }
    return Some(spatial);
  }

  // ----- a group and its layout determine each other

  ghost predicate IsLayout(dims: seq<int>, m: Marks) {
    Distinct(dims) && m.AllowsAll(dims) && m.First() in dims && m.Second() in dims && NoGaps(dims)
  }

  lemma {:induction false} FilledAt(g: Group, m: Marks, n: nat)
    requires g.Regular() && n <= |g.spatial|
    ensures 0 <= g.first < g.Rank() && 0 <= g.second < g.Rank() && InRange(g.spatial, g.Rank())
    ensures var dims := Filled(g, m, n);
            && dims[g.first] == m.First() && dims[g.second] == m.Second()
            && forall k :: 0 <= k < n ==> dims[g.spatial[k]] == k
  {
    if n > 0 {
      FilledAt(g, m, n - 1);
      assert g.spatial[n - 1] in g.spatial;
    }
  }

  lemma PositionsPermutation(g: Group)
    ensures g.Regular() <==> IsPermutation(g.Positions(), g.Rank())
  {
    var p := g.Positions();
    assert p[0] == g.first && p[1] == g.second;
    assert forall k :: 0 <= k < |g.spatial| ==> p[k + 2] == g.spatial[k];
    if IsPermutation(p, g.Rank()) {
      forall k | 0 <= k < |g.spatial| ensures 0 <= g.spatial[k] < g.Rank() && g.spatial[k] != g.first && g.spatial[k] != g.second {
        assert p[0] != p[k + 2] && p[1] != p[k + 2];
      }
      forall i, j | 0 <= i < j < |g.spatial| ensures g.spatial[i] != g.spatial[j] { assert p[i + 2] != p[j + 2]; }
    }
  }

  /** Printing a duplicate-free group lists each of its dimensions once, and the layout leads back to it. */
  lemma {:induction false} LayoutOfRegular(g: Group, m: Marks)
    requires g.Regular()
    ensures IsLayout(Layout(g, m), m)
    ensures Inverse(Layout(g, m), m) == g
  {
    var dims := Layout(g, m);
    FilledAt(g, m, |g.spatial|);
    LayoutDistinct(g, m);
    forall k | 0 <= k < |g.spatial| ensures k in dims && IndexOf(dims, k) == g.spatial[k] {
      assert dims[g.spatial[k]] == k;
      PlaceIsIndex(dims, k, g.spatial[k]);
    }
    PlaceIsIndex(dims, m.First(), g.first);
    PlaceIsIndex(dims, m.Second(), g.second);
    CountIs(dims, |g.spatial|);
    InverseIs(dims, m, g.spatial);
  }

  lemma {:induction false} LayoutDistinct(g: Group, m: Marks)
    requires g.Regular()
    ensures Distinct(Layout(g, m)) && forall i :: 0 <= i < |Layout(g, m)| ==> Layout(g, m)[i] < |g.spatial|
    ensures m.AllowsAll(Layout(g, m))
  {
    var dims := Layout(g, m);
    forall i | 0 <= i < |dims| ensures dims[i] < |g.spatial| && i == PlaceOf(g, m, dims[i]) && m.Allows(dims[i]) {
      PlaceOfLayout(g, m, i);
    }
    forall i, j | 0 <= i < j < |dims| ensures dims[i] != dims[j] {
      assert i == PlaceOf(g, m, dims[i]) && j == PlaceOf(g, m, dims[j]);
    }
  }

  lemma CountIs(dims: seq<int>, n: nat)
    requires forall i :: 0 <= i < |dims| ==> dims[i] < n
    requires forall k :: 0 <= k < n ==> k in dims
    ensures SpatialCount(dims) == n
  {
    assert n > 0 ==> n - 1 in dims;
  }

  lemma PlaceOfLayout(g: Group, m: Marks, i: int)
    requires g.Regular() && 0 <= i < g.Rank()
    ensures Layout(g, m)[i] < |g.spatial| && i == PlaceOf(g, m, Layout(g, m)[i])
  {
    var p := g.Positions();
    FilledAt(g, m, |g.spatial|);
    PositionsPermutation(g);
    PermutationCovers(p, g.Rank(), i);
    assert p == [g.first, g.second] + g.spatial;
    if i in g.spatial {
      var k :| 0 <= k < |g.spatial| && g.spatial[k] == i;
    }
  }

  function PlaceOf(g: Group, m: Marks, d: int): int {
    if d == m.First() then g.first else if d == m.Second() then g.second
    else if 0 <= d < |g.spatial| then g.spatial[d] else -1
  }

  /** A layout without repetitions or gaps comes from a duplicate-free group, which prints as that layout. */
  lemma {:induction false} RegularOfLayout(dims: seq<int>, m: Marks)
    requires IsLayout(dims, m)
    ensures Inverse(dims, m).Regular() && Layout(Inverse(dims, m), m) == dims
  {
    var g := Inverse(dims, m);
    InverseEnumerates(dims, m);
    PositionsPermutation(g);
    FilledAt(g, m, |g.spatial|);
    var back := Layout(g, m);
    forall i | 0 <= i < |dims| ensures back[i] == dims[i] {
      PlaceIsIndex(dims, dims[i], i);
      assert m.Allows(dims[i]);
      if dims[i] >= 0 { assert g.spatial[dims[i]] == i; }
    }
    assert back == dims;
  }

  lemma InverseEnumerates(dims: seq<int>, m: Marks)
    requires IsLayout(dims, m)
    ensures IsPermutation(Inverse(dims, m).Positions(), |dims|)
  {
    var p := Inverse(dims, m).Positions();
    forall j | 0 <= j < |p| ensures Named(m, j) in dims && p[j] == IndexOf(dims, Named(m, j)) {
      InverseAt(dims, m, j);
    }
    forall i, j | 0 <= i < j < |p| ensures p[i] != p[j] {
      assert dims[p[i]] == Named(m, i) && dims[p[j]] == Named(m, j);
    }
    forall x | 0 <= x < |dims| ensures x in p { InverseCovers(dims, m, x); }
    CoveringIsPermutation(p, |dims|);
  }

  lemma InverseCovers(dims: seq<int>, m: Marks, x: int)
    requires IsLayout(dims, m) && 0 <= x < |dims|
    ensures x in Inverse(dims, m).Positions()
  {
    var j := EntryPlace(dims, m, x);
    InverseAt(dims, m, j);
    PlaceIsIndex(dims, dims[x], x);
    assert Inverse(dims, m).Positions()[j] == x;
  }

  lemma EntryPlace(dims: seq<int>, m: Marks, x: int) returns (j: nat)
    requires IsLayout(dims, m) && 0 <= x < |dims|
    ensures j < SpatialCount(dims) + 2 && Named(m, j) == dims[x]
  {
    assert m.Allows(dims[x]);
    j := if dims[x] >= 0 then dims[x] + 2 else if dims[x] == m.First() then 0 else 1;
  }

  /** Which dimension is at place `j` of the positions of a group. */
  function Named(m: Marks, j: int): int {
    if j == 0 then m.First() else if j == 1 then m.Second() else j - 2
  }

  lemma InverseAt(dims: seq<int>, m: Marks, j: int)
    requires IsLayout(dims, m) && 0 <= j < SpatialCount(dims) + 2
    ensures |Inverse(dims, m).Positions()| == SpatialCount(dims) + 2
    ensures Named(m, j) in dims
    ensures Inverse(dims, m).Positions()[j] == IndexOf(dims, Named(m, j))
  {
    PositionsAt(Inverse(dims, m), j);
  }

  lemma PositionsAt(g: Group, j: nat)
    requires j < g.Rank()
    ensures |g.Positions()| == g.Rank()
    ensures g.Positions()[j] == if j == 0 then g.first else if j == 1 then g.second else g.spatial[j - 2]
  {
  }

  // ----- groups with duplicates

  /** Where the entries of a layout come from: a mark from its own position, a later spatial dimension from
      its own, and an entry is never replaced by a smaller one. */
  lemma {:induction false} FilledFrom(g: Group, m: Marks, n: nat)
    requires g.InBounds() && n <= |g.spatial|
    ensures forall x :: 0 <= x < g.Rank() && Filled(g, m, n)[x] == m.First() ==> x == g.first && g.first != g.second
    ensures forall x :: 0 <= x < g.Rank() && Filled(g, m, n)[x] == m.Second() ==> x == g.second
    ensures forall x :: 0 <= x < g.Rank() && Filled(g, m, n)[x] >= 1 ==> Filled(g, m, n)[x] < n && g.spatial[Filled(g, m, n)[x]] == x
    ensures forall k :: 0 <= k < n ==> Filled(g, m, n)[g.spatial[k]] >= k
  {
    if n > 0 { FilledFrom(g, m, n - 1); }
  }

  /** The printed list of a group in range names every dimension once if and only if no position is taken
      twice, except that the first spatial dimension may share one with another. */
  lemma {:induction false} LayoutIff(g: Group, m: Marks)
    requires g.InBounds()
    ensures IsLayout(Layout(g, m), m) <==> g.Readable()
  {
    if IsLayout(Layout(g, m), m) { LayoutReadable(g, m); }
    if g.Readable() {
      var h := Separated(g);
      SeparatedLayout(g, h, m);
      LayoutOfRegular(h, m);
    }
  }

  lemma {:induction false} LayoutReadable(g: Group, m: Marks)
    requires g.InBounds() && IsLayout(Layout(g, m), m)
    ensures g.Readable()
  {
    var dims, n := Layout(g, m), |g.spatial|;
    FilledFrom(g, m, n);
    assert dims[IndexOf(dims, m.First())] == m.First() && dims[IndexOf(dims, m.Second())] == m.Second();
    assert n > 0 ==> dims[g.spatial[n - 1]] >= n - 1;
    forall a, b | 1 <= a < b < n ensures g.spatial[a] != g.spatial[b] {
      assert a in dims;
      assert dims[IndexOf(dims, a)] == a;
    }
    if n > 0 {
      forall a, b | 0 <= a < b < |g.spatial[1..]| ensures g.spatial[1..][a] != g.spatial[1..][b] {
        assert g.spatial[a + 1] != g.spatial[b + 1];
      }
    }
  }

  /** The duplicate-free group with the same layout: the first spatial dimension moves to the free position. */
  lemma {:induction false} Separated(g: Group) returns (h: Group)
    requires g.Readable()
    ensures h.Regular() && h.first == g.first && h.second == g.second && |h.spatial| == |g.spatial|
    ensures forall k :: 1 <= k < |g.spatial| ==> h.spatial[k] == g.spatial[k]
    ensures g.Regular() ==> h == g
  {
    if g.spatial == [] || g.spatial[0] !in g.spatial[1..] {
      h := g;
      SpatialDistinct(g.spatial);
    } else {
      var taken := [g.first, g.second] + g.spatial[1..];
      TakenDistinct(g, taken);
      var q := FreePosition(taken, g.Rank());
      h := Group(g.first, g.second, [q] + g.spatial[1..]);
      MovedRegular(g, taken, q);
      SpatialDistinct(g.spatial);
    }
  }

  lemma {:induction false} MovedRegular(g: Group, taken: seq<int>, q: int)
    requires g.Readable() && g.spatial != [] && taken == [g.first, g.second] + g.spatial[1..]
    requires 0 <= q < g.Rank() && q !in taken
    ensures Group(g.first, g.second, [q] + g.spatial[1..]).Regular()
  {
    assert taken[0] == g.first && taken[1] == g.second;
    InConcat([g.first, g.second], g.spatial[1..], q);
    var moved := [q] + g.spatial[1..];
    assert moved[1..] == g.spatial[1..];
    SpatialDistinct(moved);
  }

  lemma SpatialDistinct(s: seq<int>)
    requires s != [] ==> Distinct(s[1..])
    ensures s == [] || s[0] !in s[1..] ==> Distinct(s)
    ensures Distinct(s) && s != [] ==> s[0] !in s[1..]
  {
    if s != [] && s[0] !in s[1..] {
      forall i, j | 0 <= i < j < |s| ensures s[i] != s[j] {
        assert s[j] == s[1..][j - 1];
        if i > 0 { assert s[i] == s[1..][i - 1]; }
      }
    }
  }

  lemma TakenDistinct(g: Group, taken: seq<int>)
    requires g.Readable() && g.spatial != [] && taken == [g.first, g.second] + g.spatial[1..]
    ensures Distinct(taken) && InRange(taken, g.Rank())
  {
    assert forall k :: 0 <= k < |g.spatial| - 1 ==> taken[k + 2] == g.spatial[1..][k] == g.spatial[k + 1];
  }

  lemma {:induction false} FreePosition(taken: seq<int>, n: nat) returns (q: int)
    requires Distinct(taken) && InRange(taken, n) && |taken| < n
    ensures 0 <= q < n && q !in taken
  {
    if forall x :: 0 <= x < n ==> x in taken { CoveringIsPermutation(taken, n); }
    q :| 0 <= q < n && q !in taken;
  }

  lemma {:induction false} SeparatedLayout(g: Group, h: Group, m: Marks)
    requires g.Readable() && h.Regular() && h.first == g.first && h.second == g.second && |h.spatial| == |g.spatial|
    requires forall k :: 1 <= k < |g.spatial| ==> h.spatial[k] == g.spatial[k]
    ensures Layout(g, m) == Layout(h, m)
  {
    if g.spatial != [] { SeparatedFilled(g, h, m, |g.spatial|); }
  }

  lemma {:induction false} SeparatedFilled(g: Group, h: Group, m: Marks, n: nat)
    requires g.Readable() && h.Regular() && h.first == g.first && h.second == g.second && |h.spatial| == |g.spatial|
    requires forall k :: 1 <= k < |g.spatial| ==> h.spatial[k] == g.spatial[k]
    requires 1 <= n <= |g.spatial|
    ensures Filled(g, m, n) == Filled(h, m, n)
  {
    if n == 1 {
      assert g.spatial[0] in g.spatial && h.spatial[0] in h.spatial;
      assert Filled(g, m, 0) == Filled(h, m, 0);
      assert Filled(g, m, 0)[g.spatial[0]] == 0 && Filled(h, m, 0)[h.spatial[0]] == 0;
      assert Filled(g, m, 1) == Filled(g, m, 0) && Filled(h, m, 1) == Filled(h, m, 0);
    } else {
      SeparatedFilled(g, h, m, n - 1);
    }
  }

  // ----- the text of a group

  /** `ts` is the bracketed list, with commas, of the dimensions of a group in the order of their positions: two
      named ones at positions p and q, and spatial dimension k, by its number, at position spatial[k]. */
  predicate IsGroupText(ts: seq<Token>, first: string, p: int, second: string, q: int, spatial: seq<int>) {
    var rank := |spatial| + 2;
    && |ts| == 2 * rank + 1 && ts[0] == LSquare && ts[2 * rank] == RSquare
    && (forall k {:trigger ts[2 * k]} :: 1 <= k < rank ==> ts[2 * k] == Comma)
    && 0 <= p < rank && ts[2 * p + 1] == Keyword(first)
    && 0 <= q < rank && ts[2 * q + 1] == Keyword(second)
    && (forall k {:trigger spatial[k]} :: 0 <= k < |spatial| ==> 0 <= spatial[k] < rank && ts[2 * spatial[k] + 1] == IntToken(k))
  }

  lemma {:induction false} DimTokensAt(dims: seq<int>, k: nat)
    requires k < |dims|
    ensures |DimTokens(dims)| == 2 * |dims| - 1
    ensures DimTokens(dims)[2 * k] == DimToken(dims[k]) && (k >= 1 ==> DimTokens(dims)[2 * k - 1] == Comma)
  {
    if |dims| > 1 { DimTokensAt(dims[1..], if k >= 1 then k - 1 else 0); }
  }

  /** A group of an activation names its batch dimension b and its feature dimension f, a group of a filter its
      input feature dimension i and its output feature dimension o. */
  lemma {:induction false} GroupText(g: Group, m: Marks)
    requires g.Regular()
    ensures m.Activation? ==> IsGroupText(GroupTokens(g, m), "b", g.first, "f", g.second, g.spatial)
    ensures m.Filter? ==> IsGroupText(GroupTokens(g, m), "i", g.first, "o", g.second, g.spatial)
  {
    var dims, ts := Layout(g, m), GroupTokens(g, m);
    FilledAt(g, m, |g.spatial|);
    Names(m);
    ListText(ts, dims, g, if m.Activation? then "b" else "i", if m.Activation? then "f" else "o");
  }

  lemma {:induction false} ListText(ts: seq<Token>, dims: seq<int>, g: Group, first: string, second: string)
    requires |dims| == g.Rank() && ts == [LSquare] + DimTokens(dims) + [RSquare] && g.InBounds()
    requires DimToken(dims[g.first]) == Keyword(first) && DimToken(dims[g.second]) == Keyword(second)
    requires forall k :: 0 <= k < |g.spatial| ==> dims[g.spatial[k]] == k
    ensures IsGroupText(ts, first, g.first, second, g.second, g.spatial)
  {
    TokenAt(ts, dims, 0);
    TokenAt(ts, dims, g.first);
    TokenAt(ts, dims, g.second);
    forall k | 0 <= k < |g.spatial| ensures 0 <= g.spatial[k] < g.Rank() && ts[2 * g.spatial[k] + 1] == IntToken(k) {
      TokenAt(ts, dims, g.spatial[k]);
    }
    forall k {:trigger ts[2 * k]} | 1 <= k < g.Rank() ensures ts[2 * k] == Comma { TokenAt(ts, dims, k); }
  }

  /** Dimension k of the list, after the opening bracket and the dimensions and commas before it. */
  predicate ListedAt(ts: seq<Token>, dims: seq<int>, k: nat) {
    && k < |dims| && |ts| == 2 * |dims| + 1 && ts[2 * k + 1] == DimToken(dims[k]) && (k >= 1 ==> ts[2 * k] == Comma)
  }

  lemma TokenAt(ts: seq<Token>, dims: seq<int>, k: nat)
    requires k < |dims| && ts == [LSquare] + DimTokens(dims) + [RSquare]
    ensures ListedAt(ts, dims, k) && ts[0] == LSquare && ts[2 * |dims|] == RSquare
  {
    DimTokensAt(dims, k);
    var at := 2 * k;
    assert ts[at + 1] == DimTokens(dims)[at];
    assert k >= 1 ==> ts[at] == DimTokens(dims)[at - 1];
  }

  lemma Names(m: Marks)
    ensures DimToken(m.First()) == Keyword(if m.Activation? then "b" else "i")
    ensures DimToken(m.Second()) == Keyword(if m.Activation? then "f" else "o")
  {
  }

  // ----- tokens

  predicate NoComma(ts: seq<Token>) { ts == [] || !ts[0].Comma? }

  lemma {:induction false} ReadPrinted(dims: seq<int>, m: Marks, sofar: seq<int>, rest: seq<Token>)
    requires dims != [] && m.AllowsAll(dims) && Distinct(sofar + dims) && NoComma(rest)
    ensures ReadDims(DimTokens(dims) + rest, m, sofar) == Some((sofar + dims, rest))
  {
    var d := dims[0];
    ReadDimIff(DimToken(d), m, d);
    AppendFirst(sofar, dims);
    NotEarlier(sofar, dims);
    if |dims| == 1 {
      assert dims == [d];
      assert ([DimToken(d)] + rest)[1..] == rest;
    } else {
      var more := DimTokens(dims[1..]) + rest;
      ReadPrinted(dims[1..], m, sofar + [d], rest);
      ConcatAssociative([DimToken(d), Comma], DimTokens(dims[1..]), rest);
      assert ([DimToken(d), Comma] + more)[2..] == more;
    }
  }

  lemma NotEarlier(a: seq<int>, b: seq<int>)
    requires Distinct(a + b) && b != []
    ensures b[0] !in a
  {
    assert (a + b)[|a|] == b[0];
    assert forall i :: 0 <= i < |a| ==> a[i] == (a + b)[i];
  }

  lemma AppendFirst<T>(a: seq<T>, b: seq<T>)
    requires b != []
    ensures (a + [b[0]]) + b[1..] == a + b
  {
  }

  lemma {:induction false} ReadSound(ts: seq<Token>, m: Marks, sofar: seq<int>) returns (dims: seq<int>)
    requires ReadDims(ts, m, sofar).Some? && Distinct(sofar)
    ensures dims != [] && m.AllowsAll(dims) && Distinct(sofar + dims)
    ensures var (all, rest) := ReadDims(ts, m, sofar).value;
            all == sofar + dims && ts == DimTokens(dims) + rest && NoComma(rest)
    decreases |ts|
  {
    var d := ReadDim(ts[0], m).value;
    var rest := ReadDims(ts, m, sofar).value.1;
    ReadDimIff(ts[0], m, d);
    DistinctSnoc(sofar, d);
    if |ts| >= 2 && ts[1].Comma? {
      var tail := ReadSound(ts[2..], m, sofar + [d]);
      dims := [d] + tail;
      AppendFirst(sofar, dims);
      assert dims[1..] == tail;
      assert ts == [ts[0], Comma] + ts[2..];
      ConcatAssociative([ts[0], Comma], DimTokens(tail), rest);
    } else {
      dims := [d];
      assert ts == [ts[0]] + ts[1..];
    }
  }

  /** A list that repeats a dimension is not read. */
  lemma {:induction false} ReadRepeated(dims: seq<int>, m: Marks, sofar: seq<int>, rest: seq<Token>)
    requires dims != [] && m.AllowsAll(dims) && Distinct(sofar) && !Distinct(sofar + dims)
    ensures ReadDims(DimTokens(dims) + rest, m, sofar).None?
  {
    var d := dims[0];
    ReadDimIff(DimToken(d), m, d);
    AppendFirst(sofar, dims);
    if d !in sofar {
      DistinctSnoc(sofar, d);
      assert |dims| == 1 ==> dims == [d];
      var more := DimTokens(dims[1..]) + rest;
      ReadRepeated(dims[1..], m, sofar + [d], rest);
      ConcatAssociative([DimToken(d), Comma], DimTokens(dims[1..]), rest);
      assert ([DimToken(d), Comma] + more)[2..] == more;
    }
  }

  /** What the group parser makes of the printed form of any group in range: the group that its layout
      leads back to, if the layout has no repetitions or gaps. */
  lemma {:induction false} GroupReread(g: Group, m: Marks, rest: seq<Token>)
    requires g.InBounds()
    ensures IsLayout(Layout(g, m), m) ==> ParsedGroup(GroupTokens(g, m) + rest, m) == Some((Inverse(Layout(g, m), m), rest))
    ensures !IsLayout(Layout(g, m), m) ==> ParsedGroup(GroupTokens(g, m) + rest, m).None?
  {
    var dims := Layout(g, m);
    GroupSplit(g, m, rest);
    if IsLayout(dims, m) {
      RegularOfLayout(dims, m);
      GroupReads(m, Inverse(dims, m), rest);
    } else {
      NotLayoutRejected(dims, m, rest);
    }
  }

  lemma NotLayoutRejected(dims: seq<int>, m: Marks, rest: seq<Token>)
    requires dims != [] && m.AllowsAll(dims) && !IsLayout(dims, m)
    ensures ParsedGroup([LSquare] + (DimTokens(dims) + ([RSquare] + rest)), m).None?
  {
    var after := DimTokens(dims) + ([RSquare] + rest);
    assert ([LSquare] + after)[1..] == after;
    if Distinct(dims) {
      ReadPrintedWhole(dims, m, [RSquare] + rest);
    } else {
      assert [] + dims == dims;
      ReadRepeated(dims, m, [], [RSquare] + rest);
    }
  }

  /** The group parser reads exactly what the printer writes for duplicate-free groups in range. */
  lemma GroupParsedIff(ts: seq<Token>, m: Marks, g: Group, rest: seq<Token>)
    ensures ParsedGroup(ts, m) == Some((g, rest)) <==> g.Regular() && ts == GroupTokens(g, m) + rest
  {
    if ParsedGroup(ts, m) == Some((g, rest)) { GroupIsPrinted(ts, m, g, rest); }
    if g.Regular() && ts == GroupTokens(g, m) + rest { GroupReads(m, g, rest); }
  }

  lemma GroupIsPrinted(ts: seq<Token>, m: Marks, g: Group, rest: seq<Token>)
    requires ParsedGroup(ts, m) == Some((g, rest))
    ensures g.Regular() && ts == GroupTokens(g, m) + rest
  {
    var tail := ts[1..];
    var dims := ReadWhole(tail, m);
    FinishedIs(dims, m, ReadDims(tail, m, []).value.1, g, rest);
    GroupSplit(g, m, rest);
    assert ts == [LSquare] + tail;
  }

  lemma ReadWhole(ts: seq<Token>, m: Marks) returns (dims: seq<int>)
    requires ReadDims(ts, m, []).Some?
    ensures Distinct(dims) && m.AllowsAll(dims)
    ensures var (all, rest) := ReadDims(ts, m, []).value; all == dims && ts == DimTokens(dims) + rest
  {
    dims := ReadSound(ts, m, []);
    InitLast(dims, []);
    assert [] + dims == dims;
  }

  lemma GroupSplit(g: Group, m: Marks, rest: seq<Token>)
    requires g.InBounds()
    ensures GroupTokens(g, m) + rest == [LSquare] + (DimTokens(Layout(g, m)) + ([RSquare] + rest))
  {
    Regroup3([LSquare], DimTokens(Layout(g, m)), [RSquare], rest);
  }

  lemma FinishedIs(dims: seq<int>, m: Marks, rest': seq<Token>, g: Group, rest: seq<Token>)
    requires Distinct(dims) && m.AllowsAll(dims) && Finished(dims, m, rest') == Some((g, rest))
    ensures g.Regular() && Layout(g, m) == dims && rest' == [RSquare] + rest
  {
    RegularOfLayout(dims, m);
  }

  lemma GroupReads(m: Marks, g: Group, rest: seq<Token>)
    requires g.Regular()
    ensures ParsedGroup(GroupTokens(g, m) + rest, m) == Some((g, rest))
  {
    var dims := Layout(g, m);
    LayoutOfRegular(g, m);
    GroupSplit(g, m, rest);
    ReadPrintedWhole(dims, m, [RSquare] + rest);
    GroupStarts(DimTokens(dims) + ([RSquare] + rest), m, dims, [RSquare] + rest);
    assert ([RSquare] + rest)[1..] == rest;
  }

  lemma ReadPrintedWhole(dims: seq<int>, m: Marks, rest: seq<Token>)
    requires dims != [] && m.AllowsAll(dims) && Distinct(dims) && NoComma(rest)
    ensures ReadDims(DimTokens(dims) + rest, m, []) == Some((dims, rest))
  {
    assert [] + dims == dims;
    ReadPrinted(dims, m, [], rest);
  }

  lemma GroupStarts(after: seq<Token>, m: Marks, dims: seq<int>, rest: seq<Token>)
    requires ReadDims(after, m, []) == Some((dims, rest))
    ensures ParsedGroup([LSquare] + after, m) == Finished(dims, m, rest)
  {
    assert ([LSquare] + after)[1..] == after;
  }

  lemma Regroup3<T>(a: seq<T>, b: seq<T>, c: seq<T>, d: seq<T>)
    ensures (a + b + c) + d == a + (b + (c + d))
  {
  }
}
