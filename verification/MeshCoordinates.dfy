/** Flattened groups in terms of the mesh itself: which coordinates a member has on the mesh axes, and on the
    sub-axes that the communication refers to. */
module MeshCoordinates {
  import opened Sequences
  import opened MixedRadix
  import opened TransposedGroups
  import opened MeshAxes
  import opened MeshSplitting
  import opened ReplicaGroups

  /** The coordinate on axis `a` of device position `x`: positions are numbered row-major, the last axis fastest. */
  function AxisCoord(x: int, mesh: seq<MeshAxis>, a: nat): int
    requires ValidMesh(mesh) && a < |mesh|
  {
    VolumePositive(mesh[a + 1..]);
    assert mesh[a].size >= 1;
    (x / Volume(mesh[a + 1..])) % mesh[a].size
  }

  /** The coordinate within the sub-axis of extent `size` that `preSize` positions come before: the axis
      coordinate, without what is inside the sub-axis, modulo its extent. */
  function PieceCoord(x: int, mesh: seq<MeshAxis>, a: nat, preSize: int, size: int): int
    requires ValidMesh(mesh) && a < |mesh| && preSize >= 1 && size >= 1 && preSize * size <= mesh[a].size
  {
    InnerPositive(mesh[a].size, preSize, size);
    (AxisCoord(x, mesh, a) / (mesh[a].size / (preSize * size))) % size
  }

  lemma InnerPositive(n: int, preSize: int, size: int)
    requires preSize >= 1 && size >= 1 && preSize * size <= n
    ensures preSize * size >= 1 && n / (preSize * size) >= 1
  {
    StartBeforeEnd(preSize, size);
    QuotientAtLeastOne(preSize * size, n);
  }

  // ----- a split dimension is a piece of a mesh axis

  predicate IsPieceOf(s: Segment, axis: MeshAxis) {
    s.axisName == axis.name && s.preSize >= 1 && s.size >= 1 && s.preSize * s.size <= axis.size
  }

  /** `c` is the coordinate of position `x` in the piece `s` of mesh axis `a`. */
  predicate LiesAt(c: int, x: int, mesh: seq<MeshAxis>, a: int, s: Segment)
    requires ValidMesh(mesh)
  {
    0 <= a < |mesh| && IsPieceOf(s, mesh[a]) && c == PieceCoord(x, mesh, a, s.preSize, s.size)
  }

  /** Along divisor chains, the coordinate of a position in a split dimension is that in its piece of the mesh. */
  lemma {:induction false} SplitCoord(mesh: seq<MeshAxis>, comm: seq<AxisRef>, d: nat, x: int) returns (a: nat)
    requires ValidMesh(mesh) && PositiveRefs(comm) && AllChains(mesh, comm)
    requires forall b :: 0 <= b < |mesh| ==> Fits(mesh[b], comm)
    requires d < |Splits(mesh, comm)|
    ensures Positive(Sizes(Splits(mesh, comm)))
    ensures LiesAt(Coord(x, Sizes(Splits(mesh, comm)), d), x, mesh, a, Splits(mesh, comm)[d])
  {
    SplitsPositive(mesh, comm);
    SplitsLast(mesh, comm);
    ChainsLast(mesh, comm);
    var n := |mesh| - 1;
    var left, right := Splits(mesh[..n], comm), AxisSegments(mesh[n], comm);
    SplitsPositive(mesh[..n], comm);
    AxisVolume(mesh[n], comm);
    if d < |left| {
      a := SplitCoord(mesh[..n], comm, d, x / mesh[n].size);
      CoordLeft(Sizes(left), Sizes(right), d, x, mesh[n].size);
      LiesAtLeft(Coord(x / mesh[n].size, Sizes(left), d), x, mesh, a, left[d]);
    } else {
      a := n;
      CoordRight(Sizes(left), Sizes(right), d - |left|, d, x);
      LastPiece(mesh, comm, d - |left|, x);
    }
  }

  lemma {:induction false} LiesAtLeft(c: int, x: int, mesh: seq<MeshAxis>, a: nat, s: Segment)
    requires ValidMesh(mesh) && mesh != [] && ValidMesh(mesh[..|mesh| - 1]) && mesh[|mesh| - 1].size >= 1
    requires LiesAt(c, x / mesh[|mesh| - 1].size, mesh[..|mesh| - 1], a, s)
    ensures LiesAt(c, x, mesh, a, s)
  {
    AxisCoordLeft(x, mesh, a);
  }

  lemma {:induction false} LastPiece(mesh: seq<MeshAxis>, comm: seq<AxisRef>, e: nat, x: int)
    requires ValidMesh(mesh) && mesh != [] && PositiveRefs(comm) && mesh[|mesh| - 1].size >= 1
    requires Fits(mesh[|mesh| - 1], comm) && AxisChain(mesh[|mesh| - 1], comm) && e < |AxisSegments(mesh[|mesh| - 1], comm)|
    requires Positive(Sizes(AxisSegments(mesh[|mesh| - 1], comm)))
    ensures LiesAt(Coord(x, Sizes(AxisSegments(mesh[|mesh| - 1], comm)), e), x, mesh, |mesh| - 1, AxisSegments(mesh[|mesh| - 1], comm)[e])
  {
    LastAxisCoord(x, mesh);
    SegmentCoord(mesh[|mesh| - 1], comm, e, x);
  }

  lemma {:induction false} CoordLeft(left: seq<int>, right: seq<int>, d: nat, x: int, n: int)
    requires Positive(left) && Positive(right) && n >= 1 && Product(right) == n && d < |left|
    ensures Positive(left + right) && Coord(x, left + right, d) == Coord(x / n, left, d)
  {
    assert (left + right)[d + 1..] == left[d + 1..] + right;
    ProductConcat(left[d + 1..], right);
    ProductPositive(left[d + 1..]);
    DivDiv(x, Product(left[d + 1..]), n);
  }

  lemma CoordRight(left: seq<int>, right: seq<int>, e: nat, d: nat, x: int)
    requires Positive(left) && Positive(right) && e < |right| && d == |left| + e
    ensures Positive(left + right) && Coord(x, left + right, d) == Coord(x, right, e)
  {
    assert (left + right)[d + 1..] == right[e + 1..];
  }

  lemma {:induction false} AxisCoordLeft(x: int, mesh: seq<MeshAxis>, a: nat)
    requires ValidMesh(mesh) && a < |mesh| - 1
    ensures ValidMesh(mesh[..|mesh| - 1]) && mesh[|mesh| - 1].size >= 1
    ensures AxisCoord(x / mesh[|mesh| - 1].size, mesh[..|mesh| - 1], a) == AxisCoord(x, mesh, a)
  {
    var n := |mesh| - 1;
    var before, after := mesh[..n][a + 1..], mesh[a + 1..];
    assert after[..|after| - 1] == before && after[|after| - 1] == mesh[n];
    VolumePositive(before);
    DivDiv(x, Volume(before), mesh[n].size);
  }

  lemma LastAxisCoord(x: int, mesh: seq<MeshAxis>)
    requires ValidMesh(mesh) && mesh != []
    ensures mesh[|mesh| - 1].size >= 1 && AxisCoord(x, mesh, |mesh| - 1) == x % mesh[|mesh| - 1].size
  {
    assert mesh[|mesh| - 1 + 1..] == [];
  }

  /** The same on one axis. */
  lemma {:induction false} SegmentCoord(axis: MeshAxis, comm: seq<AxisRef>, e: nat, x: int)
    requires axis.size >= 1 && PositiveRefs(comm) && Fits(axis, comm) && AxisChain(axis, comm)
    requires e < |AxisSegments(axis, comm)| && Positive(Sizes(AxisSegments(axis, comm)))
    ensures var s := AxisSegments(axis, comm)[e];
            && IsPieceOf(s, axis) && axis.size / (s.preSize * s.size) >= 1
            && Coord(x, Sizes(AxisSegments(axis, comm)), e) == ((x % axis.size) / (axis.size / (s.preSize * s.size))) % s.size
  {
    if axis.size == 1 {
      assert Sizes(AxisSegments(axis, comm)) == [1];
    } else {
      BoundariesPositive(axis, comm);
      LastBoundary(axis, comm);
      var b := Boundaries(axis, comm);
      SuffixChain(axis.name, b, e);
      var inner := Product(Sizes(Segments(axis.name, b))[e + 1..]);
      ChainPiece(b[e], b[e + 1], axis.size, inner);
      InnerCoord(x, b[e], b[e + 1] / b[e], inner, axis.size);
    }
  }

  /** The segments after boundary e + 1 multiply to what is left of the axis there. */
  lemma {:induction false} SuffixChain(name: string, b: seq<int>, e: nat)
    requires Positive(b) && StrictlyIncreasing(b) && Chain(b) && e + 1 < |b|
    ensures Product(Sizes(Segments(name, b))[e + 1..]) * b[e + 1] == b[|b| - 1]
    ensures Product(Sizes(Segments(name, b))[e + 1..]) >= 1
  {
    var tail := b[e + 1..];
    assert Sizes(Segments(name, b))[e + 1..] == Sizes(Segments(name, tail));
    forall j | 0 <= j < |tail| - 1 ensures tail[j + 1] % tail[j] == 0 { assert b[e + 1 + j + 1] % b[e + 1 + j] == 0; }
    Telescoping(name, tail);
    ProductPositive(Sizes(Segments(name, tail)));
  }

  lemma ChainPiece(lo: int, next: int, n: int, inner: int)
    requires 1 <= lo < next && next % lo == 0 && inner >= 1 && inner * next == n
    ensures lo * (next / lo) == next && next / lo >= 1 && n / next == inner && next <= n
  {
    QuotientAtLeastOne(lo, next);
    DivUnique(n, next, inner, 0);
    StartBeforeEnd(next, inner);
  }

  lemma InnerCoord(x: int, preSize: int, size: int, inner: int, n: int)
    requires preSize >= 1 && size >= 1 && inner >= 1 && n >= 1 && inner * (preSize * size) == n
    ensures (x / inner) % size == ((x % n) / inner) % size
  {
    var q := x / n;
    assert q * ((preSize * size) * inner) == q * n;
    WrapStep(x, q, preSize, size, inner, x % n);
  }

  // ----- the members of a group

  function Extents(mesh: seq<MeshAxis>, comm: seq<AxisRef>): (r: seq<int>)
    ensures |r| == |comm| && forall c :: 0 <= c < |comm| ==> r[c] == RequestedSize(mesh, comm[c])
  {
    seq(|comm|, c requires 0 <= c < |comm| => RequestedSize(mesh, comm[c]))
  }

  /** `digit` is the coordinate of device position `x` on what `r` refers to: a whole axis, or a sub-axis. */
  predicate ReadsAs(digit: int, x: int, mesh: seq<MeshAxis>, r: AxisRef)
    requires ValidMesh(mesh)
  {
    exists a :: 0 <= a < |mesh| && mesh[a].name == r.name &&
      match r.sub
      case None => AxisCoord(x, mesh, a) == digit
      case Some(s) => s.preSize >= 1 && s.size >= 1 && s.preSize * s.size <= mesh[a].size && PieceCoord(x, mesh, a, s.preSize, s.size) == digit
  }

  /** Member j of a group has, on the axes and sub-axes of the communication, the coordinates that spell j: row-major,
      in the order in which the communication lists them. Its device is the one at its mesh position. */
  lemma {:induction false} MemberOnMesh(mesh: Mesh, comm: seq<AxisRef>, i: nat, j: nat) returns (x: int)
    requires WellFormed(mesh) && EnoughDevices(mesh, comm) && Flatten(mesh, comm).Some?
    requires PositiveRefs(comm) && AllChains(mesh.axes, comm)
    requires i < |Flatten(mesh, comm).value| && j < |Flatten(mesh, comm).value[i]|
    ensures 0 <= x < Volume(mesh.axes)
    ensures mesh.deviceIds == None || mesh.deviceIds == Some([]) ==> Flatten(mesh, comm).value[i][j] == x
    ensures mesh.deviceIds.Some? && mesh.deviceIds.value != [] ==>
              x < |mesh.deviceIds.value| && Flatten(mesh, comm).value[i][j] == mesh.deviceIds.value[x]
    ensures Positive(Extents(mesh.axes, comm))
    ensures forall c :: 0 <= c < |comm| ==> ReadsAs(Digits(j, Extents(mesh.axes, comm))[c], x, mesh.axes, comm[c])
  {
    FlattenedMember(mesh, comm, i, j);
    ReindexedGrid(mesh.axes, comm);
    var r := Reindex(mesh.axes, comm).value;
    x := Position(i, j, r.splitAxisSizes, r.groupedAxisIndices);
    GroupCount(r.splitAxisSizes, r.groupedAxisIndices);
    PositionWithin(i, j, r.splitAxisSizes, r.groupedAxisIndices);
    RankOnMesh(mesh.axes, comm, r.splitAxisSizes, r.groupedAxisIndices, i, j, x);
  }

  lemma {:induction false} RankOnMesh(mesh: seq<MeshAxis>, comm: seq<AxisRef>, sizes: seq<int>, g: seq<int>, i: int, j: int, x: int)
    requires ValidMesh(mesh) && DistinctNames(mesh) && PositiveRefs(comm) && AllChains(mesh, comm)
    requires Reindex(mesh, comm) == Some(ReindexedAxes(sizes, g)) && ValidGrouping(sizes, g)
    requires InRange(OuterAxes(sizes, g), |sizes|) && 0 <= i < Product(Pick(sizes, OuterAxes(sizes, g))) && 0 <= j < GroupSize(sizes, g)
    requires x == Position(i, j, sizes, g)
    ensures Positive(Extents(mesh, comm))
    ensures forall c :: 0 <= c < |comm| ==> ReadsAs(Digits(j, Extents(mesh, comm))[c], x, mesh, comm[c])
  {
    MatchedExtents(mesh, Splits(mesh, comm), comm);
    var extents := Extents(mesh, comm);
    assert Pick(sizes, g) == extents;
    MemberCoordinates(i, j, sizes, g);
    AllRead(mesh, comm, g, sizes, x, Digits(j, extents));
  }

  /** If the split coordinates of a position at the matched indices are given, so is what the references name. */
  lemma {:induction false} AllRead(mesh: seq<MeshAxis>, comm: seq<AxisRef>, g: seq<int>, sizes: seq<int>, x: int, digits: seq<int>)
    requires ValidMesh(mesh) && DistinctNames(mesh) && ValidRefs(mesh, comm) && PositiveRefs(comm) && AllChains(mesh, comm)
    requires GroupedIndices(mesh, Splits(mesh, comm), comm) == Some(g) && sizes == Sizes(Splits(mesh, comm))
    requires Positive(sizes) && InRange(g, |sizes|) && Pick(Digits(x, sizes), g) == digits
    ensures |digits| == |comm| && forall c :: 0 <= c < |comm| ==> ReadsAs(digits[c], x, mesh, comm[c])
  {
    forall c | 0 <= c < |comm| ensures ReadsAs(digits[c], x, mesh, comm[c]) {
      RequestReads(mesh, comm, g, c, x);
      assert digits[c] == Coord(x, sizes, g[c]);
    }
  }

  /** There are as many groups as outer positions. */
  lemma GroupCount(sizes: seq<int>, grouped: seq<int>)
    requires ValidGrouping(sizes, grouped)
    ensures InRange(OuterAxes(sizes, grouped), |sizes|)
    ensures Product(sizes) / GroupSize(sizes, grouped) == Product(Pick(sizes, OuterAxes(sizes, grouped)))
  {
    OuterTimesInner(sizes, grouped);
    DivUnique(Product(sizes), GroupSize(sizes, grouped), Product(Pick(sizes, OuterAxes(sizes, grouped))), 0);
  }

  /** The split dimension of a reference is what the reference names. */
  lemma {:induction false} RequestReads(mesh: seq<MeshAxis>, comm: seq<AxisRef>, g: seq<int>, c: nat, x: int)
    requires ValidMesh(mesh) && DistinctNames(mesh) && ValidRefs(mesh, comm) && PositiveRefs(comm) && AllChains(mesh, comm)
    requires GroupedIndices(mesh, Splits(mesh, comm), comm) == Some(g) && c < |comm|
    ensures Positive(Sizes(Splits(mesh, comm)))
    ensures ReadsAs(Coord(x, Sizes(Splits(mesh, comm)), g[c]), x, mesh, comm[c])
  {
    ValidRefsFit(mesh, comm);
    var a := SplitCoord(mesh, comm, g[c], x);
    assert Splits(mesh, comm)[g[c]] == Request(mesh, comm[c]);
    DistinctFind(mesh, a);
    if comm[c].sub.None? { WholePiece(x, mesh, a); }
  }

  lemma WholePiece(x: int, mesh: seq<MeshAxis>, a: nat)
    requires ValidMesh(mesh) && a < |mesh| && mesh[a].size >= 1
    ensures PieceCoord(x, mesh, a, 1, mesh[a].size) == AxisCoord(x, mesh, a)
  {
    var n, y := mesh[a].size, AxisCoord(x, mesh, a);
    DivUnique(n, n, 1, 0);
    DivUnique(y, n, 0, y);
  }

  // ----- communication along whole axes

  function AxisSizes(mesh: seq<MeshAxis>): (r: seq<int>)
    ensures |r| == |mesh| && forall a :: 0 <= a < |mesh| ==> r[a] == mesh[a].size
  {
    seq(|mesh|, a requires 0 <= a < |mesh| => mesh[a].size)
  }

  function WholeAxes(mesh: seq<MeshAxis>, picks: seq<int>): (r: seq<AxisRef>)
    requires InRange(picks, |mesh|)
    ensures |r| == |picks| && forall c :: 0 <= c < |r| ==> r[c] == AxisRef(mesh[picks[c]].name, None)
  {
    seq(|picks|, c requires 0 <= c < |picks| => AxisRef(mesh[picks[c]].name, None))
  }

  /** The coordinates of position `x` on some axes of the mesh. */
  function AxisCoords(x: int, mesh: seq<MeshAxis>, axes: seq<int>): (r: seq<int>)
    requires ValidMesh(mesh) && InRange(axes, |mesh|)
    ensures |r| == |axes| && forall c :: 0 <= c < |axes| ==> r[c] == AxisCoord(x, mesh, axes[c])
  {
    seq(|axes|, c requires 0 <= c < |axes| => AxisCoord(x, mesh, axes[c]))
  }

  /** Along whole axes, the coordinates of member j of group i spell j on the axes of the communication, in its
      order, and i on the other axes, in mesh order. */
  lemma {:induction false} WholeAxisMember(mesh: Mesh, comm: seq<AxisRef>, sizes: seq<int>, picks: seq<int>, rest: seq<int>,
                                           i: nat, j: nat) returns (x: int)
    requires WellFormed(mesh) && InRange(picks, |mesh.axes|) && Distinct(picks)
    requires sizes == AxisSizes(mesh.axes) && comm == WholeAxes(mesh.axes, picks) && EnoughDevices(mesh, comm)
    requires Remaining(rest, |mesh.axes|, picks, [])
    requires i < Product(Pick(sizes, rest)) && j < Product(Pick(sizes, picks))
    ensures Flatten(mesh, comm).Some? && |Flatten(mesh, comm).value| == Product(Pick(sizes, rest))
    ensures |Flatten(mesh, comm).value[i]| == Product(Pick(sizes, picks))
    ensures mesh.deviceIds == None || mesh.deviceIds == Some([]) ==> Flatten(mesh, comm).value[i][j] == x
    ensures mesh.deviceIds.Some? && mesh.deviceIds.value != [] ==>
              0 <= x < |mesh.deviceIds.value| && Flatten(mesh, comm).value[i][j] == mesh.deviceIds.value[x]
    ensures Positive(Pick(sizes, picks)) && AxisCoords(x, mesh.axes, picks) == Digits(j, Pick(sizes, picks))
    ensures Positive(Pick(sizes, rest)) && AxisCoords(x, mesh.axes, rest) == Digits(i, Pick(sizes, rest))
  {
    WholeAxesReindexed(mesh.axes, picks);
    WholeGroupCount(mesh.axes, picks, rest);
    FlattenedMember(mesh, comm, i, j);
    x := Position(i, j, sizes, picks);
    WholeCoordinates(mesh.axes, picks, rest, i, j, x);
  }

  lemma {:induction false} WholeGroupCount(mesh: seq<MeshAxis>, picks: seq<int>, rest: seq<int>)
    requires ValidMesh(mesh) && Positive(AxisSizes(mesh)) && InRange(picks, |mesh|) && Distinct(picks)
    requires Remaining(rest, |mesh|, picks, [])
    ensures GroupSize(AxisSizes(mesh), picks) == Product(Pick(AxisSizes(mesh), picks)) >= 1
    ensures Volume(mesh) / GroupSize(AxisSizes(mesh), picks) == Product(Pick(AxisSizes(mesh), rest))
  {
    OtherAxes(AxisSizes(mesh), picks, rest);
    GroupCount(AxisSizes(mesh), picks);
    VolumeIsProduct(mesh);
  }

  lemma {:induction false} WholeCoordinates(mesh: seq<MeshAxis>, picks: seq<int>, rest: seq<int>, i: int, j: int, x: int)
    requires ValidMesh(mesh) && Positive(AxisSizes(mesh)) && InRange(picks, |mesh|) && Distinct(picks)
    requires Remaining(rest, |mesh|, picks, [])
    requires 0 <= i < Product(Pick(AxisSizes(mesh), rest)) && 0 <= j < Product(Pick(AxisSizes(mesh), picks))
    requires x == Position(i, j, AxisSizes(mesh), picks)
    ensures Positive(Pick(AxisSizes(mesh), picks)) && AxisCoords(x, mesh, picks) == Digits(j, Pick(AxisSizes(mesh), picks))
    ensures Positive(Pick(AxisSizes(mesh), rest)) && AxisCoords(x, mesh, rest) == Digits(i, Pick(AxisSizes(mesh), rest))
  {
    OtherAxes(AxisSizes(mesh), picks, rest);
    MemberCoordinates(i, j, AxisSizes(mesh), picks);
    AxisCoordsAre(x, mesh, picks);
    AxisCoordsAre(x, mesh, rest);
  }

  lemma {:induction false} AxisCoordsAre(x: int, mesh: seq<MeshAxis>, axes: seq<int>)
    requires ValidMesh(mesh) && Positive(AxisSizes(mesh)) && InRange(axes, |mesh|)
    ensures AxisCoords(x, mesh, axes) == Pick(Digits(x, AxisSizes(mesh)), axes)
  {
    forall c | 0 <= c < |axes| ensures AxisCoord(x, mesh, axes[c]) == Digits(x, AxisSizes(mesh))[axes[c]] {
      AxisCoordIs(x, mesh, axes[c]);
    }
  }

  lemma OtherAxes(sizes: seq<int>, picks: seq<int>, rest: seq<int>)
    requires Remaining(rest, |sizes|, picks, [])
    ensures OuterAxes(sizes, picks) == rest
  {
    RemainingIs(rest, |sizes|, picks, []);
    assert picks + [] == picks;
  }

  lemma {:induction false} VolumeIsProduct(mesh: seq<MeshAxis>)
    ensures Volume(mesh) == Product(AxisSizes(mesh))
  {
    if mesh != [] {
      var n := |mesh| - 1;
      VolumeIsProduct(mesh[..n]);
      ProductSnoc(AxisSizes(mesh[..n]), mesh[n].size);
      assert AxisSizes(mesh) == AxisSizes(mesh[..n]) + [mesh[n].size];
    }
  }

  lemma AxisCoordIs(x: int, mesh: seq<MeshAxis>, a: nat)
    requires ValidMesh(mesh) && a < |mesh| && Positive(AxisSizes(mesh))
    ensures AxisCoord(x, mesh, a) == Coord(x, AxisSizes(mesh), a)
  {
    VolumeIsProduct(mesh[a + 1..]);
    assert AxisSizes(mesh)[a + 1..] == AxisSizes(mesh[a + 1..]);
  }

  lemma {:induction false} WholeAxesReindexed(mesh: seq<MeshAxis>, picks: seq<int>)
    requires ValidMesh(mesh) && DistinctNames(mesh) && InRange(picks, |mesh|) && Distinct(picks)
    ensures Positive(AxisSizes(mesh)) && PositiveRefs(WholeAxes(mesh, picks)) && AllChains(mesh, WholeAxes(mesh, picks))
    ensures Reindex(mesh, WholeAxes(mesh, picks)) == Some(ReindexedAxes(AxisSizes(mesh), picks))
  {
    var comm := WholeAxes(mesh, picks);
    assert forall a :: 0 <= a < |mesh| ==> mesh[a].size >= 1;
    forall a | 0 <= a < |mesh| ensures AxisChain(mesh[a], comm) { WholeBoundaries(mesh[a], comm); }
    forall c | 0 <= c < |comm| ensures ValidRef(mesh, comm[c]) { DistinctFind(mesh, picks[c]); }
    WholeSplits(mesh, comm);
    assert Sizes(Splits(mesh, comm)) == AxisSizes(mesh);
    WholeMatched(mesh, picks, comm, Splits(mesh, comm));
  }

  /** One segment for each axis, the whole of it. */
  predicate AreWhole(segs: seq<Segment>, mesh: seq<MeshAxis>) {
    |segs| == |mesh| && forall a :: 0 <= a < |mesh| ==> segs[a] == Segment(mesh[a].name, 1, mesh[a].size)
  }

  lemma {:induction false} WholeMatched(mesh: seq<MeshAxis>, picks: seq<int>, comm: seq<AxisRef>, segs: seq<Segment>)
    requires DistinctNames(mesh) && InRange(picks, |mesh|) && Distinct(picks) && comm == WholeAxes(mesh, picks)
    requires AreWhole(segs, mesh)
    ensures GroupedIndices(mesh, segs, comm) == Some(picks)
  {
    forall c | 0 <= c < |comm| ensures Request(mesh, comm[c]) == segs[picks[c]] { DistinctFind(mesh, picks[c]); }
    forall c, e | 0 <= c < e < |comm| ensures Request(mesh, comm[c]) != Request(mesh, comm[e]) {
      NamesDiffer(mesh, picks[c], picks[e]);
    }
    AllMatched(mesh, segs, comm);
    var g := GroupedIndices(mesh, segs, comm).value;
    forall c | 0 <= c < |comm| ensures g[c] == picks[c] {
      if g[c] != picks[c] { NamesDiffer(mesh, g[c], picks[c]); }
    }
    assert g == picks;
  }

  lemma NamesDiffer(mesh: seq<MeshAxis>, a: nat, b: nat)
    requires DistinctNames(mesh) && a < |mesh| && b < |mesh| && a != b
    ensures mesh[a].name != mesh[b].name
  {
  }

  predicate AllWhole(comm: seq<AxisRef>) { forall c :: 0 <= c < |comm| ==> comm[c].sub.None? }

  lemma {:induction false} NoRequestedBounds(name: string, comm: seq<AxisRef>)
    requires AllWhole(comm)
    ensures RequestedBounds(name, comm) == []
  {
    if comm != [] { NoRequestedBounds(name, comm[..|comm| - 1]); }
  }

  lemma {:induction false} WholeBoundaries(axis: MeshAxis, comm: seq<AxisRef>)
    requires axis.size >= 1 && AllWhole(comm)
    ensures PositiveRefs(comm) && AxisChain(axis, comm)
    ensures AxisSegments(axis, comm) == [Segment(axis.name, 1, axis.size)]
  {
    NoRequestedBounds(axis.name, comm);
    assert [1, axis.size] + [] == [1, axis.size];
    if axis.size > 1 {
      SortUniqueProperties([1, axis.size]);
      IncreasingUnique(SortUnique([1, axis.size]), [1, axis.size]);
      assert AxisSegments(axis, comm) == [Segment(axis.name, 1, axis.size / 1)];
    }
  }

  lemma WholeSnoc(segs: seq<Segment>, mesh: seq<MeshAxis>, axis: MeshAxis)
    requires AreWhole(segs, mesh)
    ensures AreWhole(segs + [Segment(axis.name, 1, axis.size)], mesh + [axis])
  {
  }

  lemma {:induction false} WholeSplits(mesh: seq<MeshAxis>, comm: seq<AxisRef>)
    requires ValidMesh(mesh) && AllWhole(comm)
    ensures PositiveRefs(comm) && AreWhole(Splits(mesh, comm), mesh)
  {
    if mesh != [] {
      var rest, last := mesh[..|mesh| - 1], mesh[|mesh| - 1];
      assert mesh == rest + [last];
      SplitsLast(mesh, comm);
      WholeSplits(rest, comm);
      WholeBoundaries(last, comm);
      WholeSnoc(Splits(rest, comm), rest, last);
    }
  }
}
