/** Meshes that pass every check and still do not flatten into a partition of their devices. */
module MeshExamples {
  import opened Sequences
  import opened MixedRadix
  import opened TransposedGroups
  import opened MeshAxes
  import opened MeshSplitting
  import opened ReplicaGroups

  // ----- device lists of the wrong length

  const PAIR := [MeshAxis("x", 2)]

  lemma PairSplit()
    ensures ValidMesh(PAIR) && DistinctNames(PAIR) && Volume(PAIR) == 2 && Reindex(PAIR, []) == Some(ReindexedAxes([2], []))
  {
    assert PAIR[..0] == [] && Volume([]) == 1;
    assert [1, 2] + RequestedBounds("x", []) == [1, 2];
    SortUniqueProperties([1, 2]);
    IncreasingUnique(SortUnique([1, 2]), [1, 2]);
    assert Boundaries(PAIR[0], []) == [1, 2];
    assert Splits(PAIR[..0], []) == [];
    assert Splits(PAIR, []) == [Segment("x", 1, 2)];
    assert Sizes(Splits(PAIR, [])) == [2];
  }

  /** One explicit device for two positions: the second read is out of range. */
  lemma ShortDeviceList()
    ensures var mesh := Mesh(PAIR, Some([7]));
            WellFormed(mesh) && Reindex(mesh.axes, []).Some? && !EnoughDevices(mesh, [])
  {
    PairSplit();
    DeviceReadsInRangeIff(Mesh(PAIR, Some([7])), []);
    assert Product([2]) == 2 * Product([]);
  }

  /** Three explicit devices for two positions: one of them is in no group. */
  lemma LongDeviceList()
    ensures var mesh := Mesh(PAIR, Some([7, 8, 9]));
            && WellFormed(mesh) && Distinct(Devices(mesh)) && Reindex(mesh.axes, []).Some? && EnoughDevices(mesh, [])
            && multiset(Concat(Flatten(mesh, []).value)) != multiset(Devices(mesh))
  {
    PairSplit();
    var mesh := Mesh(PAIR, Some([7, 8, 9]));
    assert Product([2]) == 2 * Product([]);
    DeviceReadsInRangeIff(mesh, []);
    FlattenPartitionsIff(mesh, []);
  }

  // ----- a mesh whose boundaries are not a divisor chain

  const GAP_MESH := Mesh([MeshAxis("x", 12)], None)
  const GAP_AXES := [AxisRef("x", Some(SubAxis(1, 2))), AxisRef("x", Some(SubAxis(3, 2)))]

  /** Sub-axes (1)2 and (3)2 of an axis of size 12 pass every check, yet the splits cover only 8 positions. */
  lemma {:induction false} GapExample()
    ensures WellFormed(GAP_MESH) && EnoughDevices(GAP_MESH, GAP_AXES)
    ensures Reindex(GAP_MESH.axes, GAP_AXES) == Some(ReindexedAxes([2, 1, 2, 2], [0, 2]))
    ensures Flatten(GAP_MESH, GAP_AXES).Some?
    ensures multiset(Concat(Flatten(GAP_MESH, GAP_AXES).value)) != multiset(Devices(GAP_MESH))
  {
    GapWellFormed();
    GapSplits();
    GapNotChain();
    ChainsPartitionIff(GAP_MESH, GAP_AXES);
  }

  lemma GapWellFormed()
    ensures WellFormed(GAP_MESH) && |Devices(GAP_MESH)| == Volume(GAP_MESH.axes) && Distinct(Devices(GAP_MESH))
    ensures ValidRefs(GAP_MESH.axes, GAP_AXES)
  {
    assert GAP_MESH.axes[..0] == [] && Volume([]) == 1;
    assert Volume(GAP_MESH.axes) == 12;
  }

  lemma {:induction false} GapNotChain()
    ensures PositiveRefs(GAP_AXES) && !AllChains(GAP_MESH.axes, GAP_AXES)
  {
    GapBoundaries();
    var b := Boundaries(GAP_MESH.axes[0], GAP_AXES);
    assert b[2] % b[1] != 0;
    assert !AxisChain(GAP_MESH.axes[0], GAP_AXES);
  }

  lemma {:induction false} GapSplits()
    ensures ValidMesh(GAP_MESH.axes) && PositiveRefs(GAP_AXES)
    ensures Sizes(Splits(GAP_MESH.axes, GAP_AXES)) == [2, 1, 2, 2]
    ensures GroupedIndices(GAP_MESH.axes, Splits(GAP_MESH.axes, GAP_AXES), GAP_AXES) == Some([0, 2])
  {
    GapSegments();
    var segs := GAP_SEGMENTS;
    GapMatch(GAP_MESH.axes, GAP_AXES[0], GAP_AXES[1]);
    assert GAP_AXES == [GAP_AXES[0], GAP_AXES[1]];
  }

  lemma {:induction false} GapMatch(axes: seq<MeshAxis>, r: AxisRef, t: AxisRef)
    requires Request(axes, r) == GAP_SEGMENTS[0] && Request(axes, t) == GAP_SEGMENTS[2]
    ensures GroupedIndices(axes, GAP_SEGMENTS, [r, t]) == Some([0, 2])
  {
    OneMatched(axes, GAP_SEGMENTS, r, 0);
    assert IndexOf(GAP_SEGMENTS, GAP_SEGMENTS[2]) == 2;
    GroupedAppend(axes, GAP_SEGMENTS, [r], t);
    assert [r] + [t] == [r, t] && [0] + [2] == [0, 2];
  }

  /** A single request is found at its segment. */
  lemma {:induction false} OneMatched(axes: seq<MeshAxis>, segs: seq<Segment>, r: AxisRef, i: nat)
    requires i < |segs| && Request(axes, r) == segs[i] && IndexOf(segs, segs[i]) == i
    ensures GroupedIndices(axes, segs, [r]) == Some([i])
  {
    GroupedAppend(axes, segs, [], r);
    assert [] + [r] == [r] && [] + [i] == [i];
  }

  const GAP_SEGMENTS := [Segment("x", 1, 2), Segment("x", 2, 1), Segment("x", 3, 2), Segment("x", 6, 2)]

  lemma {:induction false} GapSegments()
    ensures ValidMesh(GAP_MESH.axes) && PositiveRefs(GAP_AXES)
    ensures Splits(GAP_MESH.axes, GAP_AXES) == GAP_SEGMENTS
  {
    GapBoundaries();
    assert GAP_MESH.axes[..0] == [];
    assert Splits([], GAP_AXES) == [];
  }

  lemma {:induction false} GapBoundaries()
    ensures Boundaries(MeshAxis("x", 12), GAP_AXES) == [1, 2, 3, 6, 12]
  {
    var all := [1, 12] + RequestedBounds("x", GAP_AXES);
    assert GAP_AXES[..1] == [GAP_AXES[0]] && GAP_AXES[..1][..0] == [];
    assert RequestedBounds("x", []) == [];
    assert RequestedBounds("x", GAP_AXES[..1]) == [1, 2];
    assert all == [1, 12, 1, 2, 3, 6];
    SortUniqueProperties(all);
    var b, c := SortUnique(all), [1, 2, 3, 6, 12];
    forall y ensures y in b <==> y in c { assert y in all <==> y in c; }
    IncreasingUnique(b, c);
  }

  // ----- a mesh with a repeated axis name

  const TWICE := Mesh([MeshAxis("x", 4), MeshAxis("x", 2)], None)
  const PIECE := AxisRef("x", Some(SubAxis(1, 4)))
  const TWICE_SEGMENTS := [Segment("x", 1, 4), Segment("x", 1, 2), Segment("x", 2, 2)]

  /** Two axes of one name and sizes 4 and 2: the sub-axis (1)4 of the first passes every check and splits the
      second too, so that the last of the 8 devices read is number 13. */
  lemma {:induction false} RepeatedName()
    ensures ValidMesh(TWICE.axes) && Volume(TWICE.axes) == 8
    ensures Reindex(TWICE.axes, [PIECE]) == Some(ReindexedAxes([4, 2, 2], [0]))
    ensures !EnoughDevices(TWICE, [PIECE])
  {
    TwiceVolume();
    TwiceReindexed();
    TwiceRead();
  }

  lemma TwiceVolume()
    ensures ValidMesh(TWICE.axes) && Volume(TWICE.axes) == 8
  {
    assert TWICE.axes[..1] == [TWICE.axes[0]] && TWICE.axes[..1][..0] == [];
    assert Volume([]) == 1 && Volume(TWICE.axes[..1]) == 4;
  }

  lemma {:induction false} TwiceReindexed()
    ensures ValidMesh(TWICE.axes)
    ensures Reindex(TWICE.axes, [PIECE]) == Some(ReindexedAxes([4, 2, 2], [0]))
  {
    TwiceSplits();
    TwiceMatch(TWICE.axes);
    TwiceValid();
    TwiceSizes();
    ReindexFrom(TWICE.axes, [PIECE], TWICE_SEGMENTS, [0]);
  }

  lemma TwiceValid()
    ensures ValidRefs(TWICE.axes, [PIECE])
  {
    assert FindAxis(TWICE.axes, "x") == Some(TWICE.axes[0]);
    assert ValidRef(TWICE.axes, PIECE);
  }

  lemma TwiceSizes()
    ensures Sizes(TWICE_SEGMENTS) == [4, 2, 2]
  {
  }

  lemma ReindexFrom(mesh: seq<MeshAxis>, comm: seq<AxisRef>, segs: seq<Segment>, g: seq<int>)
    requires ValidMesh(mesh) && ValidRefs(mesh, comm) && PositiveRefs(comm) && Splits(mesh, comm) == segs
    requires GroupedIndices(mesh, segs, comm) == Some(g)
    ensures Reindex(mesh, comm) == Some(ReindexedAxes(Sizes(segs), g))
  {
  }

  lemma {:induction false} TwiceSplits()
    ensures ValidMesh(TWICE.axes) && PositiveRefs([PIECE])
    ensures Splits(TWICE.axes, [PIECE]) == TWICE_SEGMENTS
  {
    TwiceSegments();
    TwoAxes(TWICE.axes[0], TWICE.axes[1], [PIECE]);
    assert TWICE.axes == [TWICE.axes[0], TWICE.axes[1]];
  }

  lemma {:induction false} TwiceSegments()
    ensures PositiveRefs([PIECE])
    ensures AxisSegments(TWICE.axes[0], [PIECE]) == [TWICE_SEGMENTS[0]]
    ensures AxisSegments(TWICE.axes[1], [PIECE]) == [TWICE_SEGMENTS[1], TWICE_SEGMENTS[2]]
  {
    TwiceBoundaries(4, [1, 4]);
    TwiceBoundaries(2, [1, 2, 4]);
  }

  lemma {:induction false} TwoAxes(a: MeshAxis, b: MeshAxis, comm: seq<AxisRef>)
    requires ValidMesh([a, b]) && a.size >= 1 && b.size >= 1 && PositiveRefs(comm)
    ensures Splits([a, b], comm) == AxisSegments(a, comm) + AxisSegments(b, comm)
  {
    assert [a, b][..1] == [a] && [a][..0] == [];
    assert Splits([], comm) == [];
    assert [] + AxisSegments(a, comm) == AxisSegments(a, comm);
  }

  lemma {:induction false} TwiceBoundaries(size: int, b: seq<int>)
    requires StrictlyIncreasing(b) && forall y :: y in b <==> y in [1, size, 1, 4]
    ensures Boundaries(MeshAxis("x", size), [PIECE]) == b
  {
    assert [PIECE][..0] == [];
    assert RequestedBounds("x", []) == [];
    var all := [1, size] + RequestedBounds("x", [PIECE]);
    assert all == [1, size, 1, 4];
    SortUniqueProperties(all);
    IncreasingUnique(SortUnique(all), b);
  }

  lemma {:induction false} TwiceMatch(axes: seq<MeshAxis>)
    ensures GroupedIndices(axes, TWICE_SEGMENTS, [PIECE]) == Some([0])
  {
    assert IndexOf(TWICE_SEGMENTS, TWICE_SEGMENTS[0]) == 0;
    OneMatched(axes, TWICE_SEGMENTS, PIECE, 0);
  }

  /** Member 3 of group 1 is at position 13. */
  lemma {:induction false} TwiceRead()
    ensures ValidGrouping([4, 2, 2], [0]) && !AllInReach([4, 2, 2], [0], 8, 8)
  {
    var sizes := [4, 2, 2];
    assert Pick(sizes, [0]) == [4] && Product([4]) == 4 * Product([]) && GroupSize(sizes, [0]) == 4;
    assert Excluding(1, [0]) == [] && Excluding(2, [0]) == [1] && Excluding(3, [0]) == [1, 2];
    assert OuterAxes(sizes, [0]) + [0] == [1, 2, 0];
    var m := PositionIsSource(1, 3, sizes, [0]);
    TwiceSource(m);
    assert !InReach(1, sizes, [0], 8);
  }

  lemma {:induction false} TwiceSource(m: int)
    requires m == 7
    ensures IsPermutation([1, 2, 0], 3) && SourceIndex(m, [4, 2, 2], [1, 2, 0]) == 13
  {
    StridesOfThree(4, 2, 2);
    TwicePicks();
    TwiceDigits(m);
    TwiceSum();
    SourceFrom(m, [4, 2, 2], [1, 2, 0], [2, 2, 4], [0, 1, 3], [4, 2, 1], [2, 1, 4]);
  }

  lemma TwicePicks()
    ensures Pick([4, 2, 2], [1, 2, 0]) == [2, 2, 4] && Pick([4, 2, 1], [1, 2, 0]) == [2, 1, 4]
  {
  }

  lemma TwiceDigits(m: int)
    requires m == 7
    ensures Digits(m, [2, 2, 4]) == [0, 1, 3]
  {
    DigitsOfThree(m, 2, 2, 4);
  }

  lemma TwiceSum()
    ensures Weighted([0, 1, 3], [2, 1, 4]) == 13
  {
    assert Times([0, 1, 3], [2, 1, 4]) == [0, 1, 12];
    SumOfThree(0, 1, 12);
  }

  lemma SourceFrom(m: int, sizes: seq<int>, p: seq<int>, turned: seq<int>, c: seq<int>, strides: seq<int>, w: seq<int>)
    requires Positive(sizes) && IsPermutation(p, |sizes|) && turned == Pick(sizes, p) && Positive(turned) && c == Digits(m, turned)
    requires strides == Strides(sizes) && InRange(p, |strides|) && w == Pick(strides, p)
    ensures SourceIndex(m, sizes, p) == Weighted(c, w)
  {
  }

  lemma StridesOfThree(a: int, b: int, c: int)
    ensures Strides([a, b, c]) == [b * c, c, 1]
  {
    var s := [a, b, c];
    assert s[3..] == [] && s[2..] == [c] && s[1..] == [b] + s[2..];
    assert Product(s[2..]) == c * Product(s[3..]) && Product(s[1..]) == b * Product(s[2..]);
  }

  lemma DigitsOfThree(x: int, a: int, b: int, c: int)
    requires a >= 1 && b >= 1 && c >= 1
    ensures Positive([a, b, c]) && b * c >= 1 && Digits(x, [a, b, c]) == [(x / (b * c)) % a, (x / c) % b, (x / 1) % c]
  {
    StridesOfThree(a, b, c);
    var s := [a, b, c];
    ProductPositive(s[1..]);
    assert Strides(s)[0] == Product(s[1..]) && Strides(s)[1] == Product(s[2..]) && Strides(s)[2] == Product(s[3..]);
  }

  lemma SumOfThree(a: int, b: int, c: int)
    ensures Sum([a, b, c]) == a + b + c
  {
    var s := [a, b, c];
    assert s[1..] == [b, c] && [b, c][1..] == [c] && [c][1..] == [];
    assert Sum([b, c]) == b + Sum([c]) && Sum([c]) == c + Sum([]);
  }
}
