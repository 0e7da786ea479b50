/** What splitting a mesh guarantees: the volume of the split grid, and exactly which communication
    axes are accepted. */
module MeshSplitting {
  import opened Sequences
  import opened MixedRadix
  import opened MeshAxes

  /** Every boundary divides the next one. */
  predicate Chain(b: seq<int>)
    requires Positive(b)
  {
    forall j :: 0 <= j < |b| - 1 ==> b[j + 1] % b[j] == 0
  }

  /** The sub-axes of `axis` that the communication refers to end at divisors of its size. */
  predicate Fits(axis: MeshAxis, comm: seq<AxisRef>) {
    forall i :: 0 <= i < |comm| && comm[i].name == axis.name && comm[i].sub.Some? ==>
                  var s := comm[i].sub.value;
                  s.preSize >= 1 && s.size >= 1 && s.preSize * s.size <= axis.size && axis.size % (s.preSize * s.size) == 0
  }

  predicate AxisChain(axis: MeshAxis, comm: seq<AxisRef>)
    requires axis.size >= 1 && PositiveRefs(comm)
  {
    BoundariesPositive(axis, comm);
    axis.size == 1 || Chain(Boundaries(axis, comm))
  }

  predicate AllChains(mesh: seq<MeshAxis>, comm: seq<AxisRef>)
    requires ValidMesh(mesh) && PositiveRefs(comm)
  {
    forall a :: 0 <= a < |mesh| ==> AxisChain(mesh[a], comm)
  }

  function Volume(mesh: seq<MeshAxis>): int {
    if mesh == [] then 1 else Volume(mesh[..|mesh| - 1]) * mesh[|mesh| - 1].size
  }

  lemma {:induction false} DistinctFind(mesh: seq<MeshAxis>, a: nat)
    requires DistinctNames(mesh) && a < |mesh|
    ensures FindAxis(mesh, mesh[a].name) == Some(mesh[a])
  {
    FirstAxis(mesh, a);
  }

  lemma ValidRefsFit(mesh: seq<MeshAxis>, comm: seq<AxisRef>)
    requires DistinctNames(mesh) && ValidRefs(mesh, comm)
    ensures forall a :: 0 <= a < |mesh| ==> Fits(mesh[a], comm)
  {
    forall a, i | 0 <= a < |mesh| && 0 <= i < |comm| && comm[i].name == mesh[a].name && comm[i].sub.Some?
      ensures var s := comm[i].sub.value;
              s.preSize >= 1 && s.size >= 1 && s.preSize * s.size <= mesh[a].size && mesh[a].size % (s.preSize * s.size) == 0
    {
      DistinctFind(mesh, a);
      assert ValidRef(mesh, comm[i]);
    }
  }

  // ----- volume of the split grid

  lemma FloorStep(lo: int, next: int, p: int, last: int)
    requires lo >= 1 && next >= lo && p >= 1 && p * next <= last
    ensures (next / lo) * p * lo <= last
    ensures (next / lo) * p * lo == last <==> next % lo == 0 && p * next == last
  {
    var q, r := next / lo, next % lo;
    assert next == q * lo + r;
    assert q * p * lo == p * (q * lo);
    assert p * next == p * (q * lo) + p * r;
    assert r > 0 ==> p * r > 0;
  }

  /** Floors of consecutive quotients multiply to at most last / first, exactly when the divisions are. */
  lemma {:induction false} Telescoping(name: string, b: seq<int>)
    requires Positive(b) && StrictlyIncreasing(b) && b != []
    ensures Positive(Sizes(Segments(name, b)))
    ensures Product(Sizes(Segments(name, b))) * b[0] <= b[|b| - 1]
    ensures Product(Sizes(Segments(name, b))) * b[0] == b[|b| - 1] <==> Chain(b)
  {
    SegmentsPositive(name, b);
    if |b| == 1 {
      assert Sizes(Segments(name, b)) == [];
    } else {
      Telescoping(name, b[1..]);
      ProductPositive(Sizes(Segments(name, b[1..])));
      SegmentsHead(name, b);
      FloorStep(b[0], b[1], Product(Sizes(Segments(name, b[1..]))), b[|b| - 1]);
      ChainTail(b);
    }
  }

  lemma SegmentsHead(name: string, b: seq<int>)
    requires Positive(b) && |b| >= 2
    ensures Product(Sizes(Segments(name, b))) == (b[1] / b[0]) * Product(Sizes(Segments(name, b[1..])))
  {
    assert Sizes(Segments(name, b))[1..] == Sizes(Segments(name, b[1..]));
  }

  lemma ChainTail(b: seq<int>)
    requires Positive(b) && |b| >= 2
    ensures Chain(b) <==> b[1] % b[0] == 0 && Chain(b[1..])
  {
    if b[1] % b[0] == 0 && Chain(b[1..]) {
      forall j | 0 <= j < |b| - 1 ensures b[j + 1] % b[j] == 0 {
        if j > 0 { assert b[1..][j - 1 + 1] % b[1..][j - 1] == 0; }
      }
    }
    if Chain(b) {
      forall j | 0 <= j < |b[1..]| - 1 ensures b[1..][j + 1] % b[1..][j] == 0 {
        assert b[(j + 1) + 1] % b[j + 1] == 0;
      }
    }
  }

  lemma {:induction false} SegmentsPositive(name: string, b: seq<int>)
    requires Positive(b) && StrictlyIncreasing(b)
    ensures Positive(Sizes(Segments(name, b)))
  {
    forall j | 0 <= j < |b| - 1 ensures b[j + 1] / b[j] >= 1 {
      QuotientAtLeastOne(b[j], b[j + 1]);
    }
  }

  lemma QuotientAtLeastOne(lo: int, hi: int)
    requires 1 <= lo <= hi
    ensures hi / lo >= 1
  {
  }

  lemma IncreasingIndex(b: seq<int>, i: int, k: int)
    requires StrictlyIncreasing(b) && 0 <= i < |b| && 0 <= k < |b| && b[i] < b[k]
    ensures i < k
  {
  }

  lemma IncreasingBelowLast(b: seq<int>, j: int)
    requires StrictlyIncreasing(b) && 0 <= j < |b|
    ensures b[j] <= b[|b| - 1]
  {
  }

  /** The boundaries of an axis run from 1 to its size. */
  lemma {:induction false} LastBoundary(axis: MeshAxis, comm: seq<AxisRef>)
    requires axis.size >= 1 && PositiveRefs(comm) && Fits(axis, comm)
    ensures var b := Boundaries(axis, comm); b != [] && b[|b| - 1] == axis.size
  {
    BoundariesPositive(axis, comm);
    var b := Boundaries(axis, comm);
    BoundaryAtMostSize(axis, comm, b[|b| - 1]);
    BoundariesMembers(axis, comm, axis.size);
    var j :| 0 <= j < |b| && b[j] == axis.size;
    IncreasingBelowLast(b, j);
  }

  lemma BoundaryAtMostSize(axis: MeshAxis, comm: seq<AxisRef>, x: int)
    requires axis.size >= 1 && Fits(axis, comm) && x in Boundaries(axis, comm)
    ensures x <= axis.size
  {
    BoundariesMembers(axis, comm, x);
    if i :| 0 <= i < |comm| && x in BoundsOf(axis.name, comm[i]) {
      var s := comm[i].sub.value;
      StartBeforeEnd(s.preSize, s.size);
    }
  }

  lemma StartBeforeEnd(preSize: int, size: int)
    requires preSize >= 1 && size >= 1
    ensures preSize <= preSize * size
  {
  }

  /** Per axis, the segments multiply to at most the axis size, with equality if and only if each
      sorted boundary divides the next. */
  lemma {:induction false} AxisVolume(axis: MeshAxis, comm: seq<AxisRef>)
    requires axis.size >= 1 && PositiveRefs(comm) && Fits(axis, comm)
    ensures Positive(Sizes(AxisSegments(axis, comm)))
    ensures Product(Sizes(AxisSegments(axis, comm))) <= axis.size
    ensures Product(Sizes(AxisSegments(axis, comm))) == axis.size <==> AxisChain(axis, comm)
  {
    BoundariesPositive(axis, comm);
    LastBoundary(axis, comm);
    if axis.size == 1 {
      assert Sizes(AxisSegments(axis, comm)) == [1];
      assert Product([1]) == 1 * Product([1][1..]);
    } else {
      Telescoping(axis.name, Boundaries(axis, comm));
    }
  }

  lemma ProductBounds(a: int, x: int, b: int, y: int)
    requires 1 <= a <= x && 1 <= b <= y
    ensures a * b <= x * y
    ensures a * b == x * y <==> a == x && b == y
  {
    assert a * b <= x * b;
    assert x * b <= x * y;
    assert b < y ==> x * b < x * y;
    assert a < x ==> a * b < x * b;
  }

  /** The segment starts at `lo`, and its extent is the largest that does not reach past `next`. */
  predicate Spans(s: Segment, name: string, lo: int, next: int) {
    s.axisName == name && s.preSize == lo && lo * s.size <= next < lo * (s.size + 1)
  }

  /** On a proper axis there is a segment from every boundary to the next. */
  lemma {:induction false} SegmentExtent(axis: MeshAxis, comm: seq<AxisRef>, j: nat)
    requires axis.size >= 2 && PositiveRefs(comm) && j < |AxisSegments(axis, comm)|
    ensures |Boundaries(axis, comm)| == |AxisSegments(axis, comm)| + 1
    ensures Spans(AxisSegments(axis, comm)[j], axis.name, Boundaries(axis, comm)[j], Boundaries(axis, comm)[j + 1])
  {
    BoundariesPositive(axis, comm);
    SegmentReach(AxisSegments(axis, comm), axis.name, Boundaries(axis, comm), j);
  }

  lemma SegmentReach(segs: seq<Segment>, name: string, b: seq<int>, j: nat)
    requires Positive(b) && b != [] && segs == Segments(name, b) && j < |segs|
    ensures |b| == |segs| + 1 && Spans(segs[j], name, b[j], b[j + 1])
  {
    QuotientWithin(b[j], b[j + 1]);
  }

  lemma QuotientWithin(lo: int, next: int)
    requires lo >= 1
    ensures lo * (next / lo) <= next < lo * (next / lo + 1)
  {
    assert next == (next / lo) * lo + next % lo;
  }

  /** The split grid holds as many positions as the mesh if and only if every axis splits along a
      divisor chain; otherwise it holds fewer. */
  lemma {:induction false} SplitVolume(mesh: seq<MeshAxis>, comm: seq<AxisRef>)
    requires ValidMesh(mesh) && PositiveRefs(comm)
    requires forall a :: 0 <= a < |mesh| ==> Fits(mesh[a], comm)
    ensures Positive(Sizes(Splits(mesh, comm)))
    ensures 1 <= Product(Sizes(Splits(mesh, comm))) <= Volume(mesh)
    ensures Product(Sizes(Splits(mesh, comm))) == Volume(mesh)
            <==> AllChains(mesh, comm)
  {
    if mesh != [] {
      var n := |mesh| - 1;
      SplitVolume(mesh[..n], comm);
      AxisVolume(mesh[n], comm);
      SplitsLast(mesh, comm);
      VolumeStep(Sizes(Splits(mesh[..n], comm)), Sizes(AxisSegments(mesh[n], comm)), Volume(mesh[..n]), mesh[n].size);
      ChainsLast(mesh, comm);
    }
  }

  lemma ChainsLast(mesh: seq<MeshAxis>, comm: seq<AxisRef>)
    requires ValidMesh(mesh) && PositiveRefs(comm) && mesh != []
    ensures var n := |mesh| - 1;
            ValidMesh(mesh[..n]) && (AllChains(mesh, comm) <==> AllChains(mesh[..n], comm) && AxisChain(mesh[n], comm))
  {
    var n := |mesh| - 1;
    assert forall a :: 0 <= a < n ==> mesh[..n][a] == mesh[a];
    if AllChains(mesh[..n], comm) && AxisChain(mesh[n], comm) {
      forall a | 0 <= a < |mesh| ensures AxisChain(mesh[a], comm) {
        if a < n { assert AxisChain(mesh[..n][a], comm); }
      }
    }
    if AllChains(mesh, comm) {
      forall a | 0 <= a < n ensures AxisChain(mesh[..n][a], comm) { assert AxisChain(mesh[a], comm); }
    }
  }

  lemma VolumeStep(left: seq<int>, right: seq<int>, v: int, n: int)
    requires Positive(left) && Positive(right) && Product(left) <= v && Product(right) <= n
    ensures Positive(left + right) && 1 <= Product(left + right) <= v * n
    ensures Product(left + right) == v * n <==> Product(left) == v && Product(right) == n
  {
    ProductConcat(left, right);
    ProductPositive(left);
    ProductPositive(right);
    ProductBounds(Product(left), v, Product(right), n);
  }

  lemma SizesConcat(s: seq<Segment>, t: seq<Segment>)
    ensures Sizes(s + t) == Sizes(s) + Sizes(t)
  {
  }

  /** The split sizes are positive, repeated axis names or not. */
  lemma {:induction false} SplitsPositive(mesh: seq<MeshAxis>, comm: seq<AxisRef>)
    requires ValidMesh(mesh) && PositiveRefs(comm)
    ensures Positive(Sizes(Splits(mesh, comm)))
  {
    if mesh != [] {
      var n := |mesh| - 1;
      SplitsPositive(mesh[..n], comm);
      assert mesh[n].size >= 1;
      AxisSegmentsPositive(mesh[n], comm);
      SplitsLast(mesh, comm);
    }
  }

  lemma AxisSegmentsPositive(axis: MeshAxis, comm: seq<AxisRef>)
    requires axis.size >= 1 && PositiveRefs(comm)
    ensures Positive(Sizes(AxisSegments(axis, comm)))
  {
    if axis.size > 1 {
      BoundariesPositive(axis, comm);
      BoundariesMembers(axis, comm, 1);
      SegmentsPositive(axis.name, Boundaries(axis, comm));
    }
  }

  lemma SplitsLast(mesh: seq<MeshAxis>, comm: seq<AxisRef>)
    requires ValidMesh(mesh) && PositiveRefs(comm) && mesh != []
    ensures var n := |mesh| - 1;
            ValidMesh(mesh[..n]) && mesh[n].size >= 1
            && Splits(mesh, comm) == Splits(mesh[..n], comm) + AxisSegments(mesh[n], comm)
            && Sizes(Splits(mesh, comm)) == Sizes(Splits(mesh[..n], comm)) + Sizes(AxisSegments(mesh[n], comm))
  {
    var n := |mesh| - 1;
    assert mesh[n].size >= 1;
    SizesConcat(Splits(mesh[..n], comm), AxisSegments(mesh[n], comm));
  }

  // ----- which communication axes are accepted

  function Lo(r: AxisRef): int { RequestedPre(r) }

  /** The requested piece covers the interval [Lo, Hi) of divisors of its axis. */
  function Hi(mesh: seq<MeshAxis>, r: AxisRef): int { RequestedPre(r) * RequestedSize(mesh, r) }

  /** Two requests name the same piece, or pieces of one axis whose intervals intersect. */
  predicate Overlap(mesh: seq<MeshAxis>, r: AxisRef, s: AxisRef) {
    && r.name == s.name
    && (Request(mesh, r) == Request(mesh, s) || (Lo(r) < Hi(mesh, s) && Lo(s) < Hi(mesh, r)))
  }

  predicate PairwiseApart(mesh: seq<MeshAxis>, comm: seq<AxisRef>) {
    forall i, j :: 0 <= i < j < |comm| ==> !Overlap(mesh, comm[i], comm[j])
  }

  /** A requested piece of a proper axis has extent at least 2. */
  predicate Substantial(mesh: seq<MeshAxis>, r: AxisRef) {
    RequestedSize(mesh, r) >= 2 || FindAxis(mesh, r.name) == Some(MeshAxis(r.name, 1))
  }

  predicate AllSubstantial(mesh: seq<MeshAxis>, comm: seq<AxisRef>) {
    forall i :: 0 <= i < |comm| ==> Substantial(mesh, comm[i])
  }

  /** `s` starts, and its extent ends, at or before the start of `t`. */
  predicate Precedes(s: Segment, t: Segment) {
    s.preSize < t.preSize && s.preSize * s.size <= t.preSize
  }

  /** Segments of the same axis come in order and do not run into each other. */
  ghost predicate Ordered(segs: seq<Segment>) {
    forall d, e :: 0 <= d < e < |segs| && segs[d].axisName == segs[e].axisName ==> Precedes(segs[d], segs[e])
  }

  lemma OrderedConcat(left: seq<Segment>, right: seq<Segment>)
    requires Ordered(left) && Ordered(right)
    requires forall d, e :: 0 <= d < |left| && 0 <= e < |right| ==> left[d].axisName != right[e].axisName
    ensures Ordered(left + right)
  {
  }

  lemma {:induction false} SplitsOrdered(mesh: seq<MeshAxis>, comm: seq<AxisRef>)
    requires ValidMesh(mesh) && DistinctNames(mesh) && PositiveRefs(comm)
    ensures Ordered(Splits(mesh, comm))
  {
    if mesh != [] {
      var n := |mesh| - 1;
      SplitsOrdered(mesh[..n], comm);
      AxisOrdered(mesh[n], comm);
      forall d, e | 0 <= d < |Splits(mesh[..n], comm)| && 0 <= e < |AxisSegments(mesh[n], comm)|
        ensures Splits(mesh[..n], comm)[d].axisName != AxisSegments(mesh[n], comm)[e].axisName
      {
        EarlierName(mesh, comm, d);
      }
      OrderedConcat(Splits(mesh[..n], comm), AxisSegments(mesh[n], comm));
      SplitsLast(mesh, comm);
    }
  }

  lemma {:induction false} AxisOrdered(axis: MeshAxis, comm: seq<AxisRef>)
    requires axis.size >= 1 && PositiveRefs(comm)
    ensures Ordered(AxisSegments(axis, comm))
    ensures forall j :: 0 <= j < |AxisSegments(axis, comm)| ==> AxisSegments(axis, comm)[j].axisName == axis.name
  {
    BoundariesPositive(axis, comm);
    var segs := AxisSegments(axis, comm);
    forall i, j | 0 <= i < j < |segs| ensures Precedes(segs[i], segs[j]) {
      BoundariesOrdered(axis.name, Boundaries(axis, comm), i, j);
    }
  }

  lemma BoundariesOrdered(name: string, b: seq<int>, i: nat, j: nat)
    requires Positive(b) && StrictlyIncreasing(b) && i < j < |b| - 1
    ensures b[i] < b[j] && b[i] * (b[i + 1] / b[i]) <= b[j]
  {
    assert b[i + 1] <= b[j];
    var lo, next := b[i], b[i + 1];
    assert next == (next / lo) * lo + next % lo;
  }

  lemma {:induction false} SplitsNames(mesh: seq<MeshAxis>, comm: seq<AxisRef>, d: nat)
    requires ValidMesh(mesh) && PositiveRefs(comm) && d < |Splits(mesh, comm)|
    ensures exists a :: 0 <= a < |mesh| && mesh[a].name == Splits(mesh, comm)[d].axisName
                        && Splits(mesh, comm)[d] in AxisSegments(mesh[a], comm)
  {
    var n := |mesh| - 1;
    var left := Splits(mesh[..n], comm);
    if d < |left| {
      SplitsNames(mesh[..n], comm, d);
      var a :| 0 <= a < n && mesh[..n][a].name == left[d].axisName && left[d] in AxisSegments(mesh[..n][a], comm);
      assert mesh[a].name == Splits(mesh, comm)[d].axisName;
    } else {
      BoundariesPositive(mesh[n], comm);
      var right := AxisSegments(mesh[n], comm);
      assert Splits(mesh, comm)[d] == right[d - |left|];
      assert mesh[n].name == right[d - |left|].axisName;
    }
  }

  lemma {:induction false} EarlierName(mesh: seq<MeshAxis>, comm: seq<AxisRef>, d: nat)
    requires ValidMesh(mesh) && DistinctNames(mesh) && PositiveRefs(comm) && mesh != []
    requires d < |Splits(mesh[..|mesh| - 1], comm)|
    ensures Splits(mesh[..|mesh| - 1], comm)[d].axisName != mesh[|mesh| - 1].name
  {
    var n := |mesh| - 1;
    SplitsNames(mesh[..n], comm, d);
    var a :| 0 <= a < n && mesh[..n][a].name == Splits(mesh[..n], comm)[d].axisName;
    assert mesh[..n][a] == mesh[a];
  }

  lemma {:induction false} SegmentInSplits(mesh: seq<MeshAxis>, comm: seq<AxisRef>, a: nat, axis: MeshAxis, s: Segment)
    requires ValidMesh(mesh) && PositiveRefs(comm) && a < |mesh| && mesh[a] == axis
    requires axis.size >= 1 && s in AxisSegments(axis, comm)
    ensures s in Splits(mesh, comm)
  {
    InSplitsLast(mesh, comm, s);
    if a < |mesh| - 1 { SegmentInSplits(mesh[..|mesh| - 1], comm, a, axis, s); }
  }

  lemma InSplitsLast(mesh: seq<MeshAxis>, comm: seq<AxisRef>, s: Segment)
    requires ValidMesh(mesh) && PositiveRefs(comm) && mesh != []
    ensures var n := |mesh| - 1;
            ValidMesh(mesh[..n]) && mesh[n].size >= 1
            && (s in Splits(mesh, comm) <==> s in Splits(mesh[..n], comm) || s in AxisSegments(mesh[n], comm))
  {
    SplitsLast(mesh, comm);
    InConcat(Splits(mesh[..|mesh| - 1], comm), AxisSegments(mesh[|mesh| - 1], comm), s);
  }

  /** A request is met by its axis exactly when no boundary falls strictly inside it. */
  lemma {:induction false} RequestMet(axis: MeshAxis, comm: seq<AxisRef>, lo: int, hi: int)
    requires axis.size >= 2 && PositiveRefs(comm) && 1 <= lo < hi
    requires lo in Boundaries(axis, comm) && hi in Boundaries(axis, comm)
    requires forall x :: x in Boundaries(axis, comm) ==> !(lo < x < hi)
    ensures Segment(axis.name, lo, hi / lo) in AxisSegments(axis, comm)
  {
    BoundariesPositive(axis, comm);
    var i := Neighbours(Boundaries(axis, comm), lo, hi);
    assert AxisSegments(axis, comm)[i] == Segment(axis.name, lo, hi / lo);
  }

  lemma Neighbours(b: seq<int>, lo: int, hi: int) returns (i: nat)
    requires StrictlyIncreasing(b) && lo in b && hi in b && lo < hi
    requires forall x :: x in b ==> !(lo < x < hi)
    ensures i + 1 < |b| && b[i] == lo && b[i + 1] == hi
  {
    i :| 0 <= i < |b| && b[i] == lo;
    var k :| 0 <= k < |b| && b[k] == hi;
    IncreasingIndex(b, i, k);
    assert b[i + 1] in b && b[i] < b[i + 1] <= b[k];
  }

  lemma RequestBounds(mesh: seq<MeshAxis>, comm: seq<AxisRef>, i: nat, a: nat)
    requires ValidMesh(mesh) && DistinctNames(mesh) && ValidRefs(mesh, comm) && PositiveRefs(comm)
    requires i < |comm| && a < |mesh| && mesh[a].name == comm[i].name
    ensures Lo(comm[i]) >= 1 && RequestedSize(mesh, comm[i]) >= 1
    ensures Lo(comm[i]) in Boundaries(mesh[a], comm) && Hi(mesh, comm[i]) in Boundaries(mesh[a], comm)
  {
    DistinctFind(mesh, a);
    BoundariesMembers(mesh[a], comm, Lo(comm[i]));
    BoundariesMembers(mesh[a], comm, Hi(mesh, comm[i]));
    if comm[i].sub.Some? {
      var s := comm[i].sub.value;
      assert BoundsOf(mesh[a].name, comm[i]) == [s.preSize, s.preSize * s.size];
      assert s.preSize in BoundsOf(mesh[a].name, comm[i]) && s.preSize * s.size in BoundsOf(mesh[a].name, comm[i]);
    }
  }

  /** No boundary of an accepted communication falls strictly inside one of its pieces. */
  lemma {:induction false} NothingInside(mesh: seq<MeshAxis>, comm: seq<AxisRef>, i: nat, a: nat, x: int)
    requires ValidMesh(mesh) && DistinctNames(mesh) && ValidRefs(mesh, comm) && PositiveRefs(comm)
    requires AllSubstantial(mesh, comm) && PairwiseApart(mesh, comm)
    requires i < |comm| && a < |mesh| && mesh[a].name == comm[i].name && mesh[a].size >= 2
    requires x in Boundaries(mesh[a], comm)
    ensures !(Lo(comm[i]) < x < Hi(mesh, comm[i]))
  {
    DistinctFind(mesh, a);
    RequestBounds(mesh, comm, i, a);
    ValidRefsFit(mesh, comm);
    BoundaryAtMostSize(mesh[a], comm, Hi(mesh, comm[i]));
    BoundariesMembers(mesh[a], comm, x);
    if j :| 0 <= j < |comm| && x in BoundsOf(mesh[a].name, comm[j]) {
      assert Substantial(mesh, comm[j]);
      RequestBounds(mesh, comm, j, a);
      LoBelowHi(Lo(comm[j]), RequestedSize(mesh, comm[j]));
      assert x == Lo(comm[j]) || x == Hi(mesh, comm[j]);
      if i < j {
        assert !Overlap(mesh, comm[i], comm[j]);
      } else if j < i {
        assert !Overlap(mesh, comm[j], comm[i]);
      }
    }
  }

  lemma LoBelowHi(lo: int, size: int)
    requires lo >= 1 && size >= 2
    ensures lo < lo * size && (lo * size) / lo == size
  {
    DivUnique(lo * size, lo, size, 0);
  }

  lemma {:induction false} ApartRequestsLand(mesh: seq<MeshAxis>, comm: seq<AxisRef>, i: nat)
    requires ValidMesh(mesh) && DistinctNames(mesh) && ValidRefs(mesh, comm) && PositiveRefs(comm)
    requires AllSubstantial(mesh, comm) && PairwiseApart(mesh, comm) && i < |comm|
    ensures Request(mesh, comm[i]) in Splits(mesh, comm)
  {
    assert ValidRef(mesh, comm[i]) && Substantial(mesh, comm[i]);
    var a :| 0 <= a < |mesh| && mesh[a].name == comm[i].name;
    DistinctFind(mesh, a);
    if mesh[a].size == 1 {
      UnitRequest(mesh, comm[i]);
      assert AxisSegments(mesh[a], comm)[0] == Request(mesh, comm[i]);
    } else {
      RequestBounds(mesh, comm, i, a);
      forall x | x in Boundaries(mesh[a], comm) ensures !(Lo(comm[i]) < x < Hi(mesh, comm[i])) {
        NothingInside(mesh, comm, i, a, x);
      }
      LoBelowHi(Lo(comm[i]), RequestedSize(mesh, comm[i]));
      RequestMet(mesh[a], comm, Lo(comm[i]), Hi(mesh, comm[i]));
    }
    SegmentInSplits(mesh, comm, a, mesh[a], Request(mesh, comm[i]));
  }

  lemma UnitRequest(mesh: seq<MeshAxis>, r: AxisRef)
    requires ValidRef(mesh, r) && FindAxis(mesh, r.name).value.size == 1
    ensures Request(mesh, r) == Segment(r.name, 1, 1)
  {
    if r.sub.Some? {
      var s := r.sub.value;
      assert s.preSize > 1 ==> s.preSize * s.size >= s.preSize;
      assert s.size > 1 ==> s.preSize * s.size >= s.size;
    }
  }

  lemma {:induction false} AllMatched(mesh: seq<MeshAxis>, segs: seq<Segment>, comm: seq<AxisRef>)
    requires forall i :: 0 <= i < |comm| ==> Request(mesh, comm[i]) in segs
    requires forall i, j :: 0 <= i < j < |comm| ==> Request(mesh, comm[i]) != Request(mesh, comm[j])
    ensures GroupedIndices(mesh, segs, comm).Some?
  {
    if comm != [] {
      var n := |comm| - 1;
      AllMatched(mesh, segs, comm[..n]);
      var g := GroupedIndices(mesh, segs, comm[..n]).value;
      var d := IndexOf(segs, Request(mesh, comm[n]));
      forall i | 0 <= i < n ensures g[i] != d {
        assert segs[g[i]] == Request(mesh, comm[..n][i]);
        assert comm[..n][i] == comm[i];
      }
    }
  }

  /** Pieces matched to different split dimensions do not overlap. */
  lemma {:induction false} MatchedApart(mesh: seq<MeshAxis>, comm: seq<AxisRef>)
    requires ValidMesh(mesh) && DistinctNames(mesh) && PositiveRefs(comm)
    requires GroupedIndices(mesh, Splits(mesh, comm), comm).Some?
    ensures PairwiseApart(mesh, comm)
  {
    var segs := Splits(mesh, comm);
    var g := GroupedIndices(mesh, segs, comm).value;
    SplitsOrdered(mesh, comm);
    forall i, j | 0 <= i < j < |comm| ensures !Overlap(mesh, comm[i], comm[j]) {
      if comm[i].name == comm[j].name {
        assert g[i] != g[j];
        assert segs[g[i]] == Request(mesh, comm[i]) && segs[g[j]] == Request(mesh, comm[j]);
        assert if g[i] < g[j] then Precedes(segs[g[i]], segs[g[j]]) else Precedes(segs[g[j]], segs[g[i]]);
      }
    }
  }

  /** With requested extents of at least 2, a communication is accepted if and only if its references
      are valid and the requested pieces are pairwise disjoint intervals. */
  lemma {:induction false} AcceptedIffApart(mesh: seq<MeshAxis>, comm: seq<AxisRef>)
    requires ValidMesh(mesh) && DistinctNames(mesh) && AllSubstantial(mesh, comm)
    ensures Reindex(mesh, comm).Some? <==> ValidRefs(mesh, comm) && PairwiseApart(mesh, comm)
  {
    if ValidRefs(mesh, comm) {
      ValidRefsPositive(mesh, comm);
      var segs := Splits(mesh, comm);
      if PairwiseApart(mesh, comm) {
        forall i | 0 <= i < |comm| ensures Request(mesh, comm[i]) in segs { ApartRequestsLand(mesh, comm, i); }
        forall i, j | 0 <= i < j < |comm| ensures Request(mesh, comm[i]) != Request(mesh, comm[j]) {
          assert !Overlap(mesh, comm[i], comm[j]);
        }
        AllMatched(mesh, segs, comm);
      }
      if GroupedIndices(mesh, segs, comm).Some? {
        MatchedApart(mesh, comm);
      }
    }
  }

  /** The reference names an axis of the mesh; a sub-axis starts at 1 or later and ends at a divisor of its size. */
  predicate Addresses(r: AxisRef, axis: MeshAxis) {
    && r.name == axis.name
    && match r.sub
       case None => true
       case Some(s) => s.preSize >= 1 && s.size >= 1 && s.preSize * s.size <= axis.size && axis.size % (s.preSize * s.size) == 0
  }

  /** Two references to one axis are to sub-axes of which one ends where the other starts, or before. */
  predicate SideBySide(r: AxisRef, s: AxisRef) {
    r.name == s.name ==>
      && r.sub.Some? && s.sub.Some?
      && (r.sub.value.preSize * r.sub.value.size <= s.sub.value.preSize || s.sub.value.preSize * s.sub.value.size <= r.sub.value.preSize)
  }

  /** When no sub-axis has extent 1, a communication is accepted if and only if every reference is to an axis of the
      mesh or a proper sub-axis of one, and no two references meet. */
  lemma {:induction false} AcceptedIffSideBySide(mesh: seq<MeshAxis>, comm: seq<AxisRef>)
    requires ValidMesh(mesh) && DistinctNames(mesh)
    requires forall i :: 0 <= i < |comm| && comm[i].sub.Some? ==> comm[i].sub.value.size != 1
    ensures Reindex(mesh, comm).Some?
            <==> && (forall i :: 0 <= i < |comm| ==> exists a :: 0 <= a < |mesh| && Addresses(comm[i], mesh[a]))
                 && (forall i, j :: 0 <= i < j < |comm| ==> SideBySide(comm[i], comm[j]))
  {
    forall i | 0 <= i < |comm| ensures ValidRef(mesh, comm[i]) <==> exists a :: 0 <= a < |mesh| && Addresses(comm[i], mesh[a]) {
      AddressesIff(mesh, comm[i]);
    }
    if ValidRefs(mesh, comm) {
      forall i | 0 <= i < |comm| ensures Substantial(mesh, comm[i]) { assert ValidRef(mesh, comm[i]); WholeSubstantial(mesh, comm[i]); }
      AcceptedIffApart(mesh, comm);
      forall i, j | 0 <= i < j < |comm| ensures Overlap(mesh, comm[i], comm[j]) <==> !SideBySide(comm[i], comm[j]) {
        assert ValidRef(mesh, comm[i]) && ValidRef(mesh, comm[j]);
        MeetIff(mesh, comm[i], comm[j]);
      }
    }
  }

  lemma AddressesIff(mesh: seq<MeshAxis>, r: AxisRef)
    requires DistinctNames(mesh)
    ensures ValidRef(mesh, r) <==> exists a :: 0 <= a < |mesh| && Addresses(r, mesh[a])
  {
    if a :| 0 <= a < |mesh| && mesh[a].name == r.name {
      DistinctFind(mesh, a);
      assert ValidRef(mesh, r) <==> Addresses(r, mesh[a]);
    }
  }

  lemma WholeSubstantial(mesh: seq<MeshAxis>, r: AxisRef)
    requires ValidMesh(mesh) && ValidRef(mesh, r) && (r.sub.Some? ==> r.sub.value.size != 1)
    ensures Substantial(mesh, r)
  {
    var axis := FindAxis(mesh, r.name).value;
    assert axis.size >= 1;
  }

  lemma MeetIff(mesh: seq<MeshAxis>, r: AxisRef, s: AxisRef)
    requires ValidRef(mesh, r) && ValidRef(mesh, s)
    requires (r.sub.Some? ==> r.sub.value.size != 1) && (s.sub.Some? ==> s.sub.value.size != 1)
    ensures Overlap(mesh, r, s) <==> !SideBySide(r, s)
  {
    if r.sub.Some? { LoBelowHi(r.sub.value.preSize, r.sub.value.size); }
    if s.sub.Some? { LoBelowHi(s.sub.value.preSize, s.sub.value.size); }
  }

  lemma {:induction false} ChainSegmentsSubstantial(axis: MeshAxis, comm: seq<AxisRef>, s: Segment)
    requires axis.size >= 2 && PositiveRefs(comm) && AxisChain(axis, comm) && s in AxisSegments(axis, comm)
    ensures s.size >= 2
  {
    BoundariesPositive(axis, comm);
    var b, segs := Boundaries(axis, comm), AxisSegments(axis, comm);
    var j :| 0 <= j < |segs| && segs[j] == s;
    assert b[j + 1] % b[j] == 0 && b[j + 1] > b[j];
    ExactQuotient(b[j], b[j + 1]);
  }

  lemma ExactQuotient(lo: int, next: int)
    requires 1 <= lo < next && next % lo == 0
    ensures next / lo >= 2
  {
    var q := next / lo;
    assert next == q * lo;
    assert q <= 1 ==> q * lo <= lo;
  }

  /** Along divisor chains the extent condition is enforced too: the exact acceptance condition. */
  lemma {:induction false} AcceptedIff(mesh: seq<MeshAxis>, comm: seq<AxisRef>)
    requires ValidMesh(mesh) && DistinctNames(mesh) && ValidRefs(mesh, comm)
    requires PositiveRefs(comm) && AllChains(mesh, comm)
    ensures Reindex(mesh, comm).Some? <==> AllSubstantial(mesh, comm) && PairwiseApart(mesh, comm)
  {
    if Reindex(mesh, comm).Some? {
      AcceptedSubstantial(mesh, comm);
    }
    if AllSubstantial(mesh, comm) {
      AcceptedIffApart(mesh, comm);
    }
  }

  lemma {:induction false} AcceptedSubstantial(mesh: seq<MeshAxis>, comm: seq<AxisRef>)
    requires ValidMesh(mesh) && DistinctNames(mesh) && PositiveRefs(comm) && AllChains(mesh, comm)
    requires Reindex(mesh, comm).Some?
    ensures AllSubstantial(mesh, comm)
  {
    var segs := Splits(mesh, comm);
    var g := GroupedIndices(mesh, segs, comm).value;
    forall i | 0 <= i < |comm| ensures Substantial(mesh, comm[i]) {
      SplitsNames(mesh, comm, g[i]);
      var a :| 0 <= a < |mesh| && mesh[a].name == segs[g[i]].axisName && segs[g[i]] in AxisSegments(mesh[a], comm);
      DistinctFind(mesh, a);
      assert AxisChain(mesh[a], comm);
      if mesh[a].size >= 2 {
        ChainSegmentsSubstantial(mesh[a], comm, segs[g[i]]);
      }
    }
  }
}
