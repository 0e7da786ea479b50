/** Splitting mesh axes at the sub-axes that a communication refers to, and finding the split
    dimension of every communication axis. */
module MeshAxes {
  import opened Sequences

  datatype SubAxis = SubAxis(preSize: int, size: int)
  datatype AxisRef = AxisRef(name: string, sub: Option<SubAxis>)
  datatype MeshAxis = MeshAxis(name: string, size: int)

  /** A piece of a mesh axis: `preSize` positions come before it, `size` is its extent. */
  datatype Segment = Segment(axisName: string, preSize: int, size: int)
  datatype SplitDim = SplitDim(segment: Segment, dimIndex: int)
  datatype ReindexedAxes = ReindexedAxes(splitAxisSizes: seq<int>, groupedAxisIndices: seq<int>)

  predicate ValidMesh(mesh: seq<MeshAxis>) {
    forall a :: 0 <= a < |mesh| ==> mesh[a].size >= 1
  }

  predicate DistinctNames(mesh: seq<MeshAxis>) {
    forall a, b :: 0 <= a < b < |mesh| ==> mesh[a].name != mesh[b].name
  }

  function FindAxis(mesh: seq<MeshAxis>, name: string): (r: Option<MeshAxis>)
    ensures r.Some? <==> exists a :: 0 <= a < |mesh| && mesh[a].name == name
    ensures r.Some? ==> r.value in mesh && r.value.name == name
  {
    if mesh == [] then None
    else if mesh[0].name == name then Some(mesh[0])
    else assert forall a :: 0 < a < |mesh| ==> mesh[a] == mesh[1..][a - 1]; FindAxis(mesh[1..], name)
  }

  /** The checks on one reference: the axis exists, and a sub-axis ends at a divisor of its size. */
  predicate ValidRef(mesh: seq<MeshAxis>, r: AxisRef) {
    match FindAxis(mesh, r.name)
    case None => false
    case Some(axis) =>
      r.sub.None? ||
      (var SubAxis(preSize, size) := r.sub.value;
       preSize >= 1 && size >= 1 && preSize * size <= axis.size && axis.size % (preSize * size) == 0)
  }

  predicate ValidRefs(mesh: seq<MeshAxis>, comm: seq<AxisRef>) {
    forall i :: 0 <= i < |comm| ==> ValidRef(mesh, comm[i])
  }

  predicate PositiveRefs(comm: seq<AxisRef>) {
    forall i :: 0 <= i < |comm| && comm[i].sub.Some? ==> comm[i].sub.value.preSize >= 1 && comm[i].sub.value.size >= 1
  }

  // ----- boundaries and segments

  function Insert(x: int, s: seq<int>): seq<int> {
    if s == [] || x < s[0] then [x] + s
    else if x == s[0] then s
    else [s[0]] + Insert(x, s[1..])
  }

  /** Ascending order without repetitions. */
  function SortUnique(s: seq<int>): seq<int> {
    if s == [] then [] else Insert(s[0], SortUnique(s[1..]))
  }

  lemma {:induction false} InsertProperties(x: int, s: seq<int>)
    requires StrictlyIncreasing(s)
    ensures StrictlyIncreasing(Insert(x, s))
    ensures forall y :: y in Insert(x, s) <==> y == x || y in s
  {
    if s == [] || x < s[0] {
    } else if x == s[0] {
    } else {
      InsertProperties(x, s[1..]);
      var t := Insert(x, s[1..]);
      assert s == [s[0]] + s[1..];
      forall k | 0 <= k < |t| ensures s[0] < t[k] {
        assert t[k] in t;
        assert t[k] == x || t[k] in s[1..];
      }
    }
  }

  lemma {:induction false} SortUniqueProperties(s: seq<int>)
    ensures StrictlyIncreasing(SortUnique(s))
    ensures forall y :: y in SortUnique(s) <==> y in s
  {
    if s != [] {
      SortUniqueProperties(s[1..]);
      InsertProperties(s[0], SortUnique(s[1..]));
      assert s == [s[0]] + s[1..];
    }
  }

  /** Start and end of the sub-axis, when `r` refers to a sub-axis of `name`. */
  function BoundsOf(name: string, r: AxisRef): seq<int> {
    if r.name == name && r.sub.Some? then [r.sub.value.preSize, r.sub.value.preSize * r.sub.value.size] else []
  }

  /** Start and end of every sub-axis of `name` that the communication refers to. */
  function RequestedBounds(name: string, comm: seq<AxisRef>): seq<int> {
    if comm == [] then []
    else RequestedBounds(name, comm[..|comm| - 1]) + BoundsOf(name, comm[|comm| - 1])
  }

  function Boundaries(axis: MeshAxis, comm: seq<AxisRef>): seq<int> {
    SortUnique([1, axis.size] + RequestedBounds(axis.name, comm))
  }

  function Segments(name: string, b: seq<int>): (r: seq<Segment>)
    requires Positive(b)
    ensures |r| == if b == [] then 0 else |b| - 1
    ensures forall j :: 0 <= j < |r| ==> r[j] == Segment(name, b[j], b[j + 1] / b[j])
  {
    if b == [] then [] else seq(|b| - 1, j requires 0 <= j < |b| - 1 => Segment(name, b[j], b[j + 1] / b[j]))
  }

  /** The start or the end of a sub-axis of `name` that the communication refers to. */
  predicate RefersTo(name: string, comm: seq<AxisRef>, x: int) {
    exists i :: 0 <= i < |comm| && x in BoundsOf(name, comm[i])
  }

  lemma {:induction false} RequestedBoundsMembers(name: string, comm: seq<AxisRef>, x: int)
    ensures x in RequestedBounds(name, comm) <==> RefersTo(name, comm, x)
  {
    if comm != [] {
      var n := |comm| - 1;
      RequestedBoundsMembers(name, comm[..n], x);
      InConcat(RequestedBounds(name, comm[..n]), BoundsOf(name, comm[n]), x);
      RefersLast(name, comm, x);
    }
  }

  lemma RefersLast(name: string, comm: seq<AxisRef>, x: int)
    requires comm != []
    ensures var n := |comm| - 1;
            RefersTo(name, comm, x) <==> RefersTo(name, comm[..n], x) || x in BoundsOf(name, comm[n])
  {
    var n := |comm| - 1;
    if i :| 0 <= i < n && x in BoundsOf(name, comm[..n][i]) { assert x in BoundsOf(name, comm[i]); }
    if i :| 0 <= i < |comm| && x in BoundsOf(name, comm[i]) { assert i < n ==> x in BoundsOf(name, comm[..n][i]); }
  }

  lemma {:induction false} BoundariesMembers(axis: MeshAxis, comm: seq<AxisRef>, x: int)
    ensures StrictlyIncreasing(Boundaries(axis, comm))
    ensures x in Boundaries(axis, comm)
            <==> x == 1 || x == axis.size || exists i :: 0 <= i < |comm| && x in BoundsOf(axis.name, comm[i])
  {
    var all := [1, axis.size] + RequestedBounds(axis.name, comm);
    SortUniqueProperties(all);
    RequestedBoundsMembers(axis.name, comm, x);
    assert x in all <==> x in [1, axis.size] || x in RequestedBounds(axis.name, comm);
  }

  lemma BoundsOfPositive(name: string, r: AxisRef, x: int)
    requires r.sub.Some? ==> r.sub.value.preSize >= 1 && r.sub.value.size >= 1
    requires x in BoundsOf(name, r)
    ensures x >= 1
  {
    var s := r.sub.value;
    assert s.preSize * s.size >= 1;
  }

  lemma {:induction false} BoundariesPositive(axis: MeshAxis, comm: seq<AxisRef>)
    requires axis.size >= 1 && PositiveRefs(comm)
    ensures Positive(Boundaries(axis, comm)) && StrictlyIncreasing(Boundaries(axis, comm))
    ensures |Boundaries(axis, comm)| >= 1 && Boundaries(axis, comm)[0] == 1
  {
    var b := Boundaries(axis, comm);
    forall k | 0 <= k < |b| ensures b[k] >= 1 {
      BoundariesMembers(axis, comm, b[k]);
      if i :| 0 <= i < |comm| && b[k] in BoundsOf(axis.name, comm[i]) {
        BoundsOfPositive(axis.name, comm[i], b[k]);
      }
    }
    BoundariesMembers(axis, comm, 1);
    var j :| 0 <= j < |b| && b[j] == 1;
    IncreasingFirst(b, j);
  }

  function AxisSegments(axis: MeshAxis, comm: seq<AxisRef>): seq<Segment>
    requires axis.size >= 1 && PositiveRefs(comm)
  {
    BoundariesPositive(axis, comm);
    if axis.size == 1 then [Segment(axis.name, 1, 1)] else Segments(axis.name, Boundaries(axis, comm))
  }

  /** All segments of the mesh, axis by axis: the dimensions of the reshaped device grid. */
  function Splits(mesh: seq<MeshAxis>, comm: seq<AxisRef>): seq<Segment>
    requires ValidMesh(mesh) && PositiveRefs(comm)
  {
    if mesh == [] then []
    else
      assert mesh[|mesh| - 1].size >= 1;
      Splits(mesh[..|mesh| - 1], comm) + AxisSegments(mesh[|mesh| - 1], comm)
  }

  function Sizes(segs: seq<Segment>): (r: seq<int>)
    ensures |r| == |segs| && forall d :: 0 <= d < |segs| ==> r[d] == segs[d].size
  {
    seq(|segs|, d requires 0 <= d < |segs| => segs[d].size)
  }

  // ----- matching communication axes

  function RequestedPre(r: AxisRef): int {
    if r.sub.Some? then r.sub.value.preSize else 1
  }

  function RequestedSize(mesh: seq<MeshAxis>, r: AxisRef): int {
    if r.sub.Some? then r.sub.value.size
    else match FindAxis(mesh, r.name) case Some(axis) => axis.size case None => 0
  }

  function Request(mesh: seq<MeshAxis>, r: AxisRef): Segment {
    Segment(r.name, RequestedPre(r), RequestedSize(mesh, r))
  }

  /** The split dimension of every communication axis, or a failure when some axis has none or two
      axes share one. */
  function GroupedIndices(mesh: seq<MeshAxis>, segs: seq<Segment>, comm: seq<AxisRef>): (r: Option<seq<int>>)
    ensures r.Some? ==> |r.value| == |comm| && InRange(r.value, |segs|) && Distinct(r.value)
    ensures r.Some? ==> forall i :: 0 <= i < |comm| ==> segs[r.value[i]] == Request(mesh, comm[i])
  {
    if comm == [] then Some([])
    else
      var n := |comm| - 1;
      match GroupedIndices(mesh, segs, comm[..n])
      case None => None
      case Some(g) =>
        var want := Request(mesh, comm[n]);
        if want !in segs || IndexOf(segs, want) in g then None
        else Some(g + [IndexOf(segs, want)])
  }

  lemma GroupedAppend(mesh: seq<MeshAxis>, segs: seq<Segment>, comm: seq<AxisRef>, r: AxisRef)
    ensures var before, want := GroupedIndices(mesh, segs, comm), Request(mesh, r);
            GroupedIndices(mesh, segs, comm + [r])
            == if before.None? || want !in segs || IndexOf(segs, want) in before.value then None
               else Some(before.value + [IndexOf(segs, want)])
  {
    assert (comm + [r])[..|comm|] == comm;
  }

  function Reindex(mesh: seq<MeshAxis>, comm: seq<AxisRef>): Option<ReindexedAxes>
    requires ValidMesh(mesh)
  {
    if !ValidRefs(mesh, comm) then None
    else
      ValidRefsPositive(mesh, comm);
      var segs := Splits(mesh, comm);
      match GroupedIndices(mesh, segs, comm)
      case None => None
      case Some(g) => Some(ReindexedAxes(Sizes(segs), g))
  }

  lemma ValidRefsPositive(mesh: seq<MeshAxis>, comm: seq<AxisRef>)
    requires ValidRefs(mesh, comm)
    ensures PositiveRefs(comm)
  {
    forall i | 0 <= i < |comm| && comm[i].sub.Some?
      ensures comm[i].sub.value.preSize >= 1 && comm[i].sub.value.size >= 1
    {
      assert ValidRef(mesh, comm[i]);
    }
  }

  // ----- the code

  method ValidateCommAxes(mesh: seq<MeshAxis>, comm: seq<AxisRef>) returns (ok: bool)
    ensures ok <==> ValidRefs(mesh, comm)
  {
    for i := 0 to |comm|
      invariant forall k :: 0 <= k < i ==> ValidRef(mesh, comm[k])
    {
      var found := false;
      for a := 0 to |mesh|
        invariant !found && forall b :: 0 <= b < a ==> mesh[b].name != comm[i].name
      {
        if mesh[a].name == comm[i].name {
          FirstAxis(mesh, a);
          found := true;
          if comm[i].sub.Some? {
            var preSize, size := comm[i].sub.value.preSize, comm[i].sub.value.size;
            if preSize < 1 || size < 1 { return false; }
            var nextPreSize := preSize * size;
            assert nextPreSize >= 1;
            if nextPreSize > mesh[a].size || mesh[a].size % nextPreSize != 0 { return false; }
          }
          break;
        }
      }
      if !found { return false; }
    }
    return true;
  }

  lemma {:induction false} FirstAxis(mesh: seq<MeshAxis>, a: nat)
    requires a < |mesh| && forall b :: 0 <= b < a ==> mesh[b].name != mesh[a].name
    ensures FindAxis(mesh, mesh[a].name) == Some(mesh[a])
  {
    if a > 0 { FirstAxis(mesh[1..], a - 1); }
  }

  method CollectBoundaries(axis: MeshAxis, comm: seq<AxisRef>) returns (preSizes: seq<int>)
    ensures preSizes == Boundaries(axis, comm)
  {
    preSizes := [1, axis.size];
    for i := 0 to |comm|
      invariant preSizes == [1, axis.size] + RequestedBounds(axis.name, comm[..i])
    {
      assert comm[..i + 1][..i] == comm[..i] && comm[..i + 1][i] == comm[i];
      if comm[i].name == axis.name {
        if comm[i].sub.Some? {
          preSizes := preSizes + [comm[i].sub.value.preSize];
          preSizes := preSizes + [comm[i].sub.value.preSize * comm[i].sub.value.size];
        }
      }
    }
    assert comm[..|comm|] == comm;
    preSizes := SortUnique(preSizes);
  }

  ghost predicate Indexed(dims: seq<SplitDim>, segs: seq<Segment>) {
    |dims| == |segs| && forall d :: 0 <= d < |dims| ==> dims[d] == SplitDim(segs[d], d)
  }

  /** The loop over the boundaries of one axis, appending to the dimensions split off so far. */
  method SplitAxis(name: string, preSizes: seq<int>, sizes: seq<int>, dims: seq<SplitDim>, ghost done: seq<Segment>)
    returns (splitAxisSizes: seq<int>, splitDims: seq<SplitDim>)
    requires Positive(preSizes) && preSizes != []
    requires sizes == Sizes(done) && Indexed(dims, done)
    ensures splitAxisSizes == Sizes(done + Segments(name, preSizes))
    ensures Indexed(splitDims, done + Segments(name, preSizes))
  {
    splitAxisSizes, splitDims := sizes, dims;
    ghost var mine := Segments(name, preSizes);
    for j := 0 to |preSizes| - 1
      invariant splitAxisSizes == Sizes(done + mine[..j]) && Indexed(splitDims, done + mine[..j])
    {
      var segPreSize := preSizes[j];
      var segSize := preSizes[j + 1] / segPreSize;
      var dimIdx := |splitAxisSizes|;
      splitAxisSizes := splitAxisSizes + [segSize];
      splitDims := splitDims + [SplitDim(Segment(name, segPreSize, segSize), dimIdx)];
      assert done + mine[..j + 1] == (done + mine[..j]) + [mine[j]];
    }
    assert mine[..|mine|] == mine;
  }

  lemma SplitsPrefix(mesh: seq<MeshAxis>, comm: seq<AxisRef>, a: nat)
    requires ValidMesh(mesh) && PositiveRefs(comm) && a < |mesh|
    ensures ValidMesh(mesh[..a]) && ValidMesh(mesh[..a + 1]) && mesh[a].size >= 1
    ensures Splits(mesh[..a + 1], comm) == Splits(mesh[..a], comm) + AxisSegments(mesh[a], comm)
  {
    assert mesh[..a + 1][..a] == mesh[..a] && mesh[..a + 1][a] == mesh[a];
  }

  /** One iteration of the loop over the mesh axes. */
  method AppendAxis(axis: MeshAxis, comm: seq<AxisRef>, sizes: seq<int>, dims: seq<SplitDim>, ghost done: seq<Segment>)
    returns (splitAxisSizes: seq<int>, splitDims: seq<SplitDim>)
    requires axis.size >= 1 && PositiveRefs(comm)
    requires sizes == Sizes(done) && Indexed(dims, done)
    ensures splitAxisSizes == Sizes(done + AxisSegments(axis, comm))
    ensures Indexed(splitDims, done + AxisSegments(axis, comm))
  {
    if axis.size == 1 {
      var dimIdx := |sizes|;
      splitAxisSizes := sizes + [1];
      splitDims := dims + [SplitDim(Segment(axis.name, 1, 1), dimIdx)];
    } else {
      BoundariesPositive(axis, comm);
      var preSizes := CollectBoundaries(axis, comm);
      splitAxisSizes, splitDims := SplitAxis(axis.name, preSizes, sizes, dims, done);
    }
  }

  method SplitMesh(mesh: seq<MeshAxis>, comm: seq<AxisRef>)
    returns (splitAxisSizes: seq<int>, splitDims: seq<SplitDim>)
    requires ValidMesh(mesh) && PositiveRefs(comm)
    ensures splitAxisSizes == Sizes(Splits(mesh, comm)) && Indexed(splitDims, Splits(mesh, comm))
  {
    splitAxisSizes, splitDims := [], [];
    for a := 0 to |mesh|
      invariant splitAxisSizes == Sizes(Splits(mesh[..a], comm)) && Indexed(splitDims, Splits(mesh[..a], comm))
    {
      SplitsPrefix(mesh, comm, a);
      splitAxisSizes, splitDims := AppendAxis(mesh[a], comm, splitAxisSizes, splitDims, Splits(mesh[..a], comm));
    }
    assert mesh[..|mesh|] == mesh;
  }

  /** The inner search: the first split dimension that is the requested piece. */
  method FindSplitDim(splitDims: seq<SplitDim>, want: Segment, ghost segs: seq<Segment>) returns (r: Option<int>)
    requires Indexed(splitDims, segs)
    ensures r == if want in segs then Some(IndexOf(segs, want)) else None
  {
    for d := 0 to |splitDims|
      invariant forall e :: 0 <= e < d ==> segs[e] != want
    {
      if splitDims[d].segment == want {
        return Some(splitDims[d].dimIndex);
      }
    }
    return None;
  }

  lemma GroupedStep(mesh: seq<MeshAxis>, segs: seq<Segment>, comm: seq<AxisRef>, i: nat, g: seq<int>, found: Option<int>)
    requires i < |comm| && GroupedIndices(mesh, segs, comm[..i]) == Some(g)
    requires var want := Request(mesh, comm[i]);
             found == if want in segs then Some(IndexOf(segs, want)) else None
    ensures GroupedIndices(mesh, segs, comm[..i + 1])
            == if found.None? || found.value in g then None else Some(g + [found.value])
  {
    assert comm[..i + 1] == comm[..i] + [comm[i]];
    GroupedAppend(mesh, segs, comm[..i], comm[i]);
  }

  method MatchCommAxes(mesh: seq<MeshAxis>, splitDims: seq<SplitDim>, comm: seq<AxisRef>, ghost segs: seq<Segment>)
    returns (r: Option<seq<int>>)
    requires Indexed(splitDims, segs)
    ensures r == GroupedIndices(mesh, segs, comm)
  {
    var groupedSet: set<int> := {};
    var groupedAxisIndices := [];
    for i := 0 to |comm|
      invariant GroupedIndices(mesh, segs, comm[..i]) == Some(groupedAxisIndices)
      invariant forall d :: d in groupedSet <==> d in groupedAxisIndices
    {
      var found := FindSplitDim(splitDims, Request(mesh, comm[i]), segs);
      GroupedStep(mesh, segs, comm, i, groupedAxisIndices, found);
      if found.None? || found.value in groupedSet {
        GroupedIndicesPrefixFails(mesh, segs, comm, i + 1);
        return None;
      }
      groupedSet := groupedSet + {found.value};
      groupedAxisIndices := groupedAxisIndices + [found.value];
    }
    assert comm[..|comm|] == comm;
    return Some(groupedAxisIndices);
  }

  lemma {:induction false} GroupedIndicesPrefixFails(mesh: seq<MeshAxis>, segs: seq<Segment>, comm: seq<AxisRef>, n: nat)
    requires n <= |comm| && GroupedIndices(mesh, segs, comm[..n]).None?
    ensures GroupedIndices(mesh, segs, comm).None?
    decreases |comm|
  {
    if n == |comm| {
      assert comm[..n] == comm;
    } else {
      assert comm[..|comm| - 1][..n] == comm[..n];
      GroupedIndicesPrefixFails(mesh, segs, comm[..|comm| - 1], n);
    }
  }

  method ComputeReindexedAxes(axesInMesh: seq<MeshAxis>, commAxes: seq<AxisRef>) returns (r: Option<ReindexedAxes>)
    requires ValidMesh(axesInMesh)
    ensures r == Reindex(axesInMesh, commAxes)
  {
    var ok := ValidateCommAxes(axesInMesh, commAxes);
    if !ok { return None; }
    ValidRefsPositive(axesInMesh, commAxes);
    var splitAxisSizes, splitDims := SplitMesh(axesInMesh, commAxes);
    var grouped := MatchCommAxes(axesInMesh, splitDims, commAxes, Splits(axesInMesh, commAxes));
    if grouped.None? { return None; }
    return Some(ReindexedAxes(splitAxisSizes, grouped.value));
  }
}
