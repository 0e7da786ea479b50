/** Flattening mesh-axes replica groups into explicit groups of device ids, and the verifier that
    checks explicit groups. */
module ReplicaGroups {
  import opened Sequences
  import opened MixedRadix
  import opened TransposedGroups
  import opened MeshAxes
  import opened MeshSplitting

  /** A mesh with an optional explicit device list; without one, devices are numbered row-major. */
  datatype Mesh = Mesh(axes: seq<MeshAxis>, deviceIds: Option<seq<int>>)

  predicate WellFormed(mesh: Mesh) {
    ValidMesh(mesh.axes) && DistinctNames(mesh.axes)
  }

  lemma {:induction false} VolumePositive(axes: seq<MeshAxis>)
    requires ValidMesh(axes)
    ensures Volume(axes) >= 1
  {
    if axes != [] {
      var n := |axes| - 1;
      VolumePositive(axes[..n]);
      assert Volume(axes[..n]) * axes[n].size >= 1;
    }
  }

  function Devices(mesh: Mesh): seq<int>
    requires ValidMesh(mesh.axes)
  {
    VolumePositive(mesh.axes);
    if mesh.deviceIds.None? || mesh.deviceIds.value == [] then Iota(Volume(mesh.axes)) else mesh.deviceIds.value
  }

  lemma ReindexedValid(axes: seq<MeshAxis>, comm: seq<AxisRef>)
    requires ValidMesh(axes) && Reindex(axes, comm).Some?
    ensures PositiveRefs(comm) && Volume(axes) >= 1
    ensures ValidGrouping(Reindex(axes, comm).value.splitAxisSizes, Reindex(axes, comm).value.groupedAxisIndices)
  {
    ValidRefsPositive(axes, comm);
    SplitsPositive(axes, comm);
    VolumePositive(axes);
  }

  /** Every read of the device list is in range. */
  predicate EnoughDevices(mesh: Mesh, comm: seq<AxisRef>)
    requires ValidMesh(mesh.axes)
  {
    match Reindex(mesh.axes, comm)
    case None => true
    case Some(r) =>
      ReindexedValid(mesh.axes, comm);
      AllInReach(r.splitAxisSizes, r.groupedAxisIndices, Volume(mesh.axes), |Devices(mesh)|)
  }

  lemma ReindexedGrid(axes: seq<MeshAxis>, comm: seq<AxisRef>)
    requires ValidMesh(axes) && DistinctNames(axes) && Reindex(axes, comm).Some?
    ensures PositiveRefs(comm)
    ensures var r := Reindex(axes, comm).value;
            && ValidGrouping(r.splitAxisSizes, r.groupedAxisIndices)
            && 1 <= Product(r.splitAxisSizes) <= Volume(axes)
            && (Product(r.splitAxisSizes) == Volume(axes) <==> AllChains(axes, comm))
  {
    ReindexedValid(axes, comm);
    ValidRefsFit(axes, comm);
    SplitVolume(axes, comm);
  }

  function Flatten(mesh: Mesh, comm: seq<AxisRef>): Option<seq<seq<int>>>
    requires ValidMesh(mesh.axes) && EnoughDevices(mesh, comm)
  {
    match Reindex(mesh.axes, comm)
    case None => None
    case Some(r) =>
      ReindexedValid(mesh.axes, comm);
      Some(Groups(r.splitAxisSizes, r.groupedAxisIndices, Devices(mesh), Volume(mesh.axes)))
  }

  method CountDevices(axes: seq<MeshAxis>) returns (totalDevices: int)
    ensures totalDevices == Volume(axes)
  {
    totalDevices := 1;
    for a := 0 to |axes|
      invariant totalDevices == Volume(axes[..a])
    {
      assert axes[..a + 1][..a] == axes[..a];
      totalDevices := totalDevices * axes[a].size;
    }
    assert axes[..|axes|] == axes;
  }

  method ListDevices(mesh: Mesh, totalDevices: int) returns (deviceIds: seq<int>)
    requires ValidMesh(mesh.axes) && totalDevices == Volume(mesh.axes)
    ensures deviceIds == Devices(mesh)
  {
    VolumePositive(mesh.axes);
    if mesh.deviceIds.None? || mesh.deviceIds.value == [] {
      deviceIds := [];
      for i := 0 to totalDevices
        invariant deviceIds == Iota(i)
      {
        deviceIds := deviceIds + [i];
      }
    } else {
      deviceIds := mesh.deviceIds.value;
    }
  }

  method FlattenReplicaGroupMeshAxes(mesh: Mesh, commAxes: seq<AxisRef>) returns (groups: Option<seq<seq<int>>>)
    requires ValidMesh(mesh.axes) && EnoughDevices(mesh, commAxes)
    ensures groups == Flatten(mesh, commAxes)
  {
    var reindexed := ComputeReindexedAxes(mesh.axes, commAxes);
    if reindexed.None? { return None; }
    var totalDevices := CountDevices(mesh.axes);
    var deviceIds := ListDevices(mesh, totalDevices);
    ReindexedValid(mesh.axes, commAxes);
    var flattened := FlattenedReplicaGroupsFromTransposePermutation(
      reindexed.value.splitAxisSizes, reindexed.value.groupedAxisIndices, deviceIds, totalDevices);
    return Some(flattened);
  }

  /** Member j of group i is the device at its grid position: that number itself when the mesh lists no devices,
      otherwise the entry there of the list. */
  lemma FlattenedMember(mesh: Mesh, comm: seq<AxisRef>, i: nat, j: nat)
    requires ValidMesh(mesh.axes) && EnoughDevices(mesh, comm) && Flatten(mesh, comm).Some?
    requires i < |Flatten(mesh, comm).value| && j < |Flatten(mesh, comm).value[i]|
    ensures Reindex(mesh.axes, comm).Some?
    ensures var r := Reindex(mesh.axes, comm).value;
            && ValidGrouping(r.splitAxisSizes, r.groupedAxisIndices)
            && j < Product(Pick(r.splitAxisSizes, r.groupedAxisIndices)) == |Flatten(mesh, comm).value[i]|
            && |Flatten(mesh, comm).value| == Volume(mesh.axes) / |Flatten(mesh, comm).value[i]|
            && (var position := Position(i, j, r.splitAxisSizes, r.groupedAxisIndices);
                && (mesh.deviceIds == None || mesh.deviceIds == Some([]) ==> Flatten(mesh, comm).value[i][j] == position)
                && (mesh.deviceIds.Some? && mesh.deviceIds.value != [] ==>
                      0 <= position < |mesh.deviceIds.value| && Flatten(mesh, comm).value[i][j] == mesh.deviceIds.value[position]))
  {
    ReindexedValid(mesh.axes, comm);
    var r := Reindex(mesh.axes, comm).value;
    assert InReach(i, r.splitAxisSizes, r.groupedAxisIndices, |Devices(mesh)|);
    assert Flatten(mesh, comm).value[i] == Group(i, r.splitAxisSizes, r.groupedAxisIndices, Devices(mesh));
  }

  /** The groups partition a list of distinct devices if and only if they have as many members together as
      there are devices, and the split grid has at least as many positions. */
  lemma {:induction false} FlattenPartitionsIff(mesh: Mesh, comm: seq<AxisRef>)
    requires ValidMesh(mesh.axes) && Reindex(mesh.axes, comm).Some? && EnoughDevices(mesh, comm) && Distinct(Devices(mesh))
    ensures var r := Reindex(mesh.axes, comm).value;
            && ValidGrouping(r.splitAxisSizes, r.groupedAxisIndices)
            && (multiset(Concat(Flatten(mesh, comm).value)) == multiset(Devices(mesh))
                <==> (Volume(mesh.axes) / GroupSize(r.splitAxisSizes, r.groupedAxisIndices))
                     * GroupSize(r.splitAxisSizes, r.groupedAxisIndices)
                     == |Devices(mesh)| <= Product(r.splitAxisSizes))
  {
    ReindexedValid(mesh.axes, comm);
    var r := Reindex(mesh.axes, comm).value;
    GroupsPartitionIff(r.splitAxisSizes, r.groupedAxisIndices, Devices(mesh), Volume(mesh.axes));
  }

  /** With one device per mesh position and distinct axis names, the groups partition the devices if and
      only if every mesh axis splits along a divisor chain. */
  lemma {:induction false} ChainsPartitionIff(mesh: Mesh, comm: seq<AxisRef>)
    requires WellFormed(mesh) && |Devices(mesh)| == Volume(mesh.axes) && Distinct(Devices(mesh))
    requires Reindex(mesh.axes, comm).Some?
    ensures PositiveRefs(comm) && EnoughDevices(mesh, comm) && Flatten(mesh, comm).Some?
    ensures multiset(Concat(Flatten(mesh, comm).value)) == multiset(Devices(mesh)) <==> AllChains(mesh.axes, comm)
  {
    ReindexedGrid(mesh.axes, comm);
    var r := Reindex(mesh.axes, comm).value;
    GridInReach(r.splitAxisSizes, r.groupedAxisIndices, Volume(mesh.axes), |Devices(mesh)|);
    FlattenPartitionsIff(mesh, comm);
    WholeGroups(r.splitAxisSizes, r.groupedAxisIndices);
  }

  /** The groups of a grid take all its positions. */
  lemma WholeGroups(sizes: seq<int>, grouped: seq<int>)
    requires ValidGrouping(sizes, grouped)
    ensures Product(sizes) >= 1
    ensures (Product(sizes) / GroupSize(sizes, grouped)) * GroupSize(sizes, grouped) == Product(sizes)
  {
    OuterTimesInner(sizes, grouped);
    DivUnique(Product(sizes), GroupSize(sizes, grouped), OuterSize(sizes, grouped), 0);
  }

  /** Every read of the device list is in range if and only if there are no groups, or the last read is.
      With distinct axis names that means one entry for each position of the split grid. Without an explicit
      list there is an entry for each position of the mesh. */
  lemma {:induction false} DeviceReadsInRangeIff(mesh: Mesh, comm: seq<AxisRef>)
    requires ValidMesh(mesh.axes) && Reindex(mesh.axes, comm).Some?
    ensures var r := Reindex(mesh.axes, comm).value;
            var n := if mesh.deviceIds.Some? && mesh.deviceIds.value != [] then |mesh.deviceIds.value| else Volume(mesh.axes);
            && ValidGrouping(r.splitAxisSizes, r.groupedAxisIndices)
            && (EnoughDevices(mesh, comm)
                <==> Volume(mesh.axes) < GroupSize(r.splitAxisSizes, r.groupedAxisIndices)
                     || LastRead(r.splitAxisSizes, r.groupedAxisIndices, Volume(mesh.axes)) < n)
            && (DistinctNames(mesh.axes) ==> (EnoughDevices(mesh, comm) <==> Product(r.splitAxisSizes) <= n))
  {
    ReindexedValid(mesh.axes, comm);
    var r := Reindex(mesh.axes, comm).value;
    ReadsInRangeIff(r.splitAxisSizes, r.groupedAxisIndices, Volume(mesh.axes), |Devices(mesh)|);
    if DistinctNames(mesh.axes) {
      ReindexedGrid(mesh.axes, comm);
      WholeGridRead(r.splitAxisSizes, r.groupedAxisIndices, Volume(mesh.axes), |Devices(mesh)|);
    }
  }

  /** All groups have the size of the product of the communication axes. */
  lemma {:induction false} FlattenGroupSizes(mesh: Mesh, comm: seq<AxisRef>)
    requires ValidMesh(mesh.axes) && EnoughDevices(mesh, comm) && Flatten(mesh, comm).Some?
    ensures var extents := seq(|comm|, i requires 0 <= i < |comm| => RequestedSize(mesh.axes, comm[i]));
            forall i :: 0 <= i < |Flatten(mesh, comm).value| ==> |Flatten(mesh, comm).value[i]| == Product(extents)
  {
    ReindexedValid(mesh.axes, comm);
    MatchedExtents(mesh.axes, Splits(mesh.axes, comm), comm);
  }

  lemma MatchedExtents(axes: seq<MeshAxis>, segs: seq<Segment>, comm: seq<AxisRef>)
    requires GroupedIndices(axes, segs, comm).Some?
    ensures Pick(Sizes(segs), GroupedIndices(axes, segs, comm).value)
            == seq(|comm|, i requires 0 <= i < |comm| => RequestedSize(axes, comm[i]))
  {
    var g := GroupedIndices(axes, segs, comm).value;
    forall i | 0 <= i < |comm| ensures Pick(Sizes(segs), g)[i] == RequestedSize(axes, comm[i]) {
      assert segs[g[i]] == Request(axes, comm[i]);
    }
  }

  // ----- the verifier of explicit replica groups

  /** The replica_groups attribute: mesh axes, or a dense tensor given by its shape and elements. */
  datatype ReplicaGroupsAttr = MeshAxesGroups(mesh: Mesh, comm: seq<AxisRef>)
                             | DenseGroups(shape: seq<int>, ids: seq<int>)

  /** The ids that are not the null id -1, in order. */
  function RealIds(ids: seq<int>): seq<int> {
    if ids == [] then []
    else RealIds(ids[..|ids| - 1]) + (if ids[|ids| - 1] == -1 then [] else [ids[|ids| - 1]])
  }

  predicate Acceptable(attr: ReplicaGroupsAttr, sameSize: bool, useGlobalIds: bool, expected: Option<nat>) {
    match attr
    case MeshAxesGroups(_, _) => true
    case DenseGroups(shape, ids) =>
      && |shape| == 2
      && (useGlobalIds ==> shape[0] * shape[1] != 0)
      && (sameSize ==> -1 !in ids)
      && IsPermutation(RealIds(ids), |RealIds(ids)|)
      && (sameSize && expected.Some? ==> shape[0] != 0 && |ids| / shape[0] == expected.value)
  }

  /** Pigeonhole: n distinct ids that include 0..n-1 are exactly those. */
  lemma {:induction false} SeenAll(ids: seq<int>)
    requires Distinct(ids)
    ensures (forall id :: 0 <= id < |ids| ==> id in ids) <==> IsPermutation(ids, |ids|)
  {
    var n := |ids|;
    if IsPermutation(ids, n) {
      forall id | 0 <= id < n ensures id in ids { PermutationCovers(ids, n, id); }
    }
    if forall id :: 0 <= id < n ==> id in ids {
      var a, b := multiset(Iota(n)), multiset(ids);
      forall x ensures a[x] <= b[x] {
        DistinctMultiplicity(ids, x);
        DistinctMultiplicity(Iota(n), x);
      }
      assert a <= b;
      assert |a| == n && |b| == n;
      assert |b - a| == 0;
      assert b == a + (b - a);
      MultisetPermutation(ids, n);
    }
  }

  lemma {:induction false} DistinctSetSize(ids: seq<int>)
    requires Distinct(ids)
    ensures |set id | id in ids| == |ids|
  {
    if ids != [] {
      var n := |ids| - 1;
      DistinctSetSize(ids[..n]);
      assert (set id | id in ids) == (set id | id in ids[..n]) + {ids[n]};
    }
  }

  lemma {:induction false} RealIdsPrefix(ids: seq<int>, n: nat)
    requires n <= |ids|
    ensures |RealIds(ids[..n])| <= |RealIds(ids)| && RealIds(ids[..n]) == RealIds(ids)[..|RealIds(ids[..n])|]
    decreases |ids|
  {
    if n == |ids| {
      assert ids[..n] == ids;
    } else {
      assert ids[..|ids| - 1][..n] == ids[..n];
      RealIdsPrefix(ids[..|ids| - 1], n);
    }
  }

  /** The scan over the ids: the set of those seen, or a failure at a repeated or forbidden one. */
  method CollectIds(ids: seq<int>, allGroupsMustHaveSameSize: bool) returns (seen: Option<set<int>>)
    ensures seen.None? <==> !Distinct(RealIds(ids)) || (allGroupsMustHaveSameSize && -1 in ids)
    ensures seen.Some? ==> seen.value == set id | id in RealIds(ids)
  {
    var replicaIdsSeen: set<int> := {};
    for i := 0 to |ids|
      invariant replicaIdsSeen == set id | id in RealIds(ids[..i])
      invariant Distinct(RealIds(ids[..i]))
      invariant allGroupsMustHaveSameSize ==> -1 !in ids[..i]
    {
      assert ids[..i + 1][..i] == ids[..i] && ids[..i + 1][i] == ids[i];
      if ids[i] == -1 {
        if !allGroupsMustHaveSameSize { continue; }
        return None;
      }
      if ids[i] in replicaIdsSeen {
        RepeatedId(ids, i);
        return None;
      }
      replicaIdsSeen := replicaIdsSeen + {ids[i]};
    }
    assert ids[..|ids|] == ids;
    return Some(replicaIdsSeen);
  }

  method VerifyReplicaGroups(attr: ReplicaGroupsAttr, allGroupsMustHaveSameSize: bool, useGlobalDeviceIds: bool,
                             expectedGroupSize: Option<nat>)
    returns (ok: bool)
    requires attr.DenseGroups? ==> |attr.ids| == Product(attr.shape) && forall k :: 0 <= k < |attr.shape| ==> attr.shape[k] >= 0
    ensures ok == Acceptable(attr, allGroupsMustHaveSameSize, useGlobalDeviceIds, expectedGroupSize)
  {
    if attr.MeshAxesGroups? { return true; }
    var shape, ids := attr.shape, attr.ids;
    if |shape| != 2 { return false; }
    if useGlobalDeviceIds && shape[0] * shape[1] == 0 { return false; }
    var replicaIdsSeen := CollectIds(ids, allGroupsMustHaveSameSize);
    if replicaIdsSeen.None? { return false; }
    DistinctSetSize(RealIds(ids));
    SeenAll(RealIds(ids));
    for id := 0 to |replicaIdsSeen.value|
      invariant forall k :: 0 <= k < id ==> k in RealIds(ids)
    {
      if id !in replicaIdsSeen.value { return false; }
    }
    if allGroupsMustHaveSameSize && expectedGroupSize.Some? {
      if shape[0] == 0 || |ids| / shape[0] != expectedGroupSize.value { return false; }
    }
    return true;
  }

  lemma {:induction false} RepeatedId(ids: seq<int>, i: nat)
    requires i < |ids| && ids[i] != -1 && ids[i] in RealIds(ids[..i])
    ensures !Distinct(RealIds(ids))
  {
    var before, upto := RealIds(ids[..i]), RealIds(ids[..i + 1]);
    assert ids[..i + 1][..i] == ids[..i];
    assert upto == before + [ids[i]];
    RealIdsPrefix(ids, i + 1);
    var k :| 0 <= k < |before| && before[k] == ids[i];
    var all := RealIds(ids);
    assert all[..|upto|][k] == ids[i] && all[..|upto|][|before|] == ids[i];
    assert all[k] == all[|before|];
  }

  lemma {:induction false} NoNullIds(ids: seq<int>)
    requires -1 !in ids
    ensures RealIds(ids) == ids
  {
    if ids != [] {
      NoNullIds(ids[..|ids| - 1]);
      assert ids == ids[..|ids| - 1] + [ids[|ids| - 1]];
    }
  }

  /** A table of groups, given row by row. */
  predicate IsTable(shape: seq<int>, ids: seq<int>) {
    |shape| == 2 && shape[0] >= 0 && shape[1] >= 0 && |ids| == shape[0] * shape[1]
  }

  /** With equal group sizes and no expected size, a table is accepted if and only if its ids are a permutation
      of 0..n-1, and under global ids there is one. */
  lemma {:induction false} SameSizeAcceptsIff(shape: seq<int>, ids: seq<int>, useGlobalIds: bool)
    requires IsTable(shape, ids)
    ensures Acceptable(DenseGroups(shape, ids), true, useGlobalIds, None)
            <==> IsPermutation(ids, |ids|) && (useGlobalIds ==> ids != [])
  {
    if -1 !in ids {
      NoNullIds(ids);
    }
  }

  /** With an expected size, the rows must have it too, and there must be a row. */
  lemma {:induction false} ExpectedSizeAcceptsIff(shape: seq<int>, ids: seq<int>, useGlobalIds: bool, expected: nat)
    requires IsTable(shape, ids)
    ensures Acceptable(DenseGroups(shape, ids), true, useGlobalIds, Some(expected))
            <==> IsPermutation(ids, |ids|) && shape[0] >= 1 && shape[1] == expected && (useGlobalIds ==> expected >= 1)
  {
    if -1 !in ids {
      NoNullIds(ids);
    }
    if shape[0] >= 1 {
      RowLength(shape[0], shape[1]);
    }
  }

  lemma RowLength(rows: int, columns: int)
    requires rows >= 1 && columns >= 0
    ensures (rows * columns) / rows == columns && (rows * columns == 0 <==> columns == 0)
  {
    DivUnique(rows * columns, rows, columns, 0);
    assert columns >= 1 ==> rows * columns >= 1;
  }

  /** When rows may be padded with -1, whatever size is expected, a table is accepted if and only if its other ids
      are 0, 1, ... without repetitions or gaps, and under global ids there is an entry at all. */
  lemma {:induction false} PaddedAcceptsIff(shape: seq<int>, ids: seq<int>, useGlobalIds: bool, expected: Option<nat>)
    requires IsTable(shape, ids)
    ensures Acceptable(DenseGroups(shape, ids), false, useGlobalIds, expected)
            <==> && (useGlobalIds ==> ids != [])
                 && (forall k :: 0 <= k < |ids| ==> ids[k] >= -1)
                 && (forall k, l :: 0 <= k < l < |ids| && ids[k] == ids[l] ==> ids[k] == -1)
                 && (forall k, x :: 0 <= k < |ids| && 0 <= x <= ids[k] ==> x in ids)
  {
    var seen := RealIds(ids);
    RealIdsOnce(ids);
    forall x ensures x in seen <==> x in ids && x != -1 { RealIdsMember(ids, x); }
    if Distinct(seen) { WithoutGapsIff(seen); }
    assert forall k :: 0 <= k < |ids| ==> ids[k] in ids;
    if IsPermutation(seen, |seen|) {
      forall k | 0 <= k < |ids| ensures ids[k] >= -1 { assert ids[k] == -1 || ids[k] in seen; }
      forall k, x | 0 <= k < |ids| && 0 <= x <= ids[k] ensures x in ids { assert ids[k] in seen; }
    }
  }

  /** The mesh-axes form is not checked, and a tensor of another rank than 2 is rejected. */
  lemma OtherFormsDecided(mesh: Mesh, comm: seq<AxisRef>, shape: seq<int>, ids: seq<int>, sameSize: bool, useGlobalIds: bool,
                          expected: Option<nat>)
    ensures Acceptable(MeshAxesGroups(mesh, comm), sameSize, useGlobalIds, expected)
    ensures |shape| != 2 ==> !Acceptable(DenseGroups(shape, ids), sameSize, useGlobalIds, expected)
  {
  }

  lemma {:induction false} RealIdsMember(ids: seq<int>, x: int)
    ensures x in RealIds(ids) <==> x in ids && x != -1
  {
    if ids != [] {
      var before, last := ids[..|ids| - 1], ids[|ids| - 1];
      RealIdsMember(before, x);
      InitLast([], ids);
      InConcat(before, [last], x);
      InConcat(RealIds(before), if last == -1 then [] else [last], x);
    }
  }

  lemma {:induction false} RealIdsOnce(ids: seq<int>)
    ensures Distinct(RealIds(ids)) <==> forall k, l :: 0 <= k < l < |ids| && ids[k] == ids[l] ==> ids[k] == -1
  {
    if ids != [] {
      var n := |ids| - 1;
      var before, last := ids[..n], ids[n];
      RealIdsOnce(before);
      RealIdsMember(before, last);
      DistinctSnocIff(RealIds(before), last);
      InitLast(RealIds(before), []);
      OnceLast(ids);
    }
  }

  lemma DistinctSnocIff(s: seq<int>, x: int)
    ensures Distinct(s + [x]) <==> Distinct(s) && x !in s
  {
    var all := s + [x];
    if Distinct(all) {
      forall i, j | 0 <= i < j < |s| ensures s[i] != s[j] { assert all[i] != all[j]; }
      forall i | 0 <= i < |s| ensures s[i] != x { assert all[i] != all[|s|]; }
    }
  }

  lemma OnceLast(ids: seq<int>)
    requires ids != []
    ensures var n := |ids| - 1;
            (forall k, l :: 0 <= k < l < |ids| && ids[k] == ids[l] ==> ids[k] == -1)
            <==> (forall k, l :: 0 <= k < l < n && ids[..n][k] == ids[..n][l] ==> ids[..n][k] == -1)
                 && (ids[n] == -1 || ids[n] !in ids[..n])
  {
    var n := |ids| - 1;
    if ids[n] in ids[..n] {
      var k :| 0 <= k < n && ids[..n][k] == ids[n];
      assert ids[k] == ids[n];
    }
    assert forall k :: 0 <= k < n ==> ids[..n][k] == ids[k] && ids[k] in ids[..n];
  }

  /** Distinct ids are 0..n-1 if and only if none is negative and no smaller number is missing. */
  lemma {:induction false} WithoutGapsIff(ids: seq<int>)
    requires Distinct(ids)
    ensures IsPermutation(ids, |ids|)
            <==> (forall x :: x in ids ==> x >= 0) && (forall x, y :: y in ids && 0 <= x <= y ==> x in ids)
  {
    var n := |ids|;
    SeenAll(ids);
    if (forall x :: x in ids ==> x >= 0) && (forall x, y :: y in ids && 0 <= x <= y ==> x in ids) {
      if y :| y in ids && y >= n - 1 {
        assert forall x :: 0 <= x < n ==> x in ids;
      } else {
        assert forall k :: 0 <= k < n ==> ids[k] in ids;
      }
    }
    if IsPermutation(ids, n) {
      forall x, y | y in ids && 0 <= x <= y ensures x in ids {
        var k :| 0 <= k < n && ids[k] == y;
        assert x < n;
      }
    }
  }

  /** The dense tensor that replaces the mesh-axes form. */
  function Densify(groups: seq<seq<int>>): ReplicaGroupsAttr {
    DenseGroups([|groups|, if groups == [] then 0 else |groups[0]|], Concat(groups))
  }

  /** Flattening along divisor chains always yields groups that the verifier accepts, with their own
      group size as the expected one. */
  lemma {:induction false} FlattenedIsAccepted(mesh: Mesh, comm: seq<AxisRef>, useGlobalIds: bool)
    requires WellFormed(mesh) && IsPermutation(Devices(mesh), Volume(mesh.axes))
    requires PositiveRefs(comm) && AllChains(mesh.axes, comm) && Reindex(mesh.axes, comm).Some?
    ensures EnoughDevices(mesh, comm) && Flatten(mesh, comm).Some?
    ensures var groups := Flatten(mesh, comm).value;
            groups != [] && Acceptable(Densify(groups), true, useGlobalIds, Some(|groups[0]|))
  {
    ReindexedGrid(mesh.axes, comm);
    var r := Reindex(mesh.axes, comm).value;
    GridInReach(r.splitAxisSizes, r.groupedAxisIndices, Volume(mesh.axes), |Devices(mesh)|);
    WholeGroups(r.splitAxisSizes, r.groupedAxisIndices);
    GroupsPartition(r.splitAxisSizes, r.groupedAxisIndices, Devices(mesh), Volume(mesh.axes));
    PartitionAccepted(Flatten(mesh, comm).value, GroupSize(r.splitAxisSizes, r.groupedAxisIndices), Devices(mesh), useGlobalIds);
  }

  /** Groups of equal size that partition 0..n-1 are accepted. */
  lemma {:induction false} PartitionAccepted(groups: seq<seq<int>>, size: nat, ids: seq<int>, useGlobalIds: bool)
    requires size >= 1 && |groups| * size == |ids| >= 1 && forall i :: 0 <= i < |groups| ==> |groups[i]| == size
    requires multiset(Concat(groups)) == multiset(ids) && IsPermutation(ids, |ids|)
    ensures groups != [] && |groups[0]| == size && Acceptable(Densify(groups), true, useGlobalIds, Some(size))
  {
    assert groups != [] by { assert |groups| == 0 ==> |groups| * size == 0; }
    var flat := Concat(groups);
    assert |multiset(flat)| == |flat| && |multiset(ids)| == |ids|;
    PermutationMultiset(ids, |ids|);
    MultisetPermutation(flat, |ids|);
    NoNullIds(flat);
    DivUnique(|flat|, |groups|, size, 0);
  }
}
