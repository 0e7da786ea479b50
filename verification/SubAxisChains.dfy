/** Naming a full mesh axis is the same as listing its complete chain of sub-axes. */
module SubAxisChains {
  import opened Sequences
  import opened MixedRadix
  import opened GridRefinement
  import opened MeshAxes
  import opened MeshSplitting
  import opened ReplicaGroups

  function Full(name: string): AxisRef { AxisRef(name, None) }

  /** The sub-axes of extents `f`, major first: each starts where the previous one ends. */
  function ChainRefs(name: string, f: seq<int>): (r: seq<AxisRef>)
    ensures |r| == |f|
    ensures forall j :: 0 <= j < |f| ==> r[j] == AxisRef(name, Some(SubAxis(Product(f[..j]), f[j])))
  {
    seq(|f|, j requires 0 <= j < |f| => AxisRef(name, Some(SubAxis(Product(f[..j]), f[j]))))
  }

  predicate AtLeastTwo(f: seq<int>) {
    forall j :: 0 <= j < |f| ==> f[j] >= 2
  }

  /** The prefix products of `f`: where its pieces start and end. */
  function Cuts(f: seq<int>): (c: seq<int>)
    ensures |c| == |f| + 1 && forall j :: 0 <= j <= |f| ==> c[j] == Product(f[..j])
  {
    seq(|f| + 1, j requires 0 <= j <= |f| => Product(f[..j]))
  }

  lemma PrefixProduct(f: seq<int>, j: nat)
    requires j < |f|
    ensures Product(f[..j + 1]) == Product(f[..j]) * f[j]
  {
    assert f[..j + 1] == f[..j] + [f[j]];
    ProductSnoc(f[..j], f[j]);
  }

  lemma CutStep(f: seq<int>, j: nat)
    requires j < |f|
    ensures Cuts(f)[0] == 1 && Cuts(f)[j + 1] == Cuts(f)[j] * f[j]
    ensures Cuts(f)[|f|] == Product(f)
  {
    PrefixProduct(f, j);
    assert f[..|f|] == f && f[..0] == [];
  }

  lemma {:induction false} CutsIncrease(f: seq<int>, i: nat, j: nat)
    requires AtLeastTwo(f) && i <= j <= |f|
    ensures 1 <= Cuts(f)[i] <= Cuts(f)[j]
    ensures i < j ==> Cuts(f)[i] < Cuts(f)[j]
  {
    if i == j {
      if i > 0 {
        CutsIncrease(f, i - 1, i - 1);
        CutStep(f, i - 1);
        CutGrows(Cuts(f)[i - 1], f[i - 1]);
      } else {
        assert f[..0] == [];
      }
    } else {
      CutsIncrease(f, i, j - 1);
      CutStep(f, j - 1);
      CutGrows(Cuts(f)[j - 1], f[j - 1]);
    }
  }

  lemma CutGrows(c: int, n: int)
    requires c >= 1 && n >= 2
    ensures c < c * n
  {
  }

  lemma {:induction false} CutsSorted(f: seq<int>)
    requires AtLeastTwo(f)
    ensures StrictlyIncreasing(Cuts(f)) && Positive(Cuts(f))
  {
    forall i, j | 0 <= i < j < |Cuts(f)| ensures Cuts(f)[i] < Cuts(f)[j] { CutsIncrease(f, i, j); }
    forall i | 0 <= i < |Cuts(f)| ensures Cuts(f)[i] >= 1 { CutsIncrease(f, i, i); }
  }

  lemma {:induction false} FindSlot(f: seq<int>, p: int, n: nat) returns (j: nat)
    requires AtLeastTwo(f) && n <= |f| && 1 <= p < Cuts(f)[n]
    ensures j < n && Cuts(f)[j] <= p < Cuts(f)[j + 1]
  {
    assert f[..0] == [];
    if Cuts(f)[n - 1] <= p {
      j := n - 1;
    } else {
      j := FindSlot(f, p, n - 1);
    }
  }

  /** Each cut divides the whole product. */
  lemma {:induction false} CutDivides(f: seq<int>, j: nat)
    requires AtLeastTwo(f) && j <= |f|
    ensures 1 <= Cuts(f)[j] <= Product(f) && Product(f) % Cuts(f)[j] == 0
  {
    assert f == f[..j] + f[j..];
    ProductConcat(f[..j], f[j..]);
    CutsIncrease(f, j, |f|);
    assert f[..|f|] == f;
    DivUnique(Product(f), Cuts(f)[j], Product(f[j..]), 0);
  }

  // ----- lookups of communication axes

  function Lookup(segs: seq<Segment>, want: Segment): int {
    if want in segs then IndexOf(segs, want) else -1
  }

  function Lookups(mesh: seq<MeshAxis>, segs: seq<Segment>, comm: seq<AxisRef>): (r: seq<int>)
    ensures |r| == |comm| && forall i :: 0 <= i < |comm| ==> r[i] == Lookup(segs, Request(mesh, comm[i]))
  {
    seq(|comm|, i requires 0 <= i < |comm| => Lookup(segs, Request(mesh, comm[i])))
  }

  function Checked(found: seq<int>): Option<seq<int>> {
    if -1 in found || !Distinct(found) then None else Some(found)
  }

  lemma {:induction false} GroupedAsLookups(mesh: seq<MeshAxis>, segs: seq<Segment>, comm: seq<AxisRef>)
    ensures GroupedIndices(mesh, segs, comm) == Checked(Lookups(mesh, segs, comm))
  {
    if comm != [] {
      var n := |comm| - 1;
      GroupedAsLookups(mesh, segs, comm[..n]);
      var found := Lookups(mesh, segs, comm);
      assert found == Lookups(mesh, segs, comm[..n]) + [found[n]];
      CheckedSnoc(Lookups(mesh, segs, comm[..n]), found[n]);
    }
  }

  lemma {:induction false} CheckedSnoc(before: seq<int>, x: int)
    ensures Checked(before + [x]).Some? <==> Checked(before).Some? && x != -1 && x !in before
  {
    var found := before + [x];
    assert found[|before|] == x;
    if Checked(before).Some? && x != -1 && x !in before {
      forall i, j | 0 <= i < j < |found| ensures found[i] != found[j] {
        assert found[i] in before;
      }
    }
    if Checked(found).Some? {
      forall i | 0 <= i < |before| ensures before[i] != x && before[i] != -1 { assert found[i] != found[|before|] && found[i] in found; }
      forall i, j | 0 <= i < j < |before| ensures before[i] != before[j] { assert found[i] != found[j]; }
    }
  }

  lemma {:induction false} IndexOfConcat<T>(x: seq<T>, y: seq<T>, w: T)
    ensures w in x ==> IndexOf(x + y, w) == IndexOf(x, w)
    ensures w !in x && w in y ==> IndexOf(x + y, w) == |x| + IndexOf(y, w)
  {
    if w in x {
      assert (x + y)[IndexOf(x, w)] == w;
      assert forall j :: 0 <= j < IndexOf(x, w) ==> (x + y)[j] == x[j];
    } else if w in y {
      assert (x + y)[|x| + IndexOf(y, w)] == w;
      var i := IndexOf(x + y, w);
      assert forall k :: 0 <= k < |x| ==> (x + y)[k] == x[k] && x[k] in x;
      assert i >= |x| && y[i - |x|] == w;
    }
  }

  /** Replacing the middle of a segment list moves the later ones. */
  lemma {:induction false} LookupAround(x: seq<Segment>, m: seq<Segment>, m': seq<Segment>, y: seq<Segment>, w: Segment)
    requires |m| == 1 && w !in m && w !in m'
    ensures var i := Lookup(x + m + y, w);
            Lookup(x + m' + y, w) == (if i == -1 then -1 else Shift(i, |x|, |m'|)) && i != |x|
  {
    IndexOfConcat(x, m + y, w);
    IndexOfConcat(m, y, w);
    IndexOfConcat(x, m' + y, w);
    IndexOfConcat(m', y, w);
    assert x + m + y == x + (m + y) && x + m' + y == x + (m' + y);
  }

  // ----- the splits

  lemma {:induction false} RequestedBoundsConcat(name: string, x: seq<AxisRef>, y: seq<AxisRef>)
    ensures RequestedBounds(name, x + y) == RequestedBounds(name, x) + RequestedBounds(name, y)
  {
    if y == [] {
      assert x + y == x;
    } else {
      var n := |y| - 1;
      assert (x + y)[..|x + y| - 1] == x + y[..n];
      RequestedBoundsConcat(name, x, y[..n]);
    }
  }

  predicate NoneNamed(name: string, comm: seq<AxisRef>) {
    forall i :: 0 <= i < |comm| ==> comm[i].name != name
  }

  lemma {:induction false} NoBounds(name: string, comm: seq<AxisRef>)
    requires NoneNamed(name, comm)
    ensures RequestedBounds(name, comm) == []
  {
    if comm != [] { NoBounds(name, comm[..|comm| - 1]); }
  }

  lemma {:induction false} OtherAxisSegments(axis: MeshAxis, pre: seq<AxisRef>, mid: seq<AxisRef>, mid': seq<AxisRef>,
                                             post: seq<AxisRef>)
    requires axis.size >= 1 && NoneNamed(axis.name, mid) && NoneNamed(axis.name, mid')
    requires PositiveRefs(pre + mid + post) && PositiveRefs(pre + mid' + post)
    ensures AxisSegments(axis, pre + mid + post) == AxisSegments(axis, pre + mid' + post)
  {
    RequestedBoundsConcat(axis.name, pre + mid, post);
    RequestedBoundsConcat(axis.name, pre, mid);
    RequestedBoundsConcat(axis.name, pre + mid', post);
    RequestedBoundsConcat(axis.name, pre, mid');
    NoBounds(axis.name, mid);
    NoBounds(axis.name, mid');
  }

  lemma {:induction false} SplitsConcat(x: seq<MeshAxis>, y: seq<MeshAxis>, comm: seq<AxisRef>)
    requires ValidMesh(x) && ValidMesh(y) && PositiveRefs(comm)
    ensures ValidMesh(x + y) && Splits(x + y, comm) == Splits(x, comm) + Splits(y, comm)
  {
    InitLast(x, y);
    if y != [] {
      var n := |y| - 1;
      SplitsConcat(x, y[..n], comm);
      SplitsConcatStep(x, y[..n], y[n], comm);
    }
  }

  lemma SplitsConcatStep(x: seq<MeshAxis>, y: seq<MeshAxis>, axis: MeshAxis, comm: seq<AxisRef>)
    requires ValidMesh(x) && ValidMesh(y) && axis.size >= 1 && PositiveRefs(comm)
    requires ValidMesh(x + y) && Splits(x + y, comm) == Splits(x, comm) + Splits(y, comm)
    ensures ValidMesh(y + [axis]) && ValidMesh(x + (y + [axis]))
    ensures Splits(x + (y + [axis]), comm) == Splits(x, comm) + Splits(y + [axis], comm)
  {
    SplitsAppend(y, axis, comm);
    SplitsAppend(x + y, axis, comm);
    ConcatAssociative(x, y, [axis]);
    ConcatAssociative(Splits(x, comm), Splits(y, comm), AxisSegments(axis, comm));
  }

  lemma SplitsAppend(x: seq<MeshAxis>, axis: MeshAxis, comm: seq<AxisRef>)
    requires ValidMesh(x) && axis.size >= 1 && PositiveRefs(comm)
    ensures ValidMesh(x + [axis]) && Splits(x + [axis], comm) == Splits(x, comm) + AxisSegments(axis, comm)
  {
    assert (x + [axis])[..|x|] == x;
  }

  lemma {:induction false} SplitsCongruence(mesh: seq<MeshAxis>, c: seq<AxisRef>, c': seq<AxisRef>)
    requires ValidMesh(mesh) && PositiveRefs(c) && PositiveRefs(c')
    requires forall a :: 0 <= a < |mesh| ==> AxisSegments(mesh[a], c) == AxisSegments(mesh[a], c')
    ensures Splits(mesh, c) == Splits(mesh, c')
  {
    if mesh != [] {
      var n := |mesh| - 1;
      SplitsLast(mesh, c);
      SplitsLast(mesh, c');
      forall a | 0 <= a < n ensures AxisSegments(mesh[..n][a], c) == AxisSegments(mesh[..n][a], c') {
        assert mesh[..n][a] == mesh[a];
      }
      SplitsCongruence(mesh[..n], c, c');
    }
  }

  /** The segments of the split axis itself, when only `f` cuts it. */
  function ChainSegments(name: string, f: seq<int>): (r: seq<Segment>)
    ensures |r| == |f| && forall j :: 0 <= j < |f| ==> r[j] == Segment(name, Product(f[..j]), f[j])
  {
    seq(|f|, j requires 0 <= j < |f| => Segment(name, Product(f[..j]), f[j]))
  }

  lemma {:induction false} CutsToSegments(name: string, f: seq<int>)
    requires AtLeastTwo(f) && f != []
    ensures Positive(Cuts(f)) && Segments(name, Cuts(f)) == ChainSegments(name, f)
  {
    CutsSorted(f);
    forall j | 0 <= j < |f| ensures Cuts(f)[j + 1] / Cuts(f)[j] == f[j] {
      CutStep(f, j);
      CutsIncrease(f, j, j);
      DivUnique(Cuts(f)[j + 1], Cuts(f)[j], f[j], 0);
    }
  }

  lemma {:induction false} ChainBounds(name: string, f: seq<int>, j: nat)
    requires j < |f|
    ensures BoundsOf(name, ChainRefs(name, f)[j]) == [Cuts(f)[j], Cuts(f)[j + 1]]
  {
    CutStep(f, j);
  }

  lemma {:induction false} ChainAxisSegments(axis: MeshAxis, pre: seq<AxisRef>, f: seq<int>, post: seq<AxisRef>)
    requires AtLeastTwo(f) && f != [] && axis.size == Product(f) >= 2
    requires NoneNamed(axis.name, pre) && NoneNamed(axis.name, post)
    requires PositiveRefs(pre + ChainRefs(axis.name, f) + post)
    ensures AxisSegments(axis, pre + ChainRefs(axis.name, f) + post) == ChainSegments(axis.name, f)
  {
    var comm := pre + ChainRefs(axis.name, f) + post;
    BoundariesPositive(axis, comm);
    CutsSorted(f);
    forall x ensures x in Boundaries(axis, comm) <==> x in Cuts(f) {
      ChainBoundary(axis, pre, f, post, x);
    }
    IncreasingUnique(Boundaries(axis, comm), Cuts(f));
    CutsToSegments(axis.name, f);
  }

  lemma NamedInMiddle(name: string, pre: seq<AxisRef>, mid: seq<AxisRef>, post: seq<AxisRef>, i: nat)
    requires NoneNamed(name, pre) && NoneNamed(name, post)
    requires i < |pre + mid + post| && (pre + mid + post)[i].name == name
    ensures |pre| <= i < |pre| + |mid| && (pre + mid + post)[i] == mid[i - |pre|]
  {
  }

  lemma {:induction false} ChainBoundary(axis: MeshAxis, pre: seq<AxisRef>, f: seq<int>, post: seq<AxisRef>, x: int)
    requires f != [] && axis.size == Product(f)
    requires NoneNamed(axis.name, pre) && NoneNamed(axis.name, post)
    ensures x in Boundaries(axis, pre + ChainRefs(axis.name, f) + post) <==> x in Cuts(f)
  {
    var comm := pre + ChainRefs(axis.name, f) + post;
    BoundariesMembers(axis, comm, x);
    CutStep(f, 0);
    assert Cuts(f)[0] == 1 && Cuts(f)[|f|] == axis.size;
    if i :| 0 <= i < |comm| && x in BoundsOf(axis.name, comm[i]) {
      var j := i - |pre|;
      assert comm[i].name == axis.name;
      NamedInMiddle(axis.name, pre, ChainRefs(axis.name, f), post, i);
      ChainBounds(axis.name, f, j);
    }
    if x in Cuts(f) {
      var j :| 0 <= j < |Cuts(f)| && Cuts(f)[j] == x;
      if j < |f| {
        ChainBounds(axis.name, f, j);
        assert comm[|pre| + j] == ChainRefs(axis.name, f)[j];
        assert x in BoundsOf(axis.name, comm[|pre| + j]);
      }
    }
  }

  lemma {:induction false} FullAxisSegments(axis: MeshAxis, pre: seq<AxisRef>, post: seq<AxisRef>)
    requires axis.size >= 2 && NoneNamed(axis.name, pre) && NoneNamed(axis.name, post)
    requires PositiveRefs(pre + [Full(axis.name)] + post)
    ensures AxisSegments(axis, pre + [Full(axis.name)] + post) == [Segment(axis.name, 1, axis.size)]
  {
    var comm := pre + [Full(axis.name)] + post;
    BoundariesPositive(axis, comm);
    RequestedBoundsConcat(axis.name, pre + [Full(axis.name)], post);
    RequestedBoundsConcat(axis.name, pre, [Full(axis.name)]);
    NoBounds(axis.name, pre);
    NoBounds(axis.name, post);
    assert RequestedBounds(axis.name, [Full(axis.name)]) == [] by {
      assert [Full(axis.name)][..0] == [];
    }
    var all := [1, axis.size];
    SortUniqueProperties(all);
    forall x ensures x in SortUnique(all) <==> x in all { }
    IncreasingUnique(SortUnique(all), all);
    assert RequestedBounds(axis.name, comm) == [] && all + [] == all;
    assert all[1] / all[0] == axis.size;
  }

  // ----- the two ways of naming an axis

  /** The setting: axis `a` of the mesh is proper, and `f` factors its size. */
  ghost predicate Factors(mesh: seq<MeshAxis>, a: nat, f: seq<int>) {
    ValidMesh(mesh) && DistinctNames(mesh) && a < |mesh| && f != [] && AtLeastTwo(f) && Product(f) == mesh[a].size
  }

  predicate NoPieceOf(name: string, segs: seq<Segment>) {
    forall d :: 0 <= d < |segs| ==> segs[d].axisName != name
  }

  lemma FactorsSize(mesh: seq<MeshAxis>, a: nat, f: seq<int>)
    requires Factors(mesh, a, f)
    ensures mesh[a].size >= 2
  {
    CutsIncrease(f, 0, |f|);
    CutStep(f, 0);
  }

  lemma {:induction false} OtherAxesApart(mesh: seq<MeshAxis>, a: nat, comm: seq<AxisRef>)
    requires ValidMesh(mesh) && DistinctNames(mesh) && a < |mesh| && PositiveRefs(comm)
    ensures NoPieceOf(mesh[a].name, Splits(mesh[..a], comm)) && NoPieceOf(mesh[a].name, Splits(mesh[a + 1..], comm))
  {
    forall b | 0 <= b < a ensures mesh[..a][b].name != mesh[a].name { assert mesh[..a][b] == mesh[b]; }
    OtherNames(mesh[..a], mesh[a].name, comm);
    var right := mesh[a + 1..];
    forall b | 0 <= b < |right| ensures right[b].name != mesh[a].name { assert right[b] == mesh[a + 1 + b]; }
    OtherNames(right, mesh[a].name, comm);
  }

  lemma {:induction false} OtherNames(part: seq<MeshAxis>, name: string, comm: seq<AxisRef>)
    requires ValidMesh(part) && PositiveRefs(comm) && forall b :: 0 <= b < |part| ==> part[b].name != name
    ensures NoPieceOf(name, Splits(part, comm))
  {
    forall d | 0 <= d < |Splits(part, comm)| ensures Splits(part, comm)[d].axisName != name { SplitsNames(part, comm, d); }
  }

  lemma {:induction false} SplitsAround(mesh: seq<MeshAxis>, a: nat, comm: seq<AxisRef>)
    requires ValidMesh(mesh) && a < |mesh| && PositiveRefs(comm)
    ensures ValidMesh(mesh[..a]) && ValidMesh(mesh[a + 1..]) && mesh[a].size >= 1
    ensures Splits(mesh, comm) == Splits(mesh[..a], comm) + AxisSegments(mesh[a], comm) + Splits(mesh[a + 1..], comm)
  {
    SplitAt(mesh, a);
    SplitsMiddle(mesh[..a], mesh[a], mesh[a + 1..], comm);
  }

  lemma SplitsMiddle(x: seq<MeshAxis>, axis: MeshAxis, y: seq<MeshAxis>, comm: seq<AxisRef>)
    requires ValidMesh(x) && axis.size >= 1 && ValidMesh(y) && PositiveRefs(comm)
    ensures ValidMesh(x + [axis] + y)
    ensures Splits(x + [axis] + y, comm) == Splits(x, comm) + AxisSegments(axis, comm) + Splits(y, comm)
  {
    SplitsAppend(x, axis, comm);
    SplitsConcat(x + [axis], y, comm);
  }

  /** Both namings split every other axis the same way. */
  lemma {:induction false} SameOtherSplits(mesh: seq<MeshAxis>, a: nat, f: seq<int>, pre: seq<AxisRef>, post: seq<AxisRef>,
                                           part: seq<MeshAxis>)
    requires Factors(mesh, a, f) && ValidMesh(part)
    requires forall b :: 0 <= b < |part| ==> part[b].name != mesh[a].name
    requires PositiveRefs(pre + [Full(mesh[a].name)] + post) && PositiveRefs(pre + ChainRefs(mesh[a].name, f) + post)
    ensures Splits(part, pre + [Full(mesh[a].name)] + post) == Splits(part, pre + ChainRefs(mesh[a].name, f) + post)
  {
    forall b | 0 <= b < |part|
      ensures AxisSegments(part[b], pre + [Full(mesh[a].name)] + post)
              == AxisSegments(part[b], pre + ChainRefs(mesh[a].name, f) + post)
    {
      OtherAxisSegments(part[b], pre, [Full(mesh[a].name)], ChainRefs(mesh[a].name, f), post);
    }
    SplitsCongruence(part, pre + [Full(mesh[a].name)] + post, pre + ChainRefs(mesh[a].name, f) + post);
  }

  /** The segment lists differ only in the middle: one whole segment against the chain of pieces. */
  lemma {:induction false} BothSplits(mesh: seq<MeshAxis>, a: nat, f: seq<int>, pre: seq<AxisRef>, post: seq<AxisRef>)
    returns (x: seq<Segment>, y: seq<Segment>)
    requires Factors(mesh, a, f) && NoneNamed(mesh[a].name, pre) && NoneNamed(mesh[a].name, post)
    requires PositiveRefs(pre + [Full(mesh[a].name)] + post) && PositiveRefs(pre + ChainRefs(mesh[a].name, f) + post)
    ensures Splits(mesh, pre + [Full(mesh[a].name)] + post) == x + [Segment(mesh[a].name, 1, mesh[a].size)] + y
    ensures Splits(mesh, pre + ChainRefs(mesh[a].name, f) + post) == x + ChainSegments(mesh[a].name, f) + y
    ensures NoPieceOf(mesh[a].name, x) && NoPieceOf(mesh[a].name, y)
  {
    FactorsSize(mesh, a, f);
    var c, c' := pre + [Full(mesh[a].name)] + post, pre + ChainRefs(mesh[a].name, f) + post;
    SplitsAround(mesh, a, c);
    SplitsAround(mesh, a, c');
    x, y := Splits(mesh[..a], c), Splits(mesh[a + 1..], c);
    forall b | 0 <= b < a ensures mesh[..a][b].name != mesh[a].name { assert mesh[..a][b] == mesh[b]; }
    SameOtherSplits(mesh, a, f, pre, post, mesh[..a]);
    SameOtherSplits(mesh, a, f, pre, post, mesh[a + 1..]);
    FullAxisSegments(mesh[a], pre, post);
    ChainAxisSegments(mesh[a], pre, f, post);
    OtherAxesApart(mesh, a, c);
  }

  /** Requests for other axes are found in the same place, up to the shift. */
  lemma {:induction false} OtherLookups(mesh: seq<MeshAxis>, name: string, comm: seq<AxisRef>,
                                        x: seq<Segment>, size: int, f: seq<int>, y: seq<Segment>)
    requires NoneNamed(name, comm)
    ensures var found := Lookups(mesh, x + [Segment(name, 1, size)] + y, comm);
            var found' := Lookups(mesh, x + ChainSegments(name, f) + y, comm);
            |found| == |found'| && forall i :: 0 <= i < |found| ==>
              found'[i] == (if found[i] == -1 then -1 else Shift(found[i], |x|, |f|)) && found[i] != |x|
  {
    forall i | 0 <= i < |comm|
      ensures var w := Request(mesh, comm[i]);
              var at := Lookup(x + [Segment(name, 1, size)] + y, w);
              Lookup(x + ChainSegments(name, f) + y, w) == (if at == -1 then -1 else Shift(at, |x|, |f|)) && at != |x|
    {
      LookupAround(x, [Segment(name, 1, size)], ChainSegments(name, f), y, Request(mesh, comm[i]));
    }
  }

  lemma {:induction false} ChainLookups(mesh: seq<MeshAxis>, name: string, x: seq<Segment>, f: seq<int>, y: seq<Segment>)
    requires AtLeastTwo(f) && NoPieceOf(name, x)
    ensures Lookups(mesh, x + ChainSegments(name, f) + y, ChainRefs(name, f)) == Range(|x|, |f|)
  {
    var found := Lookups(mesh, x + ChainSegments(name, f) + y, ChainRefs(name, f));
    forall j | 0 <= j < |f| ensures found[j] == |x| + j {
      assert Request(mesh, ChainRefs(name, f)[j]) == ChainSegments(name, f)[j];
      ChainLookup(name, x, f, y, j);
    }
    IsRange(found, |x|, |f|);
  }

  lemma IsRange(s: seq<int>, d: int, n: nat)
    requires |s| == n && forall j :: 0 <= j < n ==> s[j] == d + j
    ensures s == Range(d, n)
  {
  }

  lemma {:induction false} ChainLookup(name: string, x: seq<Segment>, f: seq<int>, y: seq<Segment>, j: nat)
    requires AtLeastTwo(f) && NoPieceOf(name, x) && j < |f|
    ensures Lookup(x + ChainSegments(name, f) + y, ChainSegments(name, f)[j]) == |x| + j
  {
    var m := ChainSegments(name, f);
    assert m[j] in m && m[j] !in x;
    IndexOfConcat(x, m + y, m[j]);
    IndexOfConcat(m, y, m[j]);
    ConcatAssociative(x, m, y);
    var i := IndexOf(m, m[j]);
    if i < j { CutsIncrease(f, i, j); }
  }

  /** Shifting preserves which lookups fail or coincide. */
  lemma {:induction false} CheckedAround(p: seq<int>, q: seq<int>, p': seq<int>, q': seq<int>, d: int, k: nat)
    requires d >= 0 && k >= 1 && |p| == |p'| && |q| == |q'|
    requires forall i :: 0 <= i < |p| ==> p[i] >= -1 && p[i] != d && p'[i] == (if p[i] == -1 then -1 else Shift(p[i], d, k))
    requires forall i :: 0 <= i < |q| ==> q[i] >= -1 && q[i] != d && q'[i] == (if q[i] == -1 then -1 else Shift(q[i], d, k))
    ensures Checked(p' + Range(d, k) + q').Some? <==> Checked(p + [d] + q).Some?
    ensures Checked(p + [d] + q).Some? ==> p' + Range(d, k) + q' == RefineIndices(p, q, d, k)
  {
    var coarse, fine := p + [d] + q, p' + Range(d, k) + q';
    if Checked(coarse).Some? {
      forall i | 0 <= i < |p| ensures p[i] != -1 { assert coarse[i] == p[i]; assert coarse[i] in coarse; }
      forall i | 0 <= i < |q| ensures q[i] != -1 { assert coarse[|p| + 1 + i] == q[i]; assert coarse[|p| + 1 + i] in coarse; }
      assert p' == ShiftAll(p, d, k) && q' == ShiftAll(q, d, k);
      RefineDistinct(p, q, d, k);
      assert forall i :: 0 <= i < |fine| ==> fine[i] >= 0;
    }
    if Checked(fine).Some? {
      forall i | 0 <= i < |coarse| ensures coarse[i] != -1 {
        assert fine[if i <= |p| then i else i + k - 1] in fine;
      }
      forall i, j | 0 <= i < j < |coarse| ensures coarse[i] != coarse[j] {
        assert fine[if i <= |p| then i else i + k - 1] != fine[if j <= |p| then j else j + k - 1];
      }
    }
  }

  /** When nothing else refers to the axis, both namings are accepted alike, and the grid of the chain
      refines the grid of the full axis. */
  lemma {:induction false} ReindexChain(mesh: seq<MeshAxis>, a: nat, f: seq<int>, pre: seq<AxisRef>, post: seq<AxisRef>)
    returns (d: int, g: seq<int>, h: seq<int>)
    requires Factors(mesh, a, f) && NoneNamed(mesh[a].name, pre) && NoneNamed(mesh[a].name, post)
    requires PositiveRefs(pre + [Full(mesh[a].name)] + post) && PositiveRefs(pre + ChainRefs(mesh[a].name, f) + post)
    ensures var c, c' := pre + [Full(mesh[a].name)] + post, pre + ChainRefs(mesh[a].name, f) + post;
            var segs, segs' := Splits(mesh, c), Splits(mesh, c');
            && 0 <= d < |segs| && segs[d].size == Product(f) && Sizes(segs') == Refine(Sizes(segs), d, f)
            && (GroupedIndices(mesh, segs, c).Some? <==> GroupedIndices(mesh, segs', c').Some?)
            && (GroupedIndices(mesh, segs, c).Some? ==>
                  GroupedIndices(mesh, segs, c).value == g + [d] + h
                  && GroupedIndices(mesh, segs', c').value == RefineIndices(g, h, d, |f|))
  {
    var name, size := mesh[a].name, mesh[a].size;
    var c, c' := pre + [Full(name)] + post, pre + ChainRefs(name, f) + post;
    var x, y := BothSplits(mesh, a, f, pre, post);
    var segs, segs' := x + [Segment(name, 1, size)] + y, x + ChainSegments(name, f) + y;
    d, g, h := |x|, Lookups(mesh, segs, pre), Lookups(mesh, segs, post);
    assert segs[d] == Segment(name, 1, size);
    RefinedSizes(name, x, size, f, y);
    GroupedAsLookups(mesh, segs, c);
    GroupedAsLookups(mesh, segs', c');
    FullLookup(mesh, a, x, y);
    LookupsConcat(mesh, segs, pre, [Full(name)], post);
    LookupsConcat(mesh, segs', pre, ChainRefs(name, f), post);
    ChainLookups(mesh, name, x, f, y);
    OtherLookups(mesh, name, pre, x, size, f, y);
    OtherLookups(mesh, name, post, x, size, f, y);
    CheckedAround(g, h, Lookups(mesh, segs', pre), Lookups(mesh, segs', post), d, |f|);
  }

  lemma LookupsConcat(mesh: seq<MeshAxis>, segs: seq<Segment>, pre: seq<AxisRef>, mid: seq<AxisRef>, post: seq<AxisRef>)
    ensures Lookups(mesh, segs, pre + mid + post)
            == Lookups(mesh, segs, pre) + Lookups(mesh, segs, mid) + Lookups(mesh, segs, post)
  {
  }

  lemma {:induction false} FullLookup(mesh: seq<MeshAxis>, a: nat, x: seq<Segment>, y: seq<Segment>)
    requires ValidMesh(mesh) && DistinctNames(mesh) && a < |mesh| && NoPieceOf(mesh[a].name, x)
    ensures Lookups(mesh, x + [Segment(mesh[a].name, 1, mesh[a].size)] + y, [Full(mesh[a].name)]) == [|x|]
  {
    var s := Segment(mesh[a].name, 1, mesh[a].size);
    DistinctFind(mesh, a);
    assert s !in x && s in [s];
    IndexOfConcat(x, [s] + y, s);
    IndexOfConcat([s], y, s);
    ConcatAssociative(x, [s], y);
  }

  lemma RefinedSizes(name: string, x: seq<Segment>, size: int, f: seq<int>, y: seq<Segment>)
    ensures Sizes(x + ChainSegments(name, f) + y) == Refine(Sizes(x + [Segment(name, 1, size)] + y), |x|, f)
  {
  }

  // ----- another reference to the same axis is rejected either way

  /** Positions b, b+1, ... of the communication request the pieces of `f`, in order. */
  ghost predicate Covered(mesh: seq<MeshAxis>, name: string, f: seq<int>, comm: seq<AxisRef>, b: nat) {
    b + |f| <= |comm| && forall j :: 0 <= j < |f| ==> Request(mesh, comm[b + j]) == ChainSegments(name, f)[j]
  }

  /** A complete cover of an axis leaves no room for any other piece of it. */
  lemma {:induction false} CoverExcludes(mesh: seq<MeshAxis>, a: nat, f: seq<int>, comm: seq<AxisRef>, b: nat, i: nat)
    requires Factors(mesh, a, f) && ValidRefs(mesh, comm) && PositiveRefs(comm)
    requires Covered(mesh, mesh[a].name, f, comm, b)
    requires i < |comm| && !(b <= i < b + |f|) && comm[i].name == mesh[a].name
    ensures GroupedIndices(mesh, Splits(mesh, comm), comm).None?
  {
    var segs := Splits(mesh, comm);
    if GroupedIndices(mesh, segs, comm).Some? {
      var g := GroupedIndices(mesh, segs, comm).value;
      FactorsSize(mesh, a, f);
      PieceStart(mesh, a, comm, g[i]);
      SplitsOrdered(mesh, comm);
      CutStep(f, 0);
      CoveredPieces(mesh, segs, mesh[a].name, f, comm, g, b);
      var k := CoveringPiece(segs, mesh[a].name, f, g, b, g[i]);
      DistinctAt(g, i, k);
    }
  }

  /** Entries b, b+1, ... of `g` are the pieces of `f`, in order. */
  ghost predicate CoveredBy(segs: seq<Segment>, g: seq<int>, name: string, f: seq<int>, b: nat) {
    InRange(g, |segs|) && b + |f| <= |g| && forall j :: 0 <= j < |f| ==> segs[g[b + j]] == ChainSegments(name, f)[j]
  }

  lemma CoveredPieces(mesh: seq<MeshAxis>, segs: seq<Segment>, name: string, f: seq<int>, comm: seq<AxisRef>, g: seq<int>, b: nat)
    requires Covered(mesh, name, f, comm, b) && |g| == |comm| && InRange(g, |segs|)
    requires forall i :: 0 <= i < |comm| ==> segs[g[i]] == Request(mesh, comm[i])
    ensures CoveredBy(segs, g, name, f, b)
  {
  }

  /** In an ordered list, a piece that starts inside an axis covered by the pieces of `f` is one of them. */
  lemma {:induction false} CoveringPiece(segs: seq<Segment>, name: string, f: seq<int>, g: seq<int>, b: nat, d: nat)
    returns (k: nat)
    requires Ordered(segs) && AtLeastTwo(f) && CoveredBy(segs, g, name, f, b)
    requires d < |segs| && segs[d].axisName == name && 1 <= segs[d].preSize < Cuts(f)[|f|]
    ensures b <= k < b + |f| && g[k] == d
  {
    var j := FindSlot(f, segs[d].preSize, |f|);
    CutStep(f, j);
    k := b + j;
    assert segs[g[k]] == ChainSegments(name, f)[j];
    SlotTaken(segs, d, g[k], Cuts(f)[j], Cuts(f)[j + 1]);
  }

  lemma DistinctAt(g: seq<int>, i: nat, j: nat)
    requires Distinct(g) && i < |g| && j < |g| && i != j
    ensures g[i] != g[j]
  {
  }

  /** A piece that starts within another piece of the same axis is that piece. */
  lemma {:induction false} SlotTaken(segs: seq<Segment>, d: nat, e: nat, lo: int, hi: int)
    requires Ordered(segs) && d < |segs| && e < |segs| && segs[d].axisName == segs[e].axisName
    requires segs[e].preSize == lo && lo * segs[e].size == hi && lo <= segs[d].preSize < hi
    ensures d == e
  {
  }

  /** Every piece of an axis starts inside it. */
  lemma {:induction false} PieceStart(mesh: seq<MeshAxis>, a: nat, comm: seq<AxisRef>, d: nat)
    requires ValidMesh(mesh) && DistinctNames(mesh) && a < |mesh| && mesh[a].size >= 2
    requires ValidRefs(mesh, comm) && PositiveRefs(comm)
    requires d < |Splits(mesh, comm)| && Splits(mesh, comm)[d].axisName == mesh[a].name
    ensures 1 <= Splits(mesh, comm)[d].preSize < mesh[a].size
  {
    var s := Splits(mesh, comm)[d];
    SplitsNames(mesh, comm, d);
    var a' :| 0 <= a' < |mesh| && mesh[a'].name == s.axisName && s in AxisSegments(mesh[a'], comm);
    assert a' == a;
    BoundariesPositive(mesh[a], comm);
    ValidRefsFit(mesh, comm);
    LastBoundary(mesh[a], comm);
    var bounds, own := Boundaries(mesh[a], comm), AxisSegments(mesh[a], comm);
    var j :| 0 <= j < |own| && own[j] == s;
    assert bounds[j] < bounds[|bounds| - 1];
  }

  lemma {:induction false} ChainValid(mesh: seq<MeshAxis>, a: nat, f: seq<int>)
    requires Factors(mesh, a, f)
    ensures ValidRefs(mesh, ChainRefs(mesh[a].name, f)) && ValidRefs(mesh, [Full(mesh[a].name)])
  {
    DistinctFind(mesh, a);
    forall j | 0 <= j < |f| ensures ValidRef(mesh, ChainRefs(mesh[a].name, f)[j]) {
      CutStep(f, j);
      CutDivides(f, j);
      CutDivides(f, j + 1);
    }
  }

  lemma ValidRefsConcat(mesh: seq<MeshAxis>, pre: seq<AxisRef>, mid: seq<AxisRef>, post: seq<AxisRef>)
    ensures ValidRefs(mesh, pre + mid + post) <==> ValidRefs(mesh, pre) && ValidRefs(mesh, mid) && ValidRefs(mesh, post)
  {
    var all := pre + mid + post;
    if ValidRefs(mesh, all) {
      forall i | 0 <= i < |pre| ensures ValidRef(mesh, pre[i]) { assert ValidRef(mesh, all[i]); }
      forall i | 0 <= i < |mid| ensures ValidRef(mesh, mid[i]) { assert ValidRef(mesh, all[|pre| + i]); }
      forall i | 0 <= i < |post| ensures ValidRef(mesh, post[i]) { assert ValidRef(mesh, all[|pre| + |mid| + i]); }
    }
  }

  lemma {:induction false} RepeatedAxisRejected(mesh: seq<MeshAxis>, a: nat, f: seq<int>, pre: seq<AxisRef>, post: seq<AxisRef>)
    requires Factors(mesh, a, f)
    requires !(NoneNamed(mesh[a].name, pre) && NoneNamed(mesh[a].name, post))
    ensures Reindex(mesh, pre + [Full(mesh[a].name)] + post).None?
    ensures Reindex(mesh, pre + ChainRefs(mesh[a].name, f) + post).None?
  {
    var name := mesh[a].name;
    FactorsSize(mesh, a, f);
    assert Product([mesh[a].size]) == mesh[a].size * Product([]);
    FullCovered(mesh, a, pre, post);
    OtherReference(name, pre, [Full(name)], post);
    OtherReference(name, pre, ChainRefs(name, f), post);
    RejectedCover(mesh, a, [mesh[a].size], pre, [Full(name)], post);
    RejectedCover(mesh, a, f, pre, ChainRefs(name, f), post);
  }

  lemma FullCovered(mesh: seq<MeshAxis>, a: nat, pre: seq<AxisRef>, post: seq<AxisRef>)
    requires ValidMesh(mesh) && DistinctNames(mesh) && a < |mesh|
    ensures Covered(mesh, mesh[a].name, [mesh[a].size], pre + [Full(mesh[a].name)] + post, |pre|)
  {
    DistinctFind(mesh, a);
    assert [mesh[a].size][..0] == [];
  }

  ghost predicate RefersOutside(name: string, comm: seq<AxisRef>, b: nat, k: nat, i: nat) {
    i < |comm| && !(b <= i < b + k) && comm[i].name == name
  }

  lemma OtherReference(name: string, pre: seq<AxisRef>, mid: seq<AxisRef>, post: seq<AxisRef>)
    requires !(NoneNamed(name, pre) && NoneNamed(name, post))
    ensures exists i :: RefersOutside(name, pre + mid + post, |pre|, |mid|, i)
  {
    if i :| 0 <= i < |pre| && pre[i].name == name {
      assert RefersOutside(name, pre + mid + post, |pre|, |mid|, i);
    } else {
      var i :| 0 <= i < |post| && post[i].name == name;
      assert RefersOutside(name, pre + mid + post, |pre|, |mid|, |pre| + |mid| + i);
    }
  }

  lemma {:induction false} RejectedCover(mesh: seq<MeshAxis>, a: nat, f: seq<int>,
                                         pre: seq<AxisRef>, mid: seq<AxisRef>, post: seq<AxisRef>)
    requires Factors(mesh, a, f) && |mid| == |f|
    requires Covered(mesh, mesh[a].name, f, pre + mid + post, |pre|)
    requires exists i :: RefersOutside(mesh[a].name, pre + mid + post, |pre|, |mid|, i)
    ensures Reindex(mesh, pre + mid + post).None?
  {
    var comm := pre + mid + post;
    if ValidRefs(mesh, comm) {
      ValidRefsPositive(mesh, comm);
      var i :| RefersOutside(mesh[a].name, comm, |pre|, |mid|, i);
      CoverExcludes(mesh, a, f, comm, |pre|, i);
    }
  }

  /** Listing a full axis as its complete chain of sub-axes gives exactly the same groups in the same
      order, for every mesh and whatever the other communication axes are; both are rejected together. */
  lemma {:induction false} ChainEqualsFullAxis(mesh: Mesh, a: nat, f: seq<int>, pre: seq<AxisRef>, post: seq<AxisRef>)
    requires WellFormed(mesh) && Factors(mesh.axes, a, f)
    requires EnoughDevices(mesh, pre + [Full(mesh.axes[a].name)] + post)
    ensures var name := mesh.axes[a].name;
            EnoughDevices(mesh, pre + ChainRefs(name, f) + post)
            && Flatten(mesh, pre + ChainRefs(name, f) + post) == Flatten(mesh, pre + [Full(name)] + post)
  {
    var axes, name := mesh.axes, mesh.axes[a].name;
    var c, c' := pre + [Full(name)] + post, pre + ChainRefs(name, f) + post;
    ChainValid(axes, a, f);
    ValidRefsConcat(axes, pre, [Full(name)], post);
    ValidRefsConcat(axes, pre, ChainRefs(name, f), post);
    if !(NoneNamed(name, pre) && NoneNamed(name, post)) {
      RepeatedAxisRejected(axes, a, f, pre, post);
    } else if ValidRefs(axes, c) {
      ValidRefsPositive(axes, c);
      ValidRefsPositive(axes, c');
      var d, g, h := ReindexChain(axes, a, f, pre, post);
      if Reindex(axes, c).Some? {
        ReindexedGrid(axes, c);
        RefinedGroupsEqual(Sizes(Splits(axes, c)), d, f, g, h, Devices(mesh), Volume(axes));
      }
    }
  }
}
