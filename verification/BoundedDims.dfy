/** The three inference rules on one dimension, read as operations on sets of sizes. */
module BoundedDims {
  import opened Sequences
  import opened Types

  /** A dimension of a type: its size, and its bound when the size is unknown. */
  datatype Dim = Dim(size: int, bound: int) {
    predicate Valid() {
      ValidSize(size) && ValidSize(bound) && (IsDynamic(size) || IsDynamic(bound))
    }

    /** The concrete sizes the dimension stands for. */
    predicate Has(n: int) {
      n >= 0 && (if IsStatic(size) then n == size else IsStatic(bound) ==> n <= bound)
    }
  }

  function Max(a: int, b: int): int { if a >= b then a else b }

  function Min(a: int, b: int): int { if a <= b then a else b }

  function InferConcatenatedDimAndBound(l: Dim, r: Dim): Dim {
    if IsStatic(l.size) && IsStatic(r.size) then Dim(l.size + r.size, DYNAMIC)
    else
      var leftSizeOrBound := if IsStatic(l.size) then l.size else l.bound;
      var rightSizeOrBound := if IsStatic(r.size) then r.size else r.bound;
      Dim(DYNAMIC, if IsStatic(leftSizeOrBound) && IsStatic(rightSizeOrBound) then leftSizeOrBound + rightSizeOrBound else DYNAMIC)
  }

  function InferMostSpecificDimAndBound(l: Dim, r: Dim): Option<Dim> {
    if IsStatic(l.size) || IsStatic(r.size) then
      if IsStatic(l.size) && IsStatic(r.size) && l.size != r.size then None
      else
        var inferredSize := if IsStatic(l.size) then l.size else r.size;
        var checkBound := if IsStatic(l.bound) then l.bound else r.bound;
        if (IsStatic(l.bound) || IsStatic(r.bound)) && inferredSize > checkBound then None
        else Some(Dim(inferredSize, DYNAMIC))
    else if IsStatic(l.bound) && IsStatic(r.bound) then Some(Dim(DYNAMIC, Min(l.bound, r.bound)))
    else Some(Dim(DYNAMIC, if IsStatic(l.bound) then l.bound else r.bound))
  }

  function InferLeastSpecificDimAndBound(l: Dim, r: Dim): Option<Dim> {
    if IsStatic(l.size) || IsStatic(r.size) then
      if IsStatic(l.size) && IsStatic(r.size) then
        if l.size != r.size then None else Some(Dim(l.size, DYNAMIC))
      else if IsStatic(l.bound) || IsStatic(r.bound) then
        Some(Dim(DYNAMIC, if IsStatic(l.size) then Max(l.size, r.bound) else Max(r.size, l.bound)))
      else Some(Dim(DYNAMIC, DYNAMIC))
    else if IsStatic(l.bound) && IsStatic(r.bound) then Some(Dim(DYNAMIC, Max(l.bound, r.bound)))
    else Some(Dim(DYNAMIC, DYNAMIC))
  }

  /** Size and bound of one dimension fit those of another: equal static sizes, and a static size
      within the other's bound. */
  predicate Compatible(l: Dim, r: Dim) {
    && CompatibleDims(l.size, r.size)
    && (IsStatic(r.bound) ==> r.bound >= l.size)
    && (IsStatic(l.bound) ==> l.bound >= r.size)
  }

  /** The merge computes the exact intersection, and fails if and only if it is empty, which is when
      the compatibility check fails. */
  lemma {:induction false} MostSpecificIsIntersection(l: Dim, r: Dim)
    requires l.Valid() && r.Valid()
    ensures var m := InferMostSpecificDimAndBound(l, r);
            && (m.Some? ==> m.value.Valid() && forall n :: m.value.Has(n) <==> l.Has(n) && r.Has(n))
            && (m.None? <==> forall n :: !(l.Has(n) && r.Has(n)))
            && (m.Some? <==> Compatible(l, r))
  {
    var common := if IsStatic(l.size) then l.size else if IsStatic(r.size) then r.size else 0;
    assert InferMostSpecificDimAndBound(l, r).Some? ==> l.Has(common) && r.Has(common);
  }

  /** The merge for branches is the least dimension covering both, when it does not fail. */
  lemma {:induction false} LeastSpecificIsHull(l: Dim, r: Dim, other: Dim)
    requires l.Valid() && r.Valid() && other.Valid()
    ensures var m := InferLeastSpecificDimAndBound(l, r);
            && (m.None? <==> IsStatic(l.size) && IsStatic(r.size) && l.size != r.size)
            && (m.Some? ==> m.value.Valid() && forall n :: l.Has(n) || r.Has(n) ==> m.value.Has(n))
            && (m.Some? && (forall n :: l.Has(n) || r.Has(n) ==> other.Has(n)) ==> forall n :: m.value.Has(n) ==> other.Has(n))
  {
    var m := InferLeastSpecificDimAndBound(l, r);
    if m.Some? && forall n :: l.Has(n) || r.Has(n) ==> other.Has(n) {
      Greatest(l, other);
      Greatest(r, other);
      forall n | m.value.Has(n) ensures other.Has(n) {
        assert l.Has(n) || r.Has(n) || other.Has(n);
      }
    }
  }

  /** Sizes at which a covering dimension is tested: zero, the size or bound, and one beyond the
      covering bound when there is none. */
  lemma Greatest(d: Dim, other: Dim)
    requires d.Valid() && other.Valid() && forall n :: d.Has(n) ==> other.Has(n)
    ensures IsDynamic(d.size) ==> other.Has(0)
    ensures IsStatic(d.size) ==> other.Has(d.size)
    ensures IsDynamic(d.size) && IsStatic(d.bound) ==> other.Has(d.bound)
    ensures IsDynamic(d.size) && IsDynamic(d.bound) ==> IsDynamic(other.size) && IsDynamic(other.bound)
  {
    if IsDynamic(d.size) && IsDynamic(d.bound) {
      var big := 1 + Max(Max(other.size, other.bound), 0);
      assert d.Has(big);
    }
    if IsDynamic(d.size) { assert d.Has(0); }
    if IsStatic(d.size) { assert d.Has(d.size); }
    if IsDynamic(d.size) && IsStatic(d.bound) { assert d.Has(d.bound); }
  }

  ghost predicate SumReaches(l: Dim, r: Dim, n: int) {
    exists a, b :: l.Has(a) && r.Has(b) && a + b >= n
  }

  /** Concatenation covers all sums, and its bound is the largest sum, or there is none. */
  lemma {:induction false} ConcatenatedIsSum(l: Dim, r: Dim)
    requires l.Valid() && r.Valid()
    ensures var c := InferConcatenatedDimAndBound(l, r);
            && c.Valid()
            && (forall a, b :: l.Has(a) && r.Has(b) ==> c.Has(a + b))
            && (IsStatic(c.size) <==> IsStatic(l.size) && IsStatic(r.size))
            && (IsStatic(c.bound) ==> exists a, b :: l.Has(a) && r.Has(b) && a + b == c.bound)
            && (IsDynamic(c.size) && IsDynamic(c.bound) ==> forall n :: n >= 0 ==> SumReaches(l, r, n))
  {
    var c := InferConcatenatedDimAndBound(l, r);
    if IsStatic(c.bound) {
      var a, b := Largest(l), Largest(r);
      assert l.Has(a) && r.Has(b) && a + b == c.bound;
    }
    if IsDynamic(c.size) && IsDynamic(c.bound) {
      forall n | n >= 0 ensures SumReaches(l, r, n) {
        var a := if IsStatic(l.size) || IsStatic(l.bound) then Largest(l) else n;
        var b := if IsStatic(r.size) || IsStatic(r.bound) then Largest(r) else n;
        assert l.Has(a) && r.Has(b) && a + b >= n;
      }
    }
  }

  function Largest(d: Dim): int {
    if IsStatic(d.size) then d.size else d.bound
  }

  // ----- folds

  /** Folding from the left, as the double loop does for every dimension. */
  function FoldMost(ds: seq<Dim>): Option<Dim>
    requires ds != []
  {
    if |ds| == 1 then Some(ds[0])
    else
      match FoldMost(ds[..|ds| - 1])
      case None => None
      case Some(d) => InferMostSpecificDimAndBound(d, ds[|ds| - 1])
  }

  function FoldLeast(ds: seq<Dim>): Option<Dim>
    requires ds != []
  {
    if |ds| == 1 then Some(ds[0])
    else
      match FoldLeast(ds[..|ds| - 1])
      case None => None
      case Some(d) => InferLeastSpecificDimAndBound(d, ds[|ds| - 1])
  }

  predicate AllValid(ds: seq<Dim>) {
    forall i :: 0 <= i < |ds| ==> ds[i].Valid()
  }

  predicate PairwiseCompatible(ds: seq<Dim>) {
    forall i, j :: 0 <= i < |ds| && 0 <= j < |ds| ==> Compatible(ds[i], ds[j])
  }

  /** What the fold computes, with no reference to an order: a static size if any operand has one,
      else the least of the known bounds. */
  predicate IsMeet(m: Dim, ds: seq<Dim>) {
    && m.Valid()
    && (IsStatic(m.size) ==> exists i :: 0 <= i < |ds| && ds[i].size == m.size)
    && (forall i :: 0 <= i < |ds| && IsStatic(ds[i].size) ==> ds[i].size == m.size)
    && (IsStatic(m.bound) ==> exists i :: 0 <= i < |ds| && ds[i].bound == m.bound)
    && (IsDynamic(m.size) ==> forall i :: 0 <= i < |ds| && IsStatic(ds[i].bound) ==> IsStatic(m.bound) && m.bound <= ds[i].bound)
  }

  lemma MeetUnique(m: Dim, m': Dim, ds: seq<Dim>, ds': seq<Dim>)
    requires IsMeet(m, ds) && IsMeet(m', ds')
    requires forall d :: d in ds <==> d in ds'
    ensures m == m'
  {
    MeetDetermines(m, m', ds, ds');
    MeetDetermines(m', m, ds', ds);
  }

  lemma MeetDetermines(m: Dim, m': Dim, ds: seq<Dim>, ds': seq<Dim>)
    requires IsMeet(m, ds) && IsMeet(m', ds')
    requires forall d :: d in ds ==> d in ds'
    ensures IsStatic(m.size) ==> m == m'
    ensures IsStatic(m.bound) && IsDynamic(m'.size) ==> IsStatic(m'.bound) && m'.bound <= m.bound
  {
    if IsStatic(m.size) {
      var i :| 0 <= i < |ds| && ds[i].size == m.size;
      assert ds[i] in ds';
      var j :| 0 <= j < |ds'| && ds'[j] == ds[i];
    }
    if IsStatic(m.bound) {
      var i :| 0 <= i < |ds| && ds[i].bound == m.bound;
      assert ds[i] in ds';
      var j :| 0 <= j < |ds'| && ds'[j] == ds[i];
    }
  }

  /** The fold succeeds if and only if every pair of operands is compatible, and then denotes exactly
      the sizes common to all operands. */
  lemma {:induction false} FoldMostMeaning(ds: seq<Dim>)
    requires ds != [] && AllValid(ds)
    ensures FoldMost(ds).Some? <==> PairwiseCompatible(ds)
    ensures FoldMost(ds).Some? ==> IsMeet(FoldMost(ds).value, ds)
    ensures FoldMost(ds).Some? ==> forall n :: FoldMost(ds).value.Has(n) <==> forall i :: 0 <= i < |ds| ==> ds[i].Has(n)
  {
    var n := |ds| - 1;
    if n > 0 {
      var rest, last := ds[..n], ds[n];
      FoldMostMeaning(rest);
      if FoldMost(rest).Some? {
        var m := FoldMost(rest).value;
        MostSpecificIsIntersection(m, last);
        MeetCompatible(m, rest, last);
        PairwiseSnoc(rest, last);
        assert ds == rest + [last];
        if Compatible(m, last) {
          MeetSnoc(m, rest, last);
          HasAllSnoc(m, FoldMost(ds).value, rest, last);
        }
      } else {
        PairwiseSnoc(rest, last);
        assert ds == rest + [last];
      }
    } else {
      SingleMeet(ds[0]);
      assert ds == [ds[0]];
    }
  }

  lemma SingleMeet(d: Dim)
    requires d.Valid()
    ensures IsMeet(d, [d]) && Compatible(d, d)
  {
    assert [d][0] == d;
  }

  lemma HasAllSnoc(m: Dim, m': Dim, rest: seq<Dim>, last: Dim)
    requires forall n :: m.Has(n) <==> forall i :: 0 <= i < |rest| ==> rest[i].Has(n)
    requires forall n :: m'.Has(n) <==> m.Has(n) && last.Has(n)
    ensures forall n :: m'.Has(n) <==> forall i :: 0 <= i < |rest + [last]| ==> (rest + [last])[i].Has(n)
  {
    var ds := rest + [last];
    forall n ensures m'.Has(n) <==> forall i :: 0 <= i < |ds| ==> ds[i].Has(n) {
      if forall i :: 0 <= i < |ds| ==> ds[i].Has(n) {
        assert ds[|rest|].Has(n);
        forall i | 0 <= i < |rest| ensures rest[i].Has(n) { assert ds[i].Has(n); }
      }
    }
  }

  lemma PairwiseSnoc(rest: seq<Dim>, last: Dim)
    requires last.Valid()
    ensures PairwiseCompatible(rest + [last])
            <==> PairwiseCompatible(rest) && forall i :: 0 <= i < |rest| ==> Compatible(rest[i], last)
  {
    var ds := rest + [last];
    if PairwiseCompatible(ds) {
      forall i | 0 <= i < |rest| ensures Compatible(rest[i], last) { assert Compatible(ds[i], ds[|rest|]); }
      forall i, j | 0 <= i < |rest| && 0 <= j < |rest| ensures Compatible(rest[i], rest[j]) { assert Compatible(ds[i], ds[j]); }
    }
  }

  /** Being compatible with all operands is being compatible with their meet: pairwise checks suffice. */
  lemma MeetCompatible(m: Dim, ds: seq<Dim>, d: Dim)
    requires IsMeet(m, ds) && AllValid(ds) && d.Valid()
    requires forall n :: m.Has(n) <==> forall i :: 0 <= i < |ds| ==> ds[i].Has(n)
    ensures Compatible(m, d) <==> forall i :: 0 <= i < |ds| ==> Compatible(ds[i], d)
  {
    if Compatible(m, d) {
      forall i | 0 <= i < |ds| ensures Compatible(ds[i], d) {
        MostSpecificIsIntersection(m, d);
        var n :| m.Has(n) && d.Has(n);
        assert ds[i].Has(n);
        MostSpecificIsIntersection(ds[i], d);
      }
    }
  }

  lemma MeetSnoc(m: Dim, rest: seq<Dim>, last: Dim)
    requires IsMeet(m, rest) && AllValid(rest) && last.Valid() && InferMostSpecificDimAndBound(m, last).Some?
    ensures IsMeet(InferMostSpecificDimAndBound(m, last).value, rest + [last])
  {
    var ds, r := rest + [last], InferMostSpecificDimAndBound(m, last).value;
    assert ds[|rest|] == last;
    if IsStatic(r.size) && IsStatic(m.size) {
      var i :| 0 <= i < |rest| && rest[i].size == m.size;
      assert ds[i].size == r.size;
    }
    if IsStatic(r.bound) && IsStatic(m.bound) && r.bound == m.bound {
      var i :| 0 <= i < |rest| && rest[i].bound == m.bound;
      assert ds[i].bound == r.bound;
    }
  }

  /** The order of the operands, and repetitions among them, do not matter. */
  lemma {:induction false} FoldMostIgnoresOrder(ds: seq<Dim>, ds': seq<Dim>)
    requires ds != [] && ds' != [] && AllValid(ds) && forall d :: d in ds <==> d in ds'
    ensures FoldMost(ds) == FoldMost(ds')
  {
    assert AllValid(ds') by {
      forall i | 0 <= i < |ds'| ensures ds'[i].Valid() { assert ds'[i] in ds; }
    }
    FoldMostMeaning(ds);
    FoldMostMeaning(ds');
    if PairwiseCompatible(ds) { PairwiseTransfer(ds, ds'); }
    if PairwiseCompatible(ds') { PairwiseTransfer(ds', ds); }
    if FoldMost(ds).Some? {
      MeetUnique(FoldMost(ds).value, FoldMost(ds').value, ds, ds');
    }
  }

  /** Some operand is static, or none has a bound. */
  predicate Boundless(ds: seq<Dim>) {
    (exists i :: 0 <= i < |ds| && IsStatic(ds[i].size)) || (forall i :: 0 <= i < |ds| ==> IsDynamic(ds[i].bound))
  }

  lemma FoldMostBoundless(ds: seq<Dim>)
    requires ds != [] && AllValid(ds) && FoldMost(ds).Some?
    ensures IsDynamic(FoldMost(ds).value.bound) <==> Boundless(ds)
  {
    FoldMostMeaning(ds);
    var m := FoldMost(ds).value;
    if IsStatic(m.bound) {
      var i :| 0 <= i < |ds| && ds[i].bound == m.bound;
      assert !Boundless(ds);
    }
  }

  lemma PairwiseTransfer(ds: seq<Dim>, ds': seq<Dim>)
    requires PairwiseCompatible(ds) && forall d :: d in ds' ==> d in ds
    ensures PairwiseCompatible(ds')
  {
    forall i, j | 0 <= i < |ds'| && 0 <= j < |ds'| ensures Compatible(ds'[i], ds'[j]) {
      assert ds'[i] in ds && ds'[j] in ds;
      var a :| 0 <= a < |ds| && ds[a] == ds'[i];
      var b :| 0 <= b < |ds| && ds[b] == ds'[j];
      assert Compatible(ds[a], ds[b]);
    }
  }

  /** The branch fold covers every operand when it succeeds, and succeeds whenever all operands are
      compatible with the first. */
  lemma {:induction false} FoldLeastMeaning(ds: seq<Dim>)
    requires ds != [] && AllValid(ds)
    ensures FoldLeast(ds).Some? ==> FoldLeast(ds).value.Valid()
    ensures FoldLeast(ds).Some? ==> forall i, n :: 0 <= i < |ds| && ds[i].Has(n) ==> FoldLeast(ds).value.Has(n)
    ensures (forall i :: 0 <= i < |ds| ==> Compatible(ds[0], ds[i])) ==>
              FoldLeast(ds).Some? && (IsStatic(FoldLeast(ds).value.size) ==> FoldLeast(ds).value.size == ds[0].size)
  {
    var n := |ds| - 1;
    if n > 0 {
      var rest, last := ds[..n], ds[n];
      FoldLeastMeaning(rest);
      if FoldLeast(rest).Some? {
        var m := FoldLeast(rest).value;
        LeastSpecificIsHull(m, last, last);
        if InferLeastSpecificDimAndBound(m, last).Some? {
          var r := InferLeastSpecificDimAndBound(m, last).value;
          forall i, k | 0 <= i < |ds| && ds[i].Has(k) ensures r.Has(k) {
            if i < n { assert rest[i].Has(k); }
          }
        }
      }
      if forall i :: 0 <= i < |ds| ==> Compatible(ds[0], ds[i]) {
        forall i | 0 <= i < n ensures Compatible(rest[0], rest[i]) { assert Compatible(ds[0], ds[i]); }
        assert Compatible(ds[0], ds[n]);
      }
    }
  }

  /** The branch fold knows a size exactly when all operands have it. */
  lemma {:induction false} FoldLeastSize(ds: seq<Dim>, n: int)
    requires ds != [] && FoldLeast(ds).Some? && IsStatic(n)
    ensures FoldLeast(ds).value.size == n <==> forall i :: 0 <= i < |ds| ==> ds[i].size == n
  {
    var k := |ds| - 1;
    if k > 0 {
      var rest := ds[..k];
      FoldLeastSize(rest, n);
      assert (forall i :: 0 <= i < |ds| ==> ds[i].size == n)
        <==> (forall i :: 0 <= i < |rest| ==> rest[i].size == n) && ds[k].size == n
      by {
        if forall i :: 0 <= i < |ds| ==> ds[i].size == n {
          forall i | 0 <= i < |rest| ensures rest[i].size == n { assert rest[i] == ds[i]; }
        }
        if (forall i :: 0 <= i < |rest| ==> rest[i].size == n) && ds[k].size == n {
          forall i | 0 <= i < |ds| ensures ds[i].size == n { if i < k { assert rest[i] == ds[i]; } }
        }
      }
    }
  }

  predicate NoUnknown(ds: seq<Dim>) {
    forall i :: 0 <= i < |ds| ==> IsStatic(ds[i].size)
  }

  /** Some size is unknown and has no bound. */
  predicate SomeUnbounded(ds: seq<Dim>) {
    exists i :: 0 <= i < |ds| && IsDynamic(ds[i].size) && IsDynamic(ds[i].bound)
  }

  /** The branch fold has no bound exactly when every operand is static or one is unbounded, and is static
      exactly when every operand is. */
  lemma {:induction false} FoldLeastBound(ds: seq<Dim>)
    requires ds != [] && AllValid(ds) && FoldLeast(ds).Some?
    ensures IsStatic(FoldLeast(ds).value.size) <==> NoUnknown(ds)
    ensures IsDynamic(FoldLeast(ds).value.bound) <==> NoUnknown(ds) || SomeUnbounded(ds)
  {
    var n := |ds| - 1;
    assert ds[n].Valid();
    if n > 0 {
      var rest := ds[..n];
      assert forall i :: 0 <= i < n ==> rest[i] == ds[i];
      FoldLeastBound(rest);
      FoldLeastMeaning(rest);
      assert NoUnknown(ds) <==> NoUnknown(rest) && IsStatic(ds[n].size);
      if SomeUnbounded(rest) {
        var i :| 0 <= i < n && IsDynamic(rest[i].size) && IsDynamic(rest[i].bound);
        assert IsDynamic(ds[i].size) && IsDynamic(ds[i].bound);
      }
      assert SomeUnbounded(ds) <==> SomeUnbounded(rest) || (IsDynamic(ds[n].size) && IsDynamic(ds[n].bound));
    }
  }

  /** No dimension that covers every operand is smaller than the branch fold. */
  lemma {:induction false} FoldLeastIsLeast(ds: seq<Dim>, other: Dim)
    requires ds != [] && AllValid(ds) && other.Valid() && FoldLeast(ds).Some?
    requires forall i, n :: 0 <= i < |ds| && ds[i].Has(n) ==> other.Has(n)
    ensures forall n :: FoldLeast(ds).value.Has(n) ==> other.Has(n)
  {
    var n := |ds| - 1;
    if n > 0 {
      forall i, k | 0 <= i < n && ds[..n][i].Has(k) ensures other.Has(k) { assert ds[i].Has(k); }
      FoldLeastIsLeast(ds[..n], other);
      FoldLeastMeaning(ds[..n]);
      LeastSpecificIsHull(FoldLeast(ds[..n]).value, ds[n], other);
    }
  }

  /** The dimension can have `n` or a larger size. */
  ghost predicate Reaches(d: Dim, n: int) {
    exists m :: m >= n && d.Has(m)
  }

  /** An unknown size that the branch fold infers can be anything up to what some operand can have. */
  lemma {:induction false} FoldLeastReach(ds: seq<Dim>, n: nat)
    requires ds != [] && AllValid(ds) && FoldLeast(ds).Some? && IsDynamic(FoldLeast(ds).value.size)
    ensures FoldLeast(ds).value.Has(n) <==> exists i :: 0 <= i < |ds| && Reaches(ds[i], n)
  {
    FoldLeastMeaning(ds);
    if i :| 0 <= i < |ds| && Reaches(ds[i], n) {
      var m :| m >= n && ds[i].Has(m);
      assert FoldLeast(ds).value.Has(m);
    } else {
      assert n > 0 by { SomeSize(ds[0]); }
      forall i, k | 0 <= i < |ds| && ds[i].Has(k) ensures Dim(DYNAMIC, n - 1).Has(k) {
        assert !Reaches(ds[i], n);
      }
      FoldLeastIsLeast(ds, Dim(DYNAMIC, n - 1));
    }
  }

  lemma SomeSize(d: Dim)
    requires d.Valid()
    ensures Reaches(d, 0)
  {
    assert d.Has(if IsStatic(d.size) then d.size else 0);
  }

  lemma FoldLeastSnoc(ds: seq<Dim>, d: Dim)
    requires ds != []
    ensures FoldLeast(ds + [d]) == match FoldLeast(ds) case None => None case Some(m) => InferLeastSpecificDimAndBound(m, d)
  {
    assert (ds + [d])[..|ds|] == ds;
  }

  /** Without the check against the first operand the branch fold depends on the order: an unknown size
      between two different static ones hides their conflict. */
  lemma LeastSpecificDependsOnOrder()
    ensures var two, three, any := Dim(2, DYNAMIC), Dim(3, DYNAMIC), Dim(DYNAMIC, DYNAMIC);
            FoldLeast([two, any, three]) == Some(any) && FoldLeast([two, three, any]) == None
  {
    var two, three, any := Dim(2, DYNAMIC), Dim(3, DYNAMIC), Dim(DYNAMIC, DYNAMIC);
    FoldLeastSnoc([two], any);
    FoldLeastSnoc([two, any], three);
    FoldLeastSnoc([two], three);
    FoldLeastSnoc([two, three], any);
    assert [two] + [any] == [two, any] && [two, any] + [three] == [two, any, three];
    assert [two] + [three] == [two, three] && [two, three] + [any] == [two, three, any];
  }
}
