/** The shapes of a reduction region: matching its arguments against the allowed dimensions, and the
    verifier that checks arguments and results. */
module ReducerMatching {
  import opened Sequences
  import opened Types

  /** `e` places the argument dimensions, in order, on compatible allowed dimensions. */
  predicate Embeds(e: seq<int>, allowed: seq<int>, arg: seq<int>) {
    && |e| == |arg| && StrictlyIncreasing(e) && InRange(e, |allowed|)
    && forall k :: 0 <= k < |arg| ==> 0 <= e[k] < |allowed| && CompatibleDims(allowed[e[k]], arg[k])
  }

  /** How many argument dimensions the scan has matched after the first `n` allowed ones. */
  function Matched(allowed: seq<int>, arg: seq<int>, n: nat): (m: nat)
    requires n <= |allowed|
    ensures m <= |arg|
  {
    if n == 0 then 0
    else
      var m := Matched(allowed, arg, n - 1);
      if m < |arg| && CompatibleDims(allowed[n - 1], arg[m]) then m + 1 else m
  }

  /** The matched prefix embeds. */
  lemma {:induction false} MatchedEmbeds(allowed: seq<int>, arg: seq<int>, n: nat) returns (e: seq<int>)
    requires n <= |allowed|
    ensures Embeds(e, allowed, arg[..Matched(allowed, arg, n)]) && InRange(e, n)
  {
    if n == 0 {
      e := [];
    } else {
      e := MatchedEmbeds(allowed, arg, n - 1);
      var m := Matched(allowed, arg, n - 1);
      if m < |arg| && CompatibleDims(allowed[n - 1], arg[m]) {
        e := e + [n - 1];
      }
    }
  }

  /** No prefix that embeds below `n` is longer than the matched one: taking the earliest match never hurts. */
  lemma {:induction false} MatchedLongest(allowed: seq<int>, arg: seq<int>, n: nat, e: seq<int>)
    requires n <= |allowed| && |e| <= |arg| && Embeds(e, allowed, arg[..|e|]) && InRange(e, n)
    ensures |e| <= Matched(allowed, arg, n)
  {
    if e != [] {
      var last := |e| - 1;
      if e[last] == n - 1 {
        forall k | 0 <= k < last ensures e[k] < n - 1 { assert e[k] < e[last]; }
        assert Embeds(e[..last], allowed, arg[..last]);
        MatchedLongest(allowed, arg, n - 1, e[..last]);
        assert CompatibleDims(allowed[n - 1], arg[..|e|][last]);
      } else {
        forall k | 0 <= k < |e| ensures e[k] < n - 1 { assert k < last ==> e[k] < e[last]; }
        MatchedLongest(allowed, arg, n - 1, e);
      }
    }
  }

  /** The greedy scan accepts if and only if some order-preserving embedding exists. */
  method MatchReducerArgument(allowedDimensions: seq<int>, argShape: seq<int>) returns (ok: bool)
    ensures ok <==> exists e :: Embeds(e, allowedDimensions, argShape)
  {
    if |argShape| > |allowedDimensions| {
      forall e ensures !Embeds(e, allowedDimensions, argShape) {
        if Embeds(e, allowedDimensions, argShape) { TooMany(e, |allowedDimensions|); }
      }
      return false;
    }
    var argShapeIdx := 0;
    var outputShapeIdx := 0;
    while outputShapeIdx < |allowedDimensions| && argShapeIdx < |argShape|
      invariant outputShapeIdx <= |allowedDimensions|
      invariant argShapeIdx == Matched(allowedDimensions, argShape, outputShapeIdx)
    {
      if CompatibleDims(allowedDimensions[outputShapeIdx], argShape[argShapeIdx]) {
        argShapeIdx := argShapeIdx + 1;
      }
      outputShapeIdx := outputShapeIdx + 1;
    }
    if argShapeIdx == |argShape| {
      ghost var e := MatchedEmbeds(allowedDimensions, argShape, outputShapeIdx);
      assert argShape[..argShapeIdx] == argShape;
      assert Embeds(e, allowedDimensions, argShape);
      return true;
    }
    forall e ensures !Embeds(e, allowedDimensions, argShape) {
      if Embeds(e, allowedDimensions, argShape) {
        assert argShape[..|e|] == argShape;
        MatchedLongest(allowedDimensions, argShape, |allowedDimensions|, e);
      }
    }
    return false;
  }

  lemma {:induction false} TooMany(e: seq<int>, n: nat)
    requires StrictlyIncreasing(e) && InRange(e, n)
    ensures |e| <= n
  {
    if e != [] {
      var last := |e| - 1;
      forall k | 0 <= k < last ensures e[k] < e[last] { }
      TooMany(e[..last], e[last]);
    }
  }

  ghost predicate Embeddable(allowed: seq<int>, arg: seq<int>) {
    exists e :: Embeds(e, allowed, arg)
  }

  /** `c` gives the shape `s` with a size for every unknown one. */
  predicate Fills(c: seq<int>, s: seq<int>) {
    |c| == |s| && forall d :: 0 <= d < |s| ==> c[d] != DYNAMIC && (s[d] != DYNAMIC ==> c[d] == s[d])
  }

  ghost predicate IsSubsequence(c: seq<int>, a: seq<int>) {
    exists e :: StrictlyIncreasing(e) && InRange(e, |a|) && c == Pick(a, e)
  }

  /** For some values of the unknown sizes, the argument is a subsequence of the allowed dimensions. */
  ghost predicate CanBeSubsequence(arg: seq<int>, allowed: seq<int>) {
    exists c, a :: Fills(c, arg) && Fills(a, allowed) && IsSubsequence(c, a)
  }

  lemma {:induction false} EmbeddableIff(allowed: seq<int>, arg: seq<int>)
    ensures Embeddable(allowed, arg) <==> CanBeSubsequence(arg, allowed)
  {
    if Embeddable(allowed, arg) {
      var e :| Embeds(e, allowed, arg);
      Filled(e, allowed, arg);
    }
    if CanBeSubsequence(arg, allowed) {
      var c, a :| Fills(c, arg) && Fills(a, allowed) && IsSubsequence(c, a);
      var e :| StrictlyIncreasing(e) && InRange(e, |a|) && c == Pick(a, e);
      assert Embeds(e, allowed, arg);
    }
  }

  /** An argument dimension takes the size it is matched with where it is unknown itself, and the other way round. */
  lemma {:induction false} Filled(e: seq<int>, allowed: seq<int>, arg: seq<int>)
    requires Embeds(e, allowed, arg)
    ensures CanBeSubsequence(arg, allowed)
  {
    var c := seq(|arg|, k requires 0 <= k < |arg| =>
      if IsStatic(arg[k]) then arg[k] else if IsStatic(allowed[e[k]]) then allowed[e[k]] else 1);
    var a := seq(|allowed|, d requires 0 <= d < |allowed| =>
      if IsStatic(allowed[d]) then allowed[d] else if d in e then c[IndexOf(e, d)] else 1);
    forall k | 0 <= k < |arg| ensures a[e[k]] == c[k] {
      assert e[k] in e;
      DistinctIndex(e, k);
      assert CompatibleDims(allowed[e[k]], arg[k]);
    }
    assert c == Pick(a, e);
    assert Fills(c, arg);
    assert Fills(a, allowed);
    assert IsSubsequence(c, a);
  }

  // ----- the region

  /** The shapes a reduction region takes and yields. */
  datatype Region = Region(arguments: seq<seq<int>>, results: seq<seq<int>>)

  /** Result `i` agrees with both of its arguments and the initial value, and the second argument embeds
      into the allowed dimensions. */
  ghost predicate SlotOk(region: Region, initShapes: seq<seq<int>>, allowed: seq<int>, i: nat)
    requires |region.arguments| == 2 * |initShapes| && |region.results| == |initShapes| && i < |initShapes|
  {
    && CompatibleShapes(region.results[i], region.arguments[i])
    && CompatibleShapes(region.results[i], region.arguments[|initShapes| + i])
    && CompatibleShapes(initShapes[i], region.results[i])
    && Embeddable(allowed, region.arguments[|initShapes| + i])
  }

  ghost predicate RegionOk(region: Region, initShapes: seq<seq<int>>, allowed: seq<int>) {
    && |region.arguments| == 2 * |initShapes| && region.results != [] && |region.results| == |initShapes|
    && forall i :: 0 <= i < |initShapes| ==> SlotOk(region, initShapes, allowed, i)
  }

  /** The shape checks of the reducer verifier. */
  method VerifyReducerShape(region: Region, initShapes: seq<seq<int>>, allowedDimensions: seq<int>) returns (ok: bool)
    ensures ok == RegionOk(region, initShapes, allowedDimensions)
  {
    var numInputs := |initShapes|;
    if |region.arguments| != numInputs * 2 { return false; }
    if region.results == [] { return false; }
    if |region.results| != numInputs { return false; }
    for inputIdx := 0 to numInputs
      invariant forall i :: 0 <= i < inputIdx ==> SlotOk(region, initShapes, allowedDimensions, i)
    {
      var c := CheckSlot(region, initShapes, allowedDimensions, inputIdx);
      if !c { return false; }
    }
    return true;
  }

  method CheckSlot(region: Region, initShapes: seq<seq<int>>, allowedDimensions: seq<int>, inputIdx: nat) returns (ok: bool)
    requires |region.arguments| == 2 * |initShapes| && |region.results| == |initShapes| && inputIdx < |initShapes|
    ensures ok == SlotOk(region, initShapes, allowedDimensions, inputIdx)
  {
    if !CompatibleShapes(region.results[inputIdx], region.arguments[inputIdx]) { return false; }
    if !CompatibleShapes(region.results[inputIdx], region.arguments[|initShapes| + inputIdx]) { return false; }
    if !CompatibleShapes(initShapes[inputIdx], region.results[inputIdx]) { return false; }
    ok := MatchReducerArgument(allowedDimensions, region.arguments[|initShapes| + inputIdx]);
  }

  /** Without allowed dimensions and with scalar initial values, as in a scatter, exactly the regions over
      one or more scalars pass. */
  lemma {:induction false} ScalarRegionIff(region: Region, n: nat)
    ensures RegionOk(region, Scalars(n), [])
            <==> n >= 1 && |region.results| == n && |region.arguments| == 2 * n
                 && AllScalars(region.results) && AllScalars(region.arguments)
  {
    if |region.results| == n && |region.arguments| == 2 * n {
      forall i | 0 <= i < n
        ensures SlotOk(region, Scalars(n), [], i)
                <==> region.results[i] == [] && region.arguments[i] == [] && region.arguments[n + i] == []
      {
        ScalarSlot(region, n, i);
      }
      if RegionOk(region, Scalars(n), []) {
        forall i | 0 <= i < 2 * n ensures region.arguments[i] == [] {
          assert SlotOk(region, Scalars(n), [], if i < n then i else i - n);
        }
        forall i | 0 <= i < n ensures region.results[i] == [] { assert SlotOk(region, Scalars(n), [], i); }
      }
      if n >= 1 && AllScalars(region.results) && AllScalars(region.arguments) {
        forall i | 0 <= i < n ensures SlotOk(region, Scalars(n), [], i) {
          assert region.results[i] == [] && region.arguments[i] == [] && region.arguments[n + i] == [];
        }
      }
    }
  }

  /** The same rank, and the same size where both are known. */
  predicate Agrees(s: seq<int>, t: seq<int>) {
    |s| == |t| && forall d :: 0 <= d < |s| ==> s[d] == DYNAMIC || t[d] == DYNAMIC || s[d] == t[d]
  }

  /** The result agrees with its two arguments and its initial value, and the second argument can be a subsequence of
      the allowed dimensions. */
  ghost predicate FitTogether(result: seq<int>, first: seq<int>, second: seq<int>, initial: seq<int>, allowed: seq<int>) {
    Agrees(result, first) && Agrees(result, second) && Agrees(result, initial) && CanBeSubsequence(second, allowed)
  }

  /** There is an initial value, and for each one result and two arguments that fit together with it. */
  ghost predicate AllFit(region: Region, initShapes: seq<seq<int>>, allowed: seq<int>) {
    && initShapes != [] && |region.results| == |initShapes| && |region.arguments| == 2 * |initShapes|
    && forall i :: 0 <= i < |initShapes| ==>
         FitTogether(region.results[i], region.arguments[i], region.arguments[|initShapes| + i], initShapes[i], allowed)
  }

  lemma {:induction false} RegionIff(region: Region, initShapes: seq<seq<int>>, allowed: seq<int>)
    ensures RegionOk(region, initShapes, allowed) <==> AllFit(region, initShapes, allowed)
  {
    var n := |initShapes|;
    if RegionOk(region, initShapes, allowed) {
      forall i | 0 <= i < n
        ensures FitTogether(region.results[i], region.arguments[i], region.arguments[n + i], initShapes[i], allowed)
      {
        assert SlotOk(region, initShapes, allowed, i);
        EmbeddableIff(allowed, region.arguments[n + i]);
      }
    }
    if AllFit(region, initShapes, allowed) {
      forall i | 0 <= i < n ensures SlotOk(region, initShapes, allowed, i) {
        assert FitTogether(region.results[i], region.arguments[i], region.arguments[n + i], initShapes[i], allowed);
        EmbeddableIff(allowed, region.arguments[n + i]);
      }
    }
  }

  /** For known shapes, a region passes if and only if its results have the shapes of the initial values, its
      arguments are these shapes twice, and each of them can be a subsequence of the allowed dimensions. */
  lemma {:induction false} StaticRegionIff(region: Region, initShapes: seq<seq<int>>, allowed: seq<int>)
    requires AllStatic(region.arguments) && AllStatic(region.results) && AllStatic(initShapes)
    ensures RegionOk(region, initShapes, allowed)
            <==> && initShapes != [] && region.results == initShapes && region.arguments == initShapes + initShapes
                 && forall i :: 0 <= i < |initShapes| ==> CanBeSubsequence(initShapes[i], allowed)
  {
    var n := |initShapes|;
    forall i | 0 <= i < n ensures Embeddable(allowed, initShapes[i]) <==> CanBeSubsequence(initShapes[i], allowed) {
      EmbeddableIff(allowed, initShapes[i]);
    }
    if RegionOk(region, initShapes, allowed) {
      forall i | 0 <= i < n
        ensures region.results[i] == initShapes[i] && region.arguments[i] == initShapes[i] && region.arguments[n + i] == initShapes[i]
        ensures Embeddable(allowed, initShapes[i])
      {
        assert SlotOk(region, initShapes, allowed, i);
        StaticSlotIff(region, initShapes, allowed, i);
      }
      TwiceIff(region.arguments, initShapes);
      assert region.results == initShapes;
    }
    if region.results == initShapes && region.arguments == initShapes + initShapes {
      forall i | 0 <= i < n && Embeddable(allowed, initShapes[i]) ensures SlotOk(region, initShapes, allowed, i) {
        StaticSlotIff(region, initShapes, allowed, i);
      }
    }
  }

  lemma StaticSlotIff(region: Region, initShapes: seq<seq<int>>, allowed: seq<int>, i: nat)
    requires AllStatic(region.arguments) && AllStatic(region.results) && AllStatic(initShapes)
    requires |region.arguments| == 2 * |initShapes| && |region.results| == |initShapes| && i < |initShapes|
    ensures SlotOk(region, initShapes, allowed, i)
            <==> && region.results[i] == initShapes[i] && region.arguments[i] == initShapes[i]
                 && region.arguments[|initShapes| + i] == initShapes[i] && Embeddable(allowed, initShapes[i])
  {
    StaticSlot(region.results[i], region.arguments[i]);
    StaticSlot(region.results[i], region.arguments[|initShapes| + i]);
    StaticSlot(initShapes[i], region.results[i]);
  }

  predicate AllStatic(shapes: seq<seq<int>>) {
    forall i, d :: 0 <= i < |shapes| && 0 <= d < |shapes[i]| ==> IsStatic(shapes[i][d])
  }

  lemma StaticSlot(s: seq<int>, t: seq<int>)
    requires (forall d :: 0 <= d < |s| ==> IsStatic(s[d])) && (forall d :: 0 <= d < |t| ==> IsStatic(t[d]))
    ensures CompatibleShapes(s, t) <==> s == t
  {
  }

  lemma TwiceIff(all: seq<seq<int>>, half: seq<seq<int>>)
    requires |all| == 2 * |half|
    ensures all == half + half <==> forall i :: 0 <= i < |half| ==> all[i] == half[i] && all[|half| + i] == half[i]
  {
    if forall i :: 0 <= i < |half| ==> all[i] == half[i] && all[|half| + i] == half[i] {
      forall k | 0 <= k < |all| ensures all[k] == (half + half)[k] {
        var i := if k < |half| then k else k - |half|;
        assert all[i] == half[i] && all[|half| + i] == half[i];
      }
    }
  }

  predicate AllScalars(shapes: seq<seq<int>>) {
    forall i :: 0 <= i < |shapes| ==> shapes[i] == []
  }

  lemma ScalarSlot(region: Region, n: nat, i: nat)
    requires |region.results| == n && |region.arguments| == 2 * n && i < n
    ensures SlotOk(region, Scalars(n), [], i)
            <==> region.results[i] == [] && region.arguments[i] == [] && region.arguments[n + i] == []
  {
    assert Embeds([], [], []);
    if Embeddable([], region.arguments[n + i]) {
      var e :| Embeds(e, [], region.arguments[n + i]);
    }
  }

  function Scalars(n: nat): (r: seq<seq<int>>)
    ensures |r| == n && forall i :: 0 <= i < n ==> r[i] == []
  {
    seq(n, _ => [])
  }
}
