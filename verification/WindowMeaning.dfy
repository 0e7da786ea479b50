/** What reduce_window, pad and slice accept and infer, stated on the attributes and the operand. */
module WindowMeaning {
  import opened Sequences
  import opened Types
  import opened BoundedInference
  import opened Windows

  // ----- window attributes

  /** Absent, or one entry for each of n dimensions. */
  predicate OnePer<T(==)>(s: seq<T>, n: nat) { s == [] || |s| == n }

  /** Attributes make a window if and only if each is absent or has an entry per dimension, known sizes are at least
      1, and so are strides and dilations. */
  lemma {:induction false} WindowIff(dims: seq<int>, strides: seq<int>, padding: seq<(int, int)>, baseDilations: seq<int>,
                                     windowDilations: seq<int>, windowReversal: seq<bool>)
    ensures CheckedWindow(dims, strides, padding, baseDilations, windowDilations, windowReversal).Some?
            <==> && OnePer(strides, |dims|) && OnePer(padding, |dims|) && OnePer(baseDilations, |dims|)
                 && OnePer(windowDilations, |dims|) && OnePer(windowReversal, |dims|)
                 && (forall i :: 0 <= i < |dims| ==> dims[i] == DYNAMIC || dims[i] >= 1)
                 && Positive(strides) && Positive(baseDilations) && Positive(windowDilations)
  {
    if SizesMatch(dims, strides, padding, baseDilations, windowDilations) {
      var window := WindowOf(dims, strides, padding, baseDilations, windowDilations);
      if ValidWindow(window) {
        forall i | 0 <= i < |dims|
          ensures dims[i] == DYNAMIC || dims[i] >= 1
          ensures strides != [] ==> strides[i] >= 1
          ensures baseDilations != [] ==> baseDilations[i] >= 1
          ensures windowDilations != [] ==> windowDilations[i] >= 1
        {
          assert ValidWindowDim(window[i]);
        }
      }
    }
  }

  /** A window dimension takes its size, stride, padding and dilations from the attributes; an absent stride or
      dilation is 1, and absent padding 0. */
  lemma WindowIs(dims: seq<int>, strides: seq<int>, padding: seq<(int, int)>, baseDilations: seq<int>,
                 windowDilations: seq<int>, windowReversal: seq<bool>, i: nat)
    requires CheckedWindow(dims, strides, padding, baseDilations, windowDilations, windowReversal).Some? && i < |dims|
    ensures var w := CheckedWindow(dims, strides, padding, baseDilations, windowDilations, windowReversal).value;
            && |w| == |dims| && w[i].size == dims[i]
            && (strides == [] ==> w[i].stride == 1) && (strides != [] ==> i < |strides| && w[i].stride == strides[i])
            && (baseDilations == [] ==> w[i].baseDilation == 1)
            && (baseDilations != [] ==> i < |baseDilations| && w[i].baseDilation == baseDilations[i])
            && (windowDilations == [] ==> w[i].windowDilation == 1)
            && (windowDilations != [] ==> i < |windowDilations| && w[i].windowDilation == windowDilations[i])
            && (padding == [] ==> w[i].paddingLow == 0 && w[i].paddingHigh == 0)
            && (padding != [] ==> i < |padding| && w[i].paddingLow == padding[i].0 && w[i].paddingHigh == padding[i].1)
  {
  }

  // ----- reduce_window

  /** `count` is the number of offsets, each `stride` after the last, at which `reach` entries lie within `room`. */
  ghost predicate CountsPlaces(count: int, stride: int, reach: int, room: int) {
    count >= 0 && forall q :: q >= 0 ==> (q < count <==> q * stride + reach <= room)
  }

  /** The extent of a dilated window, and of a dilated and then padded array of `base` entries. */
  function Reach(w: WindowDim): int { (w.size - 1) * w.windowDilation + 1 }

  function Room(base: int, w: WindowDim): int {
    w.paddingLow + (if base == 0 then 0 else (base - 1) * w.baseDilation + 1) + w.paddingHigh
  }

  lemma {:induction false} OutputCounts(base: int, w: WindowDim)
    requires ValidWindowDim(w) && w.size != DYNAMIC && base >= 0
    ensures CountsPlaces(OutputDim(base, w), w.stride, Reach(w), Room(base, w))
  {
    OutputMonotone(base, base, w);
    var reach, room := DilatedBound(w.size, w.windowDilation), PaddedBase(base, w);
    forall q | q >= 0 ensures q < OutputDim(base, w) <==> FitsAt(q, room, reach, w.stride) { OutputCountsPositions(base, w, q); }
    FitsCounts(OutputDim(base, w), w.stride, reach, room);
  }

  lemma FitsCounts(count: int, stride: int, reach: int, room: int)
    requires count >= 0 && forall q :: q >= 0 ==> (q < count <==> FitsAt(q, room, reach, stride))
    ensures CountsPlaces(count, stride, reach, room)
  {
    forall q | q >= 0 ensures q < count <==> q * stride + reach <= room { assert FitsAt(q, room, reach, stride) <==> q * stride + reach <= room; }
  }

  /** The result size is known when those of operand and window are, and counts the places of the window. When the
      operand has a bound instead, the result has one too: the count for an operand as large as its bound. */
  lemma {:induction false} ReduceWindowExact(t: TensorType, window: seq<WindowDim>, d: nat)
    requires t.WellFormed() && |window| == t.Rank() && ValidWindow(window) && d < t.Rank()
    ensures var u := ReduceWindowType(t, window);
            && u.WellFormed() && u.Rank() == t.Rank()
            && (t.shape[d] != DYNAMIC && window[d].size != DYNAMIC ==>
                  CountsPlaces(u.shape[d], window[d].stride, Reach(window[d]), Room(t.shape[d], window[d])))
            && (t.shape[d] == DYNAMIC || window[d].size == DYNAMIC ==> u.shape[d] == DYNAMIC)
            && (t.Bound(d) != DYNAMIC && window[d].size != DYNAMIC ==>
                  CountsPlaces(u.Bound(d), window[d].stride, Reach(window[d]), Room(t.Bound(d), window[d])))
            && (t.Bound(d) == DYNAMIC || window[d].size == DYNAMIC ==> u.Bound(d) == DYNAMIC)
  {
    ReduceWindowSound(t, window, []);
    if t.shape[d] != DYNAMIC && window[d].size != DYNAMIC { OutputCounts(t.shape[d], window[d]); }
    if t.Bound(d) != DYNAMIC && window[d].size != DYNAMIC {
      DimOfValid(t, d);
      OutputCounts(t.Bound(d), window[d]);
    }
  }

  /** The op is accepted if and only if there is an input, all have the rank of the window and sizes that agree with
      the first where both are known, the padding attribute is absent or holds pairs, and the window is valid. Every
      input then has a result, inferred with this window. */
  lemma {:induction false} ReduceWindowIff(inputs: seq<TensorType>, dims: seq<int>, strides: seq<int>, padding: Option<DenseAttr>,
                                           baseDilations: seq<int>, windowDilations: seq<int>)
    requires AllWellFormed(inputs)
    ensures ReduceWindowTypes(inputs, dims, strides, padding, baseDilations, windowDilations).Some?
            <==> && inputs != []
                 && (forall k :: 0 <= k < |inputs| ==> |inputs[k].shape| == |dims|)
                 && (forall k, d :: 0 <= k < |inputs| && 0 <= d < |dims| ==>
                       var l, r := inputs[0].shape[d], inputs[k].shape[d]; l == DYNAMIC || r == DYNAMIC || l == r)
                 && (padding.Some? ==> |padding.value.shape| == 2 && padding.value.shape[1] == 2)
                 && CheckedWindow(dims, strides, if padding.None? then [] else Pairs(padding.value.values),
                                  baseDilations, windowDilations, []).Some?
    ensures var types := ReduceWindowTypes(inputs, dims, strides, padding, baseDilations, windowDilations);
            var window := CheckedWindow(dims, strides, if padding.None? then [] else Pairs(padding.value.values),
                                        baseDilations, windowDilations, []);
            types.Some? ==> && window.Some? && |types.value| == |inputs|
                            && forall k :: 0 <= k < |inputs| ==>
                                 |window.value| == inputs[k].Rank() && types.value[k] == ReduceWindowType(inputs[k], window.value)
  {
    FitIff(inputs, |dims|);
  }

  lemma FitIff(inputs: seq<TensorType>, rank: nat)
    ensures InputsFit(inputs, rank)
            <==> && inputs != [] && (forall k :: 0 <= k < |inputs| ==> |inputs[k].shape| == rank)
                 && (forall k, d :: 0 <= k < |inputs| && 0 <= d < rank ==>
                       var l, r := inputs[0].shape[d], inputs[k].shape[d]; l == DYNAMIC || r == DYNAMIC || l == r)
  {
    if InputsFit(inputs, rank) {
      forall k | 0 <= k < |inputs| ensures |inputs[k].shape| == rank { assert inputs[k].Rank() == rank; }
      forall k, d | 0 <= k < |inputs| && 0 <= d < rank
        ensures CompatibleDims(inputs[0].shape[d], inputs[k].shape[d])
      {
        assert k >= 1 ==> CompatibleShapes(inputs[0].shape, inputs[k].shape);
      }
    }
  }

  // ----- pad

  /** The length of n entries with `interior` more between neighbours, and with edge padding. */
  function PaddedLength(n: int, low: int, high: int, interior: int): int {
    low + (if n == 0 then 0 else n + (n - 1) * interior) + high
  }

  lemma PadSizeIs(n: int, low: int, high: int, interior: int)
    requires n >= 0
    ensures PadSize(n, low, high, interior) == PaddedLength(n, low, high, interior)
  {
  }

  /** Padding is accepted if and only if it is given for every dimension, interior padding is not negative and no known size or bound is padded to a
      negative length: edge padding itself may be negative. */
  lemma {:induction false} PaddedIff(t: TensorType, low: seq<int>, high: seq<int>, interior: seq<int>)
    requires t.WellFormed() && (|low| == t.Rank() ==> PadArgs(t, low, high, interior))
    ensures Padded(t, low, high, interior).Some?
            <==> |low| == t.Rank() && forall d :: 0 <= d < t.Rank() ==>
                   && interior[d] >= 0
                   && (t.shape[d] != DYNAMIC ==> PaddedLength(t.shape[d], low[d], high[d], interior[d]) >= 0)
                   && (t.Bound(d) != DYNAMIC ==> PaddedLength(t.Bound(d), low[d], high[d], interior[d]) >= 0)
  {
    forall d | 0 <= d < t.Rank() && |low| == t.Rank()
      ensures PadDimOk(t, d, low[d], high[d], interior[d])
              <==> && interior[d] >= 0
                   && (t.shape[d] != DYNAMIC ==> PaddedLength(t.shape[d], low[d], high[d], interior[d]) >= 0)
                   && (t.Bound(d) != DYNAMIC ==> PaddedLength(t.Bound(d), low[d], high[d], interior[d]) >= 0)
    {
      DimOfValid(t, d);
      if t.shape[d] != DYNAMIC { PadSizeIs(t.shape[d], low[d], high[d], interior[d]); }
      if t.Bound(d) != DYNAMIC { PadSizeIs(t.Bound(d), low[d], high[d], interior[d]); }
    }
  }

  /** The size and the bound of the result are the padded lengths of those of the operand, where they are known. */
  lemma {:induction false} PadExact(t: TensorType, low: seq<int>, high: seq<int>, interior: seq<int>, d: nat)
    requires t.WellFormed() && PadArgs(t, low, high, interior) && Padded(t, low, high, interior).Some? && d < t.Rank()
    ensures var u := Padded(t, low, high, interior).value;
            && u.WellFormed() && u.Rank() == t.Rank()
            && u.shape[d] == (if t.shape[d] == DYNAMIC then DYNAMIC else PaddedLength(t.shape[d], low[d], high[d], interior[d]))
            && u.Bound(d) == (if t.Bound(d) == DYNAMIC then DYNAMIC else PaddedLength(t.Bound(d), low[d], high[d], interior[d]))
  {
    PadSound(t, low, high, interior, []);
    DimOfValid(t, d);
    if t.shape[d] != DYNAMIC { PadSizeIs(t.shape[d], low[d], high[d], interior[d]); }
    if t.Bound(d) != DYNAMIC { PadSizeIs(t.Bound(d), low[d], high[d], interior[d]); }
  }

  // ----- slice

  /** A slice is accepted if and only if in every dimension start and limit are in order, not negative and within the
      size or bound where one is known, and the stride is positive. */
  lemma {:induction false} SliceableIff(t: TensorType, start: seq<int>, limit: seq<int>, strides: seq<int>)
    requires t.WellFormed() && (|start| == t.Rank() ==> SliceArgs(t, start, limit, strides))
    ensures Sliceable(t, start, limit, strides)
            <==> |start| == t.Rank() && forall d :: 0 <= d < t.Rank() ==>
                   && 0 <= start[d] <= limit[d] && strides[d] >= 1
                   && (t.shape[d] != DYNAMIC ==> limit[d] <= t.shape[d]) && (t.Bound(d) != DYNAMIC ==> limit[d] <= t.Bound(d))
  {
    forall d | 0 <= d < t.Rank() && |start| == t.Rank()
      ensures SliceDimOk(t, d, start[d], limit[d], strides[d])
              <==> && 0 <= start[d] <= limit[d] && strides[d] >= 1
                   && (t.shape[d] != DYNAMIC ==> limit[d] <= t.shape[d]) && (t.Bound(d) != DYNAMIC ==> limit[d] <= t.Bound(d))
    {
      DimOfValid(t, d);
    }
  }

  /** The slice counts the positions start, start + stride, ... below the limit. */
  lemma {:induction false} SliceCounts(start: seq<int>, limit: seq<int>, strides: seq<int>, d: nat, q: int)
    requires |start| == |limit| == |strides| && (forall k :: 0 <= k < |strides| ==> strides[k] > 0)
    requires d < |start| && start[d] <= limit[d] && q >= 0
    ensures q < SliceSizes(start, limit, strides)[d] <==> start[d] + q * strides[d] < limit[d]
  {
    BelowCeiling(q, limit[d] - start[d], strides[d]);
  }

  lemma BelowCeiling(q: int, room: int, stride: int)
    requires q >= 0 && room >= 0 && stride >= 1
    ensures q < CeilDiv(room, stride) <==> q * stride < room
  {
    var k, r := CeilDiv(room, stride), (room + stride - 1) % stride;
    BelowIff(q, k, stride, room, r);
  }

  lemma BelowIff(q: int, k: int, stride: int, room: int, r: int)
    requires stride >= 1 && 0 <= r < stride && room + stride - 1 == k * stride + r
    ensures q < k <==> q * stride < room
  {
    if q < k {
      assert q * stride <= (k - 1) * stride;
      assert (k - 1) * stride == k * stride - stride;
    } else {
      assert q * stride >= k * stride;
    }
  }
}
