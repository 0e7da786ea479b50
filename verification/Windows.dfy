/** Window arithmetic: dilation, strides, padding and slicing, and the shapes they infer. */
module Windows {
  import opened Sequences
  import opened MixedRadix
  import opened Types
  import opened BoundedDims
  import opened BoundedInference

  /** Extent of an array of `bound` entries after dilation. */
  function DilatedBound(bound: int, dilation: int): int {
    if bound == 0 then 0 else (bound - 1) * dilation + 1
  }

  /** Number of window positions; the quotient is only taken of non-negative numbers. */
  function StridedBound(bound: int, windowSize: int, stride: int): int
    requires stride >= 1
  {
    if bound == 0 || windowSize > bound then 0 else (bound - windowSize) / stride + 1
  }

  predicate FitsAt(q: int, bound: int, windowSize: int, stride: int) {
    q * stride + windowSize <= bound
  }

  /** The strided bound counts exactly the offsets at which the window fits: they are 0, 1, ..., up to
      it. The one exception is an empty window on an empty array, which fits at 0 but counts as none. */
  lemma {:induction false} StridedBoundCounts(bound: int, windowSize: int, stride: int)
    requires stride >= 1 && windowSize >= 0
    ensures (forall q :: q >= 0 ==> (q < StridedBound(bound, windowSize, stride) <==> FitsAt(q, bound, windowSize, stride)))
            <==> !(bound == 0 && windowSize == 0)
  {
    var count := StridedBound(bound, windowSize, stride);
    if bound == 0 && windowSize == 0 {
      assert FitsAt(0, bound, windowSize, stride);
    } else {
      forall q | q >= 0 ensures q < count <==> FitsAt(q, bound, windowSize, stride) {
        if windowSize > bound {
          assert q * stride >= 0;
        } else {
          FitsIffBelow(q, bound - windowSize, stride);
        }
      }
    }
  }

  lemma FitsIffBelow(q: int, room: int, stride: int)
    requires q >= 0 && room >= 0 && stride >= 1
    ensures q < room / stride + 1 <==> q * stride <= room
  {
    var k, r := room / stride, room % stride;
    assert room == k * stride + r;
    assert q <= k ==> q * stride <= k * stride;
    assert q >= k + 1 ==> q * stride >= (k + 1) * stride == k * stride + stride;
  }

  /** A larger base never has fewer window positions. */
  lemma {:induction false} StridedBoundMonotone(bound: int, larger: int, windowSize: int, stride: int)
    requires stride >= 1 && windowSize >= 0 && bound <= larger
    ensures 0 <= StridedBound(bound, windowSize, stride) <= StridedBound(larger, windowSize, stride)
  {
    StridedBoundCounts(bound, windowSize, stride);
    StridedBoundCounts(larger, windowSize, stride);
    var n := StridedBound(bound, windowSize, stride);
    if bound == 0 {
      if windowSize <= larger { QuotientNonNegative(larger - windowSize, stride); }
    } else if windowSize <= bound {
      QuotientNonNegative(bound - windowSize, stride);
      assert FitsAt(n - 1, bound, windowSize, stride);
      assert FitsAt(n - 1, larger, windowSize, stride);
    } else if windowSize <= larger {
      QuotientNonNegative(larger - windowSize, stride);
    }
  }

  lemma QuotientNonNegative(a: int, b: int)
    requires a >= 0 && b >= 1
    ensures a / b >= 0
  {
  }

  lemma DilatedBoundMonotone(bound: int, larger: int, dilation: int)
    requires dilation >= 1 && 0 <= bound <= larger
    ensures 0 <= DilatedBound(bound, dilation) <= DilatedBound(larger, dilation)
    ensures bound >= 1 ==> DilatedBound(bound, dilation) >= 1
  {
    if bound >= 1 {
      assert (bound - 1) * dilation <= (larger - 1) * dilation;
      assert (bound - 1) * dilation >= 0;
    } else if larger >= 1 {
      assert (larger - 1) * dilation >= 0;
    }
  }

  // ----- windows

  datatype WindowDim = WindowDim(size: int, stride: int, paddingLow: int, paddingHigh: int,
                                 windowDilation: int, baseDilation: int)

  predicate ValidWindowDim(w: WindowDim) {
    (IsDynamic(w.size) || w.size >= 1) && w.stride >= 1 && w.windowDilation >= 1 && w.baseDilation >= 1
  }

  predicate ValidWindow(window: seq<WindowDim>) {
    forall i :: 0 <= i < |window| ==> ValidWindowDim(window[i])
  }

  /** Window dimension `i` as the attributes give it; an absent attribute means 1, or no padding. */
  function WindowDimOf(i: nat, dims: seq<int>, strides: seq<int>, padding: seq<(int, int)>,
                       baseDilations: seq<int>, windowDilations: seq<int>): WindowDim
    requires i < |dims| && SizesMatch(dims, strides, padding, baseDilations, windowDilations)
  {
    WindowDim(dims[i], if strides == [] then 1 else strides[i],
              if padding == [] then 0 else padding[i].0, if padding == [] then 0 else padding[i].1,
              if windowDilations == [] then 1 else windowDilations[i], if baseDilations == [] then 1 else baseDilations[i])
  }

  predicate SizesMatch(dims: seq<int>, strides: seq<int>, padding: seq<(int, int)>,
                       baseDilations: seq<int>, windowDilations: seq<int>)
  {
    && (strides == [] || |strides| == |dims|) && (padding == [] || |padding| == |dims|)
    && (baseDilations == [] || |baseDilations| == |dims|) && (windowDilations == [] || |windowDilations| == |dims|)
  }

  function WindowOf(dims: seq<int>, strides: seq<int>, padding: seq<(int, int)>,
                    baseDilations: seq<int>, windowDilations: seq<int>): (r: seq<WindowDim>)
    requires SizesMatch(dims, strides, padding, baseDilations, windowDilations)
    ensures |r| == |dims|
    ensures forall i :: 0 <= i < |r| ==> r[i] == WindowDimOf(i, dims, strides, padding, baseDilations, windowDilations)
  {
    seq(|dims|, i requires 0 <= i < |dims| => WindowDimOf(i, dims, strides, padding, baseDilations, windowDilations))
  }

  /** The window of the attributes, when every present attribute has one entry per dimension and every
      window dimension has positive size, stride and dilations. */
  function CheckedWindow(dims: seq<int>, strides: seq<int>, padding: seq<(int, int)>,
                         baseDilations: seq<int>, windowDilations: seq<int>, windowReversal: seq<bool>): (r: Option<seq<WindowDim>>)
    ensures r.Some? ==> ValidWindow(r.value) && |r.value| == |dims|
  {
    if SizesMatch(dims, strides, padding, baseDilations, windowDilations)
       && (windowReversal == [] || |windowReversal| == |dims|)
       && ValidWindow(WindowOf(dims, strides, padding, baseDilations, windowDilations))
    then Some(WindowOf(dims, strides, padding, baseDilations, windowDilations))
    else None
  }

  method VerifyWindowAttributesAndInferWindowDimensions(
    dims: seq<int>, strides: seq<int>, padding: seq<(int, int)>, baseDilations: seq<int>, windowDilations: seq<int>,
    windowReversal: seq<bool>)
    returns (r: Option<seq<WindowDim>>)
    ensures r == CheckedWindow(dims, strides, padding, baseDilations, windowDilations, windowReversal)
  {
    if strides != [] && |strides| != |dims| { return None; }
    if baseDilations != [] && |baseDilations| != |dims| { return None; }
    if windowDilations != [] && |windowDilations| != |dims| { return None; }
    if padding != [] && |padding| != |dims| { return None; }
    if windowReversal != [] && |windowReversal| != |dims| { return None; }
    ghost var all := WindowOf(dims, strides, padding, baseDilations, windowDilations);
    var window := [];
    for i := 0 to |dims|
      invariant ValidWindow(window) && window == all[..i]
    {
      ghost var spec := all[i];
      var dim := WindowDim(dims[i], 1, 0, 0, 1, 1);
      if IsStatic(dim.size) && dim.size <= 0 { assert !ValidWindowDim(spec); return None; }
      if strides != [] { dim := dim.(stride := strides[i]); }
      if dim.stride <= 0 { assert !ValidWindowDim(spec); return None; }
      if baseDilations != [] { dim := dim.(baseDilation := baseDilations[i]); }
      if dim.baseDilation <= 0 { assert !ValidWindowDim(spec); return None; }
      if windowDilations != [] { dim := dim.(windowDilation := windowDilations[i]); }
      if dim.windowDilation <= 0 { assert !ValidWindowDim(spec); return None; }
      if padding != [] { dim := dim.(paddingLow := padding[i].0, paddingHigh := padding[i].1); }
      assert dim == spec && all[..i + 1] == all[..i] + [spec];
      window := window + [dim];
    }
    assert window == all;
    return Some(window);
  }

  function PaddedBase(base: int, w: WindowDim): int {
    w.paddingLow + DilatedBound(base, w.baseDilation) + w.paddingHigh
  }

  function OutputDim(base: int, w: WindowDim): int
    requires w.stride >= 1
  {
    if IsDynamic(base) || IsDynamic(w.size) then DYNAMIC
    else StridedBound(PaddedBase(base, w), DilatedBound(w.size, w.windowDilation), w.stride)
  }

  function WindowOutput(base: seq<int>, window: seq<WindowDim>): (r: seq<int>)
    requires |base| == |window| && ValidWindow(window)
    ensures |r| == |base| && forall i :: 0 <= i < |r| ==> r[i] == OutputDim(base[i], window[i])
  {
    seq(|base|, i requires 0 <= i < |base| => OutputDim(base[i], window[i]))
  }

  method InferWindowOutputShape(baseShape: seq<int>, window: seq<WindowDim>) returns (outputDimensions: seq<int>)
    requires |baseShape| == |window| && ValidWindow(window)
    ensures outputDimensions == WindowOutput(baseShape, window)
  {
    outputDimensions := seq(|window|, _ => 0);
    for i := 0 to |window|
      invariant |outputDimensions| == |window|
      invariant forall k :: 0 <= k < i ==> outputDimensions[k] == OutputDim(baseShape[k], window[k])
    {
      if IsDynamic(baseShape[i]) || IsDynamic(window[i].size) {
        outputDimensions := outputDimensions[i := DYNAMIC];
      } else {
        var dim := window[i];
        var dilatedBase := DilatedBound(baseShape[i], dim.baseDilation);
        var paddedDilatedBase := dim.paddingLow + dilatedBase + dim.paddingHigh;
        var dilatedWindow := DilatedBound(dim.size, dim.windowDilation);
        outputDimensions := outputDimensions[i := StridedBound(paddedDilatedBase, dilatedWindow, dim.stride)];
      }
    }
  }

  /** The result type of one reduce_window input: shape and bounds both go through the window. */
  function ReduceWindowType(t: TensorType, window: seq<WindowDim>): TensorType
    requires t.WellFormed() && |window| == t.Rank() && ValidWindow(window)
  {
    TensorType(WindowOutput(t.shape, window),
               if t.bounds == [] then [] else BoundsToEncoding(t.bounds, WindowOutput(t.bounds, window)))
  }

  /** There is an input, all are compatible with the first, and the window has a dimension for each of theirs. */
  predicate InputsFit(inputs: seq<TensorType>, rank: nat) {
    && inputs != []
    && (forall k :: 1 <= k < |inputs| ==> CompatibleShapes(inputs[0].shape, inputs[k].shape))
    && SameRank(inputs, rank)
  }

  method CheckInputsFit(inputs: seq<TensorType>, rank: nat) returns (ok: bool)
    ensures ok == InputsFit(inputs, rank)
  {
    if inputs == [] { return false; }
    for i := 1 to |inputs|
      invariant forall k :: 1 <= k < i ==> CompatibleShapes(inputs[0].shape, inputs[k].shape)
    {
      if !CompatibleShapes(inputs[0].shape, inputs[i].shape) { return false; }
    }
    for i := 0 to |inputs|
      invariant forall k :: 0 <= k < i ==> inputs[k].Rank() == rank
    {
      if inputs[i].Rank() != rank { return false; }
    }
    return true;
  }

  /** A dense integer attribute: the shape of the tensor and its values, row-major. */
  datatype DenseAttr = DenseAttr(shape: seq<int>, values: seq<int>) {
    predicate Valid() { (forall k :: 0 <= k < |shape| ==> shape[k] >= 0) && |values| == Product(shape) }

    /** N pairs. */
    predicate IsPairs() { |shape| == 2 && shape[1] == 2 }
  }

  function Pairs(values: seq<int>): (r: seq<(int, int)>)
    ensures |r| == |values| / 2 && forall k :: 0 <= k < |r| ==> r[k] == (values[2 * k], values[2 * k + 1])
  {
    seq(|values| / 2, k requires 0 <= k < |values| / 2 => (values[2 * k], values[2 * k + 1]))
  }

  /** The padding pairs: none without an attribute, and a failure when it does not hold pairs. */
  function PaddingOf(padding: Option<DenseAttr>): Option<seq<(int, int)>> {
    match padding
    case None => Some([])
    case Some(attr) => if attr.IsPairs() then Some(Pairs(attr.values)) else None
  }

  method ConvertPaddingAttribute(padding: Option<DenseAttr>) returns (r: Option<seq<(int, int)>>)
    ensures r == PaddingOf(padding)
  {
    if padding.None? { return Some([]); }
    var attr := padding.value;
    if |attr.shape| != 2 || attr.shape[1] != 2 { return None; }
    var pairs: seq<(int, int)> := [];
    var next := 0;
    for k := 0 to |attr.values| / 2
      invariant next == 2 * k && pairs == Pairs(attr.values)[..k]
    {
      pairs := pairs + [(attr.values[next], attr.values[next + 1])];
      next := next + 2;
    }
    assert pairs == Pairs(attr.values);
    return Some(pairs);
  }

  /** Every dimension of an N x 2 attribute has its pair. */
  lemma PairCount(attr: DenseAttr)
    requires attr.Valid() && attr.IsPairs()
    ensures |Pairs(attr.values)| == attr.shape[0]
  {
    assert attr.shape[1..] == [attr.shape[1]] && attr.shape[1..][1..] == [];
    assert Product(attr.shape[1..]) == 2 * Product([]);
  }

  method InferReduceWindowOp(inputs: seq<TensorType>, dims: seq<int>, strides: seq<int>, padding: Option<DenseAttr>,
                             baseDilations: seq<int>, windowDilations: seq<int>)
    returns (r: Option<seq<TensorType>>)
    requires AllWellFormed(inputs)
    ensures r == ReduceWindowTypes(inputs, dims, strides, padding, baseDilations, windowDilations)
  {
    var fit := CheckInputsFit(inputs, |dims|);
    if !fit { return None; }
    var pairs := ConvertPaddingAttribute(padding);
    if pairs.None? { return None; }
    var window := VerifyWindowAttributesAndInferWindowDimensions(dims, strides, pairs.value, baseDilations, windowDilations, []);
    if window.None? { return None; }
    ghost var spec := ReduceWindowTypes(inputs, dims, strides, padding, baseDilations, windowDilations).value;
    var inferred := [];
    for k := 0 to |inputs|
      invariant |inferred| == k && forall j :: 0 <= j < k ==> inferred[j] == spec[j]
    {
      var t := ReduceWindowInput(inputs[k], window.value);
      inferred := inferred + [t];
    }
    assert inferred == spec;
    return Some(inferred);
  }

  method ReduceWindowInput(input: TensorType, window: seq<WindowDim>) returns (t: TensorType)
    requires input.WellFormed() && |window| == input.Rank() && ValidWindow(window)
    ensures t == ReduceWindowType(input, window)
  {
    var resultShape := InferWindowOutputShape(input.shape, window);
    if input.bounds == [] { return TensorType(resultShape, []); }
    var resultBounds := InferWindowOutputShape(input.bounds, window);
    return TensorType(resultShape, BoundsToEncoding(input.bounds, resultBounds));
  }

  /** The result types, when the inputs fit each other and the window, and the attributes are valid. */
  function ReduceWindowTypes(inputs: seq<TensorType>, dims: seq<int>, strides: seq<int>, padding: Option<DenseAttr>,
                             baseDilations: seq<int>, windowDilations: seq<int>): (r: Option<seq<TensorType>>)
    requires AllWellFormed(inputs)
    ensures r.Some? ==> InputsFit(inputs, |dims|) && PaddingOf(padding).Some?
    ensures r.Some? ==> |r.value| == |inputs|
  {
    if !InputsFit(inputs, |dims|) || PaddingOf(padding).None? then None
    else
      match CheckedWindow(dims, strides, PaddingOf(padding).value, baseDilations, windowDilations, [])
      case None => None
      case Some(window) => Some(seq(|inputs|, k requires 0 <= k < |inputs| => ReduceWindowType(inputs[k], window)))
  }

  /** For every window that passes verification, the output size counts exactly the positions at which the
      dilated window fits the padded, dilated base. */
  lemma {:induction false} OutputCountsPositions(base: int, w: WindowDim, q: nat)
    requires ValidWindowDim(w) && IsStatic(w.size) && base >= 0
    ensures DilatedBound(w.size, w.windowDilation) >= 1
    ensures q < OutputDim(base, w) <==> FitsAt(q, PaddedBase(base, w), DilatedBound(w.size, w.windowDilation), w.stride)
  {
    DilatedBoundMonotone(w.size, w.size, w.windowDilation);
    StridedBoundCounts(PaddedBase(base, w), DilatedBound(w.size, w.windowDilation), w.stride);
  }

  /** Padding never takes a dimension below 0, whichever of its sizes it has, if and only if it does not
      shrink the smallest of them below 0: that is 0 itself when the size is unknown. */
  lemma {:induction false} PaddedBaseNonNegativeIff(d: Dim, w: WindowDim)
    requires d.Valid() && ValidWindowDim(w)
    ensures (forall n :: d.Has(n) ==> PaddedBase(n, w) >= 0)
            <==> w.paddingLow + w.paddingHigh >= -(if IsStatic(d.size) then DilatedBound(d.size, w.baseDilation) else 0)
  {
    var least := if IsStatic(d.size) then d.size else 0;
    assert d.Has(least);
    forall n | d.Has(n) ensures PaddedBase(least, w) <= PaddedBase(n, w) {
      DilatedBoundMonotone(least, n, w.baseDilation);
    }
  }

  /** A window that passes verification and hands the strided bound a negative base. */
  lemma NegativePadding()
    ensures var w := WindowDim(1, 1, -2, 0, 1, 1);
            CheckedWindow([1], [], [(-2, 0)], [], [], []) == Some([w]) && PaddedBase(1, w) == -1 && OutputDim(1, w) == 0
  {
    var w := WindowDim(1, 1, -2, 0, 1, 1);
    assert WindowOf([1], [], [(-2, 0)], [], []) == [w];
  }

  lemma {:induction false} OutputMonotone(base: int, larger: int, w: WindowDim)
    requires ValidWindowDim(w) && IsStatic(w.size) && 0 <= base <= larger
    ensures 0 <= OutputDim(base, w) <= OutputDim(larger, w)
  {
    DilatedBoundMonotone(base, larger, w.baseDilation);
    DilatedBoundMonotone(w.size, w.size, w.windowDilation);
    StridedBoundMonotone(PaddedBase(base, w), PaddedBase(larger, w), DilatedBound(w.size, w.windowDilation), w.stride);
  }

  predicate StaticWindow(window: seq<WindowDim>) {
    forall i :: 0 <= i < |window| ==> IsStatic(window[i].size)
  }

  /** The inferred type is well-formed, and holds the window output of every concrete input shape when the
      window sizes are known. */
  lemma {:induction false} ReduceWindowSound(t: TensorType, window: seq<WindowDim>, c: seq<int>)
    requires t.WellFormed() && |window| == t.Rank() && ValidWindow(window)
    ensures ReduceWindowType(t, window).WellFormed()
    ensures Inhabits(c, t) && StaticWindow(window) ==> Inhabits(WindowOutput(c, window), ReduceWindowType(t, window))
  {
    var u := ReduceWindowType(t, window);
    forall d | 0 <= d < t.Rank() ensures ValidSize(u.shape[d]) && (t.bounds != [] ==> ValidSize(WindowOutput(t.bounds, window)[d])) {
      if IsStatic(t.shape[d]) && IsStatic(window[d].size) { OutputMonotone(t.shape[d], t.shape[d], window[d]); }
      if t.bounds != [] && IsStatic(t.bounds[d]) && IsStatic(window[d].size) { OutputMonotone(t.bounds[d], t.bounds[d], window[d]); }
    }
    if Inhabits(c, t) && StaticWindow(window) {
      var out := WindowOutput(c, window);
      forall d | 0 <= d < |c| ensures DimOf(u, d).Has(out[d]) {
        assert DimOf(t, d).Has(c[d]);
        OutputMonotone(c[d], c[d], window[d]);
        if IsDynamic(t.shape[d]) && IsStatic(t.Bound(d)) { OutputMonotone(c[d], t.Bound(d), window[d]); }
      }
    }
  }

  // ----- pad

  function PadSize(n: int, low: int, high: int, interior: int): int {
    n + low + high + Max(n - 1, 0) * interior
  }

  predicate PadArgs(t: TensorType, low: seq<int>, high: seq<int>, interior: seq<int>) {
    |low| == |high| == |interior| == t.Rank()
  }

  /** The size, or else the bound, that padding applies to. */
  function SizeOrBound(t: TensorType, d: int): int
    requires 0 <= d < t.Rank() && (t.bounds == [] || |t.bounds| == t.Rank())
  {
    if IsStatic(t.shape[d]) then t.shape[d] else t.Bound(d)
  }

  predicate PadDimOk(t: TensorType, d: int, low: int, high: int, interior: int)
    requires 0 <= d < t.Rank() && (t.bounds == [] || |t.bounds| == t.Rank())
  {
    interior >= 0 && (IsStatic(SizeOrBound(t, d)) ==> PadSize(SizeOrBound(t, d), low, high, interior) >= 0)
  }

  function PadShape(t: TensorType, low: seq<int>, high: seq<int>, interior: seq<int>): (r: seq<int>)
    requires PadArgs(t, low, high, interior)
    ensures |r| == t.Rank()
    ensures forall d :: 0 <= d < |r| ==>
              r[d] == if IsStatic(t.shape[d]) then PadSize(t.shape[d], low[d], high[d], interior[d]) else DYNAMIC
  {
    seq(t.Rank(), d requires 0 <= d < t.Rank() =>
      if IsStatic(t.shape[d]) then PadSize(t.shape[d], low[d], high[d], interior[d]) else DYNAMIC)
  }

  function PadBounds(t: TensorType, low: seq<int>, high: seq<int>, interior: seq<int>): (r: seq<int>)
    requires PadArgs(t, low, high, interior) && (t.bounds == [] || |t.bounds| == t.Rank())
    ensures |r| == |t.bounds|
    ensures forall d :: 0 <= d < |r| ==>
              r[d] == if IsDynamic(t.shape[d]) && IsStatic(t.bounds[d])
                      then PadSize(t.bounds[d], low[d], high[d], interior[d]) else DYNAMIC
  {
    seq(|t.bounds|, d requires 0 <= d < |t.bounds| =>
      if IsDynamic(t.shape[d]) && IsStatic(t.bounds[d]) then PadSize(t.bounds[d], low[d], high[d], interior[d]) else DYNAMIC)
  }

  function Padded(t: TensorType, low: seq<int>, high: seq<int>, interior: seq<int>): Option<TensorType>
    requires t.WellFormed() && (|low| == t.Rank() ==> PadArgs(t, low, high, interior))
  {
    if |low| != t.Rank() then None
    else if exists d :: 0 <= d < t.Rank() && !PadDimOk(t, d, low[d], high[d], interior[d]) then None
    else Some(TensorType(PadShape(t, low, high, interior), BoundsToEncoding(t.bounds, PadBounds(t, low, high, interior))))
  }

  method InferPadOp(t: TensorType, edgePaddingLow: seq<int>, edgePaddingHigh: seq<int>, interiorPadding: seq<int>)
    returns (r: Option<TensorType>)
    requires t.WellFormed() && (|edgePaddingLow| == t.Rank() ==> PadArgs(t, edgePaddingLow, edgePaddingHigh, interiorPadding))
    ensures r == Padded(t, edgePaddingLow, edgePaddingHigh, interiorPadding)
  {
    var rank := t.Rank();
    if |edgePaddingLow| != rank { return None; }
    var resultShape := seq(rank, _ => DYNAMIC);
    var resultBounds := seq(|t.bounds|, _ => DYNAMIC);
    ghost var shape, bounds := PadShape(t, edgePaddingLow, edgePaddingHigh, interiorPadding),
                               PadBounds(t, edgePaddingLow, edgePaddingHigh, interiorPadding);
    for i := 0 to rank
      invariant |resultShape| == rank && |resultBounds| == |t.bounds|
      invariant forall d :: 0 <= d < i ==> PadDimOk(t, d, edgePaddingLow[d], edgePaddingHigh[d], interiorPadding[d])
      invariant forall d :: 0 <= d < rank ==> resultShape[d] == if d < i then shape[d] else DYNAMIC
      invariant forall d :: 0 <= d < |t.bounds| ==> resultBounds[d] == if d < i then bounds[d] else DYNAMIC
    {
      var low, high, interior := edgePaddingLow[i], edgePaddingHigh[i], interiorPadding[i];
      if interior < 0 { return None; }
      var isStaticDim := IsStatic(t.shape[i]);
      var isStaticBound := t.bounds != [] && IsStatic(t.bounds[i]);
      if isStaticDim || isStaticBound {
        var operandSizeOrBound := if isStaticDim then t.shape[i] else t.bounds[i];
        var resultSizeOrBound := operandSizeOrBound + low + high + Max(operandSizeOrBound - 1, 0) * interior;
        if resultSizeOrBound < 0 { return None; }
        if isStaticDim {
          resultShape := resultShape[i := resultSizeOrBound];
        } else {
          resultBounds := resultBounds[i := resultSizeOrBound];
        }
      }
    }
    assert resultShape == shape && resultBounds == bounds;
    return Some(TensorType(resultShape, BoundsToEncoding(t.bounds, resultBounds)));
  }

  /** Padding surrounds the array dilated by one more than the interior padding. */
  lemma PadIsDilation(n: int, low: int, high: int, interior: int)
    requires n >= 0
    ensures PadSize(n, low, high, interior) == low + DilatedBound(n, interior + 1) + high
  {
    if n >= 1 {
      assert (n - 1) * (interior + 1) == (n - 1) * interior + (n - 1);
    }
  }

  lemma PadMonotone(n: int, larger: int, low: int, high: int, interior: int)
    requires 0 <= n <= larger && interior >= 0
    ensures PadSize(n, low, high, interior) <= PadSize(larger, low, high, interior)
  {
    PadIsDilation(n, low, high, interior);
    PadIsDilation(larger, low, high, interior);
    DilatedBoundMonotone(n, larger, interior + 1);
  }

  /** Every concrete shape that padding accepts pads to a shape of the inferred type. */
  lemma {:induction false} PadSound(t: TensorType, low: seq<int>, high: seq<int>, interior: seq<int>, c: seq<int>)
    requires t.WellFormed() && PadArgs(t, low, high, interior) && Padded(t, low, high, interior).Some?
    ensures Padded(t, low, high, interior).value.WellFormed()
    ensures Inhabits(c, t) && StaticType(c).WellFormed() && Padded(StaticType(c), low, high, interior).Some? ==>
              Inhabits(Padded(StaticType(c), low, high, interior).value.shape, Padded(t, low, high, interior).value)
  {
    var u := Padded(t, low, high, interior).value;
    forall d | 0 <= d < t.Rank()
      ensures ValidSize(u.shape[d]) && (t.bounds != [] ==> ValidSize(PadBounds(t, low, high, interior)[d]))
    {
      assert PadDimOk(t, d, low[d], high[d], interior[d]);
    }
    if Inhabits(c, t) && StaticType(c).WellFormed() && Padded(StaticType(c), low, high, interior).Some? {
      var out := Padded(StaticType(c), low, high, interior).value.shape;
      forall d | 0 <= d < |c| ensures DimOf(u, d).Has(out[d]) {
        assert DimOf(t, d).Has(c[d]);
        assert PadDimOk(StaticType(c), d, low[d], high[d], interior[d]);
        if IsDynamic(t.shape[d]) && IsStatic(t.Bound(d)) {
          PadMonotone(c[d], t.Bound(d), low[d], high[d], interior[d]);
        }
      }
    }
  }

  // ----- slice

  function CeilDiv(a: int, b: int): int
    requires b >= 1
  {
    (a + b - 1) / b
  }

  predicate SliceArgs(t: TensorType, start: seq<int>, limit: seq<int>, strides: seq<int>) {
    |start| == |limit| == |strides| == t.Rank()
  }

  predicate SliceDimOk(t: TensorType, d: int, start: int, limit: int, stride: int)
    requires 0 <= d < t.Rank() && (t.bounds == [] || |t.bounds| == t.Rank())
  {
    start >= 0 && (IsStatic(SizeOrBound(t, d)) ==> limit <= SizeOrBound(t, d)) && start <= limit && stride > 0
  }

  function SliceSizes(start: seq<int>, limit: seq<int>, strides: seq<int>): (r: seq<int>)
    requires |start| == |limit| == |strides| && forall d :: 0 <= d < |strides| ==> strides[d] > 0
    ensures |r| == |start| && forall d :: 0 <= d < |r| ==> r[d] == CeilDiv(limit[d] - start[d], strides[d])
  {
    seq(|start|, d requires 0 <= d < |start| => CeilDiv(limit[d] - start[d], strides[d]))
  }

  predicate Sliceable(t: TensorType, start: seq<int>, limit: seq<int>, strides: seq<int>)
    requires t.WellFormed() && (|start| == t.Rank() ==> SliceArgs(t, start, limit, strides))
  {
    |start| == t.Rank() && forall d :: 0 <= d < t.Rank() ==> SliceDimOk(t, d, start[d], limit[d], strides[d])
  }

  /** The result is fully static and has no bounds, even where the operand size is unknown. */
  method InferSliceOp(t: TensorType, startIndices: seq<int>, limitIndices: seq<int>, strides: seq<int>)
    returns (r: Option<TensorType>)
    requires t.WellFormed() && (|startIndices| == t.Rank() ==> SliceArgs(t, startIndices, limitIndices, strides))
    ensures r.Some? <==> Sliceable(t, startIndices, limitIndices, strides)
    ensures r.Some? ==> r.value == StaticType(SliceSizes(startIndices, limitIndices, strides))
  {
    var rank := t.Rank();
    if |startIndices| != rank { return None; }
    var shape := seq(rank, _ => DYNAMIC);
    var resultBounds := seq(|t.bounds|, _ => DYNAMIC);
    for i := 0 to rank
      invariant |shape| == rank
      invariant forall d :: 0 <= d < i ==> SliceDimOk(t, d, startIndices[d], limitIndices[d], strides[d])
      invariant forall d :: 0 <= d < i ==> shape[d] == CeilDiv(limitIndices[d] - startIndices[d], strides[d])
    {
      if startIndices[i] < 0 { assert !SliceDimOk(t, i, startIndices[i], limitIndices[i], strides[i]); return None; }
      var isStaticDim := IsStatic(t.shape[i]);
      var isStaticBound := t.bounds != [] && IsStatic(t.bounds[i]);
      if isStaticDim || isStaticBound {
        var operandSizeOrBound := if isStaticDim then t.shape[i] else t.bounds[i];
        if limitIndices[i] > operandSizeOrBound {
          assert !SliceDimOk(t, i, startIndices[i], limitIndices[i], strides[i]);
          return None;
        }
      }
      if startIndices[i] > limitIndices[i] { assert !SliceDimOk(t, i, startIndices[i], limitIndices[i], strides[i]); return None; }
      if strides[i] <= 0 { assert !SliceDimOk(t, i, startIndices[i], limitIndices[i], strides[i]); return None; }
      shape := shape[i := CeilDiv(limitIndices[i] - startIndices[i], strides[i])];
    }
    assert shape == SliceSizes(startIndices, limitIndices, strides);
    return Some(TensorType(shape, BoundsToEncoding(t.bounds, resultBounds)));
  }

  lemma CeilOfDilated(n: int, k: int)
    requires n >= 0 && k >= 1
    ensures CeilDiv(DilatedBound(n, k), k) == n
  {
    if n == 0 {
      DivUnique(k - 1, k, 0, k - 1);
    } else {
      assert (n - 1) * k + 1 + k - 1 == n * k;
      DivUnique(n * k, k, n, 0);
    }
  }

  function SliceLimits(shape: seq<int>, high: seq<int>): (r: seq<int>)
    requires |shape| == |high|
    ensures |r| == |shape| && forall d :: 0 <= d < |r| ==> r[d] == shape[d] - high[d]
  {
    seq(|shape|, d requires 0 <= d < |shape| => shape[d] - high[d])
  }

  function Successors(interior: seq<int>): (r: seq<int>)
    ensures |r| == |interior| && forall d :: 0 <= d < |r| ==> r[d] == interior[d] + 1
  {
    seq(|interior|, d requires 0 <= d < |interior| => interior[d] + 1)
  }

  /** Slicing off a non-negative padding, with the interior padding as the stride, restores the shape. */
  lemma {:induction false} SliceUndoesPad(c: seq<int>, low: seq<int>, high: seq<int>, interior: seq<int>)
    requires |low| == |high| == |interior| == |c|
    requires forall d :: 0 <= d < |c| ==> c[d] >= 0 && low[d] >= 0 && high[d] >= 0 && interior[d] >= 0
    ensures StaticType(c).WellFormed() && Padded(StaticType(c), low, high, interior).Some?
    ensures var u := Padded(StaticType(c), low, high, interior).value;
            u.WellFormed() && Sliceable(u, low, SliceLimits(u.shape, high), Successors(interior))
            && SliceSizes(low, SliceLimits(u.shape, high), Successors(interior)) == c
  {
    var t := StaticType(c);
    forall d | 0 <= d < |c|
      ensures PadSize(c[d], low[d], high[d], interior[d]) - high[d] - low[d] == DilatedBound(c[d], interior[d] + 1) >= 0
              && CeilDiv(DilatedBound(c[d], interior[d] + 1), interior[d] + 1) == c[d]
    {
      PadIsDilation(c[d], low[d], high[d], interior[d]);
      DilatedBoundMonotone(c[d], c[d], interior[d] + 1);
      CeilOfDilated(c[d], interior[d] + 1);
    }
    var u := Padded(t, low, high, interior).value;
    assert SliceSizes(low, SliceLimits(u.shape, high), Successors(interior)) == c;
  }
}
