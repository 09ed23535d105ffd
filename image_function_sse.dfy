/** The 128-bit kernel set (`Image_Function_Sse`). Every region call hands
    regions narrower than one register to the baseline kernels; otherwise it
    validates, splits each row into `width / 16` full registers and a scalar
    remainder of fewer than 16 bytes, and walks the rows with every buffer
    advanced by its own row size. Each call is proved to produce exactly the
    bytes of the baseline kernels and to leave the rest of the output alone. */
module ImageFunctionSse {
  import opened Pixel
  import opened Sse2
  import opened Images
  import opened ImageFunction

  // ---------------------------------------------------------------------
  // Splitting a row into registers and a remainder
  // ---------------------------------------------------------------------

  /** `sseWidth = width / 16` whole registers and `nonSseWidth = width - sseWidth * 16`
      remainder bytes: together exactly `width` bytes, the remainder shorter
      than one register, and at least one register whenever the row is at
      least one register wide. */
  function SplitRow(width: nat): (split: (nat, nat))
    ensures split.0 * LaneBytes + split.1 == width
    ensures split.1 < LaneBytes
    ensures width >= LaneBytes ==> split.0 >= 1
  {
    var sseWidth := width / LaneBytes;
    (sseWidth, width - sseWidth * LaneBytes)
  }

  /** The row columns the first `lanes` iterations of the register loop
      store, in the order they store them. */
  function LaneColumns(lanes: nat): seq<nat>
  {
    if lanes == 0 then []
    else LaneColumns(lanes - 1) + StoredColumns((lanes - 1) * LaneBytes)
  }

  /** The row columns one row of a kernel stores, in order: the register
      loop, then the remainder loop from column `sseWidth * 16`. */
  function RowColumns(width: nat): seq<nat>
  {
    var split := SplitRow(width);
    LaneColumns(split.0) + seq(split.1, t requires 0 <= t < split.1 => split.0 * LaneBytes + t)
  }

  /** The columns one register store covers when it starts at column `column`. */
  function StoredColumns(column: nat): seq<nat>
  {
    seq(LaneBytes, t requires 0 <= t < LaneBytes => column + t)
  }

  /** A log of row offsets taken relative to column `column`. */
  function Shifted(offsets: seq<nat>, column: nat): seq<nat>
  {
    seq(|offsets|, i requires 0 <= i < |offsets| => column + offsets[i])
  }

  /** The register loop stores columns `0 .. lanes * 16` once each, in increasing order. */
  lemma {:induction false} LaneColumnsInOrder(lanes: nat)
    ensures LaneColumns(lanes) == seq(lanes * LaneBytes, c requires 0 <= c => c as nat)
  {
    if lanes > 0 {
      LaneColumnsInOrder(lanes - 1);
      var done := seq((lanes - 1) * LaneBytes, c requires 0 <= c => c as nat);
      var next := StoredColumns((lanes - 1) * LaneBytes);
      assert LaneColumns(lanes) == done + next;
      assert done + next == seq(lanes * LaneBytes, c requires 0 <= c => c as nat);
    }
  }

  /** One row of a kernel stores every column `0 .. width` exactly once, in
      increasing order, and nothing past the row's `width` bytes. */
  lemma RowColumnsExact(width: nat)
    ensures RowColumns(width) == seq(width, c requires 0 <= c => c as nat)
  {
    var split := SplitRow(width);
    LaneColumnsInOrder(split.0);
    var rest := seq(split.1, t requires 0 <= t < split.1 => split.0 * LaneBytes + t);
    assert seq(split.0 * LaneBytes, c requires 0 <= c => c as nat) + rest == seq(width, c requires 0 <= c => c as nat);
  }

  // ---------------------------------------------------------------------
  // What each kernel computes on one register
  // ---------------------------------------------------------------------

  /** The instruction sequence each two-source kernel applies to a pair of
      loaded registers. Subtraction is `a - min(a, b)` with a wrapping
      subtract, which cannot wrap because the subtrahend never exceeds `a`.
      Every element of the result equals the scalar remainder formula applied
      to the matching source elements. */
  function BinaryLane(op: BinaryOp, a: m128i, b: m128i): (r: m128i)
    ensures forall i :: 0 <= i < LaneBytes ==> r[i] == ApplyBinary(op, a[i], b[i])
  {
    match op
    case AndOp => AndSi128(a, b)
    case OrOp => OrSi128(a, b)
    case XorOp => XorSi128(a, b)
    case MaxOp => MaxEpu8(a, b)
    case MinOp => MinEpu8(a, b)
    case SubOp => SubEpi8(a, MinEpu8(a, b))
  }

  /** `_mm_set_epi8(0xff, ..., 0xff)`: the mask of the inverting kernel. */
  function InvertMask(): (r: m128i)
    ensures forall i :: 0 <= i < LaneBytes ==> r[i] == 0xFF
  {
    Broadcast(0xFF)
  }

  /** `_mm_set_epi8(0x80, ..., 0x80)`: the top-bit mask of the threshold kernel. */
  function SignMask(): (r: m128i)
    ensures forall i :: 0 <= i < LaneBytes ==> r[i] == 0x80
  {
    Broadcast(0x80)
  }

  /** `_mm_set_epi8((threshold - 1) ^ 0x80, ...)`: the comparand of the
      threshold kernel, defined for a positive threshold only. Read as a
      signed byte, every element is `threshold - 1 - 128`. */
  function ThresholdComparand(threshold: uint8): (r: m128i)
    requires threshold > 0
    ensures forall i :: 0 <= i < LaneBytes ==> Signed(r[i]) == threshold as int - 1 - 128
  {
    BiasFlip(threshold - 1);
    Broadcast(BitXor(threshold - 1, 0x80))
  }

  /** The instruction sequence each one-source kernel applies to a loaded
      register: `andnot(a, all ones)` for inversion, and a signed
      greater-than on top-bit-flipped values for a positive threshold. Every
      element of the result equals the scalar remainder formula. */
  function UnaryLane(op: UnaryOp, a: m128i): (r: m128i)
    requires op.Above? ==> op.threshold > 0
    ensures forall i :: 0 <= i < LaneBytes ==> r[i] == ApplyUnary(op, a[i])
  {
    match op
    case Not =>
      InvertLane(a);
      AndNotSi128(a, InvertMask())
    case Above(t) =>
      ThresholdLane(a, t);
      CmpGtEpi8(XorSi128(a, SignMask()), ThresholdComparand(t))
  }

  /** `andnot(a, 0xff...)` is `~a`, i.e. `255 - a`, in every element. */
  lemma InvertLane(a: m128i)
    ensures forall i :: 0 <= i < LaneBytes ==> AndNotSi128(a, InvertMask())[i] == Pixel.Invert(a[i])
  {
    forall i | 0 <= i < LaneBytes {
      AndOnes(Pixel.Invert(a[i]) as nat, 8);
    }
  }

  /** For a positive threshold, the signed comparison `(a ^ 0x80) > ((t - 1) ^ 0x80)`
      holds exactly when `a >= t` unsigned, so every element is 255 when
      `a >= t` and 0 otherwise, as the remainder rule `a < t ? 0 : 255` gives. */
  lemma ThresholdLane(a: m128i, threshold: uint8)
    requires threshold > 0
    ensures forall i :: 0 <= i < LaneBytes ==>
      CmpGtEpi8(XorSi128(a, SignMask()), ThresholdComparand(threshold))[i] == Pixel.Threshold(a[i], threshold)
  {
    forall i | 0 <= i < LaneBytes {
      BiasFlip(a[i]);
    }
  }

  // ---------------------------------------------------------------------
  // The register loops of one row
  // ---------------------------------------------------------------------

  /** One iteration of the two-source register loop: load a register from
      each source, combine them, store the result. */
  method BinaryStep(op: BinaryOp, in1: array<uint8>, src1: nat, in2: array<uint8>, src2: nat,
                    out: array<uint8>, dst: nat)
    requires out != in1 && out != in2
    requires src1 + LaneBytes <= in1.Length && src2 + LaneBytes <= in2.Length && dst + LaneBytes <= out.Length
    modifies out
    ensures forall k :: dst <= k < dst + LaneBytes ==>
      out[k] == ApplyBinary(op, in1[src1 + (k - dst)], in2[src2 + (k - dst)])
    ensures forall k :: 0 <= k < out.Length && !(dst <= k < dst + LaneBytes) ==> out[k] == old(out[k])
  {
    var a, b := LoadU(in1, src1), LoadU(in2, src2);
    StoreU(out, dst, BinaryLane(op, a, b));
  }

  /** One iteration of the one-source register loop. */
  method UnaryStep(op: UnaryOp, input: array<uint8>, src: nat, out: array<uint8>, dst: nat)
    requires op.Above? ==> op.threshold > 0
    requires out != input
    requires src + LaneBytes <= input.Length && dst + LaneBytes <= out.Length
    modifies out
    ensures forall k :: dst <= k < dst + LaneBytes ==> out[k] == ApplyUnary(op, input[src + (k - dst)])
    ensures forall k :: 0 <= k < out.Length && !(dst <= k < dst + LaneBytes) ==> out[k] == old(out[k])
  {
    var a := LoadU(input, src);
    StoreU(out, dst, UnaryLane(op, a));
  }

  /** The inner loop of a two-source kernel: `sseWidth` iterations, each
      loading one register from each source, storing one register of result,
      and advancing all three pointers by one register. `written` logs the
      row columns of the bytes stored, in the order the stores happen. */
  method BinaryLanes(op: BinaryOp, in1: array<uint8>, in1Y: nat, in2: array<uint8>, in2Y: nat,
                     out: array<uint8>, outY: nat, sseWidth: nat) returns (ghost written: seq<nat>)
    requires out != in1 && out != in2
    requires in1Y + sseWidth * LaneBytes <= in1.Length && in2Y + sseWidth * LaneBytes <= in2.Length
    requires outY + sseWidth * LaneBytes <= out.Length
    modifies out
    ensures written == LaneColumns(sseWidth)
    ensures forall k :: outY <= k < outY + sseWidth * LaneBytes ==>
      out[k] == ApplyBinary(op, in1[in1Y + (k - outY)], in2[in2Y + (k - outY)])
    ensures forall k :: 0 <= k < out.Length && !(outY <= k < outY + sseWidth * LaneBytes) ==> out[k] == old(out[k])
  {
    var src1, src2, dst := in1Y, in2Y, outY;
    var src1End := in1Y + sseWidth * LaneBytes;
    ghost var lane: nat := 0;
    written := [];
    while src1 != src1End
      invariant lane <= sseWidth
      invariant src1 == in1Y + lane * LaneBytes && src2 == in2Y + lane * LaneBytes && dst == outY + lane * LaneBytes
      invariant written == LaneColumns(lane)
      invariant forall k :: outY <= k < dst ==> out[k] == ApplyBinary(op, in1[in1Y + (k - outY)], in2[in2Y + (k - outY)])
      invariant forall k :: 0 <= k < out.Length && !(outY <= k < dst) ==> out[k] == old(out[k])
      decreases sseWidth - lane
    {
      BinaryStep(op, in1, src1, in2, src2, out, dst);
      written := written + StoredColumns(dst - outY);
      src1, src2, dst := src1 + LaneBytes, src2 + LaneBytes, dst + LaneBytes;
      lane := lane + 1;
    }
  }

  /** The inner loop of a one-source kernel. */
  method UnaryLanes(op: UnaryOp, input: array<uint8>, inY: nat, out: array<uint8>, outY: nat, sseWidth: nat)
    returns (ghost written: seq<nat>)
    requires op.Above? ==> op.threshold > 0
    requires out != input
    requires inY + sseWidth * LaneBytes <= input.Length && outY + sseWidth * LaneBytes <= out.Length
    modifies out
    ensures written == LaneColumns(sseWidth)
    ensures forall k :: outY <= k < outY + sseWidth * LaneBytes ==> out[k] == ApplyUnary(op, input[inY + (k - outY)])
    ensures forall k :: 0 <= k < out.Length && !(outY <= k < outY + sseWidth * LaneBytes) ==> out[k] == old(out[k])
  {
    var src, dst := inY, outY;
    var srcEnd := inY + sseWidth * LaneBytes;
    ghost var lane: nat := 0;
    written := [];
    while src != srcEnd
      invariant lane <= sseWidth
      invariant src == inY + lane * LaneBytes && dst == outY + lane * LaneBytes
      invariant written == LaneColumns(lane)
      invariant forall k :: outY <= k < dst ==> out[k] == ApplyUnary(op, input[inY + (k - outY)])
      invariant forall k :: 0 <= k < out.Length && !(outY <= k < dst) ==> out[k] == old(out[k])
      decreases sseWidth - lane
    {
      UnaryStep(op, input, src, out, dst);
      written := written + StoredColumns(dst - outY);
      src, dst := src + LaneBytes, dst + LaneBytes;
      lane := lane + 1;
    }
  }

  /** One row of a two-source kernel: the register loop over the first
      `sseWidth * 16` bytes, then, if any bytes remain, the byte loop over the
      remainder. Together they produce the baseline result for all `width`
      bytes of the row and touch nothing else. `written` logs the row columns
      stored, in order: the tiling `RowColumns`, which `RowColumnsExact`
      shows is every column of the row once, in increasing order. */
  method BinaryRow(op: BinaryOp, in1: array<uint8>, in1Y: nat, in2: array<uint8>, in2Y: nat,
                   out: array<uint8>, outY: nat, width: nat) returns (ghost written: seq<nat>)
    requires out != in1 && out != in2
    requires in1Y + width <= in1.Length && in2Y + width <= in2.Length && outY + width <= out.Length
    modifies out
    ensures written == RowColumns(width)
    ensures forall k :: outY <= k < outY + width ==>
      out[k] == ApplyBinary(op, in1[in1Y + (k - outY)], in2[in2Y + (k - outY)])
    ensures forall k :: 0 <= k < out.Length && !(outY <= k < outY + width) ==> out[k] == old(out[k])
  {
    var split := SplitRow(width);
    var sseWidth, nonSseWidth := split.0, split.1;
    var totalSseWidth := sseWidth * LaneBytes;
    written := BinaryLanes(op, in1, in1Y, in2, in2Y, out, outY, sseWidth);
    ghost var rest: seq<nat> := [];
    if nonSseWidth > 0 {
      rest := BinaryBytes(op, in1, in1Y + totalSseWidth, in2, in2Y + totalSseWidth, out, outY + totalSseWidth, nonSseWidth);
    }
    written := written + Shifted(rest, totalSseWidth);
  }

  /** One row of a one-source kernel. */
  method UnaryRow(op: UnaryOp, input: array<uint8>, inY: nat, out: array<uint8>, outY: nat, width: nat)
    returns (ghost written: seq<nat>)
    requires op.Above? ==> op.threshold > 0
    requires out != input
    requires inY + width <= input.Length && outY + width <= out.Length
    modifies out
    ensures written == RowColumns(width)
    ensures forall k :: outY <= k < outY + width ==> out[k] == ApplyUnary(op, input[inY + (k - outY)])
    ensures forall k :: 0 <= k < out.Length && !(outY <= k < outY + width) ==> out[k] == old(out[k])
  {
    var split := SplitRow(width);
    var sseWidth, nonSseWidth := split.0, split.1;
    var totalSseWidth := sseWidth * LaneBytes;
    written := UnaryLanes(op, input, inY, out, outY, sseWidth);
    ghost var rest: seq<nat> := [];
    if nonSseWidth > 0 {
      rest := UnaryBytes(op, input, inY + totalSseWidth, out, outY + totalSseWidth, nonSseWidth);
    }
    written := written + Shifted(rest, totalSseWidth);
  }

  /** `memset(p, value, count)`. */
  method Memset(out: array<uint8>, p: nat, value: uint8, count: nat)
    requires p + count <= out.Length
    modifies out
    ensures forall k :: p <= k < p + count ==> out[k] == value
    ensures forall k :: 0 <= k < out.Length && !(p <= k < p + count) ==> out[k] == old(out[k])
  {
    forall k | p <= k < p + count {
      out[k] := value;
    }
  }

  // ---------------------------------------------------------------------
  // The row loops
  // ---------------------------------------------------------------------

  /** The output row pointer reaches `outYEnd` only after the last row. */
  lemma RowsLeft(startY: nat, height: nat, y: nat, stride: nat)
    requires y <= height && stride > 0
    ensures Offset(startY + y, stride) == Offset(startY + height, stride) ==> y == height
  {
    if y < height {
      OffsetMonotone(startY + y + 1, startY + height, stride);
    }
  }

  /** One pass of the row loop of `BinaryKernel`: the register and remainder
      loops over region row `y`, whose bytes start at `in1Y`, `in2Y` and
      `outY`. One more row of the region is finished, and every byte outside
      the region still equals `orig`. */
  method BinaryKernelRow(op: BinaryOp, in1: Image, startX1: nat, startY1: nat, in1Y: nat,
                         in2: Image, startX2: nat, startY2: nat, in2Y: nat,
                         out: Image, startXOut: nat, startYOut: nat, outY: nat, width: nat, height: nat,
                         ghost y: nat, ghost orig: seq<uint8>)
    requires in1.Valid() && in2.Valid() && out.Valid()
    requires out.data != in1.data && out.data != in2.data
    requires 0 < width && y < height
    requires RegionFits(in1, startX1, startY1, width, height) && RegionFits(in2, startX2, startY2, width, height)
    requires RegionFits(out, startXOut, startYOut, width, height)
    requires in1Y == Offset(startY1 + y, in1.rowSize) + startX1 && in2Y == Offset(startY2 + y, in2.rowSize) + startX2
    requires outY == Offset(startYOut + y, out.rowSize) + startXOut
    requires BinaryDone(op, in1, startX1, startY1, in2, startX2, startY2, out, out.data[..], startXOut, startYOut, width, y)
    requires KeepsOutside(out, orig, out.data[..], startXOut, startYOut, width, y)
    modifies out.data
    ensures BinaryDone(op, in1, startX1, startY1, in2, startX2, startY2, out, out.data[..], startXOut, startYOut, width, y + 1)
    ensures KeepsOutside(out, orig, out.data[..], startXOut, startYOut, width, y + 1)
  {
    RowInside(in1, startX1, startY1, width, height, y, in1Y);
    RowInside(in2, startX2, startY2, width, height, y, in2Y);
    RowInside(out, startXOut, startYOut, width, height, y, outY);
    ghost var before := out.data[..];
    ghost var written := BinaryRow(op, in1.data, in1Y, in2.data, in2Y, out.data, outY, width);
    BinaryRowAdvance(op, in1, startX1, startY1, in1Y, in2, startX2, startY2, in2Y,
                     out, startXOut, startYOut, outY, width, height, y, before, out.data[..]);
    RowAdvanceOutside(out, startXOut, startYOut, outY, width, height, y, orig, before, out.data[..]);
  }

  /** One pass of the row loop of `UnaryKernel`. */
  method UnaryKernelRow(op: UnaryOp, input: Image, startXIn: nat, startYIn: nat, inY: nat,
                        out: Image, startXOut: nat, startYOut: nat, outY: nat, width: nat, height: nat,
                        ghost y: nat, ghost orig: seq<uint8>)
    requires input.Valid() && out.Valid()
    requires out.data != input.data
    requires 0 < width && y < height
    requires op.Above? ==> op.threshold > 0
    requires RegionFits(input, startXIn, startYIn, width, height) && RegionFits(out, startXOut, startYOut, width, height)
    requires inY == Offset(startYIn + y, input.rowSize) + startXIn && outY == Offset(startYOut + y, out.rowSize) + startXOut
    requires UnaryDone(op, input, startXIn, startYIn, out, out.data[..], startXOut, startYOut, width, y)
    requires KeepsOutside(out, orig, out.data[..], startXOut, startYOut, width, y)
    modifies out.data
    ensures UnaryDone(op, input, startXIn, startYIn, out, out.data[..], startXOut, startYOut, width, y + 1)
    ensures KeepsOutside(out, orig, out.data[..], startXOut, startYOut, width, y + 1)
  {
    RowInside(input, startXIn, startYIn, width, height, y, inY);
    RowInside(out, startXOut, startYOut, width, height, y, outY);
    ghost var before := out.data[..];
    ghost var written := UnaryRow(op, input.data, inY, out.data, outY, width);
    UnaryRowAdvance(op, input, startXIn, startYIn, inY, out, startXOut, startYOut, outY, width, height, y, before, out.data[..]);
    RowAdvanceOutside(out, startXOut, startYOut, outY, width, height, y, orig, before, out.data[..]);
  }

  /** The body of a two-source kernel once the region is validated and at
      least one register wide: the row pointers start at
      `data() + startY * rowSize + startX`, and the loop runs until the output
      pointer reaches `outY + height * rowSizeOut`. */
  method BinaryKernel(op: BinaryOp, in1: Image, startX1: nat, startY1: nat, in2: Image, startX2: nat, startY2: nat,
                      out: Image, startXOut: nat, startYOut: nat, width: nat, height: nat)
    requires in1.Valid() && in2.Valid() && out.Valid()
    requires out.data != in1.data && out.data != in2.data
    requires width >= LaneBytes
    requires RegionFits(in1, startX1, startY1, width, height) && RegionFits(in2, startX2, startY2, width, height)
    requires RegionFits(out, startXOut, startYOut, width, height)
    modifies out.data
    ensures BinaryDone(op, in1, startX1, startY1, in2, startX2, startY2, out, out.data[..], startXOut, startYOut, width, height)
    ensures OutsideUnchanged(out, startXOut, startYOut, width, height)
  {
    var rowSizeIn1, rowSizeIn2, rowSizeOut := in1.rowSize, in2.rowSize, out.rowSize;
    var in1Y := RegionStart(startX1, startY1, rowSizeIn1);
    var in2Y := RegionStart(startX2, startY2, rowSizeIn2);
    var outY := RegionStart(startXOut, startYOut, rowSizeOut);
    var outYEnd := RowsPast(outY, height, rowSizeOut);
    OffsetAdd(startYOut, height, rowSizeOut);
    ghost var y: nat := 0;
    while outY != outYEnd
      invariant y <= height
      invariant AtRow(in1, startX1, startY1, y, in1Y)
      invariant AtRow(in2, startX2, startY2, y, in2Y)
      invariant AtRow(out, startXOut, startYOut, y, outY)
      invariant AtRow(out, startXOut, startYOut, height, outYEnd)
      invariant BinaryDone(op, in1, startX1, startY1, in2, startX2, startY2, out, out.data[..], startXOut, startYOut, width, y)
      invariant OutsideUnchanged(out, startXOut, startYOut, width, y)
      decreases height - y
    {
      BinaryKernelRow(op, in1, startX1, startY1, in1Y, in2, startX2, startY2, in2Y,
                      out, startXOut, startYOut, outY, width, height, y, old(out.data[..]));
      NextRow(in1, startX1, startY1, y, in1Y);
      NextRow(in2, startX2, startY2, y, in2Y);
      NextRow(out, startXOut, startYOut, y, outY);
      outY, in1Y, in2Y := outY + rowSizeOut, in1Y + rowSizeIn1, in2Y + rowSizeIn2;
      y := y + 1;
    }
    RowsLeft(startYOut, height, y, rowSizeOut);
  }

  /** The body of a one-source kernel (inversion, or a positive threshold). */
  method UnaryKernel(op: UnaryOp, input: Image, startXIn: nat, startYIn: nat,
                     out: Image, startXOut: nat, startYOut: nat, width: nat, height: nat)
    requires op.Above? ==> op.threshold > 0
    requires input.Valid() && out.Valid()
    requires out.data != input.data
    requires width >= LaneBytes
    requires RegionFits(input, startXIn, startYIn, width, height) && RegionFits(out, startXOut, startYOut, width, height)
    modifies out.data
    ensures UnaryDone(op, input, startXIn, startYIn, out, out.data[..], startXOut, startYOut, width, height)
    ensures OutsideUnchanged(out, startXOut, startYOut, width, height)
  {
    var rowSizeIn, rowSizeOut := input.rowSize, out.rowSize;
    var inY := RegionStart(startXIn, startYIn, rowSizeIn);
    var outY := RegionStart(startXOut, startYOut, rowSizeOut);
    var outYEnd := RowsPast(outY, height, rowSizeOut);
    OffsetAdd(startYOut, height, rowSizeOut);
    ghost var y: nat := 0;
    while outY != outYEnd
      invariant y <= height
      invariant AtRow(input, startXIn, startYIn, y, inY)
      invariant AtRow(out, startXOut, startYOut, y, outY)
      invariant AtRow(out, startXOut, startYOut, height, outYEnd)
      invariant UnaryDone(op, input, startXIn, startYIn, out, out.data[..], startXOut, startYOut, width, y)
      invariant OutsideUnchanged(out, startXOut, startYOut, width, y)
      decreases height - y
    {
      UnaryKernelRow(op, input, startXIn, startYIn, inY, out, startXOut, startYOut, outY, width, height, y, old(out.data[..]));
      NextRow(input, startXIn, startYIn, y, inY);
      NextRow(out, startXOut, startYOut, y, outY);
      outY, inY := outY + rowSizeOut, inY + rowSizeIn;
      y := y + 1;
    }
    RowsLeft(startYOut, height, y, rowSizeOut);
  }

  /** Every byte of the `width` x `rows` region of the buffer contents `outData` is `value`. */
  ghost predicate Filled(out: Image, outData: seq<uint8>, startXOut: nat, startYOut: nat, width: nat, rows: nat, value: uint8)
    requires out.Valid() && |outData| == out.data.Length && RegionFits(out, startXOut, startYOut, width, rows)
  {
    forall x, y :: 0 <= x < width && 0 <= y < rows ==> outData[Addr(out, startXOut, startYOut, x, y)] == value
  }

  /** One more filled row: if the first `y` rows of `prev` were 255 and
      `next` is `prev` with region row `y` set to 255, the first `y + 1` rows
      of `next` are 255. */
  lemma FillRowAdvance(out: Image, startXOut: nat, startYOut: nat, outY: nat, width: nat, height: nat, y: nat,
                       prev: seq<uint8>, next: seq<uint8>)
    requires out.Valid() && RegionFits(out, startXOut, startYOut, width, height) && y < height
    requires outY == Offset(startYOut + y, out.rowSize) + startXOut
    requires |prev| == |next| == out.data.Length && outY + width <= |next|
    requires Filled(out, prev, startXOut, startYOut, width, y, 255)
    requires forall k :: outY <= k < outY + width ==> next[k] == 255
    requires forall k :: 0 <= k < |next| && !(outY <= k < outY + width) ==> next[k] == prev[k]
    ensures Filled(out, next, startXOut, startYOut, width, y + 1, 255)
  {
    forall x, j | 0 <= x < width && 0 <= j <= y
      ensures next[Addr(out, startXOut, startYOut, x, j)] == 255
    {
      if j < y {
        RowBefore(out, startXOut, startYOut, x, j, y);
        assert next[Addr(out, startXOut, startYOut, x, j)] == prev[Addr(out, startXOut, startYOut, x, j)];
      } else {
        assert Addr(out, startXOut, startYOut, x, j) == outY + x;
      }
    }
  }

  /** One pass of the row loop of `FillRows`: one `memset` of region row `y`. */
  method FillRow(out: Image, startXOut: nat, startYOut: nat, outY: nat, width: nat, height: nat,
                 ghost y: nat, ghost orig: seq<uint8>)
    requires out.Valid() && 0 < width && y < height
    requires RegionFits(out, startXOut, startYOut, width, height)
    requires outY == Offset(startYOut + y, out.rowSize) + startXOut
    requires Filled(out, out.data[..], startXOut, startYOut, width, y, 255)
    requires KeepsOutside(out, orig, out.data[..], startXOut, startYOut, width, y)
    modifies out.data
    ensures Filled(out, out.data[..], startXOut, startYOut, width, y + 1, 255)
    ensures KeepsOutside(out, orig, out.data[..], startXOut, startYOut, width, y + 1)
  {
    RowInside(out, startXOut, startYOut, width, height, y, outY);
    ghost var before := out.data[..];
    Memset(out.data, outY, 255, width);
    FillRowAdvance(out, startXOut, startYOut, outY, width, height, y, before, out.data[..]);
    RowAdvanceOutside(out, startXOut, startYOut, outY, width, height, y, orig, before, out.data[..]);
  }

  /** The zero-threshold path: each output row is set to 255 with one
      `memset` of `width` bytes; the input is never read. */
  method FillRows(out: Image, startXOut: nat, startYOut: nat, width: nat, height: nat)
    requires out.Valid()
    requires width > 0
    requires RegionFits(out, startXOut, startYOut, width, height)
    modifies out.data
    ensures Filled(out, out.data[..], startXOut, startYOut, width, height, 255)
    ensures OutsideUnchanged(out, startXOut, startYOut, width, height)
  {
    var rowSizeOut := out.rowSize;
    var outY := RegionStart(startXOut, startYOut, rowSizeOut);
    var outYEnd := RowsPast(outY, height, rowSizeOut);
    OffsetAdd(startYOut, height, rowSizeOut);
    ghost var y: nat := 0;
    while outY != outYEnd
      invariant y <= height
      invariant AtRow(out, startXOut, startYOut, y, outY)
      invariant AtRow(out, startXOut, startYOut, height, outYEnd)
      invariant Filled(out, out.data[..], startXOut, startYOut, width, y, 255)
      invariant OutsideUnchanged(out, startXOut, startYOut, width, y)
      decreases height - y
    {
      FillRow(out, startXOut, startYOut, outY, width, height, y, old(out.data[..]));
      NextRow(out, startXOut, startYOut, y, outY);
      outY := outY + rowSizeOut;
      y := y + 1;
    }
    RowsLeft(startYOut, height, y, rowSizeOut);
  }

  // ---------------------------------------------------------------------
  // Region calls: dispatch, validation, kernel
  // ---------------------------------------------------------------------

  /** The shape shared by every two-source region call: a region narrower
      than one register goes to the baseline kernel, which validates on its
      own; otherwise the regions are validated and the register kernel runs.
      Either way the result is the baseline's: the same outcome, the same
      bytes in the region, nothing changed outside it. */
  method Binary(op: BinaryOp, in1: Image, startX1: nat, startY1: nat, in2: Image, startX2: nat, startY2: nat,
                out: Image, startXOut: nat, startYOut: nat, width: nat, height: nat) returns (r: Outcome)
    requires in1.Valid() && in2.Valid() && out.Valid()
    requires out.data != in1.data && out.data != in2.data
    modifies out.data
    ensures r == CheckRegions3(in1, startX1, startY1, in2, startX2, startY2, out, startXOut, startYOut, width, height)
    ensures r.Pass? ==> BinaryDone(op, in1, startX1, startY1, in2, startX2, startY2, out, out.data[..], startXOut, startYOut, width, height)
    ensures r.Fail? ==> unchanged(out.data)
    ensures OutsideUnchanged(out, startXOut, startYOut, width, height)
  {
    if width < LaneBytes {
      r := ImageFunction.Binary(op, in1, startX1, startY1, in2, startX2, startY2, out, startXOut, startYOut, width, height);
      return;
    }
    r := CheckRegions3(in1, startX1, startY1, in2, startX2, startY2, out, startXOut, startYOut, width, height);
    if r.Pass? {
      BinaryKernel(op, in1, startX1, startY1, in2, startX2, startY2, out, startXOut, startYOut, width, height);
    }
  }

  /** The shape shared by the one-source region calls. A zero threshold takes
      the fill path, since no signed comparison can express `a >= 0`. */
  method Unary(op: UnaryOp, input: Image, startXIn: nat, startYIn: nat,
               out: Image, startXOut: nat, startYOut: nat, width: nat, height: nat) returns (r: Outcome)
    requires input.Valid() && out.Valid()
    requires out.data != input.data
    modifies out.data
    ensures r == CheckRegions2(input, startXIn, startYIn, out, startXOut, startYOut, width, height)
    ensures r.Pass? ==> UnaryDone(op, input, startXIn, startYIn, out, out.data[..], startXOut, startYOut, width, height)
    ensures r.Fail? ==> unchanged(out.data)
    ensures OutsideUnchanged(out, startXOut, startYOut, width, height)
  {
    if width < LaneBytes {
      r := ImageFunction.Unary(op, input, startXIn, startYIn, out, startXOut, startYOut, width, height);
      return;
    }
    r := CheckRegions2(input, startXIn, startYIn, out, startXOut, startYOut, width, height);
    if r.Pass? {
      if op.Above? && op.threshold == 0 {
        FillRows(out, startXOut, startYOut, width, height);
        FillIsZeroThreshold(input, startXIn, startYIn, out, out.data[..], startXOut, startYOut, width, height);
      } else {
        UnaryKernel(op, input, startXIn, startYIn, out, startXOut, startYOut, width, height);
      }
    }
  }

  /** A region filled with 255 is what thresholding at zero gives, whatever the input. */
  lemma FillIsZeroThreshold(input: Image, startXIn: nat, startYIn: nat,
                            out: Image, outData: seq<uint8>, startXOut: nat, startYOut: nat, width: nat, height: nat)
    requires input.Valid() && out.Valid() && |outData| == out.data.Length
    requires RegionFits(input, startXIn, startYIn, width, height) && RegionFits(out, startXOut, startYOut, width, height)
    requires Filled(out, outData, startXOut, startYOut, width, height, 255)
    ensures UnaryDone(Above(0), input, startXIn, startYIn, out, outData, startXOut, startYOut, width, height)
  {
    forall x, y | 0 <= x < width && 0 <= y < height
      ensures outData[Addr(out, startXOut, startYOut, x, y)] == Pixel.Threshold(input.data[Addr(input, startXIn, startYIn, x, y)], 0)
    {
      ThresholdZero(input.data[Addr(input, startXIn, startYIn, x, y)]);
    }
  }

  /** A region call into a new image of exactly the region's size: the two
      source regions are validated, and the new image holds the result at
      its origin. */
  method BinaryAlloc(op: BinaryOp, in1: Image, startX1: nat, startY1: nat, in2: Image, startX2: nat, startY2: nat,
                     width: nat, height: nat) returns (r: Result<Image>)
    requires in1.Valid() && in2.Valid()
    ensures r.Err? <==> CheckRegions2(in1, startX1, startY1, in2, startX2, startY2, width, height).Fail?
    ensures r.Err? ==> r.error == CheckRegions2(in1, startX1, startY1, in2, startX2, startY2, width, height).error
    ensures r.Ok? ==> fresh(r.value) && fresh(r.value.data) && r.value.Valid()
    ensures r.Ok? ==> r.value.width == width && r.value.height == height
    ensures r.Ok? ==> BinaryDone(op, in1, startX1, startY1, in2, startX2, startY2, r.value, r.value.data[..], 0, 0, width, height)
  {
    var check := CheckRegions2(in1, startX1, startY1, in2, startX2, startY2, width, height);
    if check.Fail? {
      return Err(check.error);
    }
    var out := new Image(width, height);
    var done := Binary(op, in1, startX1, startY1, in2, startX2, startY2, out, 0, 0, out.width, out.height);
    r := Ok(out);
  }

  /** A whole-image call into an existing image: all three images must be
      non-empty and of one size; then every byte of `out` is computed and its
      row padding is left alone. */
  method BinaryImages(op: BinaryOp, in1: Image, in2: Image, out: Image) returns (r: Outcome)
    requires in1.Valid() && in2.Valid() && out.Valid()
    requires out.data != in1.data && out.data != in2.data
    modifies out.data
    ensures r == CheckSameSize3(in1, in2, out)
    ensures r.Pass? ==> BinaryDone(op, in1, 0, 0, in2, 0, 0, out, out.data[..], 0, 0, out.width, out.height)
    ensures r.Fail? ==> unchanged(out.data)
    ensures OutsideUnchanged(out, 0, 0, out.width, out.height)
  {
    r := CheckSameSize3(in1, in2, out);
    if r.Pass? {
      var done := Binary(op, in1, 0, 0, in2, 0, 0, out, 0, 0, out.width, out.height);
    }
  }

  /** A whole-image call into a new image of the first source's size. */
  method BinaryImagesAlloc(op: BinaryOp, in1: Image, in2: Image) returns (r: Result<Image>)
    requires in1.Valid() && in2.Valid()
    ensures r.Err? <==> CheckSameSize(in1, in2).Fail?
    ensures r.Err? ==> r.error == CheckSameSize(in1, in2).error
    ensures r.Ok? ==> fresh(r.value) && fresh(r.value.data) && r.value.Valid()
    ensures r.Ok? ==> r.value.width == in1.width && r.value.height == in1.height
    ensures r.Ok? ==> BinaryDone(op, in1, 0, 0, in2, 0, 0, r.value, r.value.data[..], 0, 0, in1.width, in1.height)
  {
    var check := CheckSameSize(in1, in2);
    if check.Fail? {
      return Err(check.error);
    }
    var out := new Image(in1.width, in1.height);
    var done := Binary(op, in1, 0, 0, in2, 0, 0, out, 0, 0, out.width, out.height);
    r := Ok(out);
  }

  /** The one-source counterpart of `BinaryAlloc`. */
  method UnaryAlloc(op: UnaryOp, input: Image, startXIn: nat, startYIn: nat, width: nat, height: nat)
    returns (r: Result<Image>)
    requires input.Valid()
    ensures r.Err? <==> CheckRegion(input, startXIn, startYIn, width, height).Fail?
    ensures r.Err? ==> r.error == CheckRegion(input, startXIn, startYIn, width, height).error
    ensures r.Ok? ==> fresh(r.value) && fresh(r.value.data) && r.value.Valid()
    ensures r.Ok? ==> r.value.width == width && r.value.height == height
    ensures r.Ok? ==> UnaryDone(op, input, startXIn, startYIn, r.value, r.value.data[..], 0, 0, width, height)
  {
    var check := CheckRegion(input, startXIn, startYIn, width, height);
    if check.Fail? {
      return Err(check.error);
    }
    var out := new Image(width, height);
    var done := Unary(op, input, startXIn, startYIn, out, 0, 0, width, height);
    r := Ok(out);
  }

  /** The one-source counterpart of `BinaryImages`. */
  method UnaryImages(op: UnaryOp, input: Image, out: Image) returns (r: Outcome)
    requires input.Valid() && out.Valid()
    requires out.data != input.data
    modifies out.data
    ensures r == CheckSameSize(input, out)
    ensures r.Pass? ==> UnaryDone(op, input, 0, 0, out, out.data[..], 0, 0, out.width, out.height)
    ensures r.Fail? ==> unchanged(out.data)
    ensures OutsideUnchanged(out, 0, 0, out.width, out.height)
  {
    r := CheckSameSize(input, out);
    if r.Pass? {
      var done := Unary(op, input, 0, 0, out, 0, 0, out.width, out.height);
    }
  }

  /** The one-source counterpart of `BinaryImagesAlloc`. */
  method UnaryImagesAlloc(op: UnaryOp, input: Image) returns (r: Result<Image>)
    requires input.Valid()
    ensures r.Err? <==> CheckImage(input).Fail?
    ensures r.Err? ==> r.error == CheckImage(input).error
    ensures r.Ok? ==> fresh(r.value) && fresh(r.value.data) && r.value.Valid()
    ensures r.Ok? ==> r.value.width == input.width && r.value.height == input.height
    ensures r.Ok? ==> UnaryDone(op, input, 0, 0, r.value, r.value.data[..], 0, 0, input.width, input.height)
  {
    var check := CheckImage(input);
    if check.Fail? {
      return Err(check.error);
    }
    var out := new Image(input.width, input.height);
    var done := Unary(op, input, 0, 0, out, 0, 0, out.width, out.height);
    r := Ok(out);
  }

  // ---------------------------------------------------------------------
  // The public overloads, one group per operation
  // ---------------------------------------------------------------------

  /** `BitwiseAnd` over regions, into `out`: each output byte is `in1 & in2`. */
  method BitwiseAnd(in1: Image, startX1: nat, startY1: nat, in2: Image, startX2: nat, startY2: nat,
                    out: Image, startXOut: nat, startYOut: nat, width: nat, height: nat) returns (r: Outcome)
    requires in1.Valid() && in2.Valid() && out.Valid()
    requires out.data != in1.data && out.data != in2.data
    modifies out.data
    ensures r == CheckRegions3(in1, startX1, startY1, in2, startX2, startY2, out, startXOut, startYOut, width, height)
    ensures r.Pass? ==> BinaryDone(AndOp, in1, startX1, startY1, in2, startX2, startY2, out, out.data[..], startXOut, startYOut, width, height)
    ensures r.Fail? ==> unchanged(out.data)
    ensures OutsideUnchanged(out, startXOut, startYOut, width, height)
  {
    r := Binary(AndOp, in1, startX1, startY1, in2, startX2, startY2, out, startXOut, startYOut, width, height);
  }

  /** `BitwiseAnd` over regions, into a new `width` x `height` image. */
  method BitwiseAndAlloc(in1: Image, startX1: nat, startY1: nat, in2: Image, startX2: nat, startY2: nat,
                         width: nat, height: nat) returns (r: Result<Image>)
    requires in1.Valid() && in2.Valid()
    ensures r.Err? <==> CheckRegions2(in1, startX1, startY1, in2, startX2, startY2, width, height).Fail?
    ensures r.Err? ==> r.error == CheckRegions2(in1, startX1, startY1, in2, startX2, startY2, width, height).error
    ensures r.Ok? ==> fresh(r.value) && fresh(r.value.data) && r.value.Valid()
    ensures r.Ok? ==> r.value.width == width && r.value.height == height
    ensures r.Ok? ==> BinaryDone(AndOp, in1, startX1, startY1, in2, startX2, startY2, r.value, r.value.data[..], 0, 0, width, height)
  {
    r := BinaryAlloc(AndOp, in1, startX1, startY1, in2, startX2, startY2, width, height);
  }

  /** `BitwiseAnd` over whole images, into `out`. */
  method BitwiseAndImages(in1: Image, in2: Image, out: Image) returns (r: Outcome)
    requires in1.Valid() && in2.Valid() && out.Valid()
    requires out.data != in1.data && out.data != in2.data
    modifies out.data
    ensures r == CheckSameSize3(in1, in2, out)
    ensures r.Pass? ==> BinaryDone(AndOp, in1, 0, 0, in2, 0, 0, out, out.data[..], 0, 0, out.width, out.height)
    ensures r.Fail? ==> unchanged(out.data)
    ensures OutsideUnchanged(out, 0, 0, out.width, out.height)
  {
    r := BinaryImages(AndOp, in1, in2, out);
  }

  /** `BitwiseAnd` over whole images, into a new image. */
  method BitwiseAndImagesAlloc(in1: Image, in2: Image) returns (r: Result<Image>)
    requires in1.Valid() && in2.Valid()
    ensures r.Err? <==> CheckSameSize(in1, in2).Fail?
    ensures r.Err? ==> r.error == CheckSameSize(in1, in2).error
    ensures r.Ok? ==> fresh(r.value) && fresh(r.value.data) && r.value.Valid()
    ensures r.Ok? ==> r.value.width == in1.width && r.value.height == in1.height
    ensures r.Ok? ==> BinaryDone(AndOp, in1, 0, 0, in2, 0, 0, r.value, r.value.data[..], 0, 0, in1.width, in1.height)
  {
    r := BinaryImagesAlloc(AndOp, in1, in2);
  }

  /** `BitwiseOr` over regions, into `out`: each output byte is `in1 | in2`. */
  method BitwiseOr(in1: Image, startX1: nat, startY1: nat, in2: Image, startX2: nat, startY2: nat,
                   out: Image, startXOut: nat, startYOut: nat, width: nat, height: nat) returns (r: Outcome)
    requires in1.Valid() && in2.Valid() && out.Valid()
    requires out.data != in1.data && out.data != in2.data
    modifies out.data
    ensures r == CheckRegions3(in1, startX1, startY1, in2, startX2, startY2, out, startXOut, startYOut, width, height)
    ensures r.Pass? ==> BinaryDone(OrOp, in1, startX1, startY1, in2, startX2, startY2, out, out.data[..], startXOut, startYOut, width, height)
    ensures r.Fail? ==> unchanged(out.data)
    ensures OutsideUnchanged(out, startXOut, startYOut, width, height)
  {
    r := Binary(OrOp, in1, startX1, startY1, in2, startX2, startY2, out, startXOut, startYOut, width, height);
  }

  /** `BitwiseOr` over regions, into a new `width` x `height` image. */
  method BitwiseOrAlloc(in1: Image, startX1: nat, startY1: nat, in2: Image, startX2: nat, startY2: nat,
                        width: nat, height: nat) returns (r: Result<Image>)
    requires in1.Valid() && in2.Valid()
    ensures r.Err? <==> CheckRegions2(in1, startX1, startY1, in2, startX2, startY2, width, height).Fail?
    ensures r.Err? ==> r.error == CheckRegions2(in1, startX1, startY1, in2, startX2, startY2, width, height).error
    ensures r.Ok? ==> fresh(r.value) && fresh(r.value.data) && r.value.Valid()
    ensures r.Ok? ==> r.value.width == width && r.value.height == height
    ensures r.Ok? ==> BinaryDone(OrOp, in1, startX1, startY1, in2, startX2, startY2, r.value, r.value.data[..], 0, 0, width, height)
  {
    r := BinaryAlloc(OrOp, in1, startX1, startY1, in2, startX2, startY2, width, height);
  }

  /** `BitwiseOr` over whole images, into `out`. */
  method BitwiseOrImages(in1: Image, in2: Image, out: Image) returns (r: Outcome)
    requires in1.Valid() && in2.Valid() && out.Valid()
    requires out.data != in1.data && out.data != in2.data
    modifies out.data
    ensures r == CheckSameSize3(in1, in2, out)
    ensures r.Pass? ==> BinaryDone(OrOp, in1, 0, 0, in2, 0, 0, out, out.data[..], 0, 0, out.width, out.height)
    ensures r.Fail? ==> unchanged(out.data)
    ensures OutsideUnchanged(out, 0, 0, out.width, out.height)
  {
    r := BinaryImages(OrOp, in1, in2, out);
  }

  /** `BitwiseOr` over whole images, into a new image. */
  method BitwiseOrImagesAlloc(in1: Image, in2: Image) returns (r: Result<Image>)
    requires in1.Valid() && in2.Valid()
    ensures r.Err? <==> CheckSameSize(in1, in2).Fail?
    ensures r.Err? ==> r.error == CheckSameSize(in1, in2).error
    ensures r.Ok? ==> fresh(r.value) && fresh(r.value.data) && r.value.Valid()
    ensures r.Ok? ==> r.value.width == in1.width && r.value.height == in1.height
    ensures r.Ok? ==> BinaryDone(OrOp, in1, 0, 0, in2, 0, 0, r.value, r.value.data[..], 0, 0, in1.width, in1.height)
  {
    r := BinaryImagesAlloc(OrOp, in1, in2);
  }

  /** `BitwiseXor` over regions, into `out`: each output byte is `in1 ^ in2`. */
  method BitwiseXor(in1: Image, startX1: nat, startY1: nat, in2: Image, startX2: nat, startY2: nat,
                    out: Image, startXOut: nat, startYOut: nat, width: nat, height: nat) returns (r: Outcome)
    requires in1.Valid() && in2.Valid() && out.Valid()
    requires out.data != in1.data && out.data != in2.data
    modifies out.data
    ensures r == CheckRegions3(in1, startX1, startY1, in2, startX2, startY2, out, startXOut, startYOut, width, height)
    ensures r.Pass? ==> BinaryDone(XorOp, in1, startX1, startY1, in2, startX2, startY2, out, out.data[..], startXOut, startYOut, width, height)
    ensures r.Fail? ==> unchanged(out.data)
    ensures OutsideUnchanged(out, startXOut, startYOut, width, height)
  {
    r := Binary(XorOp, in1, startX1, startY1, in2, startX2, startY2, out, startXOut, startYOut, width, height);
  }

  /** `BitwiseXor` over regions, into a new `width` x `height` image. */
  method BitwiseXorAlloc(in1: Image, startX1: nat, startY1: nat, in2: Image, startX2: nat, startY2: nat,
                         width: nat, height: nat) returns (r: Result<Image>)
    requires in1.Valid() && in2.Valid()
    ensures r.Err? <==> CheckRegions2(in1, startX1, startY1, in2, startX2, startY2, width, height).Fail?
    ensures r.Err? ==> r.error == CheckRegions2(in1, startX1, startY1, in2, startX2, startY2, width, height).error
    ensures r.Ok? ==> fresh(r.value) && fresh(r.value.data) && r.value.Valid()
    ensures r.Ok? ==> r.value.width == width && r.value.height == height
    ensures r.Ok? ==> BinaryDone(XorOp, in1, startX1, startY1, in2, startX2, startY2, r.value, r.value.data[..], 0, 0, width, height)
  {
    r := BinaryAlloc(XorOp, in1, startX1, startY1, in2, startX2, startY2, width, height);
  }

  /** `BitwiseXor` over whole images, into `out`. */
  method BitwiseXorImages(in1: Image, in2: Image, out: Image) returns (r: Outcome)
    requires in1.Valid() && in2.Valid() && out.Valid()
    requires out.data != in1.data && out.data != in2.data
    modifies out.data
    ensures r == CheckSameSize3(in1, in2, out)
    ensures r.Pass? ==> BinaryDone(XorOp, in1, 0, 0, in2, 0, 0, out, out.data[..], 0, 0, out.width, out.height)
    ensures r.Fail? ==> unchanged(out.data)
    ensures OutsideUnchanged(out, 0, 0, out.width, out.height)
  {
    r := BinaryImages(XorOp, in1, in2, out);
  }

  /** `BitwiseXor` over whole images, into a new image. */
  method BitwiseXorImagesAlloc(in1: Image, in2: Image) returns (r: Result<Image>)
    requires in1.Valid() && in2.Valid()
    ensures r.Err? <==> CheckSameSize(in1, in2).Fail?
    ensures r.Err? ==> r.error == CheckSameSize(in1, in2).error
    ensures r.Ok? ==> fresh(r.value) && fresh(r.value.data) && r.value.Valid()
    ensures r.Ok? ==> r.value.width == in1.width && r.value.height == in1.height
    ensures r.Ok? ==> BinaryDone(XorOp, in1, 0, 0, in2, 0, 0, r.value, r.value.data[..], 0, 0, in1.width, in1.height)
  {
    r := BinaryImagesAlloc(XorOp, in1, in2);
  }

  /** `Maximum` over regions, into `out`: each output byte is the larger sample. */
  method Maximum(in1: Image, startX1: nat, startY1: nat, in2: Image, startX2: nat, startY2: nat,
                 out: Image, startXOut: nat, startYOut: nat, width: nat, height: nat) returns (r: Outcome)
    requires in1.Valid() && in2.Valid() && out.Valid()
    requires out.data != in1.data && out.data != in2.data
    modifies out.data
    ensures r == CheckRegions3(in1, startX1, startY1, in2, startX2, startY2, out, startXOut, startYOut, width, height)
    ensures r.Pass? ==> BinaryDone(MaxOp, in1, startX1, startY1, in2, startX2, startY2, out, out.data[..], startXOut, startYOut, width, height)
    ensures r.Fail? ==> unchanged(out.data)
    ensures OutsideUnchanged(out, startXOut, startYOut, width, height)
  {
    r := Binary(MaxOp, in1, startX1, startY1, in2, startX2, startY2, out, startXOut, startYOut, width, height);
  }

  /** `Maximum` over regions, into a new `width` x `height` image. */
  method MaximumAlloc(in1: Image, startX1: nat, startY1: nat, in2: Image, startX2: nat, startY2: nat,
                      width: nat, height: nat) returns (r: Result<Image>)
    requires in1.Valid() && in2.Valid()
    ensures r.Err? <==> CheckRegions2(in1, startX1, startY1, in2, startX2, startY2, width, height).Fail?
    ensures r.Err? ==> r.error == CheckRegions2(in1, startX1, startY1, in2, startX2, startY2, width, height).error
    ensures r.Ok? ==> fresh(r.value) && fresh(r.value.data) && r.value.Valid()
    ensures r.Ok? ==> r.value.width == width && r.value.height == height
    ensures r.Ok? ==> BinaryDone(MaxOp, in1, startX1, startY1, in2, startX2, startY2, r.value, r.value.data[..], 0, 0, width, height)
  {
    r := BinaryAlloc(MaxOp, in1, startX1, startY1, in2, startX2, startY2, width, height);
  }

  /** `Maximum` over whole images, into `out`. */
  method MaximumImages(in1: Image, in2: Image, out: Image) returns (r: Outcome)
    requires in1.Valid() && in2.Valid() && out.Valid()
    requires out.data != in1.data && out.data != in2.data
    modifies out.data
    ensures r == CheckSameSize3(in1, in2, out)
    ensures r.Pass? ==> BinaryDone(MaxOp, in1, 0, 0, in2, 0, 0, out, out.data[..], 0, 0, out.width, out.height)
    ensures r.Fail? ==> unchanged(out.data)
    ensures OutsideUnchanged(out, 0, 0, out.width, out.height)
  {
    r := BinaryImages(MaxOp, in1, in2, out);
  }

  /** `Maximum` over whole images, into a new image. */
  method MaximumImagesAlloc(in1: Image, in2: Image) returns (r: Result<Image>)
    requires in1.Valid() && in2.Valid()
    ensures r.Err? <==> CheckSameSize(in1, in2).Fail?
    ensures r.Err? ==> r.error == CheckSameSize(in1, in2).error
    ensures r.Ok? ==> fresh(r.value) && fresh(r.value.data) && r.value.Valid()
    ensures r.Ok? ==> r.value.width == in1.width && r.value.height == in1.height
    ensures r.Ok? ==> BinaryDone(MaxOp, in1, 0, 0, in2, 0, 0, r.value, r.value.data[..], 0, 0, in1.width, in1.height)
  {
    r := BinaryImagesAlloc(MaxOp, in1, in2);
  }

  /** `Minimum` over regions, into `out`: each output byte is the smaller sample. */
  method Minimum(in1: Image, startX1: nat, startY1: nat, in2: Image, startX2: nat, startY2: nat,
                 out: Image, startXOut: nat, startYOut: nat, width: nat, height: nat) returns (r: Outcome)
    requires in1.Valid() && in2.Valid() && out.Valid()
    requires out.data != in1.data && out.data != in2.data
    modifies out.data
    ensures r == CheckRegions3(in1, startX1, startY1, in2, startX2, startY2, out, startXOut, startYOut, width, height)
    ensures r.Pass? ==> BinaryDone(MinOp, in1, startX1, startY1, in2, startX2, startY2, out, out.data[..], startXOut, startYOut, width, height)
    ensures r.Fail? ==> unchanged(out.data)
    ensures OutsideUnchanged(out, startXOut, startYOut, width, height)
  {
    r := Binary(MinOp, in1, startX1, startY1, in2, startX2, startY2, out, startXOut, startYOut, width, height);
  }

  /** `Minimum` over regions, into a new `width` x `height` image. */
  method MinimumAlloc(in1: Image, startX1: nat, startY1: nat, in2: Image, startX2: nat, startY2: nat,
                      width: nat, height: nat) returns (r: Result<Image>)
    requires in1.Valid() && in2.Valid()
    ensures r.Err? <==> CheckRegions2(in1, startX1, startY1, in2, startX2, startY2, width, height).Fail?
    ensures r.Err? ==> r.error == CheckRegions2(in1, startX1, startY1, in2, startX2, startY2, width, height).error
    ensures r.Ok? ==> fresh(r.value) && fresh(r.value.data) && r.value.Valid()
    ensures r.Ok? ==> r.value.width == width && r.value.height == height
    ensures r.Ok? ==> BinaryDone(MinOp, in1, startX1, startY1, in2, startX2, startY2, r.value, r.value.data[..], 0, 0, width, height)
  {
    r := BinaryAlloc(MinOp, in1, startX1, startY1, in2, startX2, startY2, width, height);
  }

  /** `Minimum` over whole images, into `out`. */
  method MinimumImages(in1: Image, in2: Image, out: Image) returns (r: Outcome)
    requires in1.Valid() && in2.Valid() && out.Valid()
    requires out.data != in1.data && out.data != in2.data
    modifies out.data
    ensures r == CheckSameSize3(in1, in2, out)
    ensures r.Pass? ==> BinaryDone(MinOp, in1, 0, 0, in2, 0, 0, out, out.data[..], 0, 0, out.width, out.height)
    ensures r.Fail? ==> unchanged(out.data)
    ensures OutsideUnchanged(out, 0, 0, out.width, out.height)
  {
    r := BinaryImages(MinOp, in1, in2, out);
  }

  /** `Minimum` over whole images, into a new image. */
  method MinimumImagesAlloc(in1: Image, in2: Image) returns (r: Result<Image>)
    requires in1.Valid() && in2.Valid()
    ensures r.Err? <==> CheckSameSize(in1, in2).Fail?
    ensures r.Err? ==> r.error == CheckSameSize(in1, in2).error
    ensures r.Ok? ==> fresh(r.value) && fresh(r.value.data) && r.value.Valid()
    ensures r.Ok? ==> r.value.width == in1.width && r.value.height == in1.height
    ensures r.Ok? ==> BinaryDone(MinOp, in1, 0, 0, in2, 0, 0, r.value, r.value.data[..], 0, 0, in1.width, in1.height)
  {
    r := BinaryImagesAlloc(MinOp, in1, in2);
  }

  /** `Subtract` over regions, into `out`: each output byte is `in1 - in2` clamped at zero. */
  method Subtract(in1: Image, startX1: nat, startY1: nat, in2: Image, startX2: nat, startY2: nat,
                  out: Image, startXOut: nat, startYOut: nat, width: nat, height: nat) returns (r: Outcome)
    requires in1.Valid() && in2.Valid() && out.Valid()
    requires out.data != in1.data && out.data != in2.data
    modifies out.data
    ensures r == CheckRegions3(in1, startX1, startY1, in2, startX2, startY2, out, startXOut, startYOut, width, height)
    ensures r.Pass? ==> BinaryDone(SubOp, in1, startX1, startY1, in2, startX2, startY2, out, out.data[..], startXOut, startYOut, width, height)
    ensures r.Fail? ==> unchanged(out.data)
    ensures OutsideUnchanged(out, startXOut, startYOut, width, height)
  {
    r := Binary(SubOp, in1, startX1, startY1, in2, startX2, startY2, out, startXOut, startYOut, width, height);
  }

  /** `Subtract` over regions, into a new `width` x `height` image. */
  method SubtractAlloc(in1: Image, startX1: nat, startY1: nat, in2: Image, startX2: nat, startY2: nat,
                       width: nat, height: nat) returns (r: Result<Image>)
    requires in1.Valid() && in2.Valid()
    ensures r.Err? <==> CheckRegions2(in1, startX1, startY1, in2, startX2, startY2, width, height).Fail?
    ensures r.Err? ==> r.error == CheckRegions2(in1, startX1, startY1, in2, startX2, startY2, width, height).error
    ensures r.Ok? ==> fresh(r.value) && fresh(r.value.data) && r.value.Valid()
    ensures r.Ok? ==> r.value.width == width && r.value.height == height
    ensures r.Ok? ==> BinaryDone(SubOp, in1, startX1, startY1, in2, startX2, startY2, r.value, r.value.data[..], 0, 0, width, height)
  {
    r := BinaryAlloc(SubOp, in1, startX1, startY1, in2, startX2, startY2, width, height);
  }

  /** `Subtract` over whole images, into `out`. */
  method SubtractImages(in1: Image, in2: Image, out: Image) returns (r: Outcome)
    requires in1.Valid() && in2.Valid() && out.Valid()
    requires out.data != in1.data && out.data != in2.data
    modifies out.data
    ensures r == CheckSameSize3(in1, in2, out)
    ensures r.Pass? ==> BinaryDone(SubOp, in1, 0, 0, in2, 0, 0, out, out.data[..], 0, 0, out.width, out.height)
    ensures r.Fail? ==> unchanged(out.data)
    ensures OutsideUnchanged(out, 0, 0, out.width, out.height)
  {
    r := BinaryImages(SubOp, in1, in2, out);
  }

  /** `Subtract` over whole images, into a new image. */
  method SubtractImagesAlloc(in1: Image, in2: Image) returns (r: Result<Image>)
    requires in1.Valid() && in2.Valid()
    ensures r.Err? <==> CheckSameSize(in1, in2).Fail?
    ensures r.Err? ==> r.error == CheckSameSize(in1, in2).error
    ensures r.Ok? ==> fresh(r.value) && fresh(r.value.data) && r.value.Valid()
    ensures r.Ok? ==> r.value.width == in1.width && r.value.height == in1.height
    ensures r.Ok? ==> BinaryDone(SubOp, in1, 0, 0, in2, 0, 0, r.value, r.value.data[..], 0, 0, in1.width, in1.height)
  {
    r := BinaryImagesAlloc(SubOp, in1, in2);
  }

  /** `Invert` over a region, into `out`: each output byte is `~in`, i.e. `255 - in`. */
  method Invert(input: Image, startXIn: nat, startYIn: nat, out: Image, startXOut: nat, startYOut: nat,
                width: nat, height: nat) returns (r: Outcome)
    requires input.Valid() && out.Valid()
    requires out.data != input.data
    modifies out.data
    ensures r == CheckRegions2(input, startXIn, startYIn, out, startXOut, startYOut, width, height)
    ensures r.Pass? ==> UnaryDone(Not, input, startXIn, startYIn, out, out.data[..], startXOut, startYOut, width, height)
    ensures r.Fail? ==> unchanged(out.data)
    ensures OutsideUnchanged(out, startXOut, startYOut, width, height)
  {
    r := Unary(Not, input, startXIn, startYIn, out, startXOut, startYOut, width, height);
  }

  /** `Invert` over a region, into a new `width` x `height` image. */
  method InvertAlloc(input: Image, startXIn: nat, startYIn: nat, width: nat, height: nat) returns (r: Result<Image>)
    requires input.Valid()
    ensures r.Err? <==> CheckRegion(input, startXIn, startYIn, width, height).Fail?
    ensures r.Err? ==> r.error == CheckRegion(input, startXIn, startYIn, width, height).error
    ensures r.Ok? ==> fresh(r.value) && fresh(r.value.data) && r.value.Valid()
    ensures r.Ok? ==> r.value.width == width && r.value.height == height
    ensures r.Ok? ==> UnaryDone(Not, input, startXIn, startYIn, r.value, r.value.data[..], 0, 0, width, height)
  {
    r := UnaryAlloc(Not, input, startXIn, startYIn, width, height);
  }

  /** `Invert` over a whole image, into `out`. */
  method InvertImages(input: Image, out: Image) returns (r: Outcome)
    requires input.Valid() && out.Valid()
    requires out.data != input.data
    modifies out.data
    ensures r == CheckSameSize(input, out)
    ensures r.Pass? ==> UnaryDone(Not, input, 0, 0, out, out.data[..], 0, 0, out.width, out.height)
    ensures r.Fail? ==> unchanged(out.data)
    ensures OutsideUnchanged(out, 0, 0, out.width, out.height)
  {
    r := UnaryImages(Not, input, out);
  }

  /** `Invert` over a whole image, into a new image. */
  method InvertImagesAlloc(input: Image) returns (r: Result<Image>)
    requires input.Valid()
    ensures r.Err? <==> CheckImage(input).Fail?
    ensures r.Err? ==> r.error == CheckImage(input).error
    ensures r.Ok? ==> fresh(r.value) && fresh(r.value.data) && r.value.Valid()
    ensures r.Ok? ==> r.value.width == input.width && r.value.height == input.height
    ensures r.Ok? ==> UnaryDone(Not, input, 0, 0, r.value, r.value.data[..], 0, 0, input.width, input.height)
  {
    r := UnaryImagesAlloc(Not, input);
  }

  /** `Threshold` over a region, into `out`: each output byte is 255 where the sample is at least `threshold`, 0 elsewhere. */
  method Threshold(input: Image, startXIn: nat, startYIn: nat, out: Image, startXOut: nat, startYOut: nat,
                   width: nat, height: nat, threshold: uint8) returns (r: Outcome)
    requires input.Valid() && out.Valid()
    requires out.data != input.data
    modifies out.data
    ensures r == CheckRegions2(input, startXIn, startYIn, out, startXOut, startYOut, width, height)
    ensures r.Pass? ==> UnaryDone(Above(threshold), input, startXIn, startYIn, out, out.data[..], startXOut, startYOut, width, height)
    ensures r.Fail? ==> unchanged(out.data)
    ensures OutsideUnchanged(out, startXOut, startYOut, width, height)
  {
    r := Unary(Above(threshold), input, startXIn, startYIn, out, startXOut, startYOut, width, height);
  }

  /** `Threshold` over a region, into a new `width` x `height` image. */
  method ThresholdAlloc(input: Image, startXIn: nat, startYIn: nat, width: nat, height: nat, threshold: uint8) returns (r: Result<Image>)
    requires input.Valid()
    ensures r.Err? <==> CheckRegion(input, startXIn, startYIn, width, height).Fail?
    ensures r.Err? ==> r.error == CheckRegion(input, startXIn, startYIn, width, height).error
    ensures r.Ok? ==> fresh(r.value) && fresh(r.value.data) && r.value.Valid()
    ensures r.Ok? ==> r.value.width == width && r.value.height == height
    ensures r.Ok? ==> UnaryDone(Above(threshold), input, startXIn, startYIn, r.value, r.value.data[..], 0, 0, width, height)
  {
    r := UnaryAlloc(Above(threshold), input, startXIn, startYIn, width, height);
  }

  /** `Threshold` over a whole image, into `out`. */
  method ThresholdImages(input: Image, out: Image, threshold: uint8) returns (r: Outcome)
    requires input.Valid() && out.Valid()
    requires out.data != input.data
    modifies out.data
    ensures r == CheckSameSize(input, out)
    ensures r.Pass? ==> UnaryDone(Above(threshold), input, 0, 0, out, out.data[..], 0, 0, out.width, out.height)
    ensures r.Fail? ==> unchanged(out.data)
    ensures OutsideUnchanged(out, 0, 0, out.width, out.height)
  {
    r := UnaryImages(Above(threshold), input, out);
  }

  /** `Threshold` over a whole image, into a new image. */
  method ThresholdImagesAlloc(input: Image, threshold: uint8) returns (r: Result<Image>)
    requires input.Valid()
    ensures r.Err? <==> CheckImage(input).Fail?
    ensures r.Err? ==> r.error == CheckImage(input).error
    ensures r.Ok? ==> fresh(r.value) && fresh(r.value.data) && r.value.Valid()
    ensures r.Ok? ==> r.value.width == input.width && r.value.height == input.height
    ensures r.Ok? ==> UnaryDone(Above(threshold), input, 0, 0, r.value, r.value.data[..], 0, 0, input.width, input.height)
  {
    r := UnaryImagesAlloc(Above(threshold), input);
  }
}
