/** The baseline byte-at-a-time kernels (`Image_Function::*`): the reference
    result of every operation over a region, which the 128-bit kernels
    delegate to for regions narrower than one register and reproduce for
    wider ones. */
module ImageFunction {
  import opened Pixel
  import opened Images

  /** Every byte of the `width` x `rows` region at (`startXOut`, `startYOut`)
      of the output buffer contents `outData` is `op` of the bytes at the same
      region coordinates of the two sources, each source addressed from its
      own origin with its own row size. */
  ghost predicate BinaryDone(op: BinaryOp, in1: Image, startX1: nat, startY1: nat, in2: Image, startX2: nat, startY2: nat,
                             out: Image, outData: seq<uint8>, startXOut: nat, startYOut: nat, width: nat, rows: nat)
    reads in1.data, in2.data
    requires in1.Valid() && in2.Valid() && out.Valid() && |outData| == out.data.Length
    requires RegionFits(in1, startX1, startY1, width, rows) && RegionFits(in2, startX2, startY2, width, rows)
    requires RegionFits(out, startXOut, startYOut, width, rows)
  {
    forall x, y :: 0 <= x < width && 0 <= y < rows ==>
      outData[Addr(out, startXOut, startYOut, x, y)]
        == ApplyBinary(op, in1.data[Addr(in1, startX1, startY1, x, y)], in2.data[Addr(in2, startX2, startY2, x, y)])
  }

  /** The one-source counterpart of `BinaryDone`. */
  ghost predicate UnaryDone(op: UnaryOp, input: Image, startXIn: nat, startYIn: nat,
                            out: Image, outData: seq<uint8>, startXOut: nat, startYOut: nat, width: nat, rows: nat)
    reads input.data
    requires input.Valid() && out.Valid() && |outData| == out.data.Length
    requires RegionFits(input, startXIn, startYIn, width, rows) && RegionFits(out, startXOut, startYOut, width, rows)
  {
    forall x, y :: 0 <= x < width && 0 <= y < rows ==>
      outData[Addr(out, startXOut, startYOut, x, y)] == ApplyUnary(op, input.data[Addr(input, startXIn, startYIn, x, y)])
  }

  /** The result of a two-source call is determined by its arguments: two
      output contents that both finish the region and both keep every byte
      outside it from the same original are equal. Any two kernels whose
      contracts promise `BinaryDone` and an unchanged outside, whatever their
      tiling, leave the output with the same bytes. */
  lemma BinaryResultUnique(op: BinaryOp, in1: Image, startX1: nat, startY1: nat, in2: Image, startX2: nat, startY2: nat,
                           out: Image, orig: seq<uint8>, s1: seq<uint8>, s2: seq<uint8>,
                           startXOut: nat, startYOut: nat, width: nat, height: nat)
    requires in1.Valid() && in2.Valid() && out.Valid() && |s1| == out.data.Length && |s2| == out.data.Length
    requires RegionFits(in1, startX1, startY1, width, height) && RegionFits(in2, startX2, startY2, width, height)
    requires RegionFits(out, startXOut, startYOut, width, height)
    requires BinaryDone(op, in1, startX1, startY1, in2, startX2, startY2, out, s1, startXOut, startYOut, width, height)
    requires BinaryDone(op, in1, startX1, startY1, in2, startX2, startY2, out, s2, startXOut, startYOut, width, height)
    requires KeepsOutside(out, orig, s1, startXOut, startYOut, width, height)
    requires KeepsOutside(out, orig, s2, startXOut, startYOut, width, height)
    ensures s1 == s2
  {
    RegionDetermines(out, orig, s1, s2, startXOut, startYOut, width, height);
  }

  /** The one-source counterpart of `BinaryResultUnique`. */
  lemma UnaryResultUnique(op: UnaryOp, input: Image, startXIn: nat, startYIn: nat,
                          out: Image, orig: seq<uint8>, s1: seq<uint8>, s2: seq<uint8>,
                          startXOut: nat, startYOut: nat, width: nat, height: nat)
    requires input.Valid() && out.Valid() && |s1| == out.data.Length && |s2| == out.data.Length
    requires RegionFits(input, startXIn, startYIn, width, height) && RegionFits(out, startXOut, startYOut, width, height)
    requires UnaryDone(op, input, startXIn, startYIn, out, s1, startXOut, startYOut, width, height)
    requires UnaryDone(op, input, startXIn, startYIn, out, s2, startXOut, startYOut, width, height)
    requires KeepsOutside(out, orig, s1, startXOut, startYOut, width, height)
    requires KeepsOutside(out, orig, s2, startXOut, startYOut, width, height)
    ensures s1 == s2
  {
    RegionDetermines(out, orig, s1, s2, startXOut, startYOut, width, height);
  }

  /** One run of `count` bytes, one output byte per step: the source pointers
      and the output pointer advance together until the output pointer reaches
      its end. Bytes of `out` outside the run keep their values. `written`
      logs the offset from `outX` of each byte stored, in the order the
      stores happen: every offset `0 .. count` once, in increasing order. */
  method BinaryBytes(op: BinaryOp, in1: array<uint8>, in1X: nat, in2: array<uint8>, in2X: nat,
                     out: array<uint8>, outX: nat, count: nat) returns (ghost written: seq<nat>)
    requires out != in1 && out != in2
    requires in1X + count <= in1.Length && in2X + count <= in2.Length && outX + count <= out.Length
    modifies out
    ensures written == seq(count, c requires 0 <= c => c as nat)
    ensures forall k :: outX <= k < outX + count ==>
      out[k] == ApplyBinary(op, in1[in1X + (k - outX)], in2[in2X + (k - outX)])
    ensures forall k :: 0 <= k < out.Length && !(outX <= k < outX + count) ==> out[k] == old(out[k])
  {
    var src1, src2, dst := in1X, in2X, outX;
    var dstEnd := outX + count;
    written := [];
    while dst != dstEnd
      invariant outX <= dst <= dstEnd
      invariant src1 == in1X + (dst - outX) && src2 == in2X + (dst - outX)
      invariant written == seq(dst - outX, c requires 0 <= c => c as nat)
      invariant forall k :: outX <= k < dst ==> out[k] == ApplyBinary(op, in1[in1X + (k - outX)], in2[in2X + (k - outX)])
      invariant forall k :: 0 <= k < out.Length && !(outX <= k < dst) ==> out[k] == old(out[k])
      decreases dstEnd - dst
    {
      out[dst] := ApplyBinary(op, in1[src1], in2[src2]);
      written := written + [dst - outX];
      src1, src2, dst := src1 + 1, src2 + 1, dst + 1;
    }
  }

  /** The one-source counterpart of `BinaryBytes`. */
  method UnaryBytes(op: UnaryOp, input: array<uint8>, inX: nat, out: array<uint8>, outX: nat, count: nat)
    returns (ghost written: seq<nat>)
    requires out != input
    requires inX + count <= input.Length && outX + count <= out.Length
    modifies out
    ensures written == seq(count, c requires 0 <= c => c as nat)
    ensures forall k :: outX <= k < outX + count ==> out[k] == ApplyUnary(op, input[inX + (k - outX)])
    ensures forall k :: 0 <= k < out.Length && !(outX <= k < outX + count) ==> out[k] == old(out[k])
  {
    var src, dst := inX, outX;
    var dstEnd := outX + count;
    written := [];
    while dst != dstEnd
      invariant outX <= dst <= dstEnd
      invariant src == inX + (dst - outX)
      invariant written == seq(dst - outX, c requires 0 <= c => c as nat)
      invariant forall k :: outX <= k < dst ==> out[k] == ApplyUnary(op, input[inX + (k - outX)])
      invariant forall k :: 0 <= k < out.Length && !(outX <= k < dst) ==> out[k] == old(out[k])
      decreases dstEnd - dst
    {
      out[dst] := ApplyUnary(op, input[src]);
      written := written + [dst - outX];
      src, dst := src + 1, dst + 1;
    }
  }

  /** The byte loop run over each row of a validated region in turn, every
      buffer advanced by its own row size. */
  method BinaryRegion(op: BinaryOp, in1: Image, startX1: nat, startY1: nat, in2: Image, startX2: nat, startY2: nat,
                      out: Image, startXOut: nat, startYOut: nat, width: nat, height: nat)
    requires in1.Valid() && in2.Valid() && out.Valid()
    requires out.data != in1.data && out.data != in2.data
    requires width > 0
    requires RegionFits(in1, startX1, startY1, width, height) && RegionFits(in2, startX2, startY2, width, height)
    requires RegionFits(out, startXOut, startYOut, width, height)
    modifies out.data
    ensures BinaryDone(op, in1, startX1, startY1, in2, startX2, startY2, out, out.data[..], startXOut, startYOut, width, height)
    ensures OutsideUnchanged(out, startXOut, startYOut, width, height)
  {
    var in1Y := RegionStart(startX1, startY1, in1.rowSize);
    var in2Y := RegionStart(startX2, startY2, in2.rowSize);
    var outY := RegionStart(startXOut, startYOut, out.rowSize);
    var y: nat := 0;
    while y < height
      invariant y <= height
      invariant AtRow(in1, startX1, startY1, y, in1Y) && AtRow(in2, startX2, startY2, y, in2Y)
      invariant AtRow(out, startXOut, startYOut, y, outY)
      invariant BinaryDone(op, in1, startX1, startY1, in2, startX2, startY2, out, out.data[..], startXOut, startYOut, width, y)
      invariant OutsideUnchanged(out, startXOut, startYOut, width, y)
    {
      BinaryRegionRow(op, in1, startX1, startY1, in1Y, in2, startX2, startY2, in2Y,
                      out, startXOut, startYOut, outY, width, height, y, old(out.data[..]));
      NextRow(in1, startX1, startY1, y, in1Y);
      NextRow(in2, startX2, startY2, y, in2Y);
      NextRow(out, startXOut, startYOut, y, outY);
      in1Y, in2Y, outY := in1Y + in1.rowSize, in2Y + in2.rowSize, outY + out.rowSize;
      y := y + 1;
    }
  }

  /** The one-source counterpart of `BinaryRegion`. */
  method UnaryRegion(op: UnaryOp, input: Image, startXIn: nat, startYIn: nat,
                     out: Image, startXOut: nat, startYOut: nat, width: nat, height: nat)
    requires input.Valid() && out.Valid()
    requires out.data != input.data
    requires width > 0
    requires RegionFits(input, startXIn, startYIn, width, height) && RegionFits(out, startXOut, startYOut, width, height)
    modifies out.data
    ensures UnaryDone(op, input, startXIn, startYIn, out, out.data[..], startXOut, startYOut, width, height)
    ensures OutsideUnchanged(out, startXOut, startYOut, width, height)
  {
    var inY := RegionStart(startXIn, startYIn, input.rowSize);
    var outY := RegionStart(startXOut, startYOut, out.rowSize);
    var y: nat := 0;
    while y < height
      invariant y <= height
      invariant AtRow(input, startXIn, startYIn, y, inY) && AtRow(out, startXOut, startYOut, y, outY)
      invariant UnaryDone(op, input, startXIn, startYIn, out, out.data[..], startXOut, startYOut, width, y)
      invariant OutsideUnchanged(out, startXOut, startYOut, width, y)
    {
      UnaryRegionRow(op, input, startXIn, startYIn, inY, out, startXOut, startYOut, outY, width, height, y, old(out.data[..]));
      NextRow(input, startXIn, startYIn, y, inY);
      NextRow(out, startXOut, startYOut, y, outY);
      inY, outY := inY + input.rowSize, outY + out.rowSize;
      y := y + 1;
    }
  }

  /** One pass of the row loop of `BinaryRegion`: the byte loop over region
      row `y`, whose bytes start at `in1Y`, `in2Y` and `outY`. One more row
      of the region is finished, and every byte outside the region still
      equals `orig`. */
  method BinaryRegionRow(op: BinaryOp, in1: Image, startX1: nat, startY1: nat, in1Y: nat,
                         in2: Image, startX2: nat, startY2: nat, in2Y: nat,
                         out: Image, startXOut: nat, startYOut: nat, outY: nat, width: nat, height: nat,
                         ghost y: nat, ghost orig: seq<uint8>)
    requires in1.Valid() && in2.Valid() && out.Valid()
    requires out.data != in1.data && out.data != in2.data
    requires 0 < width && y < height
    requires RegionFits(in1, startX1, startY1, width, height) && RegionFits(in2, startX2, startY2, width, height)
    requires RegionFits(out, startXOut, startYOut, width, height)
    requires in1Y == Offset(startY1 + y, in1.rowSize) + startX1 && in2Y == Offset(startY2 + y, in2.rowSize) + startX2
    requires outY == Offset(startYOut + y, out.rowSize) + startXOut
    requires BinaryDone(op, in1, startX1, startY1, in2, startX2, startY2, out, out.data[..], startXOut, startYOut, width, y)
    requires KeepsOutside(out, orig, out.data[..], startXOut, startYOut, width, y)
    modifies out.data
    ensures BinaryDone(op, in1, startX1, startY1, in2, startX2, startY2, out, out.data[..], startXOut, startYOut, width, y + 1)
    ensures KeepsOutside(out, orig, out.data[..], startXOut, startYOut, width, y + 1)
  {
    RowInside(in1, startX1, startY1, width, height, y, in1Y);
    RowInside(in2, startX2, startY2, width, height, y, in2Y);
    RowInside(out, startXOut, startYOut, width, height, y, outY);
    ghost var before := out.data[..];
    ghost var written := BinaryBytes(op, in1.data, in1Y, in2.data, in2Y, out.data, outY, width);
    BinaryRowAdvance(op, in1, startX1, startY1, in1Y, in2, startX2, startY2, in2Y,
                     out, startXOut, startYOut, outY, width, height, y, before, out.data[..]);
    RowAdvanceOutside(out, startXOut, startYOut, outY, width, height, y, orig, before, out.data[..]);
  }

  /** One pass of the row loop of `UnaryRegion`. */
  method UnaryRegionRow(op: UnaryOp, input: Image, startXIn: nat, startYIn: nat, inY: nat,
                        out: Image, startXOut: nat, startYOut: nat, outY: nat, width: nat, height: nat,
                        ghost y: nat, ghost orig: seq<uint8>)
    requires input.Valid() && out.Valid()
    requires out.data != input.data
    requires 0 < width && y < height
    requires RegionFits(input, startXIn, startYIn, width, height) && RegionFits(out, startXOut, startYOut, width, height)
    requires inY == Offset(startYIn + y, input.rowSize) + startXIn && outY == Offset(startYOut + y, out.rowSize) + startXOut
    requires UnaryDone(op, input, startXIn, startYIn, out, out.data[..], startXOut, startYOut, width, y)
    requires KeepsOutside(out, orig, out.data[..], startXOut, startYOut, width, y)
    modifies out.data
    ensures UnaryDone(op, input, startXIn, startYIn, out, out.data[..], startXOut, startYOut, width, y + 1)
    ensures KeepsOutside(out, orig, out.data[..], startXOut, startYOut, width, y + 1)
  {
    RowInside(input, startXIn, startYIn, width, height, y, inY);
    RowInside(out, startXOut, startYOut, width, height, y, outY);
    ghost var before := out.data[..];
    ghost var written := UnaryBytes(op, input.data, inY, out.data, outY, width);
    UnaryRowAdvance(op, input, startXIn, startYIn, inY, out, startXOut, startYOut, outY, width, height, y, before, out.data[..]);
    RowAdvanceOutside(out, startXOut, startYOut, outY, width, height, y, orig, before, out.data[..]);
  }

  /** The `width` bytes of region row `y`, starting at `rowStart`, lie inside
      the buffer. */
  lemma RowInside(img: Image, startX: nat, startY: nat, width: nat, height: nat, y: nat, rowStart: nat)
    requires img.Valid() && RegionFits(img, startX, startY, width, height) && 0 < width && y < height
    requires rowStart == Offset(startY + y, img.rowSize) + startX
    ensures rowStart + width <= img.data.Length
  {
    assert rowStart + width - 1 == Addr(img, startX, startY, width - 1, y);
  }

  /** One more row of a two-source region: if the first `y` rows of `prev`
      were done and `next` is `prev` with region row `y` (`width` bytes from
      `outY`) replaced by the row's result, the first `y + 1` rows of `next`
      are done. */
  lemma BinaryRowAdvance(op: BinaryOp, in1: Image, startX1: nat, startY1: nat, in1Y: nat,
                         in2: Image, startX2: nat, startY2: nat, in2Y: nat,
                         out: Image, startXOut: nat, startYOut: nat, outY: nat, width: nat, height: nat, y: nat,
                         prev: seq<uint8>, next: seq<uint8>)
    requires in1.Valid() && in2.Valid() && out.Valid() && y < height
    requires RegionFits(in1, startX1, startY1, width, height) && RegionFits(in2, startX2, startY2, width, height)
    requires RegionFits(out, startXOut, startYOut, width, height)
    requires in1Y == Offset(startY1 + y, in1.rowSize) + startX1 && in2Y == Offset(startY2 + y, in2.rowSize) + startX2
    requires outY == Offset(startYOut + y, out.rowSize) + startXOut
    requires |prev| == |next| == out.data.Length
    requires in1Y + width <= in1.data.Length && in2Y + width <= in2.data.Length && outY + width <= |next|
    requires BinaryDone(op, in1, startX1, startY1, in2, startX2, startY2, out, prev, startXOut, startYOut, width, y)
    requires forall k :: outY <= k < outY + width ==>
      next[k] == ApplyBinary(op, in1.data[in1Y + (k - outY)], in2.data[in2Y + (k - outY)])
    requires forall k :: 0 <= k < |next| && !(outY <= k < outY + width) ==> next[k] == prev[k]
    ensures BinaryDone(op, in1, startX1, startY1, in2, startX2, startY2, out, next, startXOut, startYOut, width, y + 1)
  {
    forall x, j | 0 <= x < width && 0 <= j <= y
      ensures next[Addr(out, startXOut, startYOut, x, j)]
        == ApplyBinary(op, in1.data[Addr(in1, startX1, startY1, x, j)], in2.data[Addr(in2, startX2, startY2, x, j)])
    {
      if j < y {
        RowBefore(out, startXOut, startYOut, x, j, y);
        assert next[Addr(out, startXOut, startYOut, x, j)] == prev[Addr(out, startXOut, startYOut, x, j)];
      } else {
        RowAddr(out, startXOut, startYOut, y, outY, x);
        RowAddr(in1, startX1, startY1, y, in1Y, x);
        RowAddr(in2, startX2, startY2, y, in2Y, x);
      }
    }
  }

  /** The one-source counterpart of `BinaryRowAdvance`. */
  lemma UnaryRowAdvance(op: UnaryOp, input: Image, startXIn: nat, startYIn: nat, inY: nat,
                        out: Image, startXOut: nat, startYOut: nat, outY: nat, width: nat, height: nat, y: nat,
                        prev: seq<uint8>, next: seq<uint8>)
    requires input.Valid() && out.Valid() && y < height
    requires RegionFits(input, startXIn, startYIn, width, height) && RegionFits(out, startXOut, startYOut, width, height)
    requires inY == Offset(startYIn + y, input.rowSize) + startXIn && outY == Offset(startYOut + y, out.rowSize) + startXOut
    requires |prev| == |next| == out.data.Length
    requires inY + width <= input.data.Length && outY + width <= |next|
    requires UnaryDone(op, input, startXIn, startYIn, out, prev, startXOut, startYOut, width, y)
    requires forall k :: outY <= k < outY + width ==> next[k] == ApplyUnary(op, input.data[inY + (k - outY)])
    requires forall k :: 0 <= k < |next| && !(outY <= k < outY + width) ==> next[k] == prev[k]
    ensures UnaryDone(op, input, startXIn, startYIn, out, next, startXOut, startYOut, width, y + 1)
  {
    forall x, j | 0 <= x < width && 0 <= j <= y
      ensures next[Addr(out, startXOut, startYOut, x, j)] == ApplyUnary(op, input.data[Addr(input, startXIn, startYIn, x, j)])
    {
      if j < y {
        RowBefore(out, startXOut, startYOut, x, j, y);
        assert next[Addr(out, startXOut, startYOut, x, j)] == prev[Addr(out, startXOut, startYOut, x, j)];
      } else {
        RowAddr(out, startXOut, startYOut, y, outY, x);
        RowAddr(input, startXIn, startYIn, y, inY, x);
      }
    }
  }

  /** Writing region row `y` and nothing else keeps the buffer equal to
      `orig` outside the first `y + 1` rows of the region, if it was equal
      outside the first `y`. */
  lemma RowAdvanceOutside(out: Image, startXOut: nat, startYOut: nat, outY: nat, width: nat, height: nat, y: nat,
                          orig: seq<uint8>, prev: seq<uint8>, next: seq<uint8>)
    requires out.Valid() && RegionFits(out, startXOut, startYOut, width, height) && y < height
    requires outY == Offset(startYOut + y, out.rowSize) + startXOut
    requires |prev| == |next| == out.data.Length
    requires KeepsOutside(out, orig, prev, startXOut, startYOut, width, y)
    requires forall k :: 0 <= k < |next| && !(outY <= k < outY + width) ==> next[k] == prev[k]
    ensures KeepsOutside(out, orig, next, startXOut, startYOut, width, y + 1)
  {
    forall k | 0 <= k < |next| && !InRegion(out, k, startXOut, startYOut, width, y + 1)
      ensures next[k] == orig[k]
    {
      if outY <= k < outY + width {
        RowByte(out, startXOut, startYOut, width, height, y, outY, k);
        assert false;
      }
      assert !InRegion(out, k, startXOut, startYOut, width, y);
    }
  }

  /** A byte among the `width` bytes from the start of region row `y` lies in
      the first `y + 1` rows of the region but not in the first `y`. */
  lemma RowByte(img: Image, startX: nat, startY: nat, width: nat, height: nat, y: nat, rowStart: nat, k: int)
    requires img.Valid() && RegionFits(img, startX, startY, width, height) && y < height
    requires rowStart == Offset(startY + y, img.rowSize) + startX
    requires rowStart <= k < rowStart + width
    ensures InRegion(img, k, startX, startY, width, y + 1) && !InRegion(img, k, startX, startY, width, y)
  {
    assert k == Addr(img, startX, startY, k - rowStart, y);
  }

  /** Column `x` of region row `y` is `x` bytes past the row's start. */
  lemma RowAddr(img: Image, startX: nat, startY: nat, y: nat, rowStart: nat, x: nat)
    requires img.Valid() && startX + x < img.rowSize && startY + y < img.height
    requires rowStart == Offset(startY + y, img.rowSize) + startX
    ensures Addr(img, startX, startY, x, y) == rowStart + x
  {
  }

  /** A byte of an earlier region row lies before the start of row `y`. */
  lemma RowBefore(img: Image, startX: nat, startY: nat, x: nat, j: nat, y: nat)
    requires img.Valid() && startX + x < img.rowSize && startY + y < img.height && j < y
    ensures Addr(img, startX, startY, x, j) < Offset(startY + y, img.rowSize) + startX
  {
    OffsetMonotone(startY + j + 1, startY + y, img.rowSize);
  }

  /** `Image_Function::BitwiseAnd` and the other two-source region calls:
      validate, then compute every byte of the output region. On a failed
      check the output is untouched. */
  method Binary(op: BinaryOp, in1: Image, startX1: nat, startY1: nat, in2: Image, startX2: nat, startY2: nat,
                out: Image, startXOut: nat, startYOut: nat, width: nat, height: nat) returns (r: Outcome)
    requires in1.Valid() && in2.Valid() && out.Valid()
    requires out.data != in1.data && out.data != in2.data
    modifies out.data
    ensures r == CheckRegions3(in1, startX1, startY1, in2, startX2, startY2, out, startXOut, startYOut, width, height)
    ensures r.Pass? ==> BinaryDone(op, in1, startX1, startY1, in2, startX2, startY2, out, out.data[..], startXOut, startYOut, width, height)
    ensures r.Fail? ==> unchanged(out.data)
    ensures OutsideUnchanged(out, startXOut, startYOut, width, height)
  {
    r := CheckRegions3(in1, startX1, startY1, in2, startX2, startY2, out, startXOut, startYOut, width, height);
    if r.Pass? {
      BinaryRegion(op, in1, startX1, startY1, in2, startX2, startY2, out, startXOut, startYOut, width, height);
    }
  }

  /** `Image_Function::Invert` and `Image_Function::Threshold`: the one-source
      counterpart of `Binary`. */
  method Unary(op: UnaryOp, input: Image, startXIn: nat, startYIn: nat,
               out: Image, startXOut: nat, startYOut: nat, width: nat, height: nat) returns (r: Outcome)
    requires input.Valid() && out.Valid()
    requires out.data != input.data
    modifies out.data
    ensures r == CheckRegions2(input, startXIn, startYIn, out, startXOut, startYOut, width, height)
    ensures r.Pass? ==> UnaryDone(op, input, startXIn, startYIn, out, out.data[..], startXOut, startYOut, width, height)
    ensures r.Fail? ==> unchanged(out.data)
    ensures OutsideUnchanged(out, startXOut, startYOut, width, height)
  {
    r := CheckRegions2(input, startXIn, startYIn, out, startXOut, startYOut, width, height);
    if r.Pass? {
      UnaryRegion(op, input, startXIn, startYIn, out, startXOut, startYOut, width, height);
    }
  }
}
