/** The image container the kernels consume: an 8-bit, single-channel image
    stored row-major, row `y` starting `y * rowSize` bytes into its buffer,
    with `rowSize >= width` (the bytes past `width` are stride padding).
    Also the region addressing shared by every kernel and the parameter
    checks that run before any byte is written. */
module Images {
  import opened Pixel

  class Image {
    const width: nat
    const height: nat
    /** `rowSize()`: bytes from the start of one row to the start of the next. */
    const rowSize: nat
    /** `data()`: the whole buffer, `height` rows of `rowSize` bytes. */
    const data: array<uint8>

    predicate Valid()
    {
      width <= rowSize && data.Length == Offset(height, rowSize)
    }

    /** `empty()`: an image with no samples. */
    predicate Empty()
    {
      width == 0 || height == 0
    }

    /** `Image(width, height)`. The `Image` class's own source is not part of
        this model; the model chooses packed rows for a new image, so its row
        size is its width. */
    constructor (width: nat, height: nat)
      ensures Valid()
      ensures this.width == width && this.height == height && rowSize == width
      ensures fresh(data)
    {
      this.width := width;
      this.height := height;
      rowSize := width;
      data := new uint8[width * height];
      OffsetIsProduct(height, width);
    }
  }

  /** `rows * stride`, accumulated one row at a time, the way the kernels
      advance a row pointer by the row size. */
  function Offset(rows: nat, stride: nat): nat
  {
    if rows == 0 then 0 else Offset(rows - 1, stride) + stride
  }

  /** Advancing `rows` times by `stride` moves `rows * stride` bytes. */
  lemma {:induction false} OffsetIsProduct(rows: nat, stride: nat)
    ensures Offset(rows, stride) == rows * stride
  {
    if rows > 0 {
      OffsetIsProduct(rows - 1, stride);
    }
  }

  /** `p` is the index of the first byte of region row `y`. */
  predicate AtRow(img: Image, startX: nat, startY: nat, y: nat, p: int)
  {
    p == Offset(startY + y, img.rowSize) + startX
  }

  /** Adding the row size moves a row pointer to the next row. */
  lemma NextRow(img: Image, startX: nat, startY: nat, y: nat, p: int)
    requires AtRow(img, startX, startY, y, p)
    ensures AtRow(img, startX, startY, y + 1, p + img.rowSize)
  {
  }

  /** More rows never move the pointer back. */
  lemma {:induction false} OffsetMonotone(a: nat, b: nat, stride: nat)
    requires a <= b
    ensures Offset(a, stride) <= Offset(b, stride)
    decreases b
  {
    if a < b {
      OffsetMonotone(a, b - 1, stride);
    }
  }

  /** Advancing `a` rows and then `b` more is advancing `a + b` rows. */
  lemma {:induction false} OffsetAdd(a: nat, b: nat, stride: nat)
    ensures Offset(a + b, stride) == Offset(a, stride) + Offset(b, stride)
  {
    if b > 0 {
      OffsetAdd(a, b - 1, stride);
    }
  }

  /** `data() + startY * rowSize + startX`: the index of the first byte of a
      region, `startY` rows and `startX` bytes into the buffer. */
  method RegionStart(startX: nat, startY: nat, rowSize: nat) returns (p: nat)
    ensures p == Offset(startY, rowSize) + startX
  {
    OffsetIsProduct(startY, rowSize);
    p := startY * rowSize + startX;
  }

  /** `p + height * rowSize`: the index `height` rows past `p`. */
  method RowsPast(p: nat, height: nat, rowSize: nat) returns (q: nat)
    ensures q == p + Offset(height, rowSize)
  {
    OffsetIsProduct(height, rowSize);
    q := p + height * rowSize;
  }

  lemma MulMonotone(a: nat, b: nat, c: nat)
    requires a <= b
    ensures a * c <= b * c
  {
  }

  /** Column `x` of row `y` of a buffer with `rows` rows of `stride` bytes
      lies inside the buffer, and division by the stride recovers the row
      and the column. */
  lemma RowMajor(x: nat, y: nat, stride: nat, rows: nat)
    requires x < stride && y < rows
    ensures y * stride + x < rows * stride
    ensures (y * stride + x) / stride == y && (y * stride + x) % stride == x
  {
    MulMonotone(y + 1, rows, stride);
    assert (y + 1) * stride == y * stride + stride;
    DivModUnique(y * stride + x, stride, y, x);
  }

  /** Quotient and remainder are the only pair with `k == q * d + r` and
      `0 <= r < d`. */
  lemma DivModUnique(k: nat, d: nat, q: nat, r: nat)
    requires r < d && k == q * d + r
    ensures k / d == q && k % d == r
  {
    var q', r' := k / d, k % d;
    assert k == q' * d + r';
    assert (q + 1) * d == q * d + d;
    assert (q' + 1) * d == q' * d + d;
    MulCancel(q', q + 1, d);
    MulCancel(q, q' + 1, d);
  }

  /** A smaller multiple of `c` has the smaller factor. */
  lemma MulCancel(a: nat, b: nat, c: nat)
    requires a * c < b * c
    ensures a < b
  {
    if b <= a {
      MulMonotone(b, a, c);
    }
  }

  /** Index of the byte at column `x`, row `y` of the region whose top-left
      corner is (`startX`, `startY`): `data() + startY * rowSize + startX`,
      advanced by `y` rows and `x` bytes. The byte is inside the buffer and
      sits in image row `startY + y`, image column `startX + x`. */
  function Addr(img: Image, startX: nat, startY: nat, x: nat, y: nat): (k: nat)
    requires img.Valid()
    requires startX + x < img.rowSize && startY + y < img.height
    ensures k < img.data.Length
    ensures k / img.rowSize == startY + y && k % img.rowSize == startX + x
  {
    OffsetIsProduct(startY + y, img.rowSize);
    OffsetIsProduct(img.height, img.rowSize);
    RowMajor(startX + x, startY + y, img.rowSize, img.height);
    Offset(startY + y, img.rowSize) + startX + x
  }

  /** Buffer index `k` belongs to the `width` x `height` region at (`startX`, `startY`). */
  predicate InRegion(img: Image, k: int, startX: nat, startY: nat, width: nat, height: nat)
  {
    && img.rowSize > 0
    && startY <= k / img.rowSize < startY + height
    && startX <= k % img.rowSize < startX + width
  }

  /** The region lies inside the image. */
  predicate RegionFits(img: Image, startX: nat, startY: nat, width: nat, height: nat)
  {
    startX + width <= img.width && startY + height <= img.height
  }

  datatype Error =
    | EmptyImage         // an image or the region has no samples
    | InvalidRegion      // the region reaches past the image
    | DimensionMismatch  // images that must have one size do not

  /** The outcome of parameter validation; the first failing check wins. */
  datatype Outcome = Pass | Fail(error: Error)
  {
    function Then(next: Outcome): Outcome
    {
      if Fail? then this else next
    }
  }

  datatype Result<T> = Ok(value: T) | Err(error: Error)

  /** The region check made for each image of a region call: it passes
      exactly for a non-empty region inside a non-empty image, and reports a
      region reaching past a non-empty image as `InvalidRegion`. */
  function CheckRegion(img: Image, startX: nat, startY: nat, width: nat, height: nat): (r: Outcome)
    ensures r == Pass <==> !img.Empty() && width > 0 && height > 0 && RegionFits(img, startX, startY, width, height)
    ensures r == Fail(InvalidRegion)
        <==> !img.Empty() && width > 0 && height > 0 && !RegionFits(img, startX, startY, width, height)
  {
    if img.Empty() || width == 0 || height == 0 then Fail(EmptyImage)
    else if !RegionFits(img, startX, startY, width, height) then Fail(InvalidRegion)
    else Pass
  }

  /** The check made for one whole image: it passes exactly for a non-empty
      image and otherwise reports `EmptyImage`. */
  function CheckImage(img: Image): (r: Outcome)
    ensures r == Pass <==> !img.Empty()
    ensures r != Pass ==> r == Fail(EmptyImage)
  {
    if img.Empty() then Fail(EmptyImage) else Pass
  }

  /** The check made for two whole images that must have one size: it
      passes exactly for two non-empty images of one size, and reports two
      non-empty images of different sizes as `DimensionMismatch`. */
  function CheckSameSize(a: Image, b: Image): (r: Outcome)
    ensures r == Pass <==> !a.Empty() && !b.Empty() && a.width == b.width && a.height == b.height
    ensures r == Fail(DimensionMismatch)
        <==> !a.Empty() && !b.Empty() && (a.width != b.width || a.height != b.height)
  {
    if a.Empty() || b.Empty() then Fail(EmptyImage)
    else if a.width != b.width || a.height != b.height then Fail(DimensionMismatch)
    else Pass
  }

  /** Region checks for a call over two images: both must pass, and a
      failure of the first is the one reported. */
  function CheckRegions2(in1: Image, startX1: nat, startY1: nat, in2: Image, startX2: nat, startY2: nat,
                         width: nat, height: nat): (r: Outcome)
    ensures r == Pass <==> CheckRegion(in1, startX1, startY1, width, height) == Pass
                           && CheckRegion(in2, startX2, startY2, width, height) == Pass
    ensures CheckRegion(in1, startX1, startY1, width, height) != Pass ==> r == CheckRegion(in1, startX1, startY1, width, height)
  {
    CheckRegion(in1, startX1, startY1, width, height).Then(CheckRegion(in2, startX2, startY2, width, height))
  }

  /** Region checks for a call over three images: all three must pass, and
      the output's check is reported only when both sources pass. */
  function CheckRegions3(in1: Image, startX1: nat, startY1: nat, in2: Image, startX2: nat, startY2: nat,
                         out: Image, startXOut: nat, startYOut: nat, width: nat, height: nat): (r: Outcome)
    ensures r == Pass <==> CheckRegions2(in1, startX1, startY1, in2, startX2, startY2, width, height) == Pass
                           && CheckRegion(out, startXOut, startYOut, width, height) == Pass
    ensures CheckRegions2(in1, startX1, startY1, in2, startX2, startY2, width, height) == Pass
        ==> r == CheckRegion(out, startXOut, startYOut, width, height)
  {
    CheckRegions2(in1, startX1, startY1, in2, startX2, startY2, width, height)
      .Then(CheckRegion(out, startXOut, startYOut, width, height))
  }

  /** Buffer contents `after` agree with `before` at every index outside the region. */
  ghost predicate KeepsOutside(img: Image, before: seq<uint8>, after: seq<uint8>,
                               startX: nat, startY: nat, width: nat, height: nat)
  {
    && |before| == |after|
    && forall k :: 0 <= k < |after| && !InRegion(img, k, startX, startY, width, height) ==> after[k] == before[k]
  }

  /** Every buffer index inside the region is the address of one region
      byte: the one at region column `k % rowSize - startX`, region row
      `k / rowSize - startY`. */
  lemma RegionAddr(img: Image, k: nat, startX: nat, startY: nat, width: nat, height: nat)
    requires img.Valid() && RegionFits(img, startX, startY, width, height)
    requires k < img.data.Length && InRegion(img, k, startX, startY, width, height)
    ensures k == Addr(img, startX, startY, k % img.rowSize - startX, k / img.rowSize - startY)
  {
    OffsetIsProduct(k / img.rowSize, img.rowSize);
  }

  /** Two contents of one buffer that agree with the same original outside
      the region and with each other at every region byte are equal. */
  lemma RegionDetermines(img: Image, orig: seq<uint8>, s1: seq<uint8>, s2: seq<uint8>,
                         startX: nat, startY: nat, width: nat, height: nat)
    requires img.Valid() && RegionFits(img, startX, startY, width, height)
    requires |s1| == img.data.Length
    requires KeepsOutside(img, orig, s1, startX, startY, width, height)
    requires KeepsOutside(img, orig, s2, startX, startY, width, height)
    requires forall x, y :: 0 <= x < width && 0 <= y < height ==>
      s1[Addr(img, startX, startY, x, y)] == s2[Addr(img, startX, startY, x, y)]
    ensures s1 == s2
  {
    forall k | 0 <= k < |s1|
      ensures s1[k] == s2[k]
    {
      if InRegion(img, k, startX, startY, width, height) {
        RegionAddr(img, k, startX, startY, width, height);
      }
    }
  }

  /** Bytes of `out` outside the region have the values they had before the call. */
  twostate predicate OutsideUnchanged(out: Image, startX: nat, startY: nat, width: nat, height: nat)
    reads out.data
  {
    KeepsOutside(out, old(out.data[..]), out.data[..], startX, startY, width, height)
  }

  /** The check made for three whole images that must have one size: it
      passes exactly when all three are non-empty and of the first one's
      size. */
  function CheckSameSize3(in1: Image, in2: Image, out: Image): (r: Outcome)
    ensures r == Pass <==> !in1.Empty() && !in2.Empty() && !out.Empty()
                           && in2.width == in1.width && in2.height == in1.height
                           && out.width == in1.width && out.height == in1.height
  {
    CheckSameSize(in1, in2).Then(CheckSameSize(in1, out))
  }
}
