# PenguinV 128-bit image kernels, modelled in Dafny

This project models `Image_Function_Sse`, the SSE2 implementation of PenguinV's
pixel-wise operations on 8-bit single-channel images: BitwiseAnd, BitwiseOr,
BitwiseXor, Invert, Maximum, Minimum, Subtract and Threshold. Each operation
comes in four call shapes:

- region into an existing image;
- region into a new image;
- whole image into an existing image;
- whole image into a new image.

An image is a row-major byte buffer of `height` rows. Each row is `rowSize`
bytes long, with `rowSize >= width`; the bytes past `width` are row padding.

For a region at least 16 bytes wide, every region call has the same shape:

- it validates its arguments;
- it computes each buffer's start offset `startY * rowSize + startX`;
- it splits the width into `width / 16` whole registers and a remainder of
  fewer than 16 bytes;
- it walks the rows, advancing each buffer by its own row size;
- on each row, a register loop applies one instruction sequence per 16 bytes,
  and a byte loop applies the scalar formula to the remainder.

The one exception is Threshold with a zero threshold: after validation it
fills each output row of the region with 255 by `memset`, with no register
loop and without reading the input.

A region narrower than 16 bytes is handed to the baseline byte-at-a-time
kernels (`Image_Function`).

Bytes are integers in `[0, 256)`. The bitwise operators `&`, `|`, `^` and
`~` are defined bit by bit, lowest bit first, on natural numbers. Row
pointers are tracked as `Offset(rows, rowSize)`, the index reached after
advancing `rows` times by `rowSize`, which is proved equal to
`rows * rowSize`.

What is proved:

- Each register instruction sequence equals the scalar formula on every
  element. This covers:
  - `andnot` with an all-ones mask for Invert;
  - `a - min(a, b)` with a wrapping subtract for the clamped Subtract;
  - the signed comparison of top-bit-flipped values against `threshold - 1`
    for `a >= threshold`.
- The register loop and the remainder loop together write each of the
  `width` bytes of a row once, in order, and nothing else. Each loop keeps a
  ghost log of the columns it stores; the row's log is the tiling
  `RowColumns(width)`, which is `0, 1, ..., width - 1`.
- After a successful region call, every byte of the output region is the
  operation applied to the source bytes at the same region coordinates. Each
  source is read from its own origin with its own row size.
- Every byte outside the output region is unchanged, row padding included.
  The sources are never written.
- The result equals the baseline kernels' result, for any width. Both
  promise the same outcome, the finished region and an unchanged outside,
  and `BinaryResultUnique` and `UnaryResultUnique` show that these fix
  every byte of the output.
- AND, OR, XOR, maximum and minimum ignore operand order; AND, OR, maximum
  and minimum of a byte with itself give the byte, XOR and subtraction
  give 0.
- The zero threshold fills the region with 255 without reading the input.
- A failed validation reports its error and leaves the output untouched.

Files and modules:

- `pixel.dfy` (`Pixel`): per-byte formulas.
- `sse2.dfy` (`Sse2`): the SSE2 instructions, element by element.
- `image.dfy` (`Images`): the image, region addressing and validation.
- `image_function.dfy` (`ImageFunction`): the baseline kernels.
- `image_function_sse.dfy` (`ImageFunctionSse`): the register kernels and
  all public calls.

## Model

| member | source | states |
|---|---|---|
| Pixel.Invert | PenguinV/Library/image_function_sse.cpp:299 | `~in` stored into a byte is `255 - in` |
| Pixel.ComplementIsDifference | PenguinV/Library/image_function_sse.cpp:299 | complementing the low `n` bits of an `n`-bit value gives `2^n - 1` minus the value, so `~in` narrowed to a byte is `255 - in` |
| Pixel.AndAtMost | PenguinV/Library/image_function_sse.cpp:55 | `in1 & in2` is no larger than either operand, so `&` of two bytes is a byte |
| Pixel.OrAtLeast | PenguinV/Library/image_function_sse.cpp:137 | `in1 \| in2` is no smaller than either operand |
| Pixel.AndCommutes | PenguinV/Library/image_function_sse.cpp:55 | `a & b == b & a` for all naturals |
| Pixel.OrCommutes | PenguinV/Library/image_function_sse.cpp:137 | `a \| b == b \| a` for all naturals |
| Pixel.XorCommutes | PenguinV/Library/image_function_sse.cpp:219 | `a ^ b == b ^ a` for all naturals |
| Pixel.AndIdempotent | PenguinV/Library/image_function_sse.cpp:55 | `a & a == a` |
| Pixel.OrIdempotent | PenguinV/Library/image_function_sse.cpp:137 | `a \| a == a` |
| Pixel.XorSelf | PenguinV/Library/image_function_sse.cpp:219 | `a ^ a == 0` |
| Pixel.XorCancel | PenguinV/Library/image_function_sse.cpp:219 | `(a ^ b) ^ b == a`: XOR with the same value undoes itself |
| Pixel.BitAnd | PenguinV/Library/image_function_sse.cpp:55 | `in1 & in2` on two bytes is a byte no larger than either |
| Pixel.BitOr | PenguinV/Library/image_function_sse.cpp:137 | `in1 \| in2` on two bytes is a byte no smaller than either |
| Pixel.BitXor | PenguinV/Library/image_function_sse.cpp:219 | `in1 ^ in2` on two bytes is a byte that XORed with `in2` again gives `in1` |
| Pixel.BinaryCommutes | PenguinV/Library/image_function_sse.cpp:55 | every two-source operation except Subtract gives the same byte with its sources swapped: the remainder formulas `&` (line 55), `\|` (137), `^` (219), maximum (381-384) and minimum (467-470) |
| Pixel.BinarySelf | PenguinV/Library/image_function_sse.cpp:55 | `&` (line 55), `\|` (137), maximum (381-384) and minimum (467-470) of a byte with itself give the byte; `^` (219) and the clamped subtraction (554-557) give 0 |
| Pixel.OrBelow | PenguinV/Library/image_function_sse.cpp:137 | `in1 \| in2` of two `n`-bit values is an `n`-bit value, so it fits a byte |
| Pixel.XorBelow | PenguinV/Library/image_function_sse.cpp:219 | `in1 ^ in2` of two `n`-bit values is an `n`-bit value, so it fits a byte |
| Pixel.AndOnes | PenguinV/Library/image_function_sse.cpp:289 | ANDing an `n`-bit value with `n` one bits (the all-ones `mask` of `_mm_andnot_si128`) keeps the value |
| Pixel.XorTopBit | PenguinV/Library/image_function_sse.cpp:621-628 | XOR with `2^n` adds `2^n` to a value below `2^n` and subtracts it from a value in `[2^n, 2^(n+1))`: the effect of `^ 0x80` on a byte |
| Pixel.InvertInvolution | PenguinV/Library/image_function_sse.cpp:299 | inverting twice restores the sample |
| Pixel.Maximum | PenguinV/Library/image_function_sse.cpp:380-385 | `in2 < in1 ? in1 : in2` is one of the two samples and no smaller than either |
| Pixel.Minimum | PenguinV/Library/image_function_sse.cpp:466-471 | `in2 > in1 ? in1 : in2` is one of the two samples and no larger than either |
| Pixel.Subtract | PenguinV/Library/image_function_sse.cpp:553-558 | the result never exceeds the minuend; it is 0 when `in2 > in1`; otherwise adding `in2` back gives `in1` |
| Pixel.Threshold | PenguinV/Library/image_function_sse.cpp:648 | the result is 0 or 255, and 255 exactly when `in >= threshold` |
| Pixel.ThresholdZero | PenguinV/Library/image_function_sse.cpp:654-661 | a zero threshold maps every sample, 0 included, to 255 |
| Sse2.Broadcast | PenguinV/Library/image_function_sse.cpp:278-279 | `_mm_set_epi8(v, ..., v)` holds `v` in all 16 elements |
| Sse2.LoadU | PenguinV/Library/image_function_sse.cpp:43 | `_mm_loadu_si128(p)` holds the 16 bytes starting at `p`, element `i` from byte `p + i` |
| Sse2.AndSi128 | PenguinV/Library/image_function_sse.cpp:43 | `_mm_and_si128`: each element is no larger than either operand's element |
| Sse2.OrSi128 | PenguinV/Library/image_function_sse.cpp:125 | `_mm_or_si128`: each element is no smaller than either operand's element |
| Sse2.XorSi128 | PenguinV/Library/image_function_sse.cpp:207 | `_mm_xor_si128`: XORing each element with the second operand's again gives back the first's |
| Sse2.AndNotSi128 | PenguinV/Library/image_function_sse.cpp:289 | `_mm_andnot_si128(a, b)` complements the FIRST operand: each element is at most `b`'s and at most `255 - a`'s |
| Sse2.MaxEpu8 | PenguinV/Library/image_function_sse.cpp:369 | `_mm_max_epu8`: each element is one of the two operands' elements and no smaller than either, unsigned |
| Sse2.MinEpu8 | PenguinV/Library/image_function_sse.cpp:455 | `_mm_min_epu8`: each element is one of the two operands' elements and no larger than either, unsigned |
| Sse2.SubEpi8 | PenguinV/Library/image_function_sse.cpp:542 | `_mm_sub_epi8` wraps modulo 256: adding the subtrahend back modulo 256 gives the minuend, and without a borrow the element is the plain difference |
| Sse2.CmpGtEpi8 | PenguinV/Library/image_function_sse.cpp:638 | `_mm_cmpgt_epi8`: each element is 0 or 255, and 255 exactly when `a`'s element exceeds `b`'s read as signed bytes |
| Sse2.StoreU | PenguinV/Library/image_function_sse.cpp:43 | `_mm_storeu_si128` writes the 16 register elements to 16 consecutive bytes and changes no other byte |
| Sse2.BiasFlip | PenguinV/Library/image_function_sse.cpp:621-628 | `x ^ 0x80`, read as a signed byte, is `x - 128`, so flipping the top bit turns the unsigned order into the signed one |
| Images.Image.constructor | PenguinV/Library/image_function_sse.cpp:66 | `Image out(width, height)` is a fresh valid image of that size |
| Images.Addr | PenguinV/Library/image_function_sse.cpp:24-26 | the byte at region column `x`, row `y` is inside the buffer, in image row `startY + y` and image column `startX + x` |
| Images.OffsetIsProduct | PenguinV/Library/image_function_sse.cpp:24-26 | advancing a row pointer `rows` times by `stride` moves it `rows * stride` bytes |
| Images.OffsetAdd | PenguinV/Library/image_function_sse.cpp:28 | advancing `a` rows and then `b` more is advancing `a + b` rows, so `outYEnd` is the start of row `startYOut + height` |
| Images.OffsetMonotone | PenguinV/Library/image_function_sse.cpp:34 | more rows never move a row pointer back, so the loop reaches `outYEnd` only after the last row |
| Images.RegionStart | PenguinV/Library/image_function_sse.cpp:24-26 | `data() + startY * rowSize + startX` is the index `startY` rows and `startX` bytes into the buffer |
| Images.RowsPast | PenguinV/Library/image_function_sse.cpp:28 | `outY + height * rowSizeOut` is the index `height` rows past `outY` |
| Images.CheckRegion | PenguinV/Library/image_function_sse.cpp:18 | a region check passes exactly for a non-empty region inside a non-empty image, and reports a region past a non-empty image as `InvalidRegion` |
| Images.CheckImage | PenguinV/Library/image_function_sse.cpp:326 | a whole-image check passes exactly for a non-empty image and otherwise reports `EmptyImage` |
| Images.CheckSameSize | PenguinV/Library/image_function_sse.cpp:82 | two whole images pass exactly when both are non-empty and of one size; two non-empty images of different sizes are `DimensionMismatch` |
| Images.CheckSameSize3 | PenguinV/Library/image_function_sse.cpp:75 | three whole images pass exactly when all are non-empty and of the first one's size |
| Images.CheckRegions2 | PenguinV/Library/image_function_sse.cpp:64 | a two-image region call passes exactly when both region checks pass, and the first image's failure is the one reported |
| Images.CheckRegions3 | PenguinV/Library/image_function_sse.cpp:18 | a three-image region call passes exactly when all region checks pass; the output's check is reported only when both sources pass |
| Images.RegionAddr | PenguinV/Library/image_function_sse.cpp:24-26 | every buffer index inside a region is the address of the region byte at column `k % rowSize - startX`, row `k / rowSize - startY` |
| Images.RegionDetermines | PenguinV/Library/image_function_sse.cpp:24-34 | two buffer contents that match one original outside a region and each other inside it are equal |
| ImageFunction.BinaryBytes | PenguinV/Library/image_function_sse.cpp:46-56 | the remainder loop: the `count` output bytes are `op` of the matching source bytes; no other byte changes; the logged stores are offsets `0 .. count`, once each, in order |
| ImageFunction.UnaryBytes | PenguinV/Library/image_function_sse.cpp:292-300 | the one-source remainder loop, with the same guarantee and the same store log |
| ImageFunction.BinaryRegion | PenguinV/Library/image_function_sse.cpp:13-16 | the baseline two-source kernel that narrow regions go to: every region byte is computed and nothing outside the region changes |
| ImageFunction.UnaryRegion | PenguinV/Library/image_function_sse.cpp:259-262 | the baseline one-source kernel, with the same guarantee |
| ImageFunction.BinaryRegionRow | PenguinV/Library/image_function_sse.cpp:13-16 | one pass of the baseline row loop extends the finished rows by one and keeps every byte outside the region |
| ImageFunction.UnaryRegionRow | PenguinV/Library/image_function_sse.cpp:259-262 | the one-source counterpart of the baseline row pass |
| ImageFunction.Binary | PenguinV/Library/image_function_sse.cpp:13-16 | the baseline two-source call: its outcome is the three region checks; on success the region is computed; on failure the output is untouched |
| ImageFunction.Unary | PenguinV/Library/image_function_sse.cpp:598-601 | the baseline one-source call, with the same guarantee |
| ImageFunction.RowInside | PenguinV/Library/image_function_sse.cpp:24-26 | the `width` bytes of every region row lie inside the buffer |
| ImageFunction.BinaryRowAdvance | PenguinV/Library/image_function_sse.cpp:34 | after row `y` is written with its result, the first `y + 1` rows of the region are done |
| ImageFunction.UnaryRowAdvance | PenguinV/Library/image_function_sse.cpp:281 | the one-source counterpart of the row step |
| ImageFunction.RowAdvanceOutside | PenguinV/Library/image_function_sse.cpp:34 | writing only region row `y` keeps every byte outside the first `y + 1` region rows |
| ImageFunction.RowByte | PenguinV/Library/image_function_sse.cpp:34 | a byte of region row `y` lies in the first `y + 1` region rows and not in the first `y` |
| ImageFunction.RowBefore | PenguinV/Library/image_function_sse.cpp:34 | a byte of an earlier region row lies before the start of row `y` |
| ImageFunction.RowAddr | PenguinV/Library/image_function_sse.cpp:34-38 | column `x` of region row `y` is `x` bytes past the row's start pointer |
| ImageFunction.BinaryResultUnique | PenguinV/Library/image_function_sse.cpp:13-59 | two outputs that both hold the finished two-source region and keep the same outside are equal, so the register and baseline kernels leave the same bytes |
| ImageFunction.UnaryResultUnique | PenguinV/Library/image_function_sse.cpp:259-304 | the one-source counterpart: inversion and thresholding results are fixed by the region result and the unchanged outside |
| ImageFunctionSse.SplitRow | PenguinV/Library/image_function_sse.cpp:30-32 | `sseWidth * 16 + nonSseWidth == width` with `nonSseWidth < 16`, and at least one register when `width >= 16` |
| ImageFunctionSse.LaneColumnsInOrder | PenguinV/Library/image_function_sse.cpp:40-43 | the columns the register loop logs for `sseWidth` iterations are `0 .. 16 * sseWidth`, once each, in increasing order |
| ImageFunctionSse.RowColumnsExact | PenguinV/Library/image_function_sse.cpp:40-56 | the columns one row logs (register loop, then remainder loop from `totalSseWidth`) are `0 .. width`, once each, in order |
| ImageFunctionSse.BinaryLane | PenguinV/Library/image_function_sse.cpp:541-542 | each register sequence (`and` at line 43, `or` at 125, `xor` at 207, `max_epu8` at 369, `min_epu8` at 455, `sub_epi8(a, min_epu8(a, b))` at 541-542) equals the remainder formula in every element; the subtract never wraps |
| ImageFunctionSse.InvertMask | PenguinV/Library/image_function_sse.cpp:278-279 | the inversion mask is 255 in every element |
| ImageFunctionSse.SignMask | PenguinV/Library/image_function_sse.cpp:621-622 | the threshold mask is `0x80` in every element |
| ImageFunctionSse.ThresholdComparand | PenguinV/Library/image_function_sse.cpp:624-628 | `(threshold - 1) ^ 0x80`, read as a signed byte, is `threshold - 1 - 128` in every element |
| ImageFunctionSse.InvertLane | PenguinV/Library/image_function_sse.cpp:278-289 | `andnot(a, 0xff...)` equals `~a` in every element |
| ImageFunctionSse.ThresholdLane | PenguinV/Library/image_function_sse.cpp:621-638 | for a positive threshold, `cmpgt_epi8(a ^ 0x80, (t - 1) ^ 0x80)` is 255 exactly where `a >= t` and 0 elsewhere |
| ImageFunctionSse.UnaryLane | PenguinV/Library/image_function_sse.cpp:289 | each one-source register sequence (`andnot` for inversion, `cmpgt_epi8` of flipped values for a positive threshold) equals the remainder formula in every element |
| ImageFunctionSse.BinaryStep | PenguinV/Library/image_function_sse.cpp:43 | one register iteration writes `op` of the source bytes to exactly the 16 bytes at `dst` |
| ImageFunctionSse.UnaryStep | PenguinV/Library/image_function_sse.cpp:289 | one one-source register iteration writes the scalar result to exactly the 16 bytes at `dst` |
| ImageFunctionSse.BinaryLanes | PenguinV/Library/image_function_sse.cpp:40-43 | the two-source register loop writes exactly its `16 * sseWidth` output bytes, each with the operation's result, and its logged stores are `LaneColumns(sseWidth)` |
| ImageFunctionSse.UnaryLanes | PenguinV/Library/image_function_sse.cpp:285-289 | the one-source register loop, with the same guarantee and the same store log |
| ImageFunctionSse.BinaryRow | PenguinV/Library/image_function_sse.cpp:36-56 | one two-source row: all `width` bytes hold the result and no other byte changes; its logged stores are `RowColumns(width)` |
| ImageFunctionSse.UnaryRow | PenguinV/Library/image_function_sse.cpp:283-300 | one one-source row, with the same guarantee and the same store log |
| ImageFunctionSse.Memset | PenguinV/Library/image_function_sse.cpp:661 | `memset` sets exactly `count` bytes to the value |
| ImageFunctionSse.RowsLeft | PenguinV/Library/image_function_sse.cpp:28-34 | the output row pointer reaches `outYEnd` only after `height` rows |
| ImageFunctionSse.BinaryKernelRow | PenguinV/Library/image_function_sse.cpp:34-56 | one pass of the row loop (register loop and remainder) extends the finished rows by one and keeps every byte outside the region |
| ImageFunctionSse.UnaryKernelRow | PenguinV/Library/image_function_sse.cpp:281-301 | the one-source counterpart of the kernel row pass |
| ImageFunctionSse.BinaryKernel | PenguinV/Library/image_function_sse.cpp:20-57 | the two-source row loop computes every region byte and leaves everything outside the region unchanged |
| ImageFunctionSse.UnaryKernel | PenguinV/Library/image_function_sse.cpp:266-302 | the one-source row loop, with the same guarantee |
| ImageFunctionSse.FillRowAdvance | PenguinV/Library/image_function_sse.cpp:660-661 | after one more `memset` row, the first `y + 1` region rows are 255 |
| ImageFunctionSse.FillRow | PenguinV/Library/image_function_sse.cpp:660-661 | one `memset` of a region row extends the filled rows by one and keeps every byte outside the region |
| ImageFunctionSse.FillRows | PenguinV/Library/image_function_sse.cpp:654-661 | the zero-threshold path sets every region byte to 255, writes nothing outside the region, and takes no input |
| ImageFunctionSse.FillIsZeroThreshold | PenguinV/Library/image_function_sse.cpp:654-661 | a region full of 255 is the threshold-at-zero result for any input |
| ImageFunctionSse.Binary | PenguinV/Library/image_function_sse.cpp:9-59 | for every width, the same outcome and the same bytes as the baseline call; nothing outside the region changes |
| ImageFunctionSse.Unary | PenguinV/Library/image_function_sse.cpp:594-664 | the one-source counterpart; a zero threshold goes through the fill path |
| ImageFunctionSse.BinaryAlloc | PenguinV/Library/image_function_sse.cpp:61-71 | an error exactly when a source region check fails; otherwise a fresh `width` x `height` image holding the result at its origin |
| ImageFunctionSse.BinaryImages | PenguinV/Library/image_function_sse.cpp:73-78 | fails unless all three images are non-empty and of one size; otherwise every byte of `out` holds the result and the row padding is kept |
| ImageFunctionSse.BinaryImagesAlloc | PenguinV/Library/image_function_sse.cpp:80-89 | fails unless both sources are non-empty and of one size; otherwise a fresh image of the first source's size holding the result |
| ImageFunctionSse.UnaryAlloc | PenguinV/Library/image_function_sse.cpp:306-315 | an error exactly when the source region check fails; otherwise a fresh image holding the result |
| ImageFunctionSse.UnaryImages | PenguinV/Library/image_function_sse.cpp:317-322 | fails unless both images are non-empty and of one size; otherwise every byte of `out` holds the result |
| ImageFunctionSse.UnaryImagesAlloc | PenguinV/Library/image_function_sse.cpp:324-333 | fails on an empty source; otherwise a fresh image of its size holding the result |
| ImageFunctionSse.BitwiseAnd | PenguinV/Library/image_function_sse.cpp:9-59 | every output region byte is `in1 & in2`; the output is untouched outside the region and on failure |
| ImageFunctionSse.BitwiseAndAlloc | PenguinV/Library/image_function_sse.cpp:61-71 | a fresh `width` x `height` image of `in1 & in2`, or the region check's error |
| ImageFunctionSse.BitwiseAndImages | PenguinV/Library/image_function_sse.cpp:73-78 | `out` is `in1 & in2` in every byte, or the size check's error |
| ImageFunctionSse.BitwiseAndImagesAlloc | PenguinV/Library/image_function_sse.cpp:80-89 | a fresh image of `in1 & in2`, or the size check's error |
| ImageFunctionSse.BitwiseOr | PenguinV/Library/image_function_sse.cpp:91-141 | every output region byte is `in1 \| in2`; the output is untouched outside the region and on failure |
| ImageFunctionSse.BitwiseOrAlloc | PenguinV/Library/image_function_sse.cpp:143-153 | a fresh image of `in1 \| in2`, or the region check's error |
| ImageFunctionSse.BitwiseOrImages | PenguinV/Library/image_function_sse.cpp:155-160 | `out` is `in1 \| in2` in every byte, or the size check's error |
| ImageFunctionSse.BitwiseOrImagesAlloc | PenguinV/Library/image_function_sse.cpp:162-171 | a fresh image of `in1 \| in2`, or the size check's error |
| ImageFunctionSse.BitwiseXor | PenguinV/Library/image_function_sse.cpp:173-223 | every output region byte is `in1 ^ in2`; the output is untouched outside the region and on failure |
| ImageFunctionSse.BitwiseXorAlloc | PenguinV/Library/image_function_sse.cpp:225-235 | a fresh image of `in1 ^ in2`, or the region check's error |
| ImageFunctionSse.BitwiseXorImages | PenguinV/Library/image_function_sse.cpp:237-242 | `out` is `in1 ^ in2` in every byte, or the size check's error |
| ImageFunctionSse.BitwiseXorImagesAlloc | PenguinV/Library/image_function_sse.cpp:244-253 | a fresh image of `in1 ^ in2`, or the size check's error |
| ImageFunctionSse.Invert | PenguinV/Library/image_function_sse.cpp:255-304 | every output region byte is `255 - in`; the output is untouched outside the region and on failure |
| ImageFunctionSse.InvertAlloc | PenguinV/Library/image_function_sse.cpp:306-315 | a fresh `width` x `height` image of the inverted region, or the region check's error |
| ImageFunctionSse.InvertImages | PenguinV/Library/image_function_sse.cpp:317-322 | `out` is the inverted input in every byte, or the size check's error |
| ImageFunctionSse.InvertImagesAlloc | PenguinV/Library/image_function_sse.cpp:324-333 | a fresh inverted copy, or `EmptyImage` for an empty input |
| ImageFunctionSse.Maximum | PenguinV/Library/image_function_sse.cpp:335-389 | every output region byte is the larger source byte; the output is untouched outside the region and on failure |
| ImageFunctionSse.MaximumAlloc | PenguinV/Library/image_function_sse.cpp:391-401 | a fresh image of the per-byte maximum, or the region check's error |
| ImageFunctionSse.MaximumImages | PenguinV/Library/image_function_sse.cpp:403-408 | `out` is the per-byte maximum, or the size check's error |
| ImageFunctionSse.MaximumImagesAlloc | PenguinV/Library/image_function_sse.cpp:410-419 | a fresh image of the per-byte maximum, or the size check's error |
| ImageFunctionSse.Minimum | PenguinV/Library/image_function_sse.cpp:421-475 | every output region byte is the smaller source byte; the output is untouched outside the region and on failure |
| ImageFunctionSse.MinimumAlloc | PenguinV/Library/image_function_sse.cpp:477-487 | a fresh image of the per-byte minimum, or the region check's error |
| ImageFunctionSse.MinimumImages | PenguinV/Library/image_function_sse.cpp:489-494 | `out` is the per-byte minimum, or the size check's error |
| ImageFunctionSse.MinimumImagesAlloc | PenguinV/Library/image_function_sse.cpp:496-505 | a fresh image of the per-byte minimum, or the size check's error |
| ImageFunctionSse.Subtract | PenguinV/Library/image_function_sse.cpp:507-562 | every output region byte is `in1 - in2` clamped at 0; the output is untouched outside the region and on failure |
| ImageFunctionSse.SubtractAlloc | PenguinV/Library/image_function_sse.cpp:564-574 | a fresh image of the clamped difference, or the region check's error |
| ImageFunctionSse.SubtractImages | PenguinV/Library/image_function_sse.cpp:576-581 | `out` is the clamped difference, or the size check's error |
| ImageFunctionSse.SubtractImagesAlloc | PenguinV/Library/image_function_sse.cpp:583-592 | a fresh image of the clamped difference, or the size check's error |
| ImageFunctionSse.Threshold | PenguinV/Library/image_function_sse.cpp:594-664 | every output region byte is 255 where the input reaches the threshold and 0 elsewhere, including a zero threshold; the output is untouched outside the region and on failure |
| ImageFunctionSse.ThresholdAlloc | PenguinV/Library/image_function_sse.cpp:666-675 | a fresh `width` x `height` thresholded image, or the region check's error |
| ImageFunctionSse.ThresholdImages | PenguinV/Library/image_function_sse.cpp:677-682 | `out` is the thresholded input in every byte, or the size check's error |
| ImageFunctionSse.ThresholdImagesAlloc | PenguinV/Library/image_function_sse.cpp:684-693 | a fresh thresholded copy, or `EmptyImage` for an empty input |

## Left out

- `Image_Function::ParameterValidation` is not part of this model. The checks in `Images` (`CheckRegion`, `CheckImage`, `CheckSameSize` and their combinations) are this model's own choice of what such a validator rejects:
  - `EmptyImage` for an empty image or a zero-width or zero-height region;
  - `InvalidRegion` for a region past the image;
  - `DimensionMismatch` for whole images of different sizes.

  In the model the checks run in argument order and the first failure is reported; neither the error kinds nor that order come from the library. Failure is a returned `Outcome` or `Result`; how the library signals it is not modelled.
- `NullStorage` is not modelled: a Dafny array is never null.
- The baseline `Image_Function::*` kernels are not part of this model. `ImageFunction` gives them the byte-at-a-time semantics of the remainder loops, and the same validation.
- The `Image` class is not part of this model. Its constructor is modelled with packed rows (`rowSize == width`); the kernels themselves accept any `rowSize >= width`.
- ImageFunctionSse.Binary, ImageFunctionSse.Unary, ImageFunction.Binary, ImageFunction.Unary, ImageFunctionSse.BinaryImages, ImageFunctionSse.UnaryImages and the per-operation calls that write into an existing image (`BitwiseAnd`, `BitwiseAndImages`, and likewise for every other operation) require the output buffer to differ from each source buffer. The calls that allocate their output need no such requirement. This excludes in-place use entirely, including one image used as both source and output with disjoint regions, which the C++ code computes like any other call.
- `uint32_t` arithmetic is modelled on unbounded integers. The products `startY * rowSize` and `height * rowSize` are `uint32_t` products in the source and wrap at `2^32`. They cannot wrap while the buffer is shorter than `2^32` bytes, because a validated region keeps them inside the buffer. Larger images, on which the source's offsets wrap and address the wrong rows, are not modelled: there the model addresses the intended rows.
- Alignment, `loadu` versus `load`, and the `reinterpret_cast` of byte pointers to register pointers are not modelled. A load or store reads or writes 16 consecutive buffer bytes.
- The performance test for the 256-bit backend is not modelled. It is a timing harness over functions whose source is not part of this model.
- The two-threshold Threshold, AbsoluteDifference and Sum appear only as calls in that test, and are not modelled.
