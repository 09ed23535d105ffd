/** The 128-bit integer instructions the kernels use (`emmintrin.h`), with a
    `__m128i` register modelled as its sixteen unsigned byte elements, element
    0 at the lowest address. Each instruction is defined element-wise as the
    instruction set documents it. The unsigned maximum and minimum, the
    wrapping subtract and the signed compare are written out directly; the
    bitwise instructions reuse the byte-wide `&`, `|`, `^` and `~` of `Pixel`,
    which are the same operations on one element. */
module Sse2 {
  import opened Pixel

  /** Bytes in one register: `sizeof(__m128i)`. */
  const LaneBytes: nat := 16

  type m128i = s: seq<uint8> | |s| == 16
    witness [0, 0, 0, 0, 0, 0, 0, 0, 0, 0, 0, 0, 0, 0, 0, 0]

  /** `_mm_set_epi8(v, v, ..., v)`: every element equal to `v`. */
  function Broadcast(v: uint8): (r: m128i)
    ensures forall i :: 0 <= i < LaneBytes ==> r[i] == v
  {
    seq(16, _ => v)
  }

  /** `_mm_loadu_si128`: sixteen consecutive bytes from any address. */
  function LoadU(a: array<uint8>, p: nat): (r: m128i)
    reads a
    requires p + LaneBytes <= a.Length
    ensures forall i :: 0 <= i < LaneBytes ==> r[i] == a[p + i]
  {
    a[p..p + LaneBytes]
  }

  /** `_mm_storeu_si128`: sixteen consecutive bytes to any address; no other
      byte of the buffer changes. */
  method StoreU(a: array<uint8>, p: nat, v: m128i)
    requires p + LaneBytes <= a.Length
    modifies a
    ensures forall k :: p <= k < p + LaneBytes ==> a[k] == v[k - p]
    ensures forall k :: 0 <= k < a.Length && !(p <= k < p + LaneBytes) ==> a[k] == old(a[k])
  {
    forall k | p <= k < p + LaneBytes {
      a[k] := v[k - p];
    }
  }

  /** The element as the signed `int8_t` the `epi8` instructions see. */
  function Signed(x: uint8): int
  {
    if x < 0x80 then x as int else x as int - 0x100
  }

  /** `_mm_and_si128`: no element exceeds either operand's element. */
  function AndSi128(a: m128i, b: m128i): (r: m128i)
    ensures forall i :: 0 <= i < LaneBytes ==> r[i] <= a[i] && r[i] <= b[i]
  {
    seq(16, i requires 0 <= i < 16 => BitAnd(a[i], b[i]))
  }

  /** `_mm_or_si128`: no element falls below either operand's element. */
  function OrSi128(a: m128i, b: m128i): (r: m128i)
    ensures forall i :: 0 <= i < LaneBytes ==> a[i] <= r[i] && b[i] <= r[i]
  {
    seq(16, i requires 0 <= i < 16 => BitOr(a[i], b[i]))
  }

  /** `_mm_xor_si128`: XORing each element with `b`'s again gives back `a`'s. */
  function XorSi128(a: m128i, b: m128i): (r: m128i)
    ensures forall i :: 0 <= i < LaneBytes ==> Xor(r[i] as nat, b[i] as nat) == a[i] as nat
  {
    seq(16, i requires 0 <= i < 16 => BitXor(a[i], b[i]))
  }

  /** `_mm_andnot_si128(a, b)`: the bitwise complement `~` of the FIRST
      operand, ANDed with the second. No element exceeds `b`'s, nor
      `255 - a`'s. */
  function AndNotSi128(a: m128i, b: m128i): (r: m128i)
    ensures forall i :: 0 <= i < LaneBytes ==> r[i] <= b[i] && r[i] as int <= 255 - a[i] as int
  {
    seq(16, i requires 0 <= i < 16 => BitAnd(Invert(a[i]), b[i]))
  }

  /** `_mm_max_epu8`: unsigned maximum per element. */
  function MaxEpu8(a: m128i, b: m128i): (r: m128i)
    ensures forall i :: 0 <= i < LaneBytes ==> a[i] <= r[i] && b[i] <= r[i] && (r[i] == a[i] || r[i] == b[i])
  {
    seq(16, i requires 0 <= i < 16 => if a[i] >= b[i] then a[i] else b[i])
  }

  /** `_mm_min_epu8`: unsigned minimum per element. */
  function MinEpu8(a: m128i, b: m128i): (r: m128i)
    ensures forall i :: 0 <= i < LaneBytes ==> r[i] <= a[i] && r[i] <= b[i] && (r[i] == a[i] || r[i] == b[i])
  {
    seq(16, i requires 0 <= i < 16 => if a[i] <= b[i] then a[i] else b[i])
  }

  /** `_mm_sub_epi8`: per-element subtraction that wraps modulo 256. Adding
      `b`'s element back, modulo 256, gives `a`'s; without a borrow the
      element is the plain difference. */
  function SubEpi8(a: m128i, b: m128i): (r: m128i)
    ensures forall i :: 0 <= i < LaneBytes ==> (r[i] as int + b[i] as int) % 0x100 == a[i] as int
    ensures forall i :: 0 <= i < LaneBytes && b[i] <= a[i] ==> r[i] as int == a[i] as int - b[i] as int
  {
    seq(16, i requires 0 <= i < 16 => ((a[i] as int - b[i] as int) % 0x100) as uint8)
  }

  /** `_mm_cmpgt_epi8`: all ones where the element of `a` is greater than
      that of `b` read as SIGNED bytes, zero elsewhere. */
  function CmpGtEpi8(a: m128i, b: m128i): (r: m128i)
    ensures forall i :: 0 <= i < LaneBytes ==> r[i] == 0 || r[i] == 0xFF
    ensures forall i :: 0 <= i < LaneBytes ==> (r[i] == 0xFF <==> Signed(a[i]) > Signed(b[i]))
  {
    seq(16, i requires 0 <= i < 16 => if Signed(a[i]) > Signed(b[i]) then 0xFF else 0)
  }

  /** Flipping the top bit maps the unsigned order onto the signed one:
      `x ^ 0x80`, read as signed, is `x - 128`. */
  lemma BiasFlip(x: uint8)
    ensures Signed(BitXor(x, 0x80)) == x as int - 128
  {
    XorTopBit(x as nat, 7);
  }
}
