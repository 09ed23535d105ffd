/** Per-byte semantics of the image operations: the scalar formulas that the
    remainder loops of every kernel apply to one `uint8_t` sample at a time,
    and that every lane-wide instruction has to agree with. */
module Pixel {

  /** One 8-bit sample (`uint8_t`). */
  newtype uint8 = x: int | 0 <= x < 0x100

  /** `2^n`. */
  function Pow2(n: nat): nat
  {
    if n == 0 then 1 else 2 * Pow2(n - 1)
  }

  /** Bitwise AND of the binary representations of `a` and `b`, built from
      the lowest bit up. */
  function And(a: nat, b: nat): nat
    decreases a
  {
    if a == 0 || b == 0 then 0
    else 2 * And(a / 2, b / 2) + (if a % 2 == 1 && b % 2 == 1 then 1 else 0)
  }

  /** Bitwise inclusive OR. */
  function Or(a: nat, b: nat): nat
    decreases a + b
  {
    if a == 0 then b
    else if b == 0 then a
    else 2 * Or(a / 2, b / 2) + (if a % 2 == 1 || b % 2 == 1 then 1 else 0)
  }

  /** Bitwise exclusive OR. */
  function Xor(a: nat, b: nat): nat
    decreases a + b
  {
    if a == 0 then b
    else if b == 0 then a
    else 2 * Xor(a / 2, b / 2) + (if a % 2 != b % 2 then 1 else 0)
  }

  /** Bitwise complement of the low `n` bits of `a`. */
  function Complement(a: nat, n: nat): nat
  {
    if n == 0 then 0 else 2 * Complement(a / 2, n - 1) + (1 - a % 2)
  }

  /** OR of two `n`-bit values is an `n`-bit value. */
  lemma {:induction false} OrBelow(a: nat, b: nat, n: nat)
    requires a < Pow2(n) && b < Pow2(n)
    ensures Or(a, b) < Pow2(n)
    decreases a + b
  {
    if a != 0 && b != 0 {
      OrBelow(a / 2, b / 2, n - 1);
    }
  }

  /** XOR of two `n`-bit values is an `n`-bit value. */
  lemma {:induction false} XorBelow(a: nat, b: nat, n: nat)
    requires a < Pow2(n) && b < Pow2(n)
    ensures Xor(a, b) < Pow2(n)
    decreases a + b
  {
    if a != 0 && b != 0 {
      XorBelow(a / 2, b / 2, n - 1);
    }
  }

  /** Complementing the low `n` bits of an `n`-bit value subtracts it from
      the all-ones value `2^n - 1`. */
  lemma {:induction false} ComplementIsDifference(a: nat, n: nat)
    requires a < Pow2(n)
    ensures Complement(a, n) == Pow2(n) - 1 - a
  {
    if n > 0 {
      ComplementIsDifference(a / 2, n - 1);
    }
  }

  /** ANDing an `n`-bit value with `n` one bits keeps it. */
  lemma {:induction false} AndOnes(a: nat, n: nat)
    requires a < Pow2(n)
    ensures And(a, Pow2(n) - 1) == a
    decreases a
  {
    if a != 0 && n > 0 {
      AndOnes(a / 2, n - 1);
    }
  }

  /** XOR with `2^n` flips bit `n`: it adds `2^n` to a value below `2^n` and
      takes it away from a value in `[2^n, 2^(n+1))`. */
  lemma {:induction false} XorTopBit(x: nat, n: nat)
    requires x < 2 * Pow2(n)
    ensures Xor(x, Pow2(n)) == if x < Pow2(n) then x + Pow2(n) else x - Pow2(n)
  {
    if n > 0 && x != 0 {
      var half := Pow2(n - 1);
      assert Pow2(n) == 2 * half;
      assert Xor(x, Pow2(n)) == 2 * Xor(x / 2, half) + x % 2;
      assert (x < Pow2(n)) == (x / 2 < half);
      XorTopBit(x / 2, n - 1);
    }
  }

  /** AND keeps only bits both operands have, so it is at most either one. */
  lemma {:induction false} AndAtMost(a: nat, b: nat)
    ensures And(a, b) <= a && And(a, b) <= b
    decreases a
  {
    if a != 0 && b != 0 {
      AndAtMost(a / 2, b / 2);
    }
  }

  /** OR keeps every bit of both operands, so it is at least either one. */
  lemma {:induction false} OrAtLeast(a: nat, b: nat)
    ensures a <= Or(a, b) && b <= Or(a, b)
    decreases a + b
  {
    if a != 0 && b != 0 {
      OrAtLeast(a / 2, b / 2);
    }
  }

  lemma {:induction false} AndCommutes(a: nat, b: nat)
    ensures And(a, b) == And(b, a)
    decreases a
  {
    if a != 0 && b != 0 {
      AndCommutes(a / 2, b / 2);
    }
  }

  lemma {:induction false} OrCommutes(a: nat, b: nat)
    ensures Or(a, b) == Or(b, a)
    decreases a + b
  {
    if a != 0 && b != 0 {
      OrCommutes(a / 2, b / 2);
    }
  }

  lemma {:induction false} XorCommutes(a: nat, b: nat)
    ensures Xor(a, b) == Xor(b, a)
    decreases a + b
  {
    if a != 0 && b != 0 {
      XorCommutes(a / 2, b / 2);
    }
  }

  lemma {:induction false} AndIdempotent(a: nat)
    ensures And(a, a) == a
    decreases a
  {
    if a != 0 {
      AndIdempotent(a / 2);
    }
  }

  lemma {:induction false} OrIdempotent(a: nat)
    ensures Or(a, a) == a
    decreases a
  {
    if a != 0 {
      OrIdempotent(a / 2);
    }
  }

  /** A value XORed with itself clears every bit. */
  lemma {:induction false} XorSelf(a: nat)
    ensures Xor(a, a) == 0
    decreases a
  {
    if a != 0 {
      XorSelf(a / 2);
    }
  }

  /** XORing twice with the same value restores the original. */
  lemma {:induction false} XorCancel(a: nat, b: nat)
    ensures Xor(Xor(a, b), b) == a
    decreases a + b
  {
    if a == 0 {
      XorSelf(b);
    } else if b != 0 {
      var x := Xor(a / 2, b / 2);
      var bit := if a % 2 != b % 2 then 1 else 0;
      assert Xor(a, b) == 2 * x + bit;
      XorCancel(a / 2, b / 2);
      if 2 * x + bit != 0 {
        assert (2 * x + bit) / 2 == x && (2 * x + bit) % 2 == bit;
      }
    }
  }

  /** `a & b` on two samples: no larger than either sample. */
  function BitAnd(a: uint8, b: uint8): (r: uint8)
    ensures r <= a && r <= b
  {
    AndAtMost(a as nat, b as nat);
    And(a as nat, b as nat) as uint8
  }

  /** `a | b` on two samples: no smaller than either sample. */
  function BitOr(a: uint8, b: uint8): (r: uint8)
    ensures a <= r && b <= r
  {
    OrBelow(a as nat, b as nat, 8);
    OrAtLeast(a as nat, b as nat);
    Or(a as nat, b as nat) as uint8
  }

  /** `a ^ b` on two samples: XORing the result with `b` again gives back `a`. */
  function BitXor(a: uint8, b: uint8): (r: uint8)
    ensures Xor(r as nat, b as nat) == a as nat
  {
    XorBelow(a as nat, b as nat, 8);
    XorCancel(a as nat, b as nat);
    Xor(a as nat, b as nat) as uint8
  }

  /** `~a` stored into a `uint8_t`: the complement of the eight bits, which
      is `255 - a`. */
  function Invert(a: uint8): (r: uint8)
    ensures r as int == 255 - a as int
  {
    ComplementIsDifference(a as nat, 8);
    Complement(a as nat, 8) as uint8
  }

  /** `in2 < in1 ? in1 : in2`: the larger of the two samples. */
  function Maximum(a: uint8, b: uint8): (r: uint8)
    ensures a <= r && b <= r
    ensures r == a || r == b
  {
    if b < a then a else b
  }

  /** `in2 > in1 ? in1 : in2`: the smaller of the two samples. */
  function Minimum(a: uint8, b: uint8): (r: uint8)
    ensures r <= a && r <= b
    ensures r == a || r == b
  {
    if b > a then a else b
  }

  /** `in2 > in1 ? 0 : in1 - in2`: subtraction clamped at zero. The result
      never exceeds the minuend, and adding the subtrahend back gives the
      minuend whenever no clamping happened. */
  function Subtract(a: uint8, b: uint8): (r: uint8)
    ensures r <= a
    ensures a >= b ==> r as int + b as int == a as int
    ensures a < b ==> r == 0
  {
    if b > a then 0 else a - b
  }

  /** `in < threshold ? 0 : 255`: white exactly when the sample reaches the
      threshold, black otherwise. */
  function Threshold(a: uint8, threshold: uint8): (r: uint8)
    ensures r == 0 || r == 255
    ensures r == 255 <==> a >= threshold
  {
    if a < threshold then 0 else 255
  }

  /** The two-source operations of the kernel set. */
  datatype BinaryOp = AndOp | OrOp | XorOp | MaxOp | MinOp | SubOp

  /** The one-source operations of the kernel set. */
  datatype UnaryOp = Not | Above(threshold: uint8)

  function ApplyBinary(op: BinaryOp, a: uint8, b: uint8): uint8
  {
    match op
    case AndOp => BitAnd(a, b)
    case OrOp => BitOr(a, b)
    case XorOp => BitXor(a, b)
    case MaxOp => Maximum(a, b)
    case MinOp => Minimum(a, b)
    case SubOp => Subtract(a, b)
  }

  function ApplyUnary(op: UnaryOp, a: uint8): uint8
  {
    match op
    case Not => Invert(a)
    case Above(t) => Threshold(a, t)
  }

  /** Inverting twice restores the sample. */
  lemma InvertInvolution(a: uint8)
    ensures Invert(Invert(a)) == a
  {
  }

  /** Every two-source operation except subtraction ignores the order of
      its operands. */
  lemma BinaryCommutes(op: BinaryOp, a: uint8, b: uint8)
    requires op != SubOp
    ensures ApplyBinary(op, a, b) == ApplyBinary(op, b, a)
  {
    match op
    case AndOp => AndCommutes(a as nat, b as nat);
    case OrOp => OrCommutes(a as nat, b as nat);
    case XorOp => XorCommutes(a as nat, b as nat);
    case MaxOp =>
    case MinOp =>
  }

  /** AND, OR, maximum and minimum of a sample with itself give the sample;
      XOR and subtraction of a sample from itself give 0. */
  lemma BinarySelf(op: BinaryOp, a: uint8)
    ensures ApplyBinary(op, a, a) == if op == XorOp || op == SubOp then 0 else a
  {
    match op
    case AndOp => AndIdempotent(a as nat);
    case OrOp => OrIdempotent(a as nat);
    case XorOp => XorSelf(a as nat);
    case MaxOp =>
    case MinOp =>
    case SubOp =>
  }

  /** A zero threshold turns every sample white, 0 included. */
  lemma ThresholdZero(a: uint8)
    ensures Threshold(a, 0) == 255
  {
  }
}
