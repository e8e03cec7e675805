/** Machine integer types of the lock screen and the operations on them that
    wrap or reinterpret bits. Rust's `as` casts between integers of the same
    width reinterpret the bits; a narrowing cast keeps the low bits. */
module Primitives {

  const U32_LIMIT: int := 0x1_0000_0000

  type u8 = x: int | 0 <= x < 0x100
  type u32 = x: int | 0 <= x < 0x1_0000_0000
  type i32 = x: int | -0x8000_0000 <= x < 0x8000_0000

  datatype Option<T> = None | Some(value: T)

  /** `x as u32` for an `i32`: a negative value wraps to the top half. */
  function I32AsU32(x: i32): (r: u32)
    ensures (r - x) % U32_LIMIT == 0
    ensures x >= 0 ==> r == x
  {
    if x < 0 then x + U32_LIMIT else x
  }

  /** `x as i32` for a `u32`: values from 2^31 on read as negative. */
  function U32AsI32(x: u32): (r: i32)
    ensures (x - r) % U32_LIMIT == 0
    ensures x < 0x8000_0000 ==> r == x
  {
    if x < 0x8000_0000 then x else x - U32_LIMIT
  }

  /** The two reinterpretations undo each other. */
  lemma CastsRoundTrip(x: u32, y: i32)
    ensures I32AsU32(U32AsI32(x)) == x
    ensures U32AsI32(I32AsU32(y)) == y
  {
  }

  /** `x as u8` for a non-negative integer: the low eight bits. */
  function TruncU8(x: nat): (r: u8)
    ensures (x - r) % 0x100 == 0
    ensures x < 0x100 ==> r == x
  {
    x % 0x100
  }

  /** `u8::wrapping_add`. */
  function WrappingAdd(a: u8, b: u8): (r: u8)
    ensures a + b < 0x100 ==> r == a + b
    ensures a + b >= 0x100 ==> r == a + b - 0x100
  {
    (a + b) % 0x100
  }

  lemma WrappingAddAssociates(a: u8, b: u8, c: u8)
    ensures WrappingAdd(WrappingAdd(a, b), c) == WrappingAdd(a, WrappingAdd(b, c))
  {
  }

  lemma WrappingAddCommutes(a: u8, b: u8)
    ensures WrappingAdd(a, b) == WrappingAdd(b, a)
  {
  }

  function Pow2(w: nat): (p: nat)
    ensures p >= 1
  {
    if w == 0 then 1 else 2 * Pow2(w - 1)
  }

  /** Bitwise exclusive or of two naturals, lowest bit first. */
  function XorBits(a: nat, b: nat): nat
    decreases a + b
  {
    if a == 0 && b == 0 then 0 else 2 * XorBits(a / 2, b / 2) + (a % 2 + b % 2) % 2
  }

  /** Exclusive or of two `w`-bit values has `w` bits. */
  lemma {:induction false} XorBitsBound(a: nat, b: nat, w: nat)
    requires a < Pow2(w) && b < Pow2(w)
    ensures XorBits(a, b) < Pow2(w)
    decreases w
  {
    if w > 0 && !(a == 0 && b == 0) {
      XorBitsBound(a / 2, b / 2, w - 1);
    }
  }


  lemma {:induction false} XorBitsCommutes(a: nat, b: nat)
    ensures XorBits(a, b) == XorBits(b, a)
    decreases a + b
  {
    if !(a == 0 && b == 0) {
      XorBitsCommutes(a / 2, b / 2);
    }
  }

  /** One step of the definition, also at `(0, 0)`. */
  lemma XorBitsUnfold(a: nat, b: nat)
    ensures XorBits(a, b) == 2 * XorBits(a / 2, b / 2) + (a % 2 + b % 2) % 2
  {
  }

  lemma HalfParts(q: nat, t: nat)
    requires t < 2
    ensures (2 * q + t) / 2 == q && (2 * q + t) % 2 == t
  {
  }

  /** The low bit: `(x ^ y) ^ y == x` on single bits. */
  lemma BitCancels(x: int, y: int)
    requires 0 <= x < 2 && 0 <= y < 2
    ensures ((x + y) % 2 + y) % 2 == x
  {
  }

  /** Xoring with the same value twice gives the original back. */
  lemma {:induction false} XorBitsCancels(a: nat, b: nat)
    ensures XorBits(XorBits(a, b), b) == a
    decreases a + b
  {
    if !(a == 0 && b == 0) {
      var q := XorBits(a / 2, b / 2);
      var t := (a % 2 + b % 2) % 2;
      XorBitsUnfold(a, b);
      HalfParts(q, t);
      XorBitsUnfold(2 * q + t, b);
      XorBitsCancels(a / 2, b / 2);
      BitCancels(a % 2, b % 2);
      assert a == 2 * (a / 2) + a % 2;
    }
  }

  /** Exclusive or with zero changes nothing. */
  lemma {:induction false} XorBitsZeroRight(a: nat)
    ensures XorBits(a, 0) == a
    decreases a
  {
    if a != 0 {
      XorBitsZeroRight(a / 2);
      XorBitsUnfold(a, 0);
    }
  }

  /** A value xored with itself is zero. */
  lemma {:induction false} XorBitsSelf(a: nat)
    ensures XorBits(a, a) == 0
    decreases a
  {
    if a != 0 {
      XorBitsSelf(a / 2);
      XorBitsUnfold(a, a);
    }
  }

  /** Exclusive or is zero exactly on equal operands. */
  lemma XorBitsZeroIff(a: nat, b: nat)
    ensures XorBits(a, b) == 0 <==> a == b
  {
    XorBitsSelf(a);
    if XorBits(a, b) == 0 {
      XorBitsCancels(a, b);
      XorBitsCommutes(0, b);
      XorBitsZeroRight(b);
    }
  }

  /** The low bit of an exclusive or is the parity of the low bits. */
  lemma XorBitsLowBit(a: nat, b: nat)
    ensures XorBits(a, b) % 2 == (a % 2 + b % 2) % 2
  {
    XorBitsUnfold(a, b);
    HalfParts(XorBits(a / 2, b / 2), (a % 2 + b % 2) % 2);
  }

  /** `a ^ b` on bytes: zero exactly when the operands are equal, the other
      operand when one is zero, and its low bit is the parity of the low
      bits. */
  function Xor(a: u8, b: u8): (r: u8)
    ensures r == 0 <==> a == b
    ensures b == 0 ==> r == a
    ensures a == 0 ==> r == b
    ensures r % 2 == (a % 2 + b % 2) % 2
  {
    assert Pow2(8) == 0x100;
    XorBitsBound(a, b, 8);
    XorBitsZeroIff(a, b);
    XorBitsZeroRight(a);
    XorBitsZeroRight(b);
    XorBitsCommutes(a, b);
    XorBitsLowBit(a, b);
    XorBits(a, b)
  }

  lemma XorCommutes(a: u8, b: u8)
    ensures Xor(a, b) == Xor(b, a)
  {
    XorBitsCommutes(a, b);
  }

  /** `(a ^ b) ^ b == a` and `(a ^ b) ^ a == b`. */
  lemma XorCancels(a: u8, b: u8)
    ensures Xor(Xor(a, b), b) == a
    ensures Xor(Xor(a, b), a) == b
    ensures Xor(a, Xor(a, b)) == b
    ensures Xor(b, Xor(a, b)) == a
  {
    XorBitsCancels(a, b);
    XorBitsCommutes(a, b);
    XorBitsCancels(b, a);
    XorBitsCommutes(a, Xor(a, b));
    XorBitsCommutes(b, Xor(a, b));
  }
}
