/**
 The branch-free comparisons of ssl/s3_cbc.c. A C `unsigned` is a number `u32`, with
 wrap-around written out.
 */
module ConstantTime {
  import opened Bits

  const TWO_32: int := 0x1_0000_0000
  const MSB_32: int := 0x8000_0000
  const ALL_ONES: u32 := 0xffff_ffff

  type u32 = x: int | 0 <= x < 0x1_0000_0000

  /** A mask produced by a comparison. */
  predicate IsMask(m: u32)
  {
    m == ALL_ONES || m == 0
  }

  /** A mask truncated to `unsigned char`. */
  predicate IsByteMask(m: byte)
  {
    m == 0xff || m == 0
  }

  /** The arithmetic shift `(int)(x) >> 31`: the sign bit copied to every bit. */
  function DuplicateMsbToAll(x: u32): u32
  {
    if x < MSB_32 then 0 else ALL_ONES
  }

  /** `a -= b` on an `unsigned`. */
  function Sub32(a: u32, b: u32): u32
  {
    (a - b) % TWO_32
  }

  /** `~a` on an `unsigned`. */
  function Not32(a: u32): u32
  {
    ALL_ONES - a
  }

  /** `a ^ b` on an `unsigned`. */
  function Xor32(a: u32, b: u32): (r: u32)
    ensures r == 0 <==> a == b
    ensures a < MSB_32 && b < MSB_32 ==> r < MSB_32
  {
    OnesValues();
    XorBound(a, b, 32);
    XorZeroIffEqual(a, b);
    assert a < MSB_32 && b < MSB_32 ==> BitXor(a, b) < MSB_32 by {
      if a < MSB_32 && b < MSB_32 {
        XorBound(a, b, 31);
      }
    }
    BitXor(a, b)
  }

  /** Truncation to `unsigned char`. */
  function Low8(m: u32): (r: byte)
    ensures m == ALL_ONES ==> r == 0xff
  {
    m % 256
  }

  /** All ones when a < b. The subtraction trick is right exactly when the difference
      fits in a signed 32-bit integer, and answers the opposite otherwise. */
  function ConstantTimeLt(a: u32, b: u32): (m: u32)
    ensures IsMask(m)
    ensures (m == ALL_ONES <==> a < b) <==> -MSB_32 <= a - b < MSB_32
  {
    DuplicateMsbToAll(Sub32(a, b))
  }

  /** All ones when a >= b, under the same condition. */
  function ConstantTimeGe(a: u32, b: u32): (m: u32)
    ensures IsMask(m)
    ensures (m == ALL_ONES <==> a >= b) <==> -MSB_32 <= a - b < MSB_32
  {
    DuplicateMsbToAll(Not32(Sub32(a, b)))
  }

  /** The comparison truncated to a byte, for operands below 2^31. */
  function GeByte(a: u32, b: u32): (m: byte)
    requires a < MSB_32 && b < MSB_32
    ensures IsByteMask(m) && (m == 0xff <==> a >= b)
  {
    Low8(ConstantTimeGe(a, b))
  }

  /** 0xff when a == b, for numbers below 2^31. */
  function ConstantTimeEq8(a: u32, b: u32): (m: byte)
    ensures IsByteMask(m)
    ensures a < MSB_32 && b < MSB_32 ==> (m == 0xff <==> a == b)
  {
    Low8(DuplicateMsbToAll(Sub32(Xor32(a, b), 1)))
  }

  /** `x & m` for a comparison mask m. */
  function Mask(x: u32, m: u32): (r: u32)
    requires IsMask(m)
    ensures r == if m == ALL_ONES then x else 0
  {
    OnesValues();
    AndWithOnes(x, 32);
    BitAnd(x, m)
  }

  /** `x & m` on bytes. */
  function Mask8(x: byte, m: byte): (r: byte)
    requires IsByteMask(m)
    ensures r == if m == 0xff then x else 0
  {
    OnesValues();
    AndWithOnes(x, 8);
    BitAnd(x, m)
  }

  /** `(x & ~m) | (y & m)` on bytes. */
  function Select8(m: byte, y: byte, x: byte): (r: byte)
    requires IsByteMask(m)
    ensures r == if m == 0xff then y else x
  {
    OrWithZero(Mask8(x, 255 - m));
    OrWithZero(Mask8(y, m));
    BitOr(Mask8(x, 255 - m), Mask8(y, m))
  }
}
