/** Two's-complement integer types of the DSP library and its four clip helpers.
    `>>` on a signed value is division by a power of two rounding down; a narrowing
    cast keeps the low bits, which is what the Wrap functions compute. */
module FixedPoint {
  import opened Arith

  const TWO_15: int := 0x8000
  const TWO_16: int := 0x1_0000
  const TWO_30: int := 0x4000_0000
  const TWO_31: int := 0x8000_0000
  const TWO_32: int := 0x1_0000_0000
  const TWO_63: int := 0x8000_0000_0000_0000

  type Q7 = x: int | -0x80 <= x < 0x80
  type Q15 = x: int | -0x8000 <= x < 0x8000
  type Q31 = x: int | -0x8000_0000 <= x < 0x8000_0000
  type Q63 = x: int | -0x8000_0000_0000_0000 <= x < 0x8000_0000_0000_0000
  type Uint16 = x: int | 0 <= x < 0x1_0000
  type Uint32 = x: int | 0 <= x < 0x1_0000_0000
  type Uint64 = x: int | 0 <= x < 0x1_0000_0000_0000_0000

  function Wrap8(x: int): Q7 { (x + 0x80) % 0x100 - 0x80 }

  function Wrap16(x: int): Q15 { (x + 0x8000) % 0x1_0000 - 0x8000 }

  function Wrap32(x: int): Q31 { (x + 0x8000_0000) % 0x1_0000_0000 - 0x8000_0000 }

  function Wrap64(x: int): Q63 {
    (x + 0x8000_0000_0000_0000) % 0x1_0000_0000_0000_0000 - 0x8000_0000_0000_0000
  }

  /** The 32-bit pattern of a signed value. */
  function Unsigned(x: int): Uint32 { x % 0x1_0000_0000 }

  /** The nearest value of [lo, hi]. */
  function Clamp(x: int, lo: int, hi: int): (r: int)
    requires lo <= hi
    ensures lo <= r <= hi
  {
    if x < lo then lo else if x > hi then hi else x
  }

  function Abs(x: int): (r: nat) { if x < 0 then -x else x }

  /** `mask ^ sign` where sign is all zeros or all ones. */
  function XorSign(mask: int, sign: int): int
    requires sign == 0 || sign == -1
  {
    if sign == 0 then mask else -1 - mask
  }

  function ClipQ63ToQ31(x: Q63): Q31 {
    if Wrap32(x / TWO_32) != Wrap32(x) / TWO_31
    then XorSign(0x7FFF_FFFF, Wrap32(x / TWO_63))
    else Wrap32(x)
  }

  function ClipQ63ToQ15(x: Q63): Q15 {
    if Wrap32(x / TWO_32) != Wrap32(x) / TWO_31
    then XorSign(0x7FFF, Wrap16(x / TWO_63))
    else Wrap16(x / TWO_15)
  }

  function ClipQ31ToQ7(x: Q31): Q7 {
    if x / 0x100_0000 != x / 0x80_0000
    then XorSign(0x7F, Wrap8(x / TWO_31))
    else Wrap8(x)
  }

  function ClipQ31ToQ15(x: Q31): Q15 {
    if x / TWO_16 != x / TWO_15
    then XorSign(0x7FFF, Wrap16(x / TWO_31))
    else Wrap16(x)
  }

  /** The comparison of the high half with the sign of the low half is a range test. */
  lemma HighHalfDiffers(x: Q63)
    ensures Wrap32(x / TWO_32) != Wrap32(x) / TWO_31 <==> x < -0x8000_0000 || 0x8000_0000 <= x
  {
    var h, l := x / 0x1_0000_0000, x % 0x1_0000_0000;
    Wrap32Unique(h, h, 0);
    if l < 0x8000_0000 { Wrap32Unique(x, l, h); } else { Wrap32Unique(x, l - 0x1_0000_0000, h + 1); }
  }

  lemma ClipQ63ToQ31Clamps(x: Q63)
    ensures ClipQ63ToQ31(x) == Clamp(x, -TWO_31, TWO_31 - 1)
  {
    HighHalfDiffers(x);
  }

  lemma ClipQ31ToQ15Clamps(x: Q31)
    ensures ClipQ31ToQ15(x) == Clamp(x, -TWO_15, TWO_15 - 1)
  {
    assert x / TWO_16 == (x / TWO_15) / 2;
  }

  /** Saturation to 8 bits fails between the 8-bit range and the 24-bit range, except
      where the discarded bits happen to leave the right bound behind. */
  lemma ClipQ31ToQ7ClampsExactlyWhen(x: Q31)
    ensures (ClipQ31ToQ7(x) == Clamp(x, -0x80, 0x7F)) <==>
        || -0x80 <= x < 0x80
        || x < -0x80_0000 || 0x80_0000 <= x
        || (x > 0 && x % 0x100 == 0x7F)
        || (x < 0 && x % 0x100 == 0x80)
    ensures -0x80_0000 <= x < 0x80_0000 ==> (ClipQ31ToQ7(x) - x) % 0x100 == 0
  {
    assert x / 0x100_0000 == (x / 0x80_0000) / 2;
  }

  /** The same for the 63-to-15 clip, which also drops 15 fraction bits: it saturates
      properly only outside the 32-bit range and inside the 31-bit one. */
  lemma ClipQ63ToQ15ClampsExactlyWhen(x: Q63)
    ensures (ClipQ63ToQ15(x) == Clamp(x / TWO_15, -TWO_15, TWO_15 - 1)) <==>
        || -TWO_30 <= x < TWO_30
        || x < -TWO_31 || TWO_31 <= x
        || (x > 0 && (x / TWO_15) % TWO_16 == TWO_15 - 1)
        || (x < 0 && (x / TWO_15) % TWO_16 == TWO_15)
    ensures -TWO_31 <= x < TWO_31 ==> (ClipQ63ToQ15(x) - x / TWO_15) % TWO_16 == 0
  {
    HighHalfDiffers(x);
  }

  /** Clamping to an interval is monotone and never moves two values apart. */
  lemma ClampNonExpansive(x: int, y: int, lo: int, hi: int)
    requires lo <= hi && x <= y
    ensures 0 <= Clamp(y, lo, hi) - Clamp(x, lo, hi) <= y - x
  {
  }

  /** The cast to 32 bits is the only value of the range that differs from `x` by a
      multiple of 2^32. */
  lemma Wrap32Unique(x: int, w: int, k: int)
    requires -0x8000_0000 <= w < 0x8000_0000 && x == w + 0x1_0000_0000 * k
    ensures Wrap32(x) == w
  {
    DivUnique(x + 0x8000_0000, 0x1_0000_0000, k, w + 0x8000_0000);
  }

  lemma UnsignedUnique(x: int, u: int, k: int)
    requires 0 <= u < 0x1_0000_0000 && x == u + 0x1_0000_0000 * k
    ensures Unsigned(x) == u
  {
    DivUnique(x, 0x1_0000_0000, k, u);
  }

  /** Storing the pattern and reading it back as signed changes nothing. */
  lemma WrapOfUnsigned(x: Q31)
    ensures Wrap32(Unsigned(x)) == x
  {
    if x >= 0 {
      UnsignedUnique(x, x, 0);
      Wrap32Unique(x, x, 0);
    } else {
      UnsignedUnique(x, x + 0x1_0000_0000, -1);
      Wrap32Unique(x + 0x1_0000_0000, x, 1);
    }
  }
}
