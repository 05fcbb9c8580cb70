/** The C emulation of the packed-lane instructions: four signed bytes or two signed
    halfwords in one 32-bit word, unpacked with shift pairs and repacked with masks. */
module PackedLanes {
  import opened Arith
  import opened Bits
  import opened FixedPoint

  // ----- saturation -----

  function Ssat(x: int, bits: nat): (r: int)
    requires bits >= 1
  {
    Clamp(x, 0 - Pow2(bits - 1), Pow2(bits - 1) - 1)
  }

  /** `__SSAT`: builds the bound by repeated doubling, in 32-bit arithmetic. */
  method SsatLoop(x: Q31, y: Uint32) returns (r: Q31)
    requires 1 <= y <= 32
    ensures r == Ssat(x, y)
  {
    var posMax: Q31 := 1;
    var i := 0;
    while i < y - 1
      invariant 0 <= i <= y - 1
      invariant posMax == BoundAfter(i)
    {
      BoundDoubles(i);
      posMax := Wrap32(posMax * 2);
      i := i + 1;
    }
    BoundOf(y - 1);
    r := x;
    if x > 0 {
      posMax := Wrap32(posMax - 1);
      if x > posMax { r := posMax; }
    } else {
      var negMin := Wrap32(0 - posMax);
      if x < negMin { r := negMin; }
    }
  }

  /** `posMax` after i doublings: 2^31 does not fit and has become the lowest value. */
  function BoundAfter(i: nat): int {
    if i < 31 then Pow2(i) else -0x8000_0000
  }

  lemma BoundOf(i: nat)
    requires i <= 31
    ensures i < 31 ==> 1 <= Pow2(i) <= 0x4000_0000
    ensures i == 31 ==> Pow2(i) == 0x8000_0000
  {
    Pow2Values();
    if i < 31 { Pow2Monotone(i, 30); }
  }

  lemma BoundDoubles(i: nat)
    requires i < 31
    ensures Wrap32(BoundAfter(i) * 2) == BoundAfter(i + 1)
  {
    BoundOf(i);
    BoundOf(i + 1);
  }

  lemma Pow2Monotone(a: nat, b: nat)
    requires a <= b
    ensures Pow2(a) <= Pow2(b)
  {
    if a < b { Pow2Monotone(a, b - 1); }
  }

  // ----- four signed bytes -----

  datatype Bytes = Bytes(v0: Q7, v1: Q7, v2: Q7, v3: Q7)

  /** `__PACKq7`, little-endian. */
  function PackQ7(b: Bytes): nat {
    Or(Or(Or(And(Unsigned(b.v0), 0x0000_00FF),
             And(Unsigned(b.v1 * 0x100), 0x0000_FF00)),
          And(Unsigned(b.v2 * 0x1_0000), 0x00FF_0000)),
       And(Unsigned(b.v3 * 0x100_0000), 0xFF00_0000))
  }

  /** `((q31_t)x << (24 - 8k)) >> 24`, the byte at position k with its sign. */
  function ByteLane(x: Uint32, k: nat): Q7
    requires k < 4
  {
    if k == 0 then Wrap32(x * 0x100_0000) / 0x100_0000
    else if k == 1 then Wrap32(x * 0x1_0000) / 0x100_0000
    else if k == 2 then Wrap32(x * 0x100) / 0x100_0000
    else Wrap32(x) / 0x100_0000
  }

  /** The repacking at the end of `__QADD8` and `__QSUB8`. */
  function JoinLanes(r: int, s: int, t: int, u: int): nat {
    Or(Or(Or(And(Unsigned(u), 0xFF) * 0x100_0000, And(Unsigned(t), 0xFF) * 0x1_0000),
          And(Unsigned(s), 0xFF) * 0x100),
       And(Unsigned(r), 0xFF))
  }

  function QAdd8(x: Uint32, y: Uint32): nat {
    JoinLanes(Ssat(ByteLane(x, 0) + ByteLane(y, 0), 8), Ssat(ByteLane(x, 1) + ByteLane(y, 1), 8),
              Ssat(ByteLane(x, 2) + ByteLane(y, 2), 8), Ssat(ByteLane(x, 3) + ByteLane(y, 3), 8))
  }

  function QSub8(x: Uint32, y: Uint32): nat {
    JoinLanes(Ssat(ByteLane(x, 0) - ByteLane(y, 0), 8), Ssat(ByteLane(x, 1) - ByteLane(y, 1), 8),
              Ssat(ByteLane(x, 2) - ByteLane(y, 2), 8), Ssat(ByteLane(x, 3) - ByteLane(y, 3), 8))
  }

  function WordValue(b: Bytes): Uint32 {
    b.v0 % 0x100 + 0x100 * (b.v1 % 0x100) + 0x1_0000 * (b.v2 % 0x100) + 0x100_0000 * (b.v3 % 0x100)
  }

  /** The pattern of `v` ends in the same byte as `v`. */
  lemma LowByte(v: int)
    ensures And(Unsigned(v), 0xFF) == v % 0x100
  {
    Pow2Values();
    AndLowMask(Unsigned(v), 8);
    var q, r := v / 0x1_0000_0000, v / 0x100;
    DivUnique(Unsigned(v), 0x100, r - 0x100_0000 * q, v % 0x100);
  }

  /** A byte shifted to position k and masked there is its pattern at position k. */
  lemma ShiftedByte(v: Q7, k: nat, p: nat)
    requires (k == 8 && p == 0x100) || (k == 16 && p == 0x1_0000) || (k == 24 && p == 0x100_0000)
    ensures And(Unsigned(v * p), 0xFF * p) == (v % 0x100) * p
  {
    Pow2Values();
    if v >= 0 {
      UnsignedUnique(v * p, v * p, 0);
      ByteAt(v, k, p, v, 0, v);
    } else {
      var m := if k == 8 then 0x1_0000 else if k == 16 then 0x100 else 1;
      UnsignedUnique(v * p, (v + 0x100 * m) * p, -1);
      ByteAt(v, k, p, v + 0x100 * m, m - 1, v + 0x100);
    }
  }

  lemma ByteAt(v: int, k: nat, p: nat, x: nat, q: int, r: nat)
    requires p == Pow2(k) && Unsigned(v * p) == x * p
    requires x == q * 0x100 + r && r < 0x100 && r == v % 0x100
    ensures And(Unsigned(v * p), 0xFF * p) == (v % 0x100) * p
  {
    Pow2Values();
    AndShifted(x, 0xFF, k);
    AndLowMask(x, 8);
    DivUnique(x, 0x100, q, r);
  }

  lemma JoinFields(r: nat, s: nat, t: nat, u: nat)
    requires r < 0x100 && s < 0x100 && t < 0x100
    ensures Or(Or(Or(u * 0x100_0000, t * 0x1_0000), s * 0x100), r)
         == r + 0x100 * s + 0x1_0000 * t + 0x100_0000 * u
  {
    Pow2Values();
    OrDisjoint(u, t * 0x1_0000, 24);
    OrDisjoint(0x100 * u + t, s * 0x100, 16);
    OrDisjoint(0x1_0000 * u + 0x100 * t + s, r, 8);
  }

  lemma JoinLanesValue(r: Q7, s: Q7, t: Q7, u: Q7)
    ensures JoinLanes(r, s, t, u) == WordValue(Bytes(r, s, t, u))
  {
    LowByte(r);
    LowByte(s);
    LowByte(t);
    LowByte(u);
    JoinFields(r % 0x100, s % 0x100, t % 0x100, u % 0x100);
  }

  lemma PackFields(r: nat, s: nat, t: nat, u: nat)
    requires r < 0x100 && s < 0x100 && t < 0x100
    ensures Or(Or(Or(r, s * 0x100), t * 0x1_0000), u * 0x100_0000)
         == r + 0x100 * s + 0x1_0000 * t + 0x100_0000 * u
  {
    Pow2Values();
    OrCommutes(r, s * 0x100);
    OrDisjoint(s, r, 8);
    OrCommutes(s * 0x100 + r, t * 0x1_0000);
    OrDisjoint(t, s * 0x100 + r, 16);
    OrCommutes(t * 0x1_0000 + s * 0x100 + r, u * 0x100_0000);
    OrDisjoint(u, t * 0x1_0000 + s * 0x100 + r, 24);
  }

  lemma PackValue(b: Bytes)
    ensures PackQ7(b) == WordValue(b)
    ensures PackQ7(b) == b.v0 % 0x100 + 0x100 * (b.v1 % 0x100) + 0x1_0000 * (b.v2 % 0x100) + 0x100_0000 * (b.v3 % 0x100)
  {
    LowByte(b.v0);
    ShiftedByte(b.v1, 8, 0x100);
    ShiftedByte(b.v2, 16, 0x1_0000);
    ShiftedByte(b.v3, 24, 0x100_0000);
    PackFields(b.v0 % 0x100, b.v1 % 0x100, b.v2 % 0x100, b.v3 % 0x100);
  }

  /** Unpacking inverts packing, lane by lane. */
  lemma UnpackPacked(b: Bytes)
    ensures 0 <= PackQ7(b) < 0x1_0000_0000
    ensures ByteLane(PackQ7(b), 0) == b.v0 && ByteLane(PackQ7(b), 1) == b.v1
    ensures ByteLane(PackQ7(b), 2) == b.v2 && ByteLane(PackQ7(b), 3) == b.v3
  {
    PackValue(b);
    LanesOfValue(b);
  }

  /** 1 for a negative byte: its unsigned pattern is the byte plus 256 times this. */
  function Borrow(v: Q7): (n: int)
    ensures v % 0x100 == v + 0x100 * n
  {
    if v < 0 then 1 else 0
  }

  lemma LanesOfValue(b: Bytes)
    ensures ByteLane(WordValue(b), 0) == b.v0 && ByteLane(WordValue(b), 1) == b.v1
    ensures ByteLane(WordValue(b), 2) == b.v2 && ByteLane(WordValue(b), 3) == b.v3
  {
    var w: int := WordValue(b);
    var u0, u1, u2, u3 := b.v0 % 0x100, b.v1 % 0x100, b.v2 % 0x100, b.v3 % 0x100;
    LaneAt(w * 0x100_0000, 0, b.v0, Borrow(b.v0) + u1 + 0x100 * u2 + 0x1_0000 * u3);
    LaneAt(w * 0x1_0000, 0x1_0000 * u0, b.v1, Borrow(b.v1) + u2 + 0x100 * u3);
    LaneAt(w * 0x100, 0x100 * u0 + 0x1_0000 * u1, b.v2, Borrow(b.v2) + u3);
    LaneAt(w, u0 + 0x100 * u1 + 0x1_0000 * u2, b.v3, Borrow(b.v3));
  }

  lemma LaneAt(x: int, below: int, v: Q7, k: int)
    requires 0 <= below < 0x100_0000
    requires x == below + 0x100_0000 * v + 0x1_0000_0000 * k
    ensures Wrap32(x) / 0x100_0000 == v
  {
    Wrap32Unique(x, below + 0x100_0000 * v, k);
    DivUnique(Wrap32(x), 0x100_0000, v, below);
  }

  function Clamp8(x: int): Q7 { Clamp(x, -0x80, 0x7F) }

  /** The packed saturating sum is the pack of the four saturated sums. */
  lemma QAdd8OnLanes(a: Bytes, b: Bytes)
    ensures PackQ7(a) < 0x1_0000_0000 && PackQ7(b) < 0x1_0000_0000
    ensures QAdd8(PackQ7(a), PackQ7(b))
         == PackQ7(Bytes(Clamp8(a.v0 + b.v0), Clamp8(a.v1 + b.v1), Clamp8(a.v2 + b.v2), Clamp8(a.v3 + b.v3)))
  {
    UnpackPacked(a);
    UnpackPacked(b);
    assert Pow2(7) == 0x80;
    var c := Bytes(Clamp8(a.v0 + b.v0), Clamp8(a.v1 + b.v1), Clamp8(a.v2 + b.v2), Clamp8(a.v3 + b.v3));
    JoinLanesValue(c.v0, c.v1, c.v2, c.v3);
    PackValue(c);
  }

  lemma QSub8OnLanes(a: Bytes, b: Bytes)
    ensures PackQ7(a) < 0x1_0000_0000 && PackQ7(b) < 0x1_0000_0000
    ensures QSub8(PackQ7(a), PackQ7(b))
         == PackQ7(Bytes(Clamp8(a.v0 - b.v0), Clamp8(a.v1 - b.v1), Clamp8(a.v2 - b.v2), Clamp8(a.v3 - b.v3)))
  {
    UnpackPacked(a);
    UnpackPacked(b);
    assert Pow2(7) == 0x80;
    var c := Bytes(Clamp8(a.v0 - b.v0), Clamp8(a.v1 - b.v1), Clamp8(a.v2 - b.v2), Clamp8(a.v3 - b.v3));
    JoinLanesValue(c.v0, c.v1, c.v2, c.v3);
    PackValue(c);
  }

  // ----- two signed halfwords -----

  /** `((q31_t)x << 16) >> 16` */
  function LoHalf(x: Uint32): Q15 { Wrap32(x * 0x1_0000) / 0x1_0000 }

  /** `(q31_t)x >> 16` */
  function HiHalf(x: Uint32): Q15 { Wrap32(x) / 0x1_0000 }

  /** `__PKHBT(lo, hi, 16)` */
  function PackHalves(lo: Q15, hi: Q15): nat {
    Or(And(Unsigned(lo), 0xFFFF), And(Unsigned(hi * 0x1_0000), 0xFFFF_0000))
  }

  function HalfBorrow(v: Q15): (n: int)
    ensures v % 0x1_0000 == v + 0x1_0000 * n
  {
    if v < 0 then 1 else 0
  }

  lemma LowHalfField(lo: Q15)
    ensures And(Unsigned(lo), 0xFFFF) == lo % 0x1_0000
  {
    Pow2Values();
    var x := if lo < 0 then lo + 0x1_0000_0000 else lo;
    UnsignedUnique(lo, x, -HalfBorrow(lo));
    AndLowMask(x, 16);
    DivUnique(x, 0x1_0000, 0xFFFF * HalfBorrow(lo), lo % 0x1_0000);
  }

  lemma HighHalfField(hi: Q15)
    ensures And(Unsigned(hi * 0x1_0000), 0xFFFF_0000) == (hi % 0x1_0000) * 0x1_0000
  {
    Pow2Values();
    var h := hi % 0x1_0000;
    UnsignedUnique(hi * 0x1_0000, h * 0x1_0000, -HalfBorrow(hi));
    AndShifted(h, 0xFFFF, 16);
    AndLowMask(h, 16);
  }

  lemma PackHalvesValue(lo: Q15, hi: Q15)
    ensures PackHalves(lo, hi) == lo % 0x1_0000 + 0x1_0000 * (hi % 0x1_0000)
  {
    Pow2Values();
    LowHalfField(lo);
    HighHalfField(hi);
    OrCommutes(lo % 0x1_0000, (hi % 0x1_0000) * 0x1_0000);
    OrDisjoint(hi % 0x1_0000, lo % 0x1_0000, 16);
  }

  lemma UnpackHalves(lo: Q15, hi: Q15)
    ensures 0 <= PackHalves(lo, hi) < 0x1_0000_0000
    ensures LoHalf(PackHalves(lo, hi)) == lo && HiHalf(PackHalves(lo, hi)) == hi
  {
    PackHalvesValue(lo, hi);
    var l, h := lo % 0x1_0000, hi % 0x1_0000;
    var w := l + 0x1_0000 * h;
    Wrap32Unique(w * 0x1_0000, lo * 0x1_0000, HalfBorrow(lo) + h);
    Wrap32Unique(w, l + 0x1_0000 * hi, HalfBorrow(hi));
    DivUnique(lo * 0x1_0000, 0x1_0000, lo, 0);
    DivUnique(l + 0x1_0000 * hi, 0x1_0000, hi, l);
  }

  function Smuad(x: Uint32, y: Uint32): Uint32 {
    Unsigned(Wrap32(LoHalf(x) * LoHalf(y) + HiHalf(x) * HiHalf(y)))
  }

  function Smusd(x: Uint32, y: Uint32): Uint32 {
    Unsigned(Wrap32(LoHalf(x) * LoHalf(y) - HiHalf(x) * HiHalf(y)))
  }

  function Smuadx(x: Uint32, y: Uint32): Uint32 {
    Unsigned(Wrap32(LoHalf(x) * HiHalf(y) + HiHalf(x) * LoHalf(y)))
  }

  /** The two products are added in 32 bits before the sum is widened. */
  function Smlald(x: Uint32, y: Uint32, sum: Uint64): Uint64 {
    (Wrap32(LoHalf(x) * LoHalf(y) + HiHalf(x) * HiHalf(y)) + sum) % 0x1_0000_0000_0000_0000
  }

  predicate AllLowest(a: int, b: int, c: int, d: int) {
    a == b == c == d == -0x8000
  }

  lemma ProductRange(a: Q15, b: Q15)
    ensures -0x3FFF_8000 <= a * b <= 0x4000_0000
    ensures a * b == 0x4000_0000 <==> a == b == -0x8000
  {
    if a == -0x8000 {
      assert a * b == -0x8000 * b;
    } else if b == -0x8000 {
      assert a * b == a * -0x8000;
    } else {
      MulAbs(a, b, 0x7FFF, 0x7FFF);
    }
  }

  /** The 32-bit sum of two lane products is exact except in one corner. */
  lemma ProductSumExact(a: Q15, b: Q15, c: Q15, d: Q15)
    ensures Wrap32(a * b + c * d) == a * b + c * d <==> !AllLowest(a, b, c, d)
    ensures AllLowest(a, b, c, d) ==> Wrap32(a * b + c * d) == -0x8000_0000
    ensures a * b + c * d <= 0x8000_0000
  {
    ProductRange(a, b);
    ProductRange(c, d);
    var p, q := a * b, c * d;
    if p + q == 0x8000_0000 { Wrap32Unique(p + q, -0x8000_0000, 1); } else { Wrap32Unique(p + q, p + q, 0); }
  }

  /** The four multiply instructions on packed halfwords, as exact values modulo their width;
      only the 64-bit accumulation depends on the corner, where it loses 2^32. */
  lemma MultiplyValues(a: Q15, b: Q15, c: Q15, d: Q15, sum: Uint64)
    ensures PackHalves(a, b) < 0x1_0000_0000 && PackHalves(c, d) < 0x1_0000_0000
    ensures var x, y := PackHalves(a, b), PackHalves(c, d);
      && Smuad(x, y) == (a * c + b * d) % 0x1_0000_0000
      && Smusd(x, y) == (a * c - b * d) % 0x1_0000_0000
      && Smuadx(x, y) == (a * d + b * c) % 0x1_0000_0000
      && Smlald(x, y, sum) == (if AllLowest(a, b, c, d) then sum - 0x8000_0000 else sum + a * c + b * d)
                              % 0x1_0000_0000_0000_0000
  {
    UnpackHalves(a, b);
    UnpackHalves(c, d);
    hide PackHalves, LoHalf, HiHalf;
    ProductSumExact(a, c, b, d);
    PatternOfWrap(a * c + b * d);
    PatternOfWrap(a * c - b * d);
    PatternOfWrap(a * d + b * c);
  }

  lemma PatternOfWrap(v: int)
    ensures Unsigned(Wrap32(v)) == v % 0x1_0000_0000
  {
    var q, k := v / 0x1_0000_0000, (v + 0x8000_0000) / 0x1_0000_0000;
    assert v == Wrap32(v) + 0x1_0000_0000 * k;
    UnsignedUnique(Wrap32(v), v % 0x1_0000_0000, q - k);
  }

  /** Read as a complex number with the real part in the low half, (`__SMUSD`,
      `__SMUADX`) is the product; the imaginary part wraps only in the corner. */
  lemma ComplexProduct(x: Uint32, y: Uint32)
    ensures Wrap32(Smusd(x, y)) == LoHalf(x) * LoHalf(y) - HiHalf(x) * HiHalf(y)
    ensures Wrap32(Smuadx(x, y)) == LoHalf(x) * HiHalf(y) + HiHalf(x) * LoHalf(y)
      <==> !AllLowest(LoHalf(x), HiHalf(x), LoHalf(y), HiHalf(y))
    ensures AllLowest(LoHalf(x), HiHalf(x), LoHalf(y), HiHalf(y)) ==> Wrap32(Smuadx(x, y)) == -0x8000_0000
  {
    ProductRange(LoHalf(x), LoHalf(y));
    ProductRange(HiHalf(x), HiHalf(y));
    var re := LoHalf(x) * LoHalf(y) - HiHalf(x) * HiHalf(y);
    Wrap32Unique(re, re, 0);
    WrapOfUnsigned(re);
    ProductSumExact(LoHalf(x), HiHalf(y), HiHalf(x), LoHalf(y));
    WrapOfUnsigned(Wrap32(LoHalf(x) * HiHalf(y) + HiHalf(x) * LoHalf(y)));
  }

  /** The norm of the product is the product of the norms, for every pair of words: the
      wrapped corner only flips a sign that the square removes. */
  lemma NormMultiplicative(x: Uint32, y: Uint32)
    ensures Wrap32(Smusd(x, y)) * Wrap32(Smusd(x, y)) + Wrap32(Smuadx(x, y)) * Wrap32(Smuadx(x, y))
         == Smuad(x, x) * Smuad(y, y)
  {
    ComplexProduct(x, y);
    ImaginarySquare(x, y);
    SelfNorm(x);
    SelfNorm(y);
    NormIdentity(LoHalf(x), HiHalf(x), LoHalf(y), HiHalf(y),
                 Wrap32(Smusd(x, y)), Wrap32(Smuadx(x, y)), Smuad(x, x), Smuad(y, y));
  }

  lemma NormIdentity(a: int, b: int, c: int, d: int, re: int, im: int, nx: int, ny: int)
    requires re == a * c - b * d && im * im == (a * d + b * c) * (a * d + b * c)
    requires nx == a * a + b * b && ny == c * c + d * d
    ensures re * re + im * im == nx * ny
  {
    TwoSquares(a, b, c, d);
  }

  lemma ImaginarySquare(x: Uint32, y: Uint32)
    ensures var im := LoHalf(x) * HiHalf(y) + HiHalf(x) * LoHalf(y);
            Wrap32(Smuadx(x, y)) * Wrap32(Smuadx(x, y)) == im * im
  {
    var p, q := LoHalf(x) * HiHalf(y), HiHalf(x) * LoHalf(y);
    ProductRange(LoHalf(x), HiHalf(y));
    ProductRange(HiHalf(x), LoHalf(y));
    WrapOfUnsigned(Wrap32(p + q));
    if p + q == 0x8000_0000 { Wrap32Unique(p + q, -0x8000_0000, 1); } else { Wrap32Unique(p + q, p + q, 0); }
  }

  lemma SelfNorm(x: Uint32)
    ensures Smuad(x, x) == LoHalf(x) * LoHalf(x) + HiHalf(x) * HiHalf(x)
  {
    var n := LoHalf(x) * LoHalf(x) + HiHalf(x) * HiHalf(x);
    SquareLe(LoHalf(x), 0x8000);
    SquareLe(HiHalf(x), 0x8000);
    if n == 0x8000_0000 {
      Wrap32Unique(n, -0x8000_0000, 1);
      UnsignedUnique(-0x8000_0000, n, -1);
    } else {
      Wrap32Unique(n, n, 0);
      UnsignedUnique(n, n, 0);
    }
  }

  lemma TwoSquares(a: int, b: int, c: int, d: int)
    ensures (a * c - b * d) * (a * c - b * d) + (a * d + b * c) * (a * d + b * c)
         == (a * a + b * b) * (c * c + d * d)
  {
    assert (a * c - b * d) * (a * c - b * d)
        == (a * a) * (c * c) - 2 * (a * c * (b * d)) + (b * b) * (d * d);
    assert (a * d + b * c) * (a * d + b * c)
        == (a * a) * (d * d) + 2 * (a * d * (b * c)) + (b * b) * (c * c);
    assert a * c * (b * d) == a * d * (b * c);
  }
}
