/** The normalised Q31 reciprocal: leading-zero normalisation, a 64-entry table and two
    Newton steps with truncating multiplications. With n the normalised input, the exact
    reciprocal in the output's format is 2^61 / n, so 2^61 - n*out is the scaled error. */
module Reciprocal {
  import opened Arith
  import opened FixedPoint

  const ROW_0: seq<Q31> := [0x7F03_F03F, 0x7D13_7420, 0x7B31_E739, 0x795E_9F94,
    0x7798_FD29, 0x75E0_6928, 0x7434_554D, 0x7294_3B4B]
  const ROW_1: seq<Q31> := [0x70FF_9C40, 0x6F76_0031, 0x6DF6_F593, 0x6C82_10E3,
    0x6B16_EC3A, 0x69B5_26F6, 0x685C_655F, 0x670C_505D]
  const ROW_2: seq<Q31> := [0x65C4_952D, 0x6484_E519, 0x634C_F53E, 0x621C_7E4F,
    0x60F3_3C61, 0x5FD0_EEB3, 0x5EB5_5785, 0x5DA0_3BEB]
  const ROW_3: seq<Q31> := [0x5C91_63A1, 0x5B88_98E6, 0x5A85_A85A, 0x5988_60DF,
    0x5890_9373, 0x579E_1318, 0x56B0_B4B8, 0x55C8_4F0B]
  const ROW_4: seq<Q31> := [0x54E4_BA80, 0x5405_D124, 0x532B_6E8F, 0x5255_6FD0,
    0x5183_B35A, 0x50B6_18F3, 0x4FEC_81A2, 0x4F26_CFA2]
  const ROW_5: seq<Q31> := [0x4E64_E64E, 0x4DA6_AA1D, 0x4CEC_008B, 0x4C34_D010,
    0x4B81_0016, 0x4AD0_78EF, 0x4A23_23C4, 0x4978_EA96]
  const ROW_6: seq<Q31> := [0x48D1_B827, 0x482D_77FE, 0x478C_1657, 0x46ED_801D,
    0x4651_A2E5, 0x45B8_6CE2, 0x4521_CCE1, 0x448D_B244]
  const ROW_7: seq<Q31> := [0x43FC_0CFA, 0x436C_CD78, 0x42DF_E4B4, 0x4255_4426,
    0x41CC_DDB6, 0x4146_A3C6, 0x40C2_8923, 0x4040_8102]

  /** The library's initial approximations, eight to a row. */
  const RECIP_TABLE_Q31: seq<Q31> := ROW_0 + ROW_1 + ROW_2 + ROW_3 + ROW_4 + ROW_5 + ROW_6 + ROW_7

  /** `data & mask` for a mask with the single bit `mask` set. */
  predicate HasBit(data: Uint32, mask: int)
    requires mask > 0
  {
    (data / mask) % 2 == 1
  }

  lemma TopBit(u: Uint32, mask: int)
    requires 0 < mask && u < 2 * mask
    ensures HasBit(u, mask) <==> u >= mask
  {
    if u >= mask { DivUnique(u, mask, 1, u - mask); } else { DivUnique(u, mask, 0, u); }
  }

  /** Counts the zero bits above the highest set bit. The loop has no exit for zero. */
  method Clz(data: Q31) returns (count: nat)
    requires data != 0
    ensures count <= 31
    ensures Pow2(31 - count) <= Unsigned(data) < 2 * Pow2(31 - count)
  {
    var u: int := Unsigned(data);
    count := 0;
    var mask: int := 0x8000_0000;
    Pow2Values();
    TopBit(u, mask);
    while !HasBit(u, mask)
      invariant count <= 31 && mask == Pow2(31 - count) && u < 2 * mask
      invariant HasBit(u, mask) <==> u >= mask
      decreases mask
    {
      count := count + 1;
      mask := mask / 2;
      TopBit(u, mask);
    }
  }

  function TableIndex(n: Q31): (i: nat)
    ensures i < 64
  {
    (n / 0x100_0000) % 0x40
  }

  /** `tempVal` of the approximation loop for the product p = in * out, modulo 2^32. */
  function Correction(p: int): Uint32 {
    (0x7FFF_FFFF - Unsigned(p / 0x8000_0000)) % 0x1_0000_0000
  }

  /** One pass of the approximation loop. */
  function NewtonStep(n: Q31, out: Q31): Q31 {
    var t := Correction(n * out);
    MulAbs(out, t, 0x8000_0000, 0xFFFF_FFFF);
    ClipQ63ToQ31(out * t / 0x4000_0000)
  }

  method ClzOfMagnitude(x: Q31) returns (c: nat)
    requires x != 0 && x != -0x8000_0000
    ensures 1 <= c <= 31
    ensures Pow2(31 - c) <= Abs(x) < 2 * Pow2(31 - c)
  {
    if x > 0 {
      c := Clz(x);
    } else {
      c := Clz(-x);
    }
    Pow2Values();
  }

  /** Shifts `x` left until its magnitude has no leading zero in 31 bits. */
  method Normalise(x: Q31) returns (n: Q31, signBits: nat)
    requires x != 0 && x != -0x8000_0000
    ensures signBits <= 30 && n == x * Pow2(signBits)
    ensures 0x4000_0000 <= Abs(n) < 0x8000_0000
  {
    signBits := ClzOfMagnitude(x);
    signBits := signBits - 1;
    var shifted := x * Pow2(signBits);
    NormaliseRange(x, signBits);
    n := Wrap32(shifted);
  }

  /** Normalises `x` into n, refines the table entry twice, and returns the number of
      integer bits of the result with it. */
  method ReciprocalQ31(x: Q31, table: seq<Q31>) returns (dst: Q31, bits: nat)
    requires x != 0 && x != -0x8000_0000
    requires |table| == 64
    ensures 1 <= bits <= 31
    ensures var n := x * Pow2(bits - 1);
            && 0x4000_0000 <= Abs(n) < 0x8000_0000
            && dst == Refined(n, table)
            && dst == NewtonStep(n, NewtonStep(n, table[(n / 0x100_0000) % 0x40]))
    ensures table == RECIP_TABLE_Q31 ==>
      var n := x * Pow2(bits - 1);
      (0 <= Residual(n, dst) < 12 * Abs(n) <==> x > 0)
  {
    var n, signBits := Normalise(x);
    dst := table[TableIndex(n)];
    var i := 0;
    while i < 2
      invariant 0 <= i <= 2
      invariant i == 0 ==> dst == table[TableIndex(n)]
      invariant i == 1 ==> dst == NewtonStep(n, table[TableIndex(n)])
      invariant i == 2 ==> dst == Refined(n, table)
    {
      dst := NewtonStep(n, dst);
      i := i + 1;
    }
    bits := signBits + 1;
    hide Refined, Residual;
    if table == RECIP_TABLE_Q31 {
      ReciprocalExactlyForPositive(n);
      SameSign(x, Pow2(signBits));
    }
  }

  lemma SameSign(x: int, q: int)
    requires q >= 1
    ensures x * q > 0 <==> x > 0
  {
    if x > 0 { MulLe(1, x, q); } else { MulLe(x, 0, q); }
  }

  lemma NormaliseRange(x: Q31, s: nat)
    requires s <= 30 && Pow2(30 - s) <= Abs(x) < 2 * Pow2(30 - s)
    ensures 0x4000_0000 <= Abs(x * Pow2(s)) < 0x8000_0000
  {
    Pow2Add(30 - s, s);
    Pow2Values();
    ScaledRange(Abs(x), Pow2(30 - s), Pow2(s));
    ScaledAbs(x, Pow2(s));
  }

  lemma ScaledAbs(x: int, q: nat)
    ensures Abs(x * q) == Abs(x) * q
  {
    if x < 0 { MulLe(x, 0, q); } else { MulLe(0, x, q); }
  }

  lemma ScaledRange(a: int, p: int, q: int)
    requires p <= a < 2 * p && q >= 1
    ensures p * q <= a * q < 2 * (p * q)
  {
    MulLe(p, a, q);
    MulLe(a + 1, 2 * p, q);
  }

  /** The scaled error of an approximation `out` of 2^61 / n. */
  function Residual(n: int, out: int): int { 0x2000_0000_0000_0000 - n * out }

  predicate Normalised(n: int) { 0x4000_0000 <= n < 0x8000_0000 }

  /** Exact error of one step before the clip, with p = n*out and e = 2^61 - p: the square
      of the previous error plus two truncation terms, `d` from the first product and `s`
      from the second. */
  lemma StepIdentity(n: int, out: int, p: int, e: int, t: int, y: int, d: int, s: int)
    requires p == n * out && e == 0x2000_0000_0000_0000 - p
    requires 0x8000_0000 * t == 0x4000_0000_0000_0000 - p - d
    requires 0x4000_0000 * y == out * t - s
    ensures 0x2000_0000_0000_0000 * Residual(n, y) == e * e + d * p + 0x8000_0000 * (n * s)
  {
    assert 0x4000_0000 * (n * y) == p * t - n * s by {
      assert n * (0x4000_0000 * y) == n * (out * t) - n * s;
      assert n * (out * t) == p * t;
    }
    assert 0x8000_0000 * (p * t) == p * (0x4000_0000_0000_0000 - p - d);
    assert e * e == 0x2000_0000_0000_0000 * e - e * p;
  }

  lemma TruncationBounds(n: int, p: int, d: int, s: int)
    requires 0 < p <= 0x8000_0000 * n && 0 < d <= 0x8000_0000 && 0 <= s < 0x4000_0000
    ensures 0 < d * p + 0x8000_0000 * (n * s) <= 0x2000_0000_0000_0000 * (3 * n)
  {
    MulLe(1, d, p);
    MulLe(d, 0x8000_0000, p);
    MulLeLeft(n, s, 0x4000_0000);
    MulLeLeft(n, 0, s);
  }

  /** One step from any positive approximation: the clip does not act, the result is
      positive, never overestimates, and its error is at most e^2/2^61 + 3n. */
  lemma StepResidual(n: Q31, out: Q31)
    requires Normalised(n) && out > 0
    ensures NewtonStep(n, out) == out * Correction(n * out) / 0x4000_0000 > 0
    ensures 0 < 0x2000_0000_0000_0000 * Residual(n, NewtonStep(n, out))
             <= Residual(n, out) * Residual(n, out) + 0x2000_0000_0000_0000 * (3 * n)
  {
    ProductRange(n, out);
    var t := Correction(n * out);
    CorrectionOfProduct(n * out);
    var m := out * t;
    StepPositive(n, out, t);
    StepError(n, out, n * out, t, m, m / 0x4000_0000);
    BelowPower31(n, m / 0x4000_0000);
    ClipQ63ToQ31Clamps(m / 0x4000_0000);
  }

  lemma CorrectionOfProduct(p: int)
    requires 0 < p <= 0x7FFF_FFFF * 0x7FFF_FFFF
    ensures Correction(p) == 0x7FFF_FFFF - p / 0x8000_0000 >= 1
  {
  }

  lemma StepError(n: int, out: int, p: int, t: int, m: int, y: int)
    requires p == n * out && 0 < p <= 0x8000_0000 * n
    requires m == out * t
    requires t == 0x7FFF_FFFF - p / 0x8000_0000 && y == m / 0x4000_0000
    ensures 0 < 0x2000_0000_0000_0000 * Residual(n, y)
              <= Residual(n, out) * Residual(n, out) + 0x2000_0000_0000_0000 * (3 * n)
  {
    var d := 0x8000_0000 - p % 0x8000_0000;
    var s := m % 0x4000_0000;
    var e := Residual(n, out);
    StepIdentity(n, out, p, e, t, y, d, s);
    TruncationBounds(n, p, d, s);
    SquareLe(e, Abs(e));
  }

  lemma ProductRange(n: int, out: int)
    requires Normalised(n) && 0 < out < 0x8000_0000
    ensures 0 < n * out <= 0x7FFF_FFFF * 0x7FFF_FFFF
    ensures n * out <= 0x8000_0000 * n
  {
    MulLe(1, n, out);
    MulAbs(n, out, 0x7FFF_FFFF, 0x7FFF_FFFF);
    MulLeLeft(n, out, 0x8000_0000);
  }

  lemma BelowPower31(n: int, y: int)
    requires Normalised(n) && n * y < 0x2000_0000_0000_0000
    ensures y < 0x8000_0000
  {
    if y >= 0x8000_0000 {
      MulLeLeft(n, 0x8000_0000, y);
    }
  }

  lemma StepPositive(n: int, out: int, t: int)
    requires Normalised(n) && out > 0
    requires t == 0x7FFF_FFFF - n * out / 0x8000_0000 && t >= 1
    ensures out * t >= 0x4000_0000
  {
    if t >= 0x4000_0000 {
      MulLe(1, out, t);
    } else {
      if out < 0x4000_0000 {
        MulLeLeft(n, out, 0x3FFF_FFFF);
      }
      MulLeLeft(out, 1, t);
    }
  }

  /** Two steps: the relative error is squared twice, each time plus one rounding term. */
  lemma FourthPower(n: Q31, out0: Q31)
    requires Normalised(n) && out0 > 0
    ensures var e0 := Residual(n, out0);
            var e2 := Residual(n, NewtonStep(n, NewtonStep(n, out0)));
            var b := e0 * e0 + 0x2000_0000_0000_0000 * (3 * n);
            var k := 0x2000_0000_0000_0000;
            0 < k * k * k * e2 <= b * b + k * k * k * (3 * n)
  {
    var out1 := NewtonStep(n, out0);
    StepResidual(n, out0);
    StepResidual(n, out1);
    var e0, e1 := Residual(n, out0), Residual(n, out1);
    ComposeErrors(0x2000_0000_0000_0000, e0 * e0 + 0x2000_0000_0000_0000 * (3 * n),
                  e1, Residual(n, NewtonStep(n, out1)), 3 * n);
  }

  lemma ComposeErrors(k: int, b: int, e1: int, e2: int, c: int)
    requires k > 0 && 0 < k * e1 <= b && 0 < k * e2 <= e1 * e1 + k * c
    ensures 0 < k * k * k * e2 <= b * b + k * k * k * c
  {
    SquareLe(k * e1, b);
    assert (k * e1) * (k * e1) == k * k * (e1 * e1);
    MulLeLeft(k * k, k * e2, e1 * e1 + k * c);
    assert k * k * (e1 * e1 + k * c) == k * k * (e1 * e1) + k * k * k * c;
    assert k * k * (k * e2) == k * k * k * e2;
    MulLe(1, k, k);
    MulLe(1, k * k, k * e2);
  }

  /** Entry `v` is positive and within 1/128 of the reciprocal on all of segment `i`. */
  predicate EntryAccurate(i: nat, v: int) {
    && v > 0
    && 0x100_0000 * ((64 + i) * v) >= 0x1FC0_0000_0000_0000
    && 0x100_0000 * ((65 + i) * v) <= 0x2040_0000_0000_0000
  }

  predicate AccurateFrom(i: nat, entries: seq<Q31>) {
    forall j :: 0 <= j < |entries| ==> EntryAccurate(i + j, entries[j])
  }

  predicate TableAccurate(table: seq<Q31>) { |table| == 64 && AccurateFrom(0, table) }

  lemma JoinRows(i: nat, a: seq<Q31>, b: seq<Q31>)
    requires AccurateFrom(i, a) && AccurateFrom(i + |a|, b)
    ensures AccurateFrom(i, a + b)
  {
    forall j | 0 <= j < |a + b|
      ensures EntryAccurate(i + j, (a + b)[j])
    {
      if j >= |a| { assert EntryAccurate(i + |a| + (j - |a|), b[j - |a|]); }
    }
  }

  lemma RowsAccurate()
    ensures AccurateFrom(0, ROW_0) && AccurateFrom(8, ROW_1) && AccurateFrom(16, ROW_2)
         && AccurateFrom(24, ROW_3) && AccurateFrom(32, ROW_4) && AccurateFrom(40, ROW_5)
         && AccurateFrom(48, ROW_6) && AccurateFrom(56, ROW_7)
  {
  }

  /** Entry `v` is the mean of the reciprocals at the two ends of segment i, to the unit. */
  predicate EntryIsMean(i: nat, v: int) {
    -(64 + i) * (65 + i) < v * (64 + i) * (65 + i) - 0x10_0000_0000 * (129 + 2 * i) < (64 + i) * (65 + i)
  }

  predicate MeansFrom(i: nat, entries: seq<Q31>) {
    forall j :: 0 <= j < |entries| ==> EntryIsMean(i + j, entries[j])
  }

  predicate RowOfMeans(i: nat, row: seq<Q31>) {
    && |row| == 8
    && EntryIsMean(i, row[0]) && EntryIsMean(i + 1, row[1]) && EntryIsMean(i + 2, row[2])
    && EntryIsMean(i + 3, row[3]) && EntryIsMean(i + 4, row[4]) && EntryIsMean(i + 5, row[5])
    && EntryIsMean(i + 6, row[6]) && EntryIsMean(i + 7, row[7])
  }

  lemma LowerRowsAreMeans()
    ensures RowOfMeans(0, ROW_0) && RowOfMeans(8, ROW_1) && RowOfMeans(16, ROW_2) && RowOfMeans(24, ROW_3)
  {
  }

  lemma UpperRowsAreMeans()
    ensures RowOfMeans(32, ROW_4) && RowOfMeans(40, ROW_5) && RowOfMeans(48, ROW_6) && RowOfMeans(56, ROW_7)
  {
  }

  lemma RowMeans(i: nat, row: seq<Q31>)
    requires RowOfMeans(i, row)
    ensures MeansFrom(i, row)
  {
    hide EntryIsMean;
    forall j | 0 <= j < 8 ensures EntryIsMean(i + j, row[j]) {
      if j == 0 {} else if j == 1 {} else if j == 2 {} else if j == 3 {}
      else if j == 4 {} else if j == 5 {} else if j == 6 {} else {}
    }
  }

  lemma JoinMeans(i: nat, a: seq<Q31>, b: seq<Q31>)
    requires MeansFrom(i, a) && MeansFrom(i + |a|, b)
    ensures MeansFrom(i, a + b)
  {
    forall j | 0 <= j < |a + b| ensures EntryIsMean(i + j, (a + b)[j]) {
      if j >= |a| { assert EntryIsMean(i + |a| + (j - |a|), b[j - |a|]); }
    }
  }

  lemma LibraryTableIsMeans()
    ensures |RECIP_TABLE_Q31| == 64 && MeansFrom(0, RECIP_TABLE_Q31)
  {
    hide EntryIsMean, MeansFrom, RowOfMeans;
    LowerRowsAreMeans();
    UpperRowsAreMeans();
    RowMeans(0, ROW_0);
    RowMeans(8, ROW_1);
    RowMeans(16, ROW_2);
    RowMeans(24, ROW_3);
    RowMeans(32, ROW_4);
    RowMeans(40, ROW_5);
    RowMeans(48, ROW_6);
    RowMeans(56, ROW_7);
    JoinMeans(0, ROW_0, ROW_1);
    JoinMeans(0, ROW_0 + ROW_1, ROW_2);
    JoinMeans(0, ROW_0 + ROW_1 + ROW_2, ROW_3);
    JoinMeans(0, ROW_0 + ROW_1 + ROW_2 + ROW_3, ROW_4);
    JoinMeans(0, ROW_0 + ROW_1 + ROW_2 + ROW_3 + ROW_4, ROW_5);
    JoinMeans(0, ROW_0 + ROW_1 + ROW_2 + ROW_3 + ROW_4 + ROW_5, ROW_6);
    JoinMeans(0, ROW_0 + ROW_1 + ROW_2 + ROW_3 + ROW_4 + ROW_5 + ROW_6, ROW_7);
  }

  lemma LibraryTableAccurate()
    ensures TableAccurate(RECIP_TABLE_Q31)
  {
    RowsAccurate();
    JoinAll(ROW_0, ROW_1, ROW_2, ROW_3, ROW_4, ROW_5, ROW_6, ROW_7);
  }

  lemma JoinAll(a: seq<Q31>, b: seq<Q31>, c: seq<Q31>, d: seq<Q31>,
                e: seq<Q31>, f: seq<Q31>, g: seq<Q31>, h: seq<Q31>)
    requires |a| == |b| == |c| == |d| == |e| == |f| == |g| == |h| == 8
    requires AccurateFrom(0, a) && AccurateFrom(8, b) && AccurateFrom(16, c) && AccurateFrom(24, d)
    requires AccurateFrom(32, e) && AccurateFrom(40, f) && AccurateFrom(48, g) && AccurateFrom(56, h)
    ensures TableAccurate(a + b + c + d + e + f + g + h)
  {
    JoinRows(0, a, b);
    JoinRows(0, a + b, c);
    JoinRows(0, a + b + c, d);
    JoinRows(0, a + b + c + d, e);
    JoinRows(0, a + b + c + d + e, f);
    JoinRows(0, a + b + c + d + e + f, g);
    JoinRows(0, a + b + c + d + e + f + g, h);
  }

  lemma TableResidual(n: Q31, table: seq<Q31>)
    requires Normalised(n) && TableAccurate(table)
    ensures table[TableIndex(n)] > 0
    ensures Abs(Residual(n, table[TableIndex(n)])) <= 0x40_0000_0000_0000
  {
    var i := TableIndex(n);
    assert EntryAccurate(0 + i, table[i]);
    assert 0x100_0000 * (64 + i) <= n < 0x100_0000 * (65 + i);
    SegmentResidual(n, i, table[i]);
  }

  lemma SegmentResidual(n: int, i: nat, v: int)
    requires EntryAccurate(i, v) && 0x100_0000 * (64 + i) <= n < 0x100_0000 * (65 + i)
    ensures 0x1FC0_0000_0000_0000 <= n * v <= 0x2040_0000_0000_0000
  {
    MulLe(0x100_0000 * (64 + i), n, v);
    MulLe(n, 0x100_0000 * (65 + i), v);
  }

  /** The value the two steps give from a table's entry for the normalised input. */
  function Refined(n: Q31, table: seq<Q31>): Q31
    requires |table| == 64
  {
    NewtonStep(n, NewtonStep(n, table[TableIndex(n)]))
  }

  /** With an accurate table the result is below 2^61/n, by less than 12 units in the last
      place, for every positive input. */
  lemma ReciprocalAccuracy(n: Q31, table: seq<Q31>)
    requires Normalised(n) && TableAccurate(table)
    ensures 0 < Residual(n, Refined(n, table)) < 12 * n
  {
    var out0 := table[TableIndex(n)];
    TableResidual(n, table);
    SquareLe(Residual(n, out0), 0x40_0000_0000_0000);
    var out1 := NewtonStep(n, out0);
    StepResidual(n, out0);
    SquareLe(Residual(n, out1), 0x8000_0000_0000 + 0x1_8000_0000);
    StepResidual(n, out1);
  }

  /** For a negative input the residual has the wrong sign, so both steps run into the
      clip: the result is the largest positive value whatever the input was. */
  lemma NegativeInputSaturates(n: Q31, table: seq<Q31>)
    requires n <= -0x4000_0000 && TableAccurate(table)
    ensures Refined(n, table) == 0x7FFF_FFFF
  {
    var i := TableIndex(n);
    assert EntryAccurate(0 + i, table[i]);
    TableEntryLarge(i, table[i]);
    NegativeStep(n, table[i]);
    NegativeStep(n, 0x7FFF_FFFF);
  }

  lemma TableEntryLarge(i: nat, v: int)
    requires i < 64 && EntryAccurate(i, v)
    ensures v >= 0x3F00_0000
  {
    MulLe(64 + i, 127, v);
  }

  lemma NegativeStep(n: Q31, out: Q31)
    requires n <= -0x4000_0000 && out >= 0x3F00_0000
    ensures NewtonStep(n, out) == 0x7FFF_FFFF
  {
    var p := n * out;
    NegativeProduct(n, out);
    NegativeCorrection(p);
    var t := Correction(p);
    LargeProduct(out, t);
    ClipQ63ToQ31Clamps(out * t / 0x4000_0000);
  }

  lemma NegativeCorrection(p: int)
    requires -0x4000_0000_0000_0000 <= p <= -0x0FC0_0000_0000_0000
    ensures Correction(p) >= 0x9F00_0000
  {
  }

  lemma NegativeProduct(n: int, out: int)
    requires -0x8000_0000 <= n <= -0x4000_0000 && 0x3F00_0000 <= out < 0x8000_0000
    ensures -0x4000_0000_0000_0000 <= n * out <= -0x0FC0_0000_0000_0000
  {
    MulLe(n, -0x4000_0000, out);
    MulAbs(n, out, 0x8000_0000, 0x8000_0000);
  }

  lemma LargeProduct(out: int, t: int)
    requires 0x3F00_0000 <= out < 0x8000_0000 && 0x9F00_0000 <= t < 0x1_0000_0000
    ensures 0x8000_0000 <= out * t / 0x4000_0000 < 0x8000_0000_0000_0000
  {
    MulLe(0x3F00_0000, out, t);
    MulAbs(out, t, 0x7FFF_FFFF, 0xFFFF_FFFF);
  }

  /** With the library's table the reciprocal is right exactly for the positive inputs. */
  lemma ReciprocalExactlyForPositive(n: Q31)
    requires 0x4000_0000 <= Abs(n) < 0x8000_0000
    ensures |RECIP_TABLE_Q31| == 64
    ensures 0 <= Residual(n, Refined(n, RECIP_TABLE_Q31)) < 12 * Abs(n) <==> n > 0
  {
    LibraryTableAccurate();
    if n > 0 {
      ReciprocalAccuracy(n, RECIP_TABLE_Q31);
    } else {
      NegativeInputSaturates(n, RECIP_TABLE_Q31);
    }
  }
}
