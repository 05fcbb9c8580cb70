/** The Q31 motor-control transforms. Each product is truncated to 32 bits before the
    saturating sum, so a round trip returns the input scaled by sin^2 + cos^2 up to a few
    units in the last place. */
module Transforms {
  import opened Arith
  import opened FixedPoint

  datatype Pair = Pair(first: Q31, second: Q31)

  /** `(q31_t)(((q63_t)a * b) >> 31)` */
  function MulShift31(a: Q31, b: Q31): Q31 { Wrap32(a * b / 0x8000_0000) }

  function QAdd(x: Q31, y: Q31): Q31 { ClipQ63ToQ31(x + y) }

  function QSub(x: Q31, y: Q31): Q31 { ClipQ63ToQ31(x - y) }

  // ----- Park -----

  /** `arm_park_q31`: (Id, Iq) */
  function Park(alpha: Q31, beta: Q31, sinVal: Q31, cosVal: Q31): Pair {
    Pair(QAdd(MulShift31(alpha, cosVal), MulShift31(beta, sinVal)),
         QSub(MulShift31(beta, cosVal), MulShift31(alpha, sinVal)))
  }

  /** `arm_inv_park_q31`: (Ialpha, Ibeta) */
  function InversePark(d: Q31, q: Q31, sinVal: Q31, cosVal: Q31): Pair {
    Pair(QSub(MulShift31(d, cosVal), MulShift31(q, sinVal)),
         QAdd(MulShift31(q, cosVal), MulShift31(d, sinVal)))
  }

  /** The truncated product, and what truncation removed. */
  function Floor31(p: int): int { p / 0x8000_0000 }

  function Lost31(p: int): (r: int)
    ensures 0 <= r < 0x8000_0000 && 0x8000_0000 * Floor31(p) == p - r
  {
    p % 0x8000_0000
  }

  /** The cast after the shift is harmless except for -1 times -1. */
  lemma MulShift31ExactlyWhen(a: Q31, b: Q31)
    ensures MulShift31(a, b) == Floor31(a * b) <==> !(a == -0x8000_0000 && b == -0x8000_0000)
  {
    MulAbs(a, b, 0x8000_0000, 0x8000_0000);
    if a == -0x8000_0000 && b == -0x8000_0000 {
      Wrap32Unique(0x8000_0000, -0x8000_0000, 1);
    } else {
      NotFullScale(a, b);
      Wrap32Unique(Floor31(a * b), Floor31(a * b), 0);
    }
  }

  lemma NotFullScale(a: Q31, b: Q31)
    requires a != -0x8000_0000 || b != -0x8000_0000
    ensures -0x8000_0000 <= Floor31(a * b) < 0x8000_0000
  {
    if a != -0x8000_0000 {
      MulAbs(a, b, 0x7FFF_FFFF, 0x8000_0000);
    } else {
      MulAbs(a, b, 0x8000_0000, 0x7FFF_FFFF);
    }
  }

  /** The truncated product, and what the cast makes of -1 times -1. */
  function Truncated(a: int, b: int): int {
    if a == -0x8000_0000 && b == -0x8000_0000 then -0x8000_0000 else a * b / 0x8000_0000
  }

  lemma MulShiftValue(a: Q31, b: Q31)
    ensures MulShift31(a, b) == Truncated(a, b)
  {
    MulShift31ExactlyWhen(a, b);
    if a == -0x8000_0000 && b == -0x8000_0000 { Wrap32Unique(0x8000_0000, -0x8000_0000, 1); }
  }

  /** What a saturating sum returns, and when it is the sum itself. */
  predicate IsSaturated(r: int, sum: int) {
    && r == Clamp(sum, -0x8000_0000, 0x7FFF_FFFF)
    && (r == sum <==> -0x8000_0000 <= sum < 0x8000_0000)
  }

  lemma SaturatingSums(x: Q31, y: Q31)
    ensures IsSaturated(QAdd(x, y), x + y) && IsSaturated(QSub(x, y), x - y)
  {
    ClipQ63ToQ31Clamps(x + y);
    ClipQ63ToQ31Clamps(x - y);
  }

  /** Both Park transforms for every input: saturated sums of truncated products. */
  lemma ParkValue(alpha: Q31, beta: Q31, s: Q31, c: Q31)
    ensures IsSaturated(Park(alpha, beta, s, c).first, Truncated(alpha, c) + Truncated(beta, s))
    ensures IsSaturated(Park(alpha, beta, s, c).second, Truncated(beta, c) - Truncated(alpha, s))
  {
    hide MulShift31, Truncated, QAdd, QSub, IsSaturated;
    MulShiftValue(alpha, c);
    MulShiftValue(beta, s);
    MulShiftValue(beta, c);
    MulShiftValue(alpha, s);
    SaturatingSums(MulShift31(alpha, c), MulShift31(beta, s));
    SaturatingSums(MulShift31(beta, c), MulShift31(alpha, s));
  }

  lemma InverseParkValue(d: Q31, q: Q31, s: Q31, c: Q31)
    ensures IsSaturated(InversePark(d, q, s, c).first, Truncated(d, c) - Truncated(q, s))
    ensures IsSaturated(InversePark(d, q, s, c).second, Truncated(q, c) + Truncated(d, s))
  {
    hide MulShift31, Truncated, QAdd, QSub, IsSaturated;
    MulShiftValue(d, c);
    MulShiftValue(q, s);
    MulShiftValue(q, c);
    MulShiftValue(d, s);
    SaturatingSums(MulShift31(d, c), MulShift31(q, s));
    SaturatingSums(MulShift31(q, c), MulShift31(d, s));
  }

  lemma HalfScaleProduct(a: Q31, b: Q31)
    requires Abs(a) < 0x4000_0000
    ensures MulShift31(a, b) == Floor31(a * b)
    ensures -0x3FFF_FFFF <= Floor31(a * b) <= 0x3FFF_FFFF
  {
    MulAbs(a, b, 0x3FFF_FFFF, 0x8000_0000);
    Wrap32Unique(Floor31(a * b), Floor31(a * b), 0);
  }

  /** Inputs below half scale: the forward transform neither wraps nor saturates. */
  lemma ParkForward(alpha: Q31, beta: Q31, s: Q31, c: Q31)
    requires Abs(alpha) < 0x4000_0000 && Abs(beta) < 0x4000_0000
    ensures var p := Park(alpha, beta, s, c);
            && p.first == Floor31(alpha * c) + Floor31(beta * s)
            && p.second == Floor31(beta * c) - Floor31(alpha * s)
            && -0x7FFF_FFFE <= p.first <= 0x7FFF_FFFE && -0x7FFF_FFFE <= p.second <= 0x7FFF_FFFE
  {
    HalfScaleProduct(alpha, c);
    HalfScaleProduct(beta, s);
    HalfScaleProduct(beta, c);
    HalfScaleProduct(alpha, s);
    ClipQ63ToQ31Clamps(Floor31(alpha * c) + Floor31(beta * s));
    ClipQ63ToQ31Clamps(Floor31(beta * c) - Floor31(alpha * s));
  }

  /** The exact value of the round trip before the last clip, for the two coordinates:
      the coordinate times s^2 + c^2, minus the six truncation losses. */
  lemma AlphaIdentity(a: int, b: int, s: int, c: int, d: int, q: int, y: int, u: int, v: int, w: int)
    requires 0x8000_0000 * d == a * c + b * s - u
    requires 0x8000_0000 * q == b * c - a * s + v
    requires 0x8000_0000 * y == d * c - q * s - w
    ensures 0x4000_0000_0000_0000 * y == a * (s * s + c * c) - (u * c + v * s + 0x8000_0000 * w)
  {
    Expand(0x8000_0000, d, a * c, b * s, u, c);
    Expand(0x8000_0000, q, b * c, -(a * s), -v, s);
    Reorder(a, b, c, s);
  }

  lemma Expand(k: int, d: int, x: int, y: int, z: int, c: int)
    requires k * d == x + y - z
    ensures k * (d * c) == x * c + y * c - z * c
  {
    assert k * (d * c) == (k * d) * c;
  }

  lemma Reorder(a: int, b: int, c: int, s: int)
    ensures a * c * c + b * s * c - (b * c * s - a * s * s) == a * (s * s + c * c)
    ensures (-(a * s)) * s == -(a * s * s)
  {
  }

  lemma BetaIdentity(a: int, b: int, s: int, c: int, d: int, q: int, y: int, u: int, v: int, w: int)
    requires 0x8000_0000 * d == a * c + b * s - u
    requires 0x8000_0000 * q == b * c - a * s + v
    requires 0x8000_0000 * y == q * c + d * s - w
    ensures 0x4000_0000_0000_0000 * y == b * (s * s + c * c) - ((-v) * c + u * s + 0x8000_0000 * w)
  {
    AlphaIdentity(b, -a, s, c, q, -d, y, -v, u, w);
  }

  /** Scale of the comparison: the error times 2^62. */
  function ErrorScaled(y: int, coordinate: int, s: int, c: int): int {
    0x4000_0000_0000_0000 * y - coordinate * (s * s + c * c)
  }

  lemma LossBound(u: int, v: int, w: int, s: Q31, c: Q31, bu: int, bv: int, bw: int)
    requires -bu <= u <= bu && -bv <= v <= bv && -bw <= w <= bw
    ensures Abs(u * c + v * s + 0x8000_0000 * w) <= 0x8000_0000 * (bu + bv + bw)
  {
    MulAbs(u, c, bu, 0x8000_0000);
    MulAbs(v, s, bv, 0x8000_0000);
  }

  /** The coordinate scaled by s^2 + c^2 is itself a 32-bit value with room to spare, so a
      clip can only bring the result closer. */
  lemma ClipHelps(y: Q63, coordinate: int, s: Q31, c: Q31, bound: int)
    requires Abs(coordinate) < 0x4000_0000
    requires Abs(ErrorScaled(y, coordinate, s, c)) <= bound
    ensures Abs(ErrorScaled(ClipQ63ToQ31(y), coordinate, s, c)) <= bound
  {
    ClipQ63ToQ31Clamps(y);
    ScaledCoordinate(coordinate, s, c);
  }

  lemma ScaledCoordinate(coordinate: int, s: Q31, c: Q31)
    requires Abs(coordinate) < 0x4000_0000
    ensures Abs(coordinate * (s * s + c * c)) <= 0x4000_0000_0000_0000 * 0x7FFF_FFFE
  {
    SquareLe(s, 0x8000_0000);
    SquareLe(c, 0x8000_0000);
    MulAbs(coordinate, s * s + c * c, 0x3FFF_FFFF, 0x8000_0000_0000_0000);
  }

  /** The unclipped results of the inverse transform on the forward transform's output. */
  function RawAlpha(p: Pair, s: Q31, c: Q31): int { Floor31(p.first * c) - Floor31(p.second * s) }

  function RawBeta(p: Pair, s: Q31, c: Q31): int { Floor31(p.second * c) + Floor31(p.first * s) }

  lemma RawAlphaError(alpha: Q31, beta: Q31, s: Q31, c: Q31)
    requires Abs(alpha) < 0x4000_0000 && Abs(beta) < 0x4000_0000
    ensures Abs(ErrorScaled(RawAlpha(Park(alpha, beta, s, c), s, c), alpha, s, c)) < 4 * 0x4000_0000_0000_0000
  {
    ParkForward(alpha, beta, s, c);
    var p := Park(alpha, beta, s, c);
    var r1, r2 := Lost31(alpha * c), Lost31(beta * s);
    var r3, r4 := Lost31(beta * c), Lost31(alpha * s);
    var t1, t2 := Lost31(p.first * c), Lost31(p.second * s);
    AlphaIdentity(alpha, beta, s, c, p.first, p.second, RawAlpha(p, s, c), r1 + r2, r4 - r3, t1 - t2);
    LossBound(r1 + r2, r4 - r3, t1 - t2, s, c, 0xFFFF_FFFE, 0x7FFF_FFFF, 0x7FFF_FFFF);
  }

  lemma RawBetaError(alpha: Q31, beta: Q31, s: Q31, c: Q31)
    requires Abs(alpha) < 0x4000_0000 && Abs(beta) < 0x4000_0000
    ensures Abs(ErrorScaled(RawBeta(Park(alpha, beta, s, c), s, c), beta, s, c)) < 5 * 0x4000_0000_0000_0000
  {
    ParkForward(alpha, beta, s, c);
    var p := Park(alpha, beta, s, c);
    var r1, r2 := Lost31(alpha * c), Lost31(beta * s);
    var r3, r4 := Lost31(beta * c), Lost31(alpha * s);
    var t3, t4 := Lost31(p.second * c), Lost31(p.first * s);
    BetaIdentity(alpha, beta, s, c, p.first, p.second, RawBeta(p, s, c), r1 + r2, r4 - r3, t3 + t4);
    LossBound(-(r4 - r3), r1 + r2, t3 + t4, s, c, 0x7FFF_FFFF, 0xFFFF_FFFE, 0xFFFF_FFFE);
  }

  lemma InverseIsClippedRaw(p: Pair, s: Q31, c: Q31)
    requires -0x8000_0000 < p.first && -0x8000_0000 < p.second
    ensures -0x1_0000_0000 <= RawAlpha(p, s, c) <= 0x1_0000_0000
    ensures -0x1_0000_0000 <= RawBeta(p, s, c) <= 0x1_0000_0000
    ensures InversePark(p.first, p.second, s, c)
         == Pair(ClipQ63ToQ31(RawAlpha(p, s, c)), ClipQ63ToQ31(RawBeta(p, s, c)))
  {
    MulShift31ExactlyWhen(p.first, c);
    MulShift31ExactlyWhen(p.second, s);
    MulShift31ExactlyWhen(p.second, c);
    MulShift31ExactlyWhen(p.first, s);
  }

  /** Park followed by inverse Park with the same angle, for every sine and cosine value:
      each coordinate comes back scaled by (s^2 + c^2) / 2^62, alpha within 4 and beta
      within 5 units in the last place, whether or not the inverse saturates. */
  lemma ParkRoundTrip(alpha: Q31, beta: Q31, s: Q31, c: Q31)
    requires Abs(alpha) < 0x4000_0000 && Abs(beta) < 0x4000_0000
    ensures var p := Park(alpha, beta, s, c);
            var back := InversePark(p.first, p.second, s, c);
            && Abs(ErrorScaled(back.first, alpha, s, c)) < 4 * 0x4000_0000_0000_0000
            && Abs(ErrorScaled(back.second, beta, s, c)) < 5 * 0x4000_0000_0000_0000
  {
    var p := Park(alpha, beta, s, c);
    ParkForward(alpha, beta, s, c);
    InverseIsClippedRaw(p, s, c);
    RawAlphaError(alpha, beta, s, c);
    RawBetaError(alpha, beta, s, c);
    ClipHelps(RawAlpha(p, s, c), alpha, s, c, 4 * 0x4000_0000_0000_0000 - 1);
    ClipHelps(RawBeta(p, s, c), beta, s, c, 5 * 0x4000_0000_0000_0000 - 1);
  }

  /** With s^2 + c^2 <= 1 the inverse does not saturate. */
  lemma ParkRoundTripUnsaturated(alpha: Q31, beta: Q31, s: Q31, c: Q31)
    requires Abs(alpha) < 0x4000_0000 && Abs(beta) < 0x4000_0000
    requires s * s + c * c <= 0x4000_0000_0000_0000
    ensures var p := Park(alpha, beta, s, c);
            && InversePark(p.first, p.second, s, c).first == RawAlpha(p, s, c)
            && InversePark(p.first, p.second, s, c).second == RawBeta(p, s, c)
            && Abs(RawAlpha(p, s, c)) <= 0x4000_0004 && Abs(RawBeta(p, s, c)) <= 0x4000_0004
  {
    var p := Park(alpha, beta, s, c);
    ParkForward(alpha, beta, s, c);
    InverseIsClippedRaw(p, s, c);
    RawAlphaError(alpha, beta, s, c);
    RawBetaError(alpha, beta, s, c);
    UnitNorm(alpha, s, c);
    UnitNorm(beta, s, c);
    ClipQ63ToQ31Clamps(RawAlpha(p, s, c));
    ClipQ63ToQ31Clamps(RawBeta(p, s, c));
  }

  lemma UnitNorm(coordinate: int, s: Q31, c: Q31)
    requires Abs(coordinate) < 0x4000_0000 && s * s + c * c <= 0x4000_0000_0000_0000
    ensures Abs(coordinate * (s * s + c * c)) <= 0x3FFF_FFFF * 0x4000_0000_0000_0000
  {
    SquareLe(s, 0x8000_0000);
    SquareLe(c, 0x8000_0000);
    MulAbs(coordinate, s * s + c * c, 0x3FFF_FFFF, 0x4000_0000_0000_0000);
  }

  // ----- Clarke -----

  /** `arm_clarke_q31`: (Ialpha, Ibeta) */
  function Clarke(ia: Q31, ib: Q31): Pair {
    Pair(ia, QAdd(Wrap32(ia * 0x24F3_4E8B / 0x4000_0000), Wrap32(ib * 0x49E6_9D16 / 0x4000_0000)))
  }

  /** `arm_inv_clarke_q31`: (Ia, Ib) */
  function InverseClarke(alpha: Q31, beta: Q31): Pair {
    Pair(alpha, QSub(MulShift31(beta, 0x6ED9_EBA1), MulShift31(alpha, 0x4000_0000)))
  }

  lemma ClarkeForward(ia: Q31, ib: Q31)
    requires Abs(ia) <= 0x4000_0000 && Abs(ib) <= 0x4000_0000
    ensures Clarke(ia, ib)
         == Pair(ia, ia * 0x24F3_4E8B / 0x4000_0000 + ib * 0x49E6_9D16 / 0x4000_0000)
  {
    var p, q := ia * 0x24F3_4E8B / 0x4000_0000, ib * 0x49E6_9D16 / 0x4000_0000;
    Wrap32Unique(p, p, 0);
    Wrap32Unique(q, q, 0);
    ClipQ63ToQ31Clamps(p + q);
  }

  lemma InverseClarkeUnsaturated(alpha: Q31, beta: Q31)
    requires Abs(alpha) <= 0x4000_0000
    ensures var y := beta * 0x6ED9_EBA1 / 0x8000_0000 - alpha / 2;
            -0x8000_0000 <= y < 0x8000_0000 ==> InverseClarke(alpha, beta) == Pair(alpha, y)
  {
    var p, q := beta * 0x6ED9_EBA1 / 0x8000_0000, alpha * 0x4000_0000 / 0x8000_0000;
    assert q == alpha / 2;
    Wrap32Unique(p, p, 0);
    Wrap32Unique(q, q, 0);
    ClipQ63ToQ31Clamps(p - q);
  }

  /** Clarke followed by inverse Clarke up to half scale: nothing saturates, the first
      phase is exact and the second is at most 3 units low or 1 unit high. */
  lemma ClarkeRoundTrip(ia: Q31, ib: Q31)
    requires Abs(ia) <= 0x4000_0000 && Abs(ib) <= 0x4000_0000
    ensures var p := Clarke(ia, ib);
            var back := InverseClarke(p.first, p.second);
            back.first == ia && -3 <= back.second - ib <= 1
  {
    ClarkeForward(ia, ib);
    InverseClarkeUnsaturated(ia, Clarke(ia, ib).second);
  }

  /** 2/sqrt(3) does not fit the format, so the product with the second phase wraps near full
      scale. The second coordinate is the saturated sum exactly when it does not. */
  lemma ClarkeExactlyWhen(ia: Q31, ib: Q31)
    ensures Clarke(ia, ib).first == ia
    ensures IsSaturated(Clarke(ia, ib).second, ia * 0x24F3_4E8B / 0x4000_0000 + ib * 0x49E6_9D16 / 0x4000_0000)
      <==> -0x8000_0000 <= ib * 0x49E6_9D16 / 0x4000_0000 < 0x8000_0000
    ensures !(-0x8000_0000 <= ib * 0x49E6_9D16 / 0x4000_0000 < 0x8000_0000) ==>
      var wrapped := ib * 0x49E6_9D16 / 0x4000_0000 + (if ib < 0 then 0x1_0000_0000 else -0x1_0000_0000);
      IsSaturated(Clarke(ia, ib).second, ia * 0x24F3_4E8B / 0x4000_0000 + wrapped)
  {
    var p, q := ia * 0x24F3_4E8B / 0x4000_0000, ib * 0x49E6_9D16 / 0x4000_0000;
    Wrap32Unique(p, p, 0);
    if q < -0x8000_0000 {
      Wrap32Unique(q, q + 0x1_0000_0000, -1);
    } else if q >= 0x8000_0000 {
      Wrap32Unique(q, q - 0x1_0000_0000, 1);
    } else {
      Wrap32Unique(q, q, 0);
    }
    hide Wrap32, QAdd;
    SaturatingSums(Wrap32(p), Wrap32(q));
  }

  /** The inverse for every input. */
  lemma InverseClarkeValue(alpha: Q31, beta: Q31)
    ensures InverseClarke(alpha, beta).first == alpha
    ensures IsSaturated(InverseClarke(alpha, beta).second, beta * 0x6ED9_EBA1 / 0x8000_0000 - alpha / 2)
  {
    MulShiftValue(beta, 0x6ED9_EBA1);
    MulShiftValue(alpha, 0x4000_0000);
    assert alpha * 0x4000_0000 / 0x8000_0000 == alpha / 2;
    hide MulShift31, QSub;
    SaturatingSums(MulShift31(beta, 0x6ED9_EBA1), MulShift31(alpha, 0x4000_0000));
  }
}
