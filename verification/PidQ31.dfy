/** The Q31 PID controller in incremental form. The accumulator wraps at 64 bits and the
    output at 32; over a whole run the two wraps cancel, so the output is the exact
    incremental sum reduced to 32 bits, whatever the intermediate values were. */
module PidQ31 {
  import opened Arith
  import opened FixedPoint

  datatype Gains = Gains(a0: Q31, a1: Q31, a2: Q31)

  /** The state array: the last two inputs and the last output. */
  datatype Memory = Memory(x1: Q31, x2: Q31, y1: Q31)

  const CLEARED := Memory(0, 0, 0)

  function Accumulator(g: Gains, m: Memory, x: Q31): Q63 {
    Wrap64(Wrap64(g.a0 * x + g.a1 * m.x1) + g.a2 * m.x2)
  }

  function Step(g: Gains, m: Memory, x: Q31): Memory {
    Memory(x, m.x1, Wrap32(Wrap32(Accumulator(g, m, x) / 0x8000_0000) + m.y1))
  }

  function Run(g: Gains, m: Memory, xs: seq<Q31>): Memory {
    if xs == [] then m else Step(g, Run(g, m, xs[..|xs| - 1]), xs[|xs| - 1])
  }

  /** `__QADD`: clip_q63_to_q31 of the 64-bit sum. */
  function Saturate(sum: Q63): Q31 { ClipQ63ToQ31(sum) }

  function DerivedA0(kp: Q31, ki: Q31, kd: Q31): Q31 { Saturate(Saturate(kp + ki) + kd) }

  function DerivedA1(kp: Q31, kd: Q31): Q31 { Wrap32(0 - Saturate(Saturate(kd + kd) + kp)) }

  function DerivedGains(kp: Q31, ki: Q31, kd: Q31): Gains {
    Gains(DerivedA0(kp, ki, kd), DerivedA1(kp, kd), kd)
  }

  class Controller {
    var A0: Q31
    var A1: Q31
    var A2: Q31
    var Kp: Q31
    var Ki: Q31
    var Kd: Q31
    const state: array<Q31>

    ghost predicate Valid() { state.Length == 3 }

    ghost function Coefficients(): Gains reads this { Gains(A0, A1, A2) }

    ghost function Stored(): Memory
      requires Valid()
      reads this, state
    {
      Memory(state[0], state[1], state[2])
    }

    constructor (kp: Q31, ki: Q31, kd: Q31)
      ensures Valid() && fresh(state)
      ensures Kp == kp && Ki == ki && Kd == kd
    {
      Kp, Ki, Kd := kp, ki, kd;
      A0, A1, A2 := 0, 0, 0;
      state := new Q31[3];
    }

    /** `arm_pid_init_q31` */
    method Init(resetStateFlag: bool)
      requires Valid()
      modifies this, state
      ensures Kp == old(Kp) && Ki == old(Ki) && Kd == old(Kd)
      ensures Coefficients() == DerivedGains(Kp, Ki, Kd)
      ensures Stored() == if resetStateFlag then CLEARED else old(Stored())
    {
      A0 := DerivedA0(Kp, Ki, Kd);
      A1 := DerivedA1(Kp, Kd);
      A2 := Kd;
      if resetStateFlag {
        state[0], state[1], state[2] := 0, 0, 0;
      }
    }

    /** `arm_pid_q31` */
    method Process(x: Q31) returns (out: Q31)
      requires Valid()
      modifies state
      ensures Stored() == Step(Coefficients(), old(Stored()), x)
      ensures out == Stored().y1
    {
      var acc: Q63 := Product(A0, x);
      var p1, p2 := Product(A1, state[0]), Product(A2, state[1]);
      acc := Wrap64(acc + p1);
      acc := Wrap64(acc + p2);
      out := Wrap32(acc / 0x8000_0000);
      out := Wrap32(out + state[2]);
      state[1] := state[0];
      state[0] := x;
      state[2] := out;
    }
  }

  /** A product of two 32-bit values fits in 64 bits. */
  function Product(a: Q31, b: Q31): (p: Q63)
    ensures p == a * b
  {
    MulAbs(a, b, 0x8000_0000, 0x8000_0000);
    a * b
  }

  // ----- the exact, unbounded incremental sum -----

  function At(xs: seq<Q31>, k: int): Q31 { if 0 <= k < |xs| then xs[k] else 0 }

  /** A0*x[n] + A1*x[n-1] + A2*x[n-2] for the last sample of xs. */
  function Increment(g: Gains, xs: seq<Q31>): int {
    g.a0 * At(xs, |xs| - 1) + g.a1 * At(xs, |xs| - 2) + g.a2 * At(xs, |xs| - 3)
  }

  function ExactOutput(g: Gains, xs: seq<Q31>): int {
    if xs == [] then 0 else ExactOutput(g, xs[..|xs| - 1]) + Increment(g, xs) / 0x8000_0000
  }

  function ScaledOutput(g: Gains, xs: seq<Q31>): int {
    if xs == [] then 0 else ScaledOutput(g, xs[..|xs| - 1]) + Increment(g, xs)
  }

  /** A 64-bit wrap of the accumulator moves the shifted value by a multiple of 2^33. */
  lemma WrapsCancel(s: int, t: int, y: int)
    ensures Wrap32(Wrap32(Wrap64(Wrap64(s) + t) / 0x8000_0000) + Wrap32(y))
         == Wrap32((s + t) / 0x8000_0000 + y)
  {
    hide Wrap32, Wrap64;
    var acc := Wrap64(Wrap64(s) + t);
    var i := WrapDifference(s);
    var j := WrapDifference(Wrap64(s) + t);
    ShiftOfWrapped(s + t, acc, i + j);
    WrapOfSum(acc / 0x8000_0000, y, 2 * (i + j));
  }

  lemma ShiftOfWrapped(s: int, acc: int, k: int)
    requires s == acc + 0x1_0000_0000_0000_0000 * k
    ensures s / 0x8000_0000 == acc / 0x8000_0000 + 0x1_0000_0000 * (2 * k)
  {
    DivUnique(s, 0x8000_0000, acc / 0x8000_0000 + 0x2_0000_0000 * k, acc % 0x8000_0000);
  }

  lemma WrapDifference(s: int) returns (k: int)
    ensures s == Wrap64(s) + 0x1_0000_0000_0000_0000 * k
  {
    k := (s + 0x8000_0000_0000_0000) / 0x1_0000_0000_0000_0000;
  }

  lemma WrapOfSum(a: int, y: int, k: int)
    ensures Wrap32(Wrap32(a) + Wrap32(y)) == Wrap32(a + 0x1_0000_0000 * k + y)
  {
    var p, q := (a + 0x8000_0000) / 0x1_0000_0000, (y + 0x8000_0000) / 0x1_0000_0000;
    assert a == Wrap32(a) + 0x1_0000_0000 * p && y == Wrap32(y) + 0x1_0000_0000 * q;
    var v := Wrap32(a) + Wrap32(y);
    var r := (v + 0x8000_0000) / 0x1_0000_0000;
    Wrap32Unique(a + 0x1_0000_0000 * k + y, Wrap32(v), p + q + r + k);
  }

  /** For every input sequence, gains and any number of intermediate overflows. */
  lemma {:induction false} RunIsWrappedExact(g: Gains, xs: seq<Q31>)
    ensures Run(g, CLEARED, xs)
         == Memory(At(xs, |xs| - 1), At(xs, |xs| - 2), Wrap32(ExactOutput(g, xs)))
  {
    if xs != [] {
      var prefix := xs[..|xs| - 1];
      RunIsWrappedExact(g, prefix);
      var x, x1, x2 := At(xs, |xs| - 1), At(xs, |xs| - 2), At(xs, |xs| - 3);
      assert At(prefix, |prefix| - 1) == x1 && At(prefix, |prefix| - 2) == x2;
      WrapsCancel(g.a0 * x + g.a1 * x1, g.a2 * x2, ExactOutput(g, prefix));
    }
  }

  // ----- the positional form -----

  function Sum(xs: seq<Q31>): int {
    if xs == [] then 0 else Sum(xs[..|xs| - 1]) + xs[|xs| - 1]
  }

  /** Kp*x[n] + Ki*(x[1] + ... + x[n]) + Kd*(x[n] - x[n-1]) */
  function Positional(kp: int, ki: int, kd: int, xs: seq<Q31>): int {
    kp * At(xs, |xs| - 1) + ki * Sum(xs) + kd * (At(xs, |xs| - 1) - At(xs, |xs| - 2))
  }

  predicate IncrementalGains(g: Gains, kp: int, ki: int, kd: int) {
    g.a0 == kp + ki + kd && g.a1 == -kp - 2 * kd && g.a2 == kd
  }

  lemma {:induction false} Telescopes(g: Gains, kp: int, ki: int, kd: int, xs: seq<Q31>)
    requires IncrementalGains(g, kp, ki, kd)
    ensures ScaledOutput(g, xs) == Positional(kp, ki, kd, xs)
  {
    if xs != [] {
      var prefix := xs[..|xs| - 1];
      Telescopes(g, kp, ki, kd, prefix);
      var x, x1, x2 := At(xs, |xs| - 1), At(xs, |xs| - 2), At(xs, |xs| - 3);
      assert At(prefix, |prefix| - 1) == x1 && At(prefix, |prefix| - 2) == x2;
      TelescopeStep(g.a0, g.a1, g.a2, kp, ki, kd, x, x1, x2, Sum(prefix));
    }
  }

  lemma TelescopeStep(a0: int, a1: int, a2: int, kp: int, ki: int, kd: int, x: int, x1: int, x2: int, s: int)
    requires a0 == kp + ki + kd && a1 == -kp - 2 * kd && a2 == kd
    ensures kp * x1 + ki * s + kd * (x1 - x2) + (a0 * x + a1 * x1 + a2 * x2)
         == kp * x + ki * (s + x) + kd * (x - x1)
  {
  }

  /** Each truncation loses less than one unit. */
  lemma {:induction false} Drift(g: Gains, xs: seq<Q31>)
    ensures 0 <= ScaledOutput(g, xs) - 0x8000_0000 * ExactOutput(g, xs) <= 0x7FFF_FFFF * |xs|
  {
    if xs != [] {
      Drift(g, xs[..|xs| - 1]);
    }
  }

  /** The incremental controller is the positional one, rounded down by less than one
      unit per sample and reduced to 32 bits, with no condition on overflow. */
  lemma IncrementalIsPositional(g: Gains, kp: int, ki: int, kd: int, xs: seq<Q31>)
    requires IncrementalGains(g, kp, ki, kd)
    ensures Run(g, CLEARED, xs).y1 == Wrap32(ExactOutput(g, xs))
    ensures 0 <= Positional(kp, ki, kd, xs) - 0x8000_0000 * ExactOutput(g, xs) <= 0x7FFF_FFFF * |xs|
  {
    RunIsWrappedExact(g, xs);
    Telescopes(g, kp, ki, kd, xs);
    Drift(g, xs);
  }

  /** So the positional law needs only the final value to fit: for runs of up to 2^32
      samples it holds exactly when the exact output is a 32-bit value. */
  lemma PositionalExactlyWhen(g: Gains, kp: int, ki: int, kd: int, xs: seq<Q31>)
    requires IncrementalGains(g, kp, ki, kd) && |xs| <= 0x1_0000_0000
    ensures -0x8000_0000 <= ExactOutput(g, xs) < 0x8000_0000 <==>
            0 <= Positional(kp, ki, kd, xs) - 0x8000_0000 * Run(g, CLEARED, xs).y1 <= 0x7FFF_FFFF * |xs|
  {
    IncrementalIsPositional(g, kp, ki, kd, xs);
    LawExactlyWhen(Positional(kp, ki, kd, xs), ExactOutput(g, xs), Wrap32(ExactOutput(g, xs)), |xs|);
  }

  lemma LawExactlyWhen(p: int, y: int, w: int, n: nat)
    requires 0 <= p - 0x8000_0000 * y <= 0x7FFF_FFFF * n && n <= 0x1_0000_0000
    requires w == Wrap32(y)
    ensures -0x8000_0000 <= y < 0x8000_0000 <==> 0 <= p - 0x8000_0000 * w <= 0x7FFF_FFFF * n
  {
    var k := (y + 0x8000_0000) / 0x1_0000_0000;
    assert y == w + 0x1_0000_0000 * k;
  }

  /** Derivation of the first gain is exact when neither sum saturates. */
  lemma DerivedA0ExactlyWhen(kp: Q31, ki: Q31, kd: Q31)
    ensures DerivedA0(kp, ki, kd) == kp + ki + kd <==>
            (-0x8000_0000 <= kp + ki < 0x8000_0000 && -0x8000_0000 <= kp + ki + kd < 0x8000_0000)
  {
    ClipQ63ToQ31Clamps(kp + ki);
    ClipQ63ToQ31Clamps(Saturate(kp + ki) + kd);
  }

  /** The second is also lost when its negation has no 32-bit value. */
  lemma DerivedA1ExactlyWhen(kp: Q31, kd: Q31)
    ensures DerivedA1(kp, kd) == 0 - kp - 2 * kd <==>
            (-0x4000_0000 <= kd < 0x4000_0000 && -0x8000_0000 < kp + 2 * kd < 0x8000_0000)
  {
    ClipQ63ToQ31Clamps(kd + kd);
    var d: int := Saturate(kd + kd) + kp;
    ClipQ63ToQ31Clamps(d);
    var c := Clamp(d, -0x8000_0000, 0x7FFF_FFFF);
    if c == -0x8000_0000 { Wrap32Unique(0 - c, -0x8000_0000, 1); } else { Wrap32Unique(0 - c, 0 - c, 0); }
  }

  /** The initialisation derives the incremental gains exactly when no sum saturates. */
  lemma DerivedGainsExactlyWhen(kp: Q31, ki: Q31, kd: Q31)
    ensures IncrementalGains(DerivedGains(kp, ki, kd), kp, ki, kd) <==>
            (-0x8000_0000 <= kp + ki < 0x8000_0000 && -0x8000_0000 <= kp + ki + kd < 0x8000_0000
             && -0x4000_0000 <= kd < 0x4000_0000 && -0x8000_0000 < kp + 2 * kd < 0x8000_0000)
  {
    DerivedA0ExactlyWhen(kp, ki, kd);
    DerivedA1ExactlyWhen(kp, kd);
  }

  /** What the initialisation stores in every case: saturated sums, and for A1 their negative,
      which has no 32-bit value when the sum is the lowest. */
  lemma DerivedGainsValue(kp: Q31, ki: Q31, kd: Q31)
    ensures var g := DerivedGains(kp, ki, kd);
      var twice := Clamp(kd + kd, -0x8000_0000, 0x7FFF_FFFF);
      var sum := Clamp(twice + kp, -0x8000_0000, 0x7FFF_FFFF);
      && g.a0 == Clamp(Clamp(kp + ki, -0x8000_0000, 0x7FFF_FFFF) + kd, -0x8000_0000, 0x7FFF_FFFF)
      && g.a1 == (if sum == -0x8000_0000 then -0x8000_0000 else -sum)
      && g.a2 == kd
  {
    hide Saturate, Wrap32;
    Saturates(kp + ki);
    Saturates(Saturate(kp + ki) + kd);
    Saturates(kd + kd);
    Saturates(Saturate(kd + kd) + kp);
    Negated(Saturate(Saturate(kd + kd) + kp));
  }

  lemma Saturates(x: Q63)
    ensures Saturate(x) == Clamp(x, -0x8000_0000, 0x7FFF_FFFF)
  {
    ClipQ63ToQ31Clamps(x);
  }

  lemma Negated(x: Q31)
    ensures Wrap32(0 - x) == if x == -0x8000_0000 then -0x8000_0000 else 0 - x
  {
    if x == -0x8000_0000 { Wrap32Unique(0 - x, -0x8000_0000, 1); } else { Wrap32Unique(0 - x, 0 - x, 0); }
  }

  // ----- the accumulator -----

  /** Three full-scale gains times this still fit in 63 bits. */
  const HEADROOM: int := 0x5555_5555

  lemma AccumulatorExact(g: Gains, m: Memory, x: Q31)
    requires Abs(x) <= HEADROOM && Abs(m.x1) <= HEADROOM && Abs(m.x2) <= HEADROOM
    ensures Accumulator(g, m, x) == g.a0 * x + g.a1 * m.x1 + g.a2 * m.x2
  {
    MulAbs(g.a0, x, 0x8000_0000, HEADROOM);
    MulAbs(g.a1, m.x1, 0x8000_0000, HEADROOM);
    MulAbs(g.a2, m.x2, 0x8000_0000, HEADROOM);
  }

  predicate Within(xs: seq<Q31>, bound: int) { forall k :: 0 <= k < |xs| ==> Abs(xs[k]) <= bound }

  /** On every step of every run over such inputs. */
  lemma AccumulatorExactThroughout(g: Gains, xs: seq<Q31>, x: Q31)
    requires Abs(x) <= HEADROOM && Within(xs, HEADROOM)
    ensures var m := Run(g, CLEARED, xs);
            Accumulator(g, m, x) == g.a0 * x + g.a1 * m.x1 + g.a2 * m.x2
  {
    RunIsWrappedExact(g, xs);
    AccumulatorExact(g, Run(g, CLEARED, xs), x);
  }

  /** No accumulator of any run overflows, for any gains and inputs up to the bound. */
  ghost predicate NeverOverflows(bound: int) {
    forall g: Gains, xs: seq<Q31>, x: Q31 :: Abs(x) <= bound && Within(xs, bound) ==>
      var m := Run(g, CLEARED, xs);
      Accumulator(g, m, x) == g.a0 * x + g.a1 * m.x1 + g.a2 * m.x2
  }

  /** That holds up to two thirds of full scale and no further. */
  lemma NeverOverflowsExactlyWhen(bound: nat)
    ensures NeverOverflows(bound) <==> bound <= HEADROOM
  {
    if bound <= HEADROOM {
      forall g: Gains, xs: seq<Q31>, x: Q31 | Abs(x) <= bound && Within(xs, bound)
        ensures var m := Run(g, CLEARED, xs);
                Accumulator(g, m, x) == g.a0 * x + g.a1 * m.x1 + g.a2 * m.x2
      {
        AccumulatorExactThroughout(g, xs, x);
      }
    } else {
      var g, b: Q31 := Gains(-0x8000_0000, -0x8000_0000, -0x8000_0000), -0x5555_5556;
      var xs := [b, b];
      RunIsWrappedExact(g, xs);
      var m := Run(g, CLEARED, xs);
      assert m.x1 == b && m.x2 == b;
      assert Within(xs, bound);
      assert g.a0 * b + g.a1 * m.x1 + g.a2 * m.x2 == 0x8000_0001_0000_0000;
    }
  }

  // ----- saturation -----

  /** The sum before it is cut to 32 bits. */
  function OutputSum(g: Gains, m: Memory, x: Q31): (s: int)
    ensures -0x1_8000_0000 <= s < 0x1_8000_0000 - 1
  {
    Accumulator(g, m, x) / 0x8000_0000 + m.y1
  }

  /** The controller of the comment: the same accumulator, a saturated output. */
  function SaturatingStep(g: Gains, m: Memory, x: Q31): Memory {
    Memory(x, m.x1, Clamp(OutputSum(g, m, x), -0x8000_0000, 0x7FFF_FFFF))
  }

  function SaturatingRun(g: Gains, m: Memory, xs: seq<Q31>): Memory {
    if xs == [] then m else SaturatingStep(g, SaturatingRun(g, m, xs[..|xs| - 1]), xs[|xs| - 1])
  }

  /** The sums that the cast and a saturation treat alike: the 32-bit ones, and the one
      value below them that the cast happens to send to the lowest. */
  predicate CastSaturates(s: int) { -0x8000_0000 <= s < 0x8000_0000 || s == -0x1_8000_0000 }

  lemma WrapIsClampExactlyWhen(s: int)
    requires -0x1_8000_0000 <= s < 0x1_8000_0000 - 1
    ensures Wrap32(s) == Clamp(s, -0x8000_0000, 0x7FFF_FFFF) <==> CastSaturates(s)
  {
    if s < -0x1_8000_0000 + 0x1_0000_0000 {
      if s < -0x8000_0000 { Wrap32Unique(s, s + 0x1_0000_0000, -1); } else { Wrap32Unique(s, s, 0); }
    } else if s < 0x8000_0000 {
      Wrap32Unique(s, s, 0);
    } else {
      Wrap32Unique(s, s - 0x1_0000_0000, 1);
    }
  }

  lemma StepWraps(g: Gains, m: Memory, x: Q31)
    ensures Step(g, m, x) == Memory(x, m.x1, Wrap32(OutputSum(g, m, x)))
  {
    hide Wrap32;
    var a: int := Accumulator(g, m, x) / 0x8000_0000;
    WrapOfSum(a, m.y1, 0);
    Wrap32Unique(m.y1, m.y1, 0);
  }

  /** One step saturates as the comment promises exactly when its sum is one of those. */
  lemma StepSaturatesExactlyWhen(g: Gains, m: Memory, x: Q31)
    ensures Step(g, m, x) == SaturatingStep(g, m, x) <==> CastSaturates(OutputSum(g, m, x))
  {
    StepWraps(g, m, x);
    WrapIsClampExactlyWhen(OutputSum(g, m, x));
  }

  /** The register agrees with the saturating controller's after every sample of a run. */
  predicate TracksSaturating(g: Gains, m: Memory, xs: seq<Q31>) {
    forall k: nat :: k <= |xs| ==> Run(g, m, xs[..k]) == SaturatingRun(g, m, xs[..k])
  }

  predicate CastsSaturate(g: Gains, m: Memory, xs: seq<Q31>) {
    forall k: nat :: k < |xs| ==> CastSaturates(OutputSum(g, Run(g, m, xs[..k]), xs[k]))
  }

  lemma RunOneMore(g: Gains, m: Memory, xs: seq<Q31>, k: nat)
    requires k < |xs|
    ensures Run(g, m, xs[..k + 1]) == Step(g, Run(g, m, xs[..k]), xs[k])
    ensures SaturatingRun(g, m, xs[..k + 1]) == SaturatingStep(g, SaturatingRun(g, m, xs[..k]), xs[k])
  {
    assert xs[..k + 1][..k] == xs[..k];
  }

  lemma {:induction false} TracksUpTo(g: Gains, m: Memory, xs: seq<Q31>, k: nat)
    requires k <= |xs| && CastsSaturate(g, m, xs)
    ensures Run(g, m, xs[..k]) == SaturatingRun(g, m, xs[..k])
  {
    hide Step, SaturatingStep, OutputSum, CastSaturates;
    if k > 0 {
      TracksUpTo(g, m, xs, k - 1);
      RunOneMore(g, m, xs, k - 1);
      StepSaturatesExactlyWhen(g, Run(g, m, xs[..k - 1]), xs[k - 1]);
    } else {
      assert xs[..0] == [];
    }
  }

  /** Over a run, from any state: the output is saturated throughout exactly when every
      step's sum is a 32-bit value or the one exception. */
  lemma RunSaturatesExactlyWhen(g: Gains, m: Memory, xs: seq<Q31>)
    ensures TracksSaturating(g, m, xs) <==> CastsSaturate(g, m, xs)
  {
    hide Step, SaturatingStep, OutputSum, CastSaturates, Run, SaturatingRun;
    if CastsSaturate(g, m, xs) {
      forall k: nat | k <= |xs| ensures Run(g, m, xs[..k]) == SaturatingRun(g, m, xs[..k]) {
        TracksUpTo(g, m, xs, k);
      }
    }
    if TracksSaturating(g, m, xs) {
      forall k: nat | k < |xs| ensures CastSaturates(OutputSum(g, Run(g, m, xs[..k]), xs[k])) {
        RunOneMore(g, m, xs, k);
        assert Run(g, m, xs[..k]) == SaturatingRun(g, m, xs[..k]);
        assert Run(g, m, xs[..k + 1]) == SaturatingRun(g, m, xs[..k + 1]);
        StepSaturatesExactlyWhen(g, Run(g, m, xs[..k]), xs[k]);
      }
    }
  }

  /** The register after a run is the clamp of the exact output exactly when that output fits,
      or lies outside with the bound's own pattern in its low 32 bits. */
  lemma FinalSaturatesExactlyWhen(g: Gains, xs: seq<Q31>)
    ensures var y := ExactOutput(g, xs);
      Run(g, CLEARED, xs).y1 == Clamp(y, -0x8000_0000, 0x7FFF_FFFF) <==>
        || -0x8000_0000 <= y < 0x8000_0000
        || (y > 0 && Unsigned(y) == 0x7FFF_FFFF)
        || (y < 0 && Unsigned(y) == 0x8000_0000)
  {
    hide ExactOutput, Run;
    RunIsWrappedExact(g, xs);
    WrapOrBound(ExactOutput(g, xs));
  }

  lemma WrapOrBound(y: int)
    ensures Wrap32(y) == Clamp(y, -0x8000_0000, 0x7FFF_FFFF) <==>
      || -0x8000_0000 <= y < 0x8000_0000
      || (y > 0 && Unsigned(y) == 0x7FFF_FFFF)
      || (y < 0 && Unsigned(y) == 0x8000_0000)
  {
    var u: int := Unsigned(y);
    var k := y / 0x1_0000_0000;
    if u < 0x8000_0000 { Wrap32Unique(y, u, k); } else { Wrap32Unique(y, u - 0x1_0000_0000, k + 1); }
  }

  /** The output is not saturated: two full-scale samples carry it past the top. */
  lemma OutputWraps()
    ensures Run(Gains(0x7FFF_FFFF, 0, 0), CLEARED, [0x7FFF_FFFF, 0x7FFF_FFFF]).y1 == -4
  {
    var g := Gains(0x7FFF_FFFF, 0, 0);
    var one: seq<Q31> := [0x7FFF_FFFF];
    var two: seq<Q31> := [0x7FFF_FFFF, 0x7FFF_FFFF];
    RunIsWrappedExact(g, two);
    assert two[..1] == one && one[..0] == [];
    assert Increment(g, one) / 0x8000_0000 == 0x7FFF_FFFE;
    assert Increment(g, two) == Increment(g, one);
    assert ExactOutput(g, two) == 0xFFFF_FFFC;
  }
}
