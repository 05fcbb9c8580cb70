/** The Q15 PID controller in its two forms: the dual multiply-accumulate form works on
    packed words and sign-extends both operands of the first product, so the junk in the
    high lanes enters the sum; the scalar form multiplies plainly. */
module PidQ15 {
  import opened Arith
  import opened FixedPoint
  import opened PackedLanes

  datatype Gains = Gains(a0: Q15, a1: Q15, a2: Q15)

  /** The state array: the last two inputs and the last output. */
  datatype Memory = Memory(x1: Q15, x2: Q15, y1: Q15)

  /** A bound that every accumulator of either form keeps. */
  predicate InBudget(acc: int) { -0xC000_0001 <= acc <= 0xC000_0001 }

  /** Adds y[n-1] in the accumulator's scale, drops the fraction and saturates. The value
      handed to the saturation fits its 32-bit parameter. */
  function Output(acc: int, y1: Q15): (out: Q15)
    requires InBudget(acc)
    ensures out == Clamp((acc + y1 * 0x8000) / 0x8000, -0x8000, 0x7FFF)
  {
    var narrowed: Q31 := (acc + y1 * 0x8000) / 0x8000;
    assert Pow2(15) == 0x8000;
    Ssat(narrowed, 16)
  }

  function Product(a: Q15, b: Q15): (p: Q31)
    ensures p == a * b && -0x4000_0000 <= p <= 0x4000_0000
  {
    MulAbs(a, b, 0x8000, 0x8000);
    a * b
  }

  // ----- scalar form -----

  function ScalarAccumulator(g: Gains, m: Memory, x: Q15): (acc: int)
    ensures InBudget(acc)
    ensures acc == g.a0 * x + g.a1 * m.x1 + g.a2 * m.x2
  {
    Product(g.a0, x) + Product(g.a1, m.x1) + Product(g.a2, m.x2)
  }

  function ScalarStep(g: Gains, m: Memory, x: Q15): Memory {
    Memory(x, m.x1, Output(ScalarAccumulator(g, m, x), m.y1))
  }

  function ScalarRun(g: Gains, m: Memory, xs: seq<Q15>): Memory {
    if xs == [] then m else ScalarStep(g, ScalarRun(g, m, xs[..|xs| - 1]), xs[|xs| - 1])
  }

  class ScalarController {
    var A0: Q15
    var A1: Q15
    var A2: Q15
    const state: array<Q15>

    ghost predicate Valid() { state.Length == 3 }

    ghost function Stored(): Memory
      requires Valid()
      reads this, state
    {
      Memory(state[0], state[1], state[2])
    }

    constructor (a0: Q15, a1: Q15, a2: Q15)
      ensures Valid() && fresh(state)
      ensures A0 == a0 && A1 == a1 && A2 == a2
    {
      A0, A1, A2 := a0, a1, a2;
      state := new Q15[3];
    }

    /** `arm_pid_q15` without the packed instructions. */
    method Process(x: Q15) returns (out: Q15)
      requires Valid()
      modifies state
      ensures Stored() == ScalarStep(Gains(A0, A1, A2), old(Stored()), x)
      ensures out == Stored().y1
    {
      var acc: int := Product(A0, x);
      acc := acc + Product(A1, state[0]);
      acc := acc + Product(A2, state[1]);
      out := Output(acc, state[2]);
      state[1] := state[0];
      state[0] := x;
      state[2] := out;
    }
  }

  // ----- dual multiply-accumulate form -----

  /** The word that holds two consecutive halfwords. */
  function PairWord(lo: Q15, hi: Q15): (w: Uint32)
    ensures LoHalf(w) == lo && HiHalf(w) == hi
  {
    UnpackHalves(lo, hi);
    PackHalves(lo, hi)
  }

  /** `(q31_t)__SMUAD((uint32_t)A0, (uint32_t)in)` */
  function FirstTerm(a0: Q15, x: Q15): (f: Q31)
    ensures f == a0 * x + Extra(a0, x) && -0x4000_0000 <= f <= 0x4000_0001
  {
    FirstProduct(a0, x);
    Wrap32(Smuad(Unsigned(a0), Unsigned(x)))
  }

  /** The wrapped 32-bit sum of the two lane products of a pair of words. */
  function LaneSum(x: Uint32, y: Uint32): Q31 {
    Wrap32(LoHalf(x) * LoHalf(y) + HiHalf(x) * HiHalf(y))
  }

  function DualAccumulator(a0: Q15, a1a2: Uint32, pair: Uint32, x: Q15): (acc: Q63)
    ensures InBudget(acc)
    ensures acc == LaneSum(a1a2, pair) + FirstTerm(a0, x)
  {
    SmlaldValue(a1a2, pair, FirstTerm(a0, x));
    Wrap64(Smlald(a1a2, pair, FirstTerm(a0, x) % 0x1_0000_0000_0000_0000))
  }

  function DualStep(a0: Q15, a1a2: Uint32, m: Memory, x: Q15): Memory {
    Memory(x, m.x1, Output(DualAccumulator(a0, a1a2, PairWord(m.x1, m.x2), x), m.y1))
  }

  function DualRun(g: Gains, m: Memory, xs: seq<Q15>): Memory {
    if xs == [] then m
    else DualStep(g.a0, PairWord(g.a1, g.a2), DualRun(g, m, xs[..|xs| - 1]), xs[|xs| - 1])
  }

  class DualController {
    var A0: Q15
    var A1: Uint32  // A1 in the low half, A2 in the high half
    const state: array<Q15>

    ghost predicate Valid() { state.Length == 3 }

    ghost function Stored(): Memory
      requires Valid()
      reads this, state
    {
      Memory(state[0], state[1], state[2])
    }

    constructor (a0: Q15, a1: Q15, a2: Q15)
      ensures Valid() && fresh(state)
      ensures A0 == a0 && A1 == PairWord(a1, a2)
    {
      A0, A1 := a0, PairWord(a1, a2);
      state := new Q15[3];
    }

    /** `arm_pid_q15` with `__SMUAD` and `__SMLALD`. */
    method Process(x: Q15) returns (out: Q15)
      requires Valid()
      modifies state
      ensures Stored() == DualStep(A0, A1, old(Stored()), x)
      ensures out == Stored().y1
    {
      var acc := DualAccumulator(A0, A1, PairWord(state[0], state[1]), x);
      out := Output(acc, state[2]);
      state[1] := state[0];
      state[0] := x;
      state[2] := out;
    }
  }

  /** What sign extension adds: the product of two high lanes of ones. */
  function Extra(a0: Q15, x: Q15): (e: int)
    ensures e == 0 || e == 1
  {
    if a0 < 0 && x < 0 then 1 else 0
  }

  lemma SignExtended(v: Q15)
    ensures LoHalf(Unsigned(v)) == v
    ensures HiHalf(Unsigned(v)) == if v < 0 then -1 else 0
  {
    if v >= 0 {
      UnsignedUnique(v, v, 0);
      Wrap32Unique(v * 0x1_0000, v * 0x1_0000, 0);
      Wrap32Unique(v, v, 0);
      DivUnique(v * 0x1_0000, 0x1_0000, v, 0);
      DivUnique(v, 0x1_0000, 0, v);
    } else {
      var u := v + 0x1_0000_0000;
      UnsignedUnique(v, u, -1);
      Wrap32Unique(u * 0x1_0000, v * 0x1_0000, 0x1_0000);
      Wrap32Unique(u, v, 1);
      DivUnique(v * 0x1_0000, 0x1_0000, v, 0);
      DivUnique(v, 0x1_0000, -1, v + 0x1_0000);
    }
  }

  lemma FirstProduct(a0: Q15, x: Q15)
    ensures Wrap32(Smuad(Unsigned(a0), Unsigned(x))) == a0 * x + Extra(a0, x)
    ensures -0x4000_0000 <= a0 * x + Extra(a0, x) <= 0x4000_0001
  {
    SignExtended(a0);
    SignExtended(x);
    var p := Product(a0, x) + Extra(a0, x);
    Wrap32Unique(p, p, 0);
    WrapOfUnsigned(p);
  }

  lemma SmlaldValue(x: Uint32, y: Uint32, f: Q31)
    ensures Wrap64(Smlald(x, y, f % 0x1_0000_0000_0000_0000)) == LaneSum(x, y) + f
  {
    hide Wrap32, LoHalf, HiHalf;
    SignedSum64(LaneSum(x, y), f);
  }

  lemma SignedSum64(s: Q31, f: Q31)
    ensures Wrap64((s + f % 0x1_0000_0000_0000_0000) % 0x1_0000_0000_0000_0000) == s + f
  {
  }

  /** The packed accumulator is the scalar one plus the sign-extension bit, except that
      the corner of the second instruction loses 2^32. */
  lemma DualAccumulatorValue(g: Gains, m: Memory, x: Q15)
    ensures DualAccumulator(g.a0, PairWord(g.a1, g.a2), PairWord(m.x1, m.x2), x)
         == ScalarAccumulator(g, m, x) + Extra(g.a0, x)
          - (if AllLowest(g.a1, g.a2, m.x1, m.x2) then 0x1_0000_0000 else 0)
  {
    PairSum(g.a1, m.x1, g.a2, m.x2);
    LaneSumOfPairs(g.a1, g.a2, m.x1, m.x2);
  }

  lemma LaneSumOfPairs(a1: Q15, a2: Q15, x1: Q15, x2: Q15)
    ensures LaneSum(PairWord(a1, a2), PairWord(x1, x2)) == Wrap32(a1 * x1 + a2 * x2)
  {
    hide PackHalves, Wrap32, LoHalf, HiHalf;
  }

  lemma PairSum(a: Q15, b: Q15, c: Q15, d: Q15)
    ensures Wrap32(a * b + c * d)
         == a * b + c * d - (if AllLowest(a, c, b, d) then 0x1_0000_0000 else 0)
  {
    ProductSumExact(a, b, c, d);
    if AllLowest(a, c, b, d) { Wrap32Unique(a * b + c * d, -0x8000_0000, 1); }
  }

  // ----- comparison over runs -----

  /** The samples seen by the second product: the two stored ones, then the inputs. */
  function Delayed(m: Memory, xs: seq<Q15>): seq<Q15> { [m.x2, m.x1] + xs }

  /** The corner needs both stored gains and two consecutive samples at the lowest value. */
  predicate CornerFree(g: Gains, m: Memory, xs: seq<Q15>) {
    || g.a1 != -0x8000
    || g.a2 != -0x8000
    || forall k :: 0 <= k < |xs| ==> Delayed(m, xs)[k] != -0x8000 || Delayed(m, xs)[k + 1] != -0x8000
  }

  /** The steps at which the sign-extension bit is present. */
  function ExtraCount(a0: Q15, xs: seq<Q15>): (n: nat)
    ensures n <= |xs|
    ensures a0 >= 0 ==> n == 0
  {
    if xs == [] then 0 else ExtraCount(a0, xs[..|xs| - 1]) + Extra(a0, xs[|xs| - 1])
  }

  lemma {:induction false} StoredInputs(g: Gains, m: Memory, xs: seq<Q15>)
    ensures ScalarRun(g, m, xs).x1 == DualRun(g, m, xs).x1 == Delayed(m, xs)[|xs| + 1]
    ensures ScalarRun(g, m, xs).x2 == DualRun(g, m, xs).x2 == Delayed(m, xs)[|xs|]
  {
    if xs != [] {
      StoredInputs(g, m, xs[..|xs| - 1]);
    }
  }

  /** Feedback, rounding and saturation never amplify the difference. */
  lemma OutputGap(acc: int, e: int, ys: Q15, yd: Q15)
    requires 0 <= e <= 1 && ys <= yd && InBudget(acc) && InBudget(acc + e)
    ensures 0 <= Output(acc + e, yd) - Output(acc, ys) <= yd - ys + e
  {
    ClampNonExpansive((acc + ys * 0x8000) / 0x8000, (acc + e + yd * 0x8000) / 0x8000, -0x8000, 0x7FFF);
  }

  /** From equal state, over any run: the packed form is never below the scalar form and
      above it by at most one unit per step that has the sign-extension bit. In
      particular the forms agree bit for bit when A0 is not negative. */
  lemma {:induction false} DualTracksScalar(g: Gains, m: Memory, xs: seq<Q15>)
    requires CornerFree(g, m, xs)
    ensures 0 <= DualRun(g, m, xs).y1 - ScalarRun(g, m, xs).y1 <= ExtraCount(g.a0, xs)
  {
    hide DualAccumulator, PairWord, ScalarAccumulator, Output, Extra;
    if xs != [] {
      var prefix, x := xs[..|xs| - 1], xs[|xs| - 1];
      assert forall k :: 0 <= k < |xs| + 1 ==> Delayed(m, prefix)[k] == Delayed(m, xs)[k];
      DualTracksScalar(g, m, prefix);
      StoredInputs(g, m, prefix);
      var s, d := ScalarRun(g, m, prefix), DualRun(g, m, prefix);
      assert !AllLowest(g.a1, g.a2, d.x1, d.x2);
      DualAccumulatorValue(g, d, x);
      OutputGap(ScalarAccumulator(g, s, x), Extra(g.a0, x), s.y1, d.y1);
    }
  }

  /** The corner condition is needed: one step from equal state keeps the forms within the
      sign-extension bit exactly when it is not met. */
  lemma StepTracksExactlyWhen(g: Gains, m: Memory, x: Q15)
    ensures 0 <= DualStep(g.a0, PairWord(g.a1, g.a2), m, x).y1 - ScalarStep(g, m, x).y1 <= Extra(g.a0, x) <==>
            !AllLowest(g.a1, g.a2, m.x1, m.x2)
  {
    hide DualAccumulator, PairWord, ScalarAccumulator, Output, Extra;
    DualAccumulatorValue(g, m, x);
    if AllLowest(g.a1, g.a2, m.x1, m.x2) {
      CornerAccumulator(g, m, x);
      CornerGap(ScalarAccumulator(g, m, x), Extra(g.a0, x), m.y1, m.y1);
    } else {
      OutputGap(ScalarAccumulator(g, m, x), Extra(g.a0, x), m.y1, m.y1);
    }
  }

  lemma CornerAccumulator(g: Gains, m: Memory, x: Q15)
    requires AllLowest(g.a1, g.a2, m.x1, m.x2)
    ensures 0x4000_8000 <= ScalarAccumulator(g, m, x) <= 0xC000_0000
  {
    hide ScalarAccumulator, Product;
    ProductRange(g.a0, x);
  }

  /** Whatever the two stored outputs are, the corner puts the outputs on opposite sides of 0. */
  lemma CornerGap(acc: int, e: int, ys: Q15, yd: Q15)
    requires 0 <= e <= 1 && 0x4000_8000 <= acc <= 0xC000_0000
    ensures Output(acc + e - 0x1_0000_0000, yd) < 0 < Output(acc, ys)
  {
  }

  /** The run bound holds after every sample. */
  predicate TracksThroughout(g: Gains, m: Memory, xs: seq<Q15>) {
    forall k: nat :: k <= |xs| ==>
      0 <= DualRun(g, m, xs[..k]).y1 - ScalarRun(g, m, xs[..k]).y1 <= ExtraCount(g.a0, xs[..k])
  }

  lemma CornerFreePrefix(g: Gains, m: Memory, xs: seq<Q15>, k: nat)
    requires CornerFree(g, m, xs) && k <= |xs|
    ensures CornerFree(g, m, xs[..k])
  {
    assert forall i :: 0 <= i < k + 2 ==> Delayed(m, xs[..k])[i] == Delayed(m, xs)[i];
  }

  /** The step that meets the corner, from any two runs of the same samples so far. */
  lemma CornerStep(g: Gains, m: Memory, xs: seq<Q15>, k: nat)
    requires k < |xs| && g.a1 == -0x8000 && g.a2 == -0x8000
    requires Delayed(m, xs)[k] == -0x8000 && Delayed(m, xs)[k + 1] == -0x8000
    ensures DualRun(g, m, xs[..k + 1]).y1 < ScalarRun(g, m, xs[..k + 1]).y1
  {
    hide DualAccumulator, PairWord, ScalarAccumulator, Output, Extra;
    var prefix, x := xs[..k], xs[k];
    assert xs[..k + 1][..k] == prefix;
    assert forall i :: 0 <= i < k + 2 ==> Delayed(m, prefix)[i] == Delayed(m, xs)[i];
    StoredInputs(g, m, prefix);
    var s, d := ScalarRun(g, m, prefix), DualRun(g, m, prefix);
    DualAccumulatorValue(g, d, x);
    CornerAccumulator(g, s, x);
    SameInputs(g, s, d, x);
    CornerGap(ScalarAccumulator(g, s, x), Extra(g.a0, x), s.y1, d.y1);
  }

  lemma SameInputs(g: Gains, s: Memory, d: Memory, x: Q15)
    requires s.x1 == d.x1 && s.x2 == d.x2
    ensures ScalarAccumulator(g, s, x) == ScalarAccumulator(g, d, x)
  {
  }

  /** From equal state, the bound holds after every sample of a run exactly when the run never
      meets the corner. */
  lemma DualTracksExactlyWhen(g: Gains, m: Memory, xs: seq<Q15>)
    ensures TracksThroughout(g, m, xs) <==> CornerFree(g, m, xs)
  {
    hide DualRun, ScalarRun, ExtraCount;
    if CornerFree(g, m, xs) {
      forall k: nat | k <= |xs|
        ensures 0 <= DualRun(g, m, xs[..k]).y1 - ScalarRun(g, m, xs[..k]).y1 <= ExtraCount(g.a0, xs[..k])
      {
        CornerFreePrefix(g, m, xs, k);
        DualTracksScalar(g, m, xs[..k]);
      }
    } else {
      var k: nat :| k < |xs| && Delayed(m, xs)[k] == -0x8000 && Delayed(m, xs)[k + 1] == -0x8000;
      CornerStep(g, m, xs, k);
    }
  }
}
