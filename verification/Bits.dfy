/** `&` and `|` on natural numbers, bit by bit, and the two facts the packed-word code
    relies on: masking with ones is a remainder, and joining disjoint fields is a sum. */
module Bits {
  import opened Arith

  function And(a: nat, b: nat): nat {
    if a == 0 || b == 0 then 0
    else 2 * And(a / 2, b / 2) + (if a % 2 == 1 && b % 2 == 1 then 1 else 0)
  }

  function Or(a: nat, b: nat): nat
    decreases a + b
  {
    if a == 0 && b == 0 then 0
    else 2 * Or(a / 2, b / 2) + (if a % 2 == 1 || b % 2 == 1 then 1 else 0)
  }

  function LowBits(a: nat, k: nat): nat {
    if k == 0 then 0 else 2 * LowBits(a / 2, k - 1) + a % 2
  }

  function HighBits(a: nat, k: nat): nat {
    if k == 0 then a else HighBits(a / 2, k - 1)
  }

  lemma {:induction false} SplitBits(a: nat, k: nat)
    ensures LowBits(a, k) < Pow2(k) && a == HighBits(a, k) * Pow2(k) + LowBits(a, k)
  {
    if k > 0 {
      SplitBits(a / 2, k - 1);
      DoubleProduct(HighBits(a, k), Pow2(k - 1));
    }
  }

  lemma {:induction false} AndOnes(a: nat, k: nat)
    ensures And(a, Pow2(k) - 1) == LowBits(a, k)
  {
    if k > 0 {
      AndOnes(a / 2, k - 1);
      if a == 0 { AndOnes(0, k - 1); }
    }
  }

  lemma AndLowMask(a: nat, k: nat)
    ensures And(a, Pow2(k) - 1) == a % Pow2(k)
  {
    AndOnes(a, k);
    SplitBits(a, k);
    DivUnique(a, Pow2(k), HighBits(a, k), LowBits(a, k));
  }

  lemma {:induction false} AndShifted(a: nat, b: nat, k: nat)
    ensures And(a * Pow2(k), b * Pow2(k)) == And(a, b) * Pow2(k)
  {
    if k > 0 {
      AndShifted(a, b, k - 1);
      AndDoubled(a * Pow2(k - 1), b * Pow2(k - 1));
      DoubleProduct(a, Pow2(k - 1));
      DoubleProduct(b, Pow2(k - 1));
      DoubleProduct(And(a, b), Pow2(k - 1));
    }
  }

  lemma DoubleProduct(a: int, p: int)
    ensures a * (2 * p) == 2 * (a * p)
  {
  }

  lemma AndDoubled(x: nat, y: nat)
    ensures And(2 * x, 2 * y) == 2 * And(x, y)
  {
  }

  lemma {:induction false} OrDisjoint(a: nat, b: nat, k: nat)
    requires b < Pow2(k)
    ensures Or(a * Pow2(k), b) == a * Pow2(k) + b
  {
    if k == 0 {
      OrZero(a);
    } else {
      OrDisjoint(a, b / 2, k - 1);
      DoubleProduct(a, Pow2(k - 1));
      OrDoubled(a * Pow2(k - 1), b);
    }
  }

  lemma OrDoubled(x: nat, b: nat)
    ensures Or(2 * x, b) == 2 * Or(x, b / 2) + b % 2
  {
  }

  lemma {:induction false} OrZero(a: nat)
    ensures Or(a, 0) == a
  {
    if a > 0 {
      OrZero(a / 2);
    }
  }

  lemma {:induction false} OrCommutes(a: nat, b: nat)
    ensures Or(a, b) == Or(b, a)
    decreases a + b
  {
    if a + b > 0 {
      OrCommutes(a / 2, b / 2);
    }
  }
}
