/** Facts about products and rounding division that the solver does not find unaided. */
module Arith {

  lemma MulLe(a: int, b: int, c: int)
    requires a <= b && 0 <= c
    ensures a * c <= b * c
  {
    assert (b - a) * c >= 0;
  }

  lemma MulLeLeft(c: int, a: int, b: int)
    requires a <= b && 0 <= c
    ensures c * a <= c * b
  {
    MulLe(a, b, c);
  }

  /** A product is bounded by the product of the bounds of its factors. */
  lemma MulAbs(x: int, y: int, bx: int, by_: int)
    requires -bx <= x <= bx && -by_ <= y <= by_
    ensures -(bx * by_) <= x * y <= bx * by_
  {
    assert (bx - x) * (by_ - y) + (bx + x) * (by_ + y) >= 0 by {
      MulLe(0, bx - x, by_ - y);
      MulLe(0, bx + x, by_ + y);
    }
    assert (bx - x) * (by_ + y) + (bx + x) * (by_ - y) >= 0 by {
      MulLe(0, bx - x, by_ + y);
      MulLe(0, bx + x, by_ - y);
    }
    assert (bx - x) * (by_ - y) + (bx + x) * (by_ + y) == 2 * (bx * by_) + 2 * (x * y);
    assert (bx - x) * (by_ + y) + (bx + x) * (by_ - y) == 2 * (bx * by_) - 2 * (x * y);
  }

  lemma SquareLe(x: int, b: int)
    requires -b <= x <= b
    ensures 0 <= x * x <= b * b
  {
    MulAbs(x, x, b, b);
    if x < 0 { MulLe(x, 0, -x); } else { MulLe(0, x, x); }
  }

  lemma DivUnique(x: int, m: int, q: int, r: int)
    requires 0 <= r < m && x == q * m + r
    ensures x / m == q && x % m == r
  {
    var k := x / m - q;
    assert x == m * (x / m) + x % m;
    assert m * (x / m) - q * m == k * m;
    if k > 0 { MulLe(1, k, m); }
    if k < 0 { MulLe(k, -1, m); }
  }

  function Pow2(k: nat): (p: nat)
    ensures p >= 1
  {
    if k == 0 then 1 else 2 * Pow2(k - 1)
  }

  lemma Pow2Add(a: nat, b: nat)
    ensures Pow2(a) * Pow2(b) == Pow2(a + b)
  {
    if a > 0 {
      Pow2Add(a - 1, b);
      assert Pow2(a) * Pow2(b) == 2 * (Pow2(a - 1) * Pow2(b));
    }
  }

  lemma Pow2Values()
    ensures Pow2(8) == 0x100 && Pow2(16) == 0x1_0000 && Pow2(24) == 0x100_0000
    ensures Pow2(30) == 0x4000_0000 && Pow2(31) == 0x8000_0000
  {
    assert Pow2(8) == 0x100;
    assert Pow2(16) == 0x1_0000;
    assert Pow2(24) == 0x100_0000;
  }
}
