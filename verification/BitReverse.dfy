/** The software bit reversal. The loop stops when the remaining value is zero, carrying
    stale bits above the reversed ones; the last shift pushes them out of the word. */
module BitReverse {

  predicate Bit(x: bv32, i: bv32)
    requires i < 32
  {
    (x >> i) & 1 == 1
  }

  /** Bit i of r is bit 31-i of v. */
  ghost predicate IsReverse(v: bv32, r: bv32) {
    forall i: bv32 :: i < 32 ==> (Bit(r, i) <==> Bit(v, 31 - i))
  }

  /** The loop state after 31 - s iterations: what is left of the value, and the low bits of
      the result; nothing is said about the stale bits above them. */
  ghost predicate Reversing(v: bv32, left: bv32, result: bv32, s: bv32) {
    && s <= 31
    && left == v >> (32 - s)
    && forall j: bv32 :: j <= 31 - s ==> (Bit(result, j) <==> Bit(v, 31 - s - j))
  }

  method Rbit(value: bv32) returns (result: bv32)
    ensures IsReverse(value, result)
  {
    hide Reversing, IsReverse, Bit;
    var s: bv32 := 31;
    var left := value;
    result := left;
    left := left >> 1;
    Start(value);
    while left != 0
      invariant Reversing(value, left, result, s) && s <= 31
      decreases left
    {
      Continue(value, left, result, s);
      HalfIsLess(left);
      result := result << 1;
      result := result | (left & 1);
      s := s - 1;
      left := left >> 1;
    }
    Finish(value, result, s);
    result := result << s;
  }

  lemma Start(v: bv32)
    ensures Reversing(v, v >> 1, v, 31)
  {
  }

  lemma Continue(v: bv32, left: bv32, result: bv32, s: bv32)
    requires Reversing(v, left, result, s) && left != 0
    ensures 1 <= s <= 31
    ensures Reversing(v, left >> 1, (result << 1) | (left & 1), s - 1)
  {
    hide Bit;
    ShiftsLeft(v, s);
    NextLeft(v, s);
    var r := (result << 1) | (left & 1);
    forall j: bv32 | j <= 32 - s ensures Bit(r, j) <==> Bit(v, 32 - s - j) {
      NextBit(v, left, result, s, j);
    }
  }

  lemma HalfIsLess(x: bv32)
    requires x != 0
    ensures (x >> 1) < x
  {
  }

  lemma ShiftsLeft(v: bv32, s: bv32)
    requires s <= 31 && v >> (32 - s) != 0
    ensures 1 <= s
  {
  }

  lemma NextLeft(v: bv32, s: bv32)
    requires 1 <= s <= 31
    ensures (v >> (32 - s)) >> 1 == v >> (33 - s)
  {
  }

  lemma NextBit(v: bv32, left: bv32, result: bv32, s: bv32, j: bv32)
    requires Reversing(v, left, result, s) && 1 <= s && j <= 32 - s
    ensures Bit((result << 1) | (left & 1), j) <==> Bit(v, 32 - s - j)
  {
    hide Bit;
    ShiftedIn(result, left, j);
    if j == 0 {
      TopOfLeft(v, s);
    } else {
      assert Bit(result, j - 1) <==> Bit(v, 31 - s - (j - 1));
    }
  }

  lemma ShiftedIn(result: bv32, left: bv32, j: bv32)
    requires j < 32
    ensures Bit((result << 1) | (left & 1), j) <==> if j == 0 then Bit(left, 0) else Bit(result, j - 1)
  {
  }

  lemma TopOfLeft(v: bv32, s: bv32)
    requires 1 <= s <= 31
    ensures Bit(v >> (32 - s), 0) <==> Bit(v, 32 - s)
  {
  }

  /** The last shift drops exactly the stale bits and fills with the zeros that the
      exhausted value stands for. */
  lemma Finish(v: bv32, result: bv32, s: bv32)
    requires Reversing(v, 0, result, s)
    ensures IsReverse(v, result << s)
  {
    var r := result << s;
    forall i: bv32 | i < 32 ensures Bit(r, i) <==> Bit(v, 31 - i) {
      ShiftedUp(result, s, i);
      if i < s { NoHighBits(v, s, i); }
    }
  }

  lemma ShiftedUp(result: bv32, s: bv32, i: bv32)
    requires s <= 31 && i < 32
    ensures Bit(result << s, i) <==> i >= s && Bit(result, i - s)
  {
  }

  lemma NoHighBits(v: bv32, s: bv32, i: bv32)
    requires s <= 31 && i < s && v >> (32 - s) == 0
    ensures !Bit(v, 31 - i)
  {
  }

  lemma {:induction false} LowBitsAgree(x: bv32, y: bv32, n: bv32)
    requires n <= 32 && forall i: bv32 :: i < n ==> (Bit(x, i) <==> Bit(y, i))
    ensures x << (32 - n) == y << (32 - n)
    decreases n
  {
    if n > 0 {
      LowBitsAgree(x, y, n - 1);
      assert Bit(x, n - 1) <==> Bit(y, n - 1);
      OneMoreBit(x, y, n);
    }
  }

  lemma OneMoreBit(x: bv32, y: bv32, n: bv32)
    requires 1 <= n <= 32 && x << (33 - n) == y << (33 - n)
    requires Bit(x, n - 1) <==> Bit(y, n - 1)
    ensures x << (32 - n) == y << (32 - n)
  {
  }

  /** The bit law determines the result. */
  lemma ReverseUnique(v: bv32, r: bv32, r': bv32)
    requires IsReverse(v, r) && IsReverse(v, r')
    ensures r == r'
  {
    LowBitsAgree(r, r', 32);
  }

  /** Reversing twice gives the value back. */
  lemma ReverseInvolution(v: bv32, r: bv32, t: bv32)
    requires IsReverse(v, r) && IsReverse(r, t)
    ensures t == v
  {
    forall i: bv32 | i < 32 ensures Bit(v, i) <==> Bit(t, i) {
      assert Bit(r, 31 - i) <==> Bit(v, 31 - (31 - i));
    }
    LowBitsAgree(v, t, 32);
  }
}
