/** Table interpolation in 12.20 format: the top 12 bits of the argument choose a segment
    and the low 20 bits are the fraction. The weight of the left neighbour is
    0xFFFFF - fraction, one less than the exact complement. */
module Interpolation {
  import opened Arith
  import opened FixedPoint

  /** `(x & 0xFFF00000) >> 20` on a signed value. */
  function Index(x: Q31): (i: int)
    ensures -0x800 <= i < 0x800
  {
    x / 0x10_0000
  }

  /** `x & 0x000FFFFF` */
  function Fraction(x: Q31): (f: int)
    ensures 0 <= f <= 0xF_FFFF
  {
    x % 0x10_0000
  }

  /** The two weighted neighbours; the weights sum to 0xFFFFF. */
  function Blend(y0: int, y1: int, f: int): int { y0 * (0xF_FFFF - f) + y1 * f }

  // ----- linear interpolation, Q15 and Q7 -----

  function LinearQ15(table: seq<Q15>, x: Q31): Q15
    requires 1 <= |table| <= 0x8000_0000
  {
    if Index(x) >= |table| - 1 then table[|table| - 1]
    else if Index(x) < 0 then table[0]
    else Wrap16(Blend(table[Index(x)], table[Index(x) + 1], Fraction(x)) / 0x10_0000)
  }

  /** The Q7 form tests the sign first and compares an unsigned index. */
  function LinearQ7(table: seq<Q7>, x: Q31): Q7
    requires 1 <= |table| <= 0x1_0000_0000
  {
    if x < 0 then table[0]
    else
      var index := (x / 0x10_0000) % 0x1000;
      if index >= |table| - 1 then table[|table| - 1]
      else
        BlendFits(table[index], table[index + 1], Fraction(x), 0x80);
        var y: Q31 := Blend(table[index], table[index + 1], Fraction(x));
        Wrap8(y / 0x10_0000)
  }

  lemma BlendFits(y0: int, y1: int, f: int, bound: int)
    requires -bound <= y0 < bound && -bound <= y1 < bound && 0 <= f <= 0xF_FFFF
    ensures -bound * 0xF_FFFF <= Blend(y0, y1, f) <= (bound - 1) * 0xF_FFFF
  {
    MulLe(-bound, y0, 0xF_FFFF - f);
    MulLe(y0, bound - 1, 0xF_FFFF - f);
    MulLe(-bound, y1, f);
    MulLe(y1, bound - 1, f);
    assert -bound * (0xF_FFFF - f) + -bound * f == -bound * 0xF_FFFF;
    assert (bound - 1) * (0xF_FFFF - f) + (bound - 1) * f == (bound - 1) * 0xF_FFFF;
  }

  /** The interpolated value without its final cast. */
  function Interpolated(y0: int, y1: int, f: int): int { Blend(y0, y1, f) / 0x10_0000 }

  lemma CastIsHarmless(y0: Q15, y1: Q15, f: int)
    requires 0 <= f <= 0xF_FFFF
    ensures Wrap16(Interpolated(y0, y1, f)) == Interpolated(y0, y1, f)
  {
    BlendFits(y0, y1, f, 0x8000);
  }

  /** On a Q7 table the Q7 form returns what the Q15 form returns. */
  lemma Q7AgreesWithQ15(table: seq<Q7>, x: Q31)
    requires 1 <= |table| <= 0x8000_0000
    ensures LinearQ7(table, x) == LinearQ15(table, x)
  {
    if 0 <= Index(x) < |table| - 1 {
      CastIsHarmless(table[Index(x)], table[Index(x) + 1], Fraction(x));
      BlendFits(table[Index(x)], table[Index(x) + 1], Fraction(x), 0x80);
    }
  }

  lemma BlendStep(y0: Q15, y1: Q15, f: int)
    requires 0 <= f < 0xF_FFFF
    ensures Blend(y0, y1, f + 1) == Blend(y0, y1, f) + (y1 - y0)
  {
  }

  /** At the end of a segment the fraction is all ones, and the left neighbour's weight is
      zero; the next segment starts with the same product. */
  lemma SegmentsJoin(y0: Q15, y1: Q15, y2: Q15)
    ensures Blend(y0, y1, 0xF_FFFF) == Blend(y1, y2, 0)
  {
  }

  /** The table values the outputs on a segment's ends stand for: a positive entry comes
      out one unit low. */
  lemma SegmentStart(y0: Q15, y1: Q15)
    ensures Interpolated(y0, y1, 0) == if y0 > 0 then y0 - 1 else y0
  {
    assert Blend(y0, y1, 0) == 0x10_0000 * y0 - y0;
  }

  predicate NonDecreasing(table: seq<int>) {
    forall i, j :: 0 <= i <= j < |table| ==> table[i] <= table[j]
  }

  /** The step from just below the table into it goes down when the first entry is positive. */
  predicate StartsAtEntry(table: seq<Q15>)
    requires |table| >= 1
  {
    table[0] <= 0 || |table| == 1
  }

  /** One step of the argument moves the output by at most one unit: inside a segment,
      across a segment boundary, into the table from below and out of it above. On a
      non-decreasing table the step is up, except into the table from below. */
  lemma LinearStep(table: seq<Q15>, x: Q31)
    requires 1 <= |table| <= 0x8000_0000 && x < 0x7FFF_FFFF
    ensures Abs(LinearQ15(table, x + 1) - LinearQ15(table, x)) <= 1
    ensures NonDecreasing(table) && (x != -1 || StartsAtEntry(table)) ==>
              LinearQ15(table, x) <= LinearQ15(table, x + 1)
  {
    var n, i, f := |table|, Index(x), Fraction(x);
    NextArgument(x);
    if i + 1 == 0 && f == 0xF_FFFF && n > 1 {
      SegmentStart(table[0], table[1]);
      CastIsHarmless(table[0], table[1], 0);
    } else if 0 <= i < n - 1 {
      var y0, y1 := table[i], table[i + 1];
      CastIsHarmless(y0, y1, f);
      if f < 0xF_FFFF {
        CastIsHarmless(y0, y1, f + 1);
        BlendStep(y0, y1, f);
      } else if i + 1 < n - 1 {
        CastIsHarmless(y1, table[i + 2], 0);
        SegmentsJoin(y0, y1, table[i + 2]);
      } else {
        SegmentsJoin(y0, y1, y1);
        SegmentStart(y1, y1);
      }
    }
  }

  lemma NextArgument(x: Q31)
    requires x < 0x7FFF_FFFF
    ensures Fraction(x) < 0xF_FFFF ==> Index(x + 1) == Index(x) && Fraction(x + 1) == Fraction(x) + 1
    ensures Fraction(x) == 0xF_FFFF ==> Index(x + 1) == Index(x) + 1 && Fraction(x + 1) == 0
  {
  }

  /** So the interpolation is 1-Lipschitz on the whole argument range. */
  lemma {:induction false} LinearLipschitz(table: seq<Q15>, x: Q31, z: Q31)
    requires 1 <= |table| <= 0x8000_0000 && x <= z
    ensures Abs(LinearQ15(table, z) - LinearQ15(table, x)) <= z - x
    decreases z - x
  {
    if x < z {
      LinearLipschitz(table, x, z - 1);
      LinearStep(table, z - 1);
    }
  }

  predicate MonotoneFrom(table: seq<Q15>, low: Q31)
    requires 1 <= |table| <= 0x8000_0000
  {
    forall x: Q31, z: Q31 :: low <= x <= z ==> LinearQ15(table, x) <= LinearQ15(table, z)
  }

  lemma {:induction false} LinearMonotone(table: seq<Q15>, x: Q31, z: Q31)
    requires 1 <= |table| <= 0x8000_0000 && NonDecreasing(table) && x <= z
    requires x >= 0 || StartsAtEntry(table)
    ensures LinearQ15(table, x) <= LinearQ15(table, z)
    decreases z - x
  {
    if x < z {
      LinearMonotone(table, x, z - 1);
      LinearStep(table, z - 1);
    }
  }

  /** A non-decreasing table gives a non-decreasing function on the table's own range; on
      all arguments exactly when its first entry is not positive or is the only one,
      because the segment below the table returns the entry itself and the first segment
      starts one unit lower. */
  lemma LinearMonotoneExactlyWhen(table: seq<Q15>)
    requires 1 <= |table| <= 0x8000_0000 && NonDecreasing(table)
    ensures MonotoneFrom(table, 0)
    ensures MonotoneFrom(table, -0x8000_0000) <==> StartsAtEntry(table)
  {
    forall x: Q31, z: Q31 | 0 <= x <= z ensures LinearQ15(table, x) <= LinearQ15(table, z) {
      LinearMonotone(table, x, z);
    }
    if StartsAtEntry(table) {
      forall x: Q31, z: Q31 | x <= z ensures LinearQ15(table, x) <= LinearQ15(table, z) {
        LinearMonotone(table, x, z);
      }
    } else {
      SegmentStart(table[0], table[1]);
      CastIsHarmless(table[0], table[1], 0);
      assert LinearQ15(table, -1) == table[0];
      assert LinearQ15(table, 0) == table[0] - 1;
    }
  }

  /** The same two laws for the Q7 form. */
  lemma LinearQ7Laws(table: seq<Q7>, x: Q31, z: Q31)
    requires 1 <= |table| <= 0x8000_0000 && x <= z
    ensures Abs(LinearQ7(table, z) - LinearQ7(table, x)) <= z - x
    ensures NonDecreasing(table) && x >= 0 ==> LinearQ7(table, x) <= LinearQ7(table, z)
  {
    Q7AgreesWithQ15(table, x);
    Q7AgreesWithQ15(table, z);
    LinearLipschitz(table, x, z);
    if NonDecreasing(table) && x >= 0 {
      LinearMonotone(table, x, z);
    }
  }

  predicate MonotoneQ7From(table: seq<Q7>, low: Q31)
    requires 1 <= |table| <= 0x8000_0000
  {
    forall x: Q31, z: Q31 :: low <= x <= z ==> LinearQ7(table, x) <= LinearQ7(table, z)
  }

  lemma LinearQ7MonotoneExactlyWhen(table: seq<Q7>)
    requires 1 <= |table| <= 0x8000_0000 && NonDecreasing(table)
    ensures MonotoneQ7From(table, 0)
    ensures MonotoneQ7From(table, -0x8000_0000) <==> StartsAtEntry(table)
  {
    LinearMonotoneExactlyWhen(table);
    forall x: Q31 ensures LinearQ7(table, x) == LinearQ15(table, x) {
      Q7AgreesWithQ15(table, x);
    }
    forall low: Q31 ensures MonotoneQ7From(table, low) <==> MonotoneFrom(table, low) {
      hide LinearQ7, LinearQ15;
    }
  }

  /** The value in 12.20 format that a table stands for inside a segment. */
  function ExactLinear(y0: int, y1: int, f: int): int { y0 * (0x10_0000 - f) + y1 * f }

  /** Inside a segment the result is at most 1/32 above the exact interpolant and less than
      33/32 below it; the ends of the table are extended outwards. */
  lemma LinearQ15Accuracy(table: seq<Q15>, x: Q31)
    requires 1 <= |table| <= 0x8000_0000
    ensures 0 <= Index(x) < |table| - 1 ==>
      var exact := ExactLinear(table[Index(x)], table[Index(x) + 1], Fraction(x));
      -0x10_8000 < 0x10_0000 * LinearQ15(table, x) - exact <= 0x8000
    ensures Index(x) >= |table| - 1 ==> LinearQ15(table, x) == table[|table| - 1]
    ensures Index(x) < 0 ==> LinearQ15(table, x) == table[0]
  {
    if 0 <= Index(x) < |table| - 1 {
      var y0, y1, f := table[Index(x)], table[Index(x) + 1], Fraction(x);
      CastIsHarmless(y0, y1, f);
      assert ExactLinear(y0, y1, f) == Blend(y0, y1, f) + y0;
    }
  }

  // ----- linear interpolation, Q31 -----

  /** The two products, each truncated to the upper 32 bits. */
  function UpperHalf(p: int): int { p / 0x1_0000_0000 }

  function LinearQ31(table: seq<Q31>, x: Q31): Q31
    requires 1 <= |table| <= 0x8000_0000
  {
    if Index(x) >= |table| - 1 then table[|table| - 1]
    else if Index(x) < 0 then table[0]
    else
      var fract := Fraction(x) * 0x800;
      var y := Wrap32(UpperHalf(table[Index(x)] * (0x7FFF_FFFF - fract)));
      Wrap32(Wrap32(y + Wrap32(UpperHalf(table[Index(x) + 1] * fract))) * 2)
  }

  /** The halves sum into [-2^30, 2^30), because the fraction is even and the other weight
      is odd, so the final doubling never overflows. */
  lemma HalvesFit(y0: Q31, y1: Q31, f: int)
    requires 0 <= f <= 0xF_FFFF
    ensures var fract := f * 0x800;
            var a, b := UpperHalf(y0 * (0x7FFF_FFFF - fract)), UpperHalf(y1 * fract);
            -0x4000_0000 <= a <= 0x3FFF_FFFF && -0x4000_0000 <= b <= 0x3FFF_FFFF
            && -0x4000_0000 <= a + b < 0x4000_0000
  {
    var fract := f * 0x800;
    var w := 0x7FFF_FFFF - fract;
    MulLe(-0x8000_0000, y0, w);
    MulLe(y0, 0x7FFF_FFFF, w);
    MulLe(-0x8000_0000, y1, fract);
    MulLe(y1, 0x7FFF_FFFF, fract);
    HalfBounds(y0 * w, w, f * 0x400, f);
    HalfBoundsEven(y1 * fract, fract, f * 0x400);
  }

  lemma HalfBounds(p: int, w: int, h: int, f: int)
    requires h == f * 0x400 && 0 <= f <= 0xF_FFFF && w == 0x7FFF_FFFF - 2 * h
    requires -0x8000_0000 * w <= p <= 0x7FFF_FFFF * w
    ensures -0x4000_0000 + h <= UpperHalf(p) <= 0x3FFF_FFFF - h
  {
  }

  lemma HalfBoundsEven(p: int, fract: int, h: int)
    requires fract == 2 * h && 0 <= h && -0x8000_0000 * fract <= p <= 0x7FFF_FFFF * fract
    ensures -h <= UpperHalf(p) <= h
  {
  }

  /** Inside a segment the result is the doubled sum, above the exact interpolant by at
      most one unit and below it by less than five. */
  lemma LinearQ31Accuracy(table: seq<Q31>, x: Q31)
    requires 1 <= |table| <= 0x8000_0000 && 0 <= Index(x) < |table| - 1
    ensures var y0, y1, fract := table[Index(x)], table[Index(x) + 1], Fraction(x) * 0x800;
            var exact := y0 * (0x8000_0000 - fract) + y1 * fract;
            && LinearQ31(table, x)
                 == 2 * (UpperHalf(y0 * (0x7FFF_FFFF - fract)) + UpperHalf(y1 * fract))
            && -5 * 0x8000_0000 < 0x8000_0000 * LinearQ31(table, x) - exact <= 0x8000_0000
  {
    var y0, y1, fract := table[Index(x)], table[Index(x) + 1], Fraction(x) * 0x800;
    HalvesFit(y0, y1, Fraction(x));
    var a, b := UpperHalf(y0 * (0x7FFF_FFFF - fract)), UpperHalf(y1 * fract);
    Wrap32Unique(a, a, 0);
    Wrap32Unique(b, b, 0);
    Wrap32Unique(a + b, a + b, 0);
    Wrap32Unique((a + b) * 2, (a + b) * 2, 0);
    assert y0 * (0x8000_0000 - fract) == y0 * (0x7FFF_FFFF - fract) + y0;
  }

  /** Beyond the table the nearest end is returned, for every table and argument. */
  lemma LinearQ31Ends(table: seq<Q31>, x: Q31)
    requires 1 <= |table| <= 0x8000_0000
    ensures x >= (|table| - 1) * 0x10_0000 ==> LinearQ31(table, x) == table[|table| - 1]
    ensures x < 0 ==> LinearQ31(table, x) == table[0]
  {
    IndexOrder(x, |table| - 1);
  }

  lemma IndexOrder(x: Q31, n: nat)
    ensures x >= n * 0x10_0000 <==> Index(x) >= n
    ensures x < 0 <==> Index(x) < 0
  {
  }

  // ----- bilinear interpolation -----

  datatype Grid = Grid(numRows: Uint16, numCols: Uint16, data: seq<Q15>)

  predicate OutsideGrid(g: Grid, x: Q31, y: Q31) {
    || Index(x) < 0 || Index(x) > g.numRows - 1
    || Index(y) < 0 || Index(y) > g.numCols - 1
  }

  function Corner(g: Grid, x: Q31, y: Q31): int { Index(x) + g.numCols * Index(y) }

  /** The four reads stay in the table; the guard alone does not say so. */
  predicate NeighboursInTable(g: Grid, x: Q31, y: Q31) {
    0 <= Corner(g, x, y) && Corner(g, x, y) + g.numCols + 1 < |g.data|
  }

  datatype Square = Square(x1: Q15, x2: Q15, y1: Q15, y2: Q15)

  function Neighbours(g: Grid, x: Q31, y: Q31): Square
    requires NeighboursInTable(g, x, y)
  {
    var k := Corner(g, x, y);
    Square(g.data[k], g.data[k + 1], g.data[k + g.numCols], g.data[k + g.numCols + 1])
  }

  predicate Between(q: Square, lo: int, hi: int) {
    lo <= q.x1 <= hi && lo <= q.x2 <= hi && lo <= q.y1 <= hi && lo <= q.y2 <= hi
  }

  function Narrow(p: int): Q31 { Wrap32(p / 0x10) }

  function AccumulateQ15(q: Square, xf: int, yf: int): int {
    Narrow(q.x1 * (0xF_FFFF - xf)) * (0xF_FFFF - yf)
    + Narrow(q.x2 * (0xF_FFFF - yf)) * xf
    + Narrow(q.y1 * (0xF_FFFF - xf)) * yf
    + Narrow(q.y2 * xf) * yf
  }

  function BilinearQ15(g: Grid, x: Q31, y: Q31): Q15
    requires OutsideGrid(g, x, y) || NeighboursInTable(g, x, y)
  {
    if OutsideGrid(g, x, y) then 0
    else Wrap16(AccumulateQ15(Neighbours(g, x, y), Fraction(x), Fraction(y)) / 0x10_0000_0000)
  }

  /** A Q7 value times a weight fits in 32 bits without truncation. */
  function Term7(v: int, w: int): (p: Q31)
    requires -0x80 <= v <= 0x7F && 0 <= w <= 0xF_FFFF
    ensures p == v * w
  {
    MulAbs(v, w, 0x80, 0xF_FFFF);
    v * w
  }

  function AccumulateQ7(q: Square, xf: int, yf: int): int
    requires Between(q, -0x80, 0x7F) && 0 <= xf <= 0xF_FFFF && 0 <= yf <= 0xF_FFFF
  {
    Term7(q.x1, 0xF_FFFF - xf) * (0xF_FFFF - yf)
    + Term7(q.x2, 0xF_FFFF - yf) * xf
    + Term7(q.y1, 0xF_FFFF - xf) * yf
    + Term7(q.y2, yf) * xf
  }

  predicate IsQ7Grid(g: Grid) { forall k :: 0 <= k < |g.data| ==> -0x80 <= g.data[k] < 0x80 }

  function BilinearQ7(g: Grid, x: Q31, y: Q31): Q7
    requires IsQ7Grid(g)
    requires OutsideGrid(g, x, y) || NeighboursInTable(g, x, y)
  {
    if OutsideGrid(g, x, y) then 0
    else Wrap8(AccumulateQ7(Neighbours(g, x, y), Fraction(x), Fraction(y)) / 0x100_0000_0000)
  }

  /** Outside the guard the result is zero. */
  lemma ZeroOutsideGuard(g: Grid, x: Q31, y: Q31)
    requires x < 0 || y < 0 || x >= g.numRows * 0x10_0000 || y >= g.numCols * 0x10_0000
    ensures BilinearQ15(g, x, y) == 0
    ensures IsQ7Grid(g) ==> BilinearQ7(g, x, y) == 0
  {
    IndexOrder(x, g.numRows);
    IndexOrder(y, g.numCols);
  }

  // ----- the guard against the grid -----

  /** The documented table: element (c, r) at c + r * numCols, in numRows * numCols entries. */
  predicate Full(g: Grid) { |g.data| == g.numRows * g.numCols }

  /** The arguments' cell has all four corners in the grid; x runs along a row. */
  predicate CellInGrid(g: Grid, x: Q31, y: Q31) {
    && 0 <= Index(x) && Index(x) + 1 < g.numCols
    && 0 <= Index(y) && Index(y) + 1 < g.numRows
  }

  function Least(a: int, b: int): int { if a < b then a else b }

  /** The argument at a grid line; only the first 2048 lines have one. */
  function Line(k: int): (x: Q31)
    requires 0 <= k < 0x800
    ensures Index(x) == k && Fraction(x) == 0
  {
    k * 0x10_0000
  }

  predicate GuardReadsInTable(g: Grid) {
    forall x: Q31, y: Q31 :: !OutsideGrid(g, x, y) ==> NeighboursInTable(g, x, y)
  }

  /** The guard compares x with the rows and y with the columns, so what it admits lies in the
      table only when rows and columns together leave room. */
  lemma GuardReadsInTableExactlyWhen(g: Grid)
    requires Full(g)
    ensures GuardReadsInTable(g) <==>
      || g.numRows == 0 || g.numCols == 0
      || Least(g.numRows, 0x800) + g.numCols * Least(g.numCols, 0x800) < g.numRows * g.numCols
  {
    var i, j := Least(g.numRows, 0x800) - 1, Least(g.numCols, 0x800) - 1;
    if g.numRows > 0 && g.numCols > 0 {
      assert g.numCols * (j + 1) == g.numCols * j + g.numCols;
      if GuardReadsInTable(g) {
        assert !OutsideGrid(g, Line(i), Line(j));
        MulLeLeft(g.numCols, 0, j);
      }
      if i + 1 + g.numCols * (j + 1) < g.numRows * g.numCols {
        forall x: Q31, y: Q31 | !OutsideGrid(g, x, y) ensures NeighboursInTable(g, x, y) {
          MulLeLeft(g.numCols, Index(y), j);
          MulLeLeft(g.numCols, 0, Index(y));
        }
      }
    }
  }

  predicate GuardAdmitsOnlyCells(g: Grid) {
    forall x: Q31, y: Q31 :: !OutsideGrid(g, x, y) ==> CellInGrid(g, x, y)
  }

  predicate GuardAdmitsAllCells(g: Grid) {
    forall x: Q31, y: Q31 :: CellInGrid(g, x, y) ==> !OutsideGrid(g, x, y)
  }

  /** The guard lets only cells through just for empty grids and for grids too large for the
      arguments to reach the edge. */
  lemma GuardAdmitsOnlyCellsExactlyWhen(g: Grid)
    ensures GuardAdmitsOnlyCells(g) <==>
      g.numRows == 0 || g.numCols == 0 || (g.numRows > 0x800 && g.numCols > 0x800)
  {
    if GuardAdmitsOnlyCells(g) && g.numRows > 0 && g.numCols > 0 {
      var x, y := Line(Least(g.numRows, 0x800) - 1), Line(Least(g.numCols, 0x800) - 1);
      assert !OutsideGrid(g, x, y);
    }
  }

  /** Every cell a grid of these dimensions has passes the guard. */
  predicate CellsPassGuard(rows: int, cols: int) {
    rows <= 1 || cols <= 1 || (Least(cols - 1, 0x800) <= rows && Least(rows - 1, 0x800) <= cols)
  }

  /** A cell of a grid that the guard turns away. */
  lemma CellTurnedAway(g: Grid) returns (x: Q31, y: Q31)
    requires !CellsPassGuard(g.numRows, g.numCols)
    ensures CellInGrid(g, x, y) && OutsideGrid(g, x, y) && Fraction(x) == 0 && Fraction(y) == 0
  {
    if Least(g.numCols - 1, 0x800) > g.numRows {
      x, y := Line(g.numRows), Line(0);
    } else {
      x, y := Line(0), Line(g.numCols);
    }
  }

  lemma GuardAdmitsAllCellsExactlyWhen(g: Grid)
    ensures GuardAdmitsAllCells(g) <==> CellsPassGuard(g.numRows, g.numCols)
  {
    if !CellsPassGuard(g.numRows, g.numCols) {
      var x, y := CellTurnedAway(g);
    }
  }

  /** Position k of the table is the element in column c of row r. */
  predicate IsElement(g: Grid, k: int, c: int, r: int)
    requires g.numCols > 0
  {
    0 <= k < |g.data| && k % g.numCols == c && k / g.numCols == r
  }

  predicate ReadsAreCorners(g: Grid, x: Q31, y: Q31)
    requires g.numCols > 0
  {
    var k, c, r := Corner(g, x, y), Index(x), Index(y);
    && IsElement(g, k, c, r) && IsElement(g, k + 1, c + 1, r)
    && IsElement(g, k + g.numCols, c, r + 1) && IsElement(g, k + g.numCols + 1, c + 1, r + 1)
  }

  lemma ElementAt(g: Grid, c: int, r: int)
    requires Full(g) && 0 <= c < g.numCols && 0 <= r < g.numRows
    ensures IsElement(g, c + r * g.numCols, c, r)
  {
    DivUnique(c + r * g.numCols, g.numCols, r, c);
    MulLe(r + 1, g.numRows, g.numCols);
    MulLe(0, r, g.numCols);
  }

  lemma RowBelow(r: int, n: int)
    ensures (r + 1) * n == r * n + n
  {
  }

  lemma ElementInside(g: Grid, k: int, c: int, r: int)
    requires Full(g) && g.numCols > 0 && IsElement(g, k, c, r)
    ensures 0 <= c < g.numCols && 0 <= r < g.numRows
  {
    assert k == g.numCols * r + c;
    if r >= g.numRows { MulLeLeft(g.numCols, g.numRows, r); }
    if r < 0 { MulLeLeft(g.numCols, r, -1); }
  }

  /** The four reads are the corners of the arguments' cell exactly when the grid has that
      cell; past the last column they come from the next row. */
  lemma ReadsAreCornersExactlyWhen(g: Grid, x: Q31, y: Q31)
    requires Full(g) && g.numCols > 0
    ensures ReadsAreCorners(g, x, y) <==> CellInGrid(g, x, y)
  {
    hide IsElement, Full;
    var c, r := Index(x), Index(y);
    RowBelow(r, g.numCols);
    assert Corner(g, x, y) == c + r * g.numCols;
    if CellInGrid(g, x, y) {
      ElementAt(g, c, r);
      ElementAt(g, c + 1, r);
      ElementAt(g, c, r + 1);
      ElementAt(g, c + 1, r + 1);
    }
    if ReadsAreCorners(g, x, y) {
      ElementInside(g, Corner(g, x, y), c, r);
      ElementInside(g, Corner(g, x, y) + g.numCols + 1, c + 1, r + 1);
    }
  }

  /** Bilinear combination with left weights `m - xf`, `m - yf`. */
  function Weighted(q: Square, m: int, xf: int, yf: int): int {
    q.x1 * ((m - xf) * (m - yf)) + q.x2 * (xf * (m - yf)) + q.y1 * ((m - xf) * yf) + q.y2 * (xf * yf)
  }

  /** The combination stays between the extreme neighbours, scaled by the weight sum. */
  lemma WeightedHull(q: Square, m: int, xf: int, yf: int, lo: int, hi: int)
    requires 0 <= xf <= m && 0 <= yf <= m && Between(q, lo, hi)
    ensures lo * (m * m) <= Weighted(q, m, xf, yf) <= hi * (m * m)
  {
    var a, b, c, d := (m - xf) * (m - yf), xf * (m - yf), (m - xf) * yf, xf * yf;
    MulLe(0, m - xf, m - yf);
    MulLe(0, xf, m - yf);
    MulLe(0, m - xf, yf);
    MulLe(0, xf, yf);
    assert a + b + c + d == m * m;
    CombinationHull(q, a, b, c, d, lo, hi);
  }

  lemma CombinationHull(q: Square, a: int, b: int, c: int, d: int, lo: int, hi: int)
    requires a >= 0 && b >= 0 && c >= 0 && d >= 0 && Between(q, lo, hi)
    ensures lo * (a + b + c + d) <= q.x1 * a + q.x2 * b + q.y1 * c + q.y2 * d <= hi * (a + b + c + d)
  {
    MulLe(lo, q.x1, a);
    MulLe(lo, q.x2, b);
    MulLe(lo, q.y1, c);
    MulLe(lo, q.y2, d);
    MulLe(q.x1, hi, a);
    MulLe(q.x2, hi, b);
    MulLe(q.y1, hi, c);
    MulLe(q.y2, hi, d);
    assert lo * (a + b + c + d) == lo * a + lo * b + lo * c + lo * d;
    assert hi * (a + b + c + d) == hi * a + hi * b + hi * c + hi * d;
  }

  /** Weights one short of the exact ones move the combination by less than 2^21 times the
      largest magnitude. */
  lemma ShortWeights(q: Square, xf: int, yf: int, bound: int)
    requires 0 <= xf <= 0xF_FFFF && 0 <= yf <= 0xF_FFFF && Between(q, -bound, bound)
    ensures Abs(Weighted(q, 0x10_0000, xf, yf) - Weighted(q, 0xF_FFFF, xf, yf)) <= bound * 0x1F_FFFF
  {
    hide Weighted;
    var u, v := 0xF_FFFF - xf, 0xF_FFFF - yf;
    ShortWeightsDifference(q, xf, yf, u, v);
    CombinationHull(q, u + v + 1, xf, yf, 0, -bound, bound);
  }

  lemma ShortWeightsDifference(q: Square, xf: int, yf: int, u: int, v: int)
    requires u == 0xF_FFFF - xf && v == 0xF_FFFF - yf
    ensures Weighted(q, 0x10_0000, xf, yf) - Weighted(q, 0xF_FFFF, xf, yf)
         == q.x1 * (u + v + 1) + q.x2 * xf + q.y1 * yf
  {
    assert (0x10_0000 - xf) * (0x10_0000 - yf) == u * v + (u + v + 1);
    assert xf * (0x10_0000 - yf) == xf * v + xf;
    assert (0x10_0000 - xf) * yf == u * yf + yf;
    Distribute(q.x1, u * v, u + v + 1);
    Distribute(q.x2, xf * v, xf);
    Distribute(q.y1, u * yf, yf);
  }

  lemma Distribute(a: int, b: int, c: int)
    ensures a * (b + c) == a * b + a * c
  {
  }

  lemma NarrowValue(v: Q15, w: int)
    requires 0 <= w <= 0xF_FFFF
    ensures 0 <= v * w - 0x10 * Narrow(v * w) <= 15
  {
    MulAbs(v, w, 0x8000, 0xF_FFFF);
    Wrap32Unique(v * w / 0x10, v * w / 0x10, 0);
  }

  lemma Loss(v: int, w: int, n: int, z: int)
    requires 0 <= v * w - 0x10 * n <= 15 && 0 <= z
    ensures 0 <= v * (w * z) - 0x10 * (n * z) <= 15 * z
  {
    var r := v * w - 0x10 * n;
    MulLe(r, 15, z);
    MulLe(0, r, z);
    assert r * z == v * (w * z) - 0x10 * (n * z) by {
      assert r * z == (v * w) * z - (0x10 * n) * z;
      assert (v * w) * z == v * (w * z);
    }
  }

  /** The accumulator is a sixteenth of the combination up to the four truncations. */
  lemma AccumulateQ15Value(q: Square, xf: int, yf: int)
    requires 0 <= xf <= 0xF_FFFF && 0 <= yf <= 0xF_FFFF
    ensures 0 <= Weighted(q, 0xF_FFFF, xf, yf) - 0x10 * AccumulateQ15(q, xf, yf) <= 45 * 0xF_FFFF
  {
    var u, v := 0xF_FFFF - xf, 0xF_FFFF - yf;
    NarrowValue(q.x1, u);
    NarrowValue(q.x2, v);
    NarrowValue(q.y1, u);
    NarrowValue(q.y2, xf);
    Loss(q.x1, u, Narrow(q.x1 * u), v);
    Loss(q.x2, v, Narrow(q.x2 * v), xf);
    Loss(q.y1, u, Narrow(q.y1 * u), yf);
    Loss(q.y2, xf, Narrow(q.y2 * xf), yf);
    assert v * xf == xf * v;
  }

  /** What the final shift makes of the combination w, of which the accumulator keeps all
      but `loss`, when the exact value differs from w by at most `short`. */
  lemma ShiftedResult(w: int, loss: int, exact: int, short: int, r: int, lo: int, hi: int)
    requires 0x100_0000_0000 * r <= w - loss < 0x100_0000_0000 * r + 0x100_0000_0000
    requires 0 <= loss <= 45 * 0xF_FFFF && Abs(exact - w) <= short
    requires lo * (0xF_FFFF * 0xF_FFFF) <= w <= hi * (0xF_FFFF * 0xF_FFFF)
    requires -0x8000 <= lo && hi <= 0x7FFF && lo <= 0x7FFF && hi >= -0x8000
    ensures lo - 1 <= r <= hi
    ensures -0x100_0000_0000 - 45 * 0xF_FFFF - short < 0x100_0000_0000 * r - exact <= short
  {
  }

  /** No intermediate overflows, the result lies between the smallest neighbour minus one
      and the largest, and it is at most 9/8 below and 1/16 above the exact value. */
  lemma BilinearQ15Accuracy(g: Grid, x: Q31, y: Q31, lo: int, hi: int)
    requires !OutsideGrid(g, x, y) && NeighboursInTable(g, x, y)
    requires -0x8000 <= lo && hi <= 0x7FFF && Between(Neighbours(g, x, y), lo, hi)
    ensures Abs(AccumulateQ15(Neighbours(g, x, y), Fraction(x), Fraction(y))) < 0x80_0000_0000_0000
    ensures lo - 1 <= BilinearQ15(g, x, y) <= hi
    ensures var exact := Weighted(Neighbours(g, x, y), 0x10_0000, Fraction(x), Fraction(y));
            -0x120_0000_0000 < 0x100_0000_0000 * BilinearQ15(g, x, y) - exact <= 0x10_0000_0000
  {
    hide Weighted, AccumulateQ15, Neighbours;
    var q, xf, yf := Neighbours(g, x, y), Fraction(x), Fraction(y);
    var acc := AccumulateQ15(q, xf, yf);
    var w, exact := Weighted(q, 0xF_FFFF, xf, yf), Weighted(q, 0x10_0000, xf, yf);
    var r := acc / 0x10_0000_0000;
    AccumulateQ15Value(q, xf, yf);
    WeightedHull(q, 0xF_FFFF, xf, yf, lo, hi);
    WeightedHull(q, 0xF_FFFF, xf, yf, -0x8000, 0x7FFF);
    ShortWeights(q, xf, yf, 0x8000);
    ShiftedResultQ15(w, acc, exact, r, lo, hi);
  }

  lemma ShiftedResultQ15(w: int, acc: int, exact: int, r: int, lo: int, hi: int)
    requires r == acc / 0x10_0000_0000
    requires 0 <= w - 0x10 * acc <= 45 * 0xF_FFFF && Abs(exact - w) <= 0x8000 * 0x1F_FFFF
    requires lo * (0xF_FFFF * 0xF_FFFF) <= w <= hi * (0xF_FFFF * 0xF_FFFF)
    requires -0x8000 <= lo <= hi <= 0x7FFF
    ensures Abs(acc) < 0x80_0000_0000_0000 && Wrap16(r) == r && lo - 1 <= r <= hi
    ensures -0x120_0000_0000 < 0x100_0000_0000 * r - exact <= 0x10_0000_0000
  {
    ShiftedResult(w, w - 0x10 * acc, exact, 0x8000 * 0x1F_FFFF, r, lo, hi);
  }

  lemma AccumulateQ7Value(q: Square, xf: int, yf: int)
    requires Between(q, -0x80, 0x7F) && 0 <= xf <= 0xF_FFFF && 0 <= yf <= 0xF_FFFF
    ensures AccumulateQ7(q, xf, yf) == Weighted(q, 0xF_FFFF, xf, yf)
  {
    var u, v := 0xF_FFFF - xf, 0xF_FFFF - yf;
    assert q.x1 * u * v == q.x1 * (u * v);
    assert q.x2 * v * xf == q.x2 * (xf * v);
    assert q.y1 * u * yf == q.y1 * (u * yf);
    assert q.y2 * yf * xf == q.y2 * (xf * yf);
  }

  lemma BilinearQ7Accuracy(g: Grid, x: Q31, y: Q31, lo: int, hi: int)
    requires IsQ7Grid(g)
    requires !OutsideGrid(g, x, y) && NeighboursInTable(g, x, y)
    requires -0x80 <= lo && hi <= 0x7F && Between(Neighbours(g, x, y), lo, hi)
    ensures lo - 1 <= BilinearQ7(g, x, y) <= hi
    ensures var exact := Weighted(Neighbours(g, x, y), 0x10_0000, Fraction(x), Fraction(y));
            -0x101_0000_0000 < 0x100_0000_0000 * BilinearQ7(g, x, y) - exact <= 0x1000_0000
  {
    hide Weighted, AccumulateQ7, Neighbours, IsQ7Grid;
    var q, xf, yf := Neighbours(g, x, y), Fraction(x), Fraction(y);
    assert Between(q, -0x80, 0x7F);
    var w, exact := AccumulateQ7(q, xf, yf), Weighted(q, 0x10_0000, xf, yf);
    AccumulateQ7Value(q, xf, yf);
    WeightedHull(q, 0xF_FFFF, xf, yf, lo, hi);
    ShortWeights(q, xf, yf, 0x80);
    ShiftedResultQ7(w, exact, w / 0x100_0000_0000, lo, hi);
  }

  lemma ShiftedResultQ7(w: int, exact: int, r: int, lo: int, hi: int)
    requires r == w / 0x100_0000_0000 && Abs(exact - w) <= 0x80 * 0x1F_FFFF
    requires lo * (0xF_FFFF * 0xF_FFFF) <= w <= hi * (0xF_FFFF * 0xF_FFFF)
    requires -0x80 <= lo <= hi <= 0x7F
    ensures Wrap8(r) == r && lo - 1 <= r <= hi
    ensures -0x101_0000_0000 < 0x100_0000_0000 * r - exact <= 0x1000_0000
  {
    ShiftedResult(w, 0, exact, 0x80 * 0x1F_FFFF, r, lo, hi);
  }

  // ----- the grid's own cells -----

  lemma CellInTable(g: Grid, x: Q31, y: Q31)
    requires Full(g) && CellInGrid(g, x, y)
    ensures NeighboursInTable(g, x, y)
  {
    ReadsAreCornersExactlyWhen(g, x, y);
  }

  /** The documented interpolant of the cell, times 2^40. */
  function CellValue(g: Grid, x: Q31, y: Q31): int
    requires Full(g) && CellInGrid(g, x, y)
  {
    CellInTable(g, x, y);
    Weighted(Neighbours(g, x, y), 0x10_0000, Fraction(x), Fraction(y))
  }

  predicate NearQ15(g: Grid, x: Q31, y: Q31)
    requires Full(g) && CellInGrid(g, x, y)
  {
    CellInTable(g, x, y);
    -0x120_0000_0000 < 0x100_0000_0000 * BilinearQ15(g, x, y) - CellValue(g, x, y) <= 0x10_0000_0000
  }

  predicate NearQ7(g: Grid, x: Q31, y: Q31)
    requires IsQ7Grid(g) && Full(g) && CellInGrid(g, x, y)
  {
    CellInTable(g, x, y);
    -0x101_0000_0000 < 0x100_0000_0000 * BilinearQ7(g, x, y) - CellValue(g, x, y) <= 0x1000_0000
  }

  ghost predicate RightOnCellsQ15(rows: Uint16, cols: Uint16) {
    forall g: Grid, x: Q31, y: Q31 ::
      g.numRows == rows && g.numCols == cols && Full(g) && CellInGrid(g, x, y) ==> NearQ15(g, x, y)
  }

  ghost predicate RightOnCellsQ7(rows: Uint16, cols: Uint16) {
    forall g: Grid, x: Q31, y: Q31 ::
      g.numRows == rows && g.numCols == cols && IsQ7Grid(g) && Full(g) && CellInGrid(g, x, y) ==> NearQ7(g, x, y)
  }

  /** A grid of twos. */
  function Twos(rows: Uint16, cols: Uint16): (g: Grid)
    ensures g.numRows == rows && g.numCols == cols && Full(g) && IsQ7Grid(g)
    ensures forall k :: 0 <= k < |g.data| ==> g.data[k] == 2
  {
    MulLe(0, rows, cols);
    Grid(rows, cols, seq(rows * cols, _ => 2))
  }

  /** A turned-away cell of twos comes out as zero. */
  lemma TurnedAwayIsWrong(rows: Uint16, cols: Uint16)
    requires !CellsPassGuard(rows, cols)
    ensures !RightOnCellsQ15(rows, cols) && !RightOnCellsQ7(rows, cols)
  {
    var g := Twos(rows, cols);
    var x, y := CellTurnedAway(g);
    CellInTable(g, x, y);
    assert Neighbours(g, x, y) == Square(2, 2, 2, 2);
    assert CellValue(g, x, y) == 2 * 0x100_0000_0000;
    assert !NearQ15(g, x, y) && !NearQ7(g, x, y);
  }

  /** For grids of given dimensions, the Q15 form is within (-9/8, 1/16] of the documented
      interpolant on every cell of every table exactly when every cell passes the guard. */
  lemma BilinearQ15RightExactlyWhen(rows: Uint16, cols: Uint16)
    ensures RightOnCellsQ15(rows, cols) <==> CellsPassGuard(rows, cols)
  {
    if CellsPassGuard(rows, cols) {
      forall g: Grid, x: Q31, y: Q31 |
        g.numRows == rows && g.numCols == cols && Full(g) && CellInGrid(g, x, y)
        ensures NearQ15(g, x, y)
      {
        hide Weighted, Neighbours;
        GuardAdmitsAllCellsExactlyWhen(g);
        CellInTable(g, x, y);
        BilinearQ15Accuracy(g, x, y, -0x8000, 0x7FFF);
      }
    } else {
      TurnedAwayIsWrong(rows, cols);
    }
  }

  lemma BilinearQ7RightExactlyWhen(rows: Uint16, cols: Uint16)
    ensures RightOnCellsQ7(rows, cols) <==> CellsPassGuard(rows, cols)
  {
    if CellsPassGuard(rows, cols) {
      forall g: Grid, x: Q31, y: Q31 |
        g.numRows == rows && g.numCols == cols && IsQ7Grid(g) && Full(g) && CellInGrid(g, x, y)
        ensures NearQ7(g, x, y)
      {
        hide Weighted;
        GuardAdmitsAllCellsExactlyWhen(g);
        CellInTable(g, x, y);
        BilinearQ7Accuracy(g, x, y, -0x80, 0x7F);
      }
    } else {
      TurnedAwayIsWrong(rows, cols);
    }
  }
}
