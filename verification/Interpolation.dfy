/**
 * Table interpolation on 12.20 inputs: 12 bits of index, 20 bits of fraction. The weights of two neighbours sum to
 * 2^20 - 1 while the result is divided by 2^20, and everything below follows that shortfall through.
 */
module Interpolation {
  import opened Bits
  import opened FixedPoint

  /** Bitwise "and" of a signed word with a mask. */
  function And32(x: q31, mask: uint32): q31
  {
    ToInt32(And(ToUint32(x), mask))
  }

  function Index(x: q31): int
  {
    And32(x, 0xFFF0_0000) / 0x10_0000
  }

  function Fraction(x: q31): int
  {
    And32(x, 0x000F_FFFF)
  }

  /** The masks split an input into the floor of x / 2^20 and the rest, for negative inputs too. */
  lemma IndexAndFraction(x: q31)
    ensures Index(x) == x / 0x10_0000 && Fraction(x) == x % 0x10_0000
    ensures -0x800 <= Index(x) < 0x800 && 0 <= Fraction(x) <= 0xF_FFFF
  {
    hide Index, Fraction;
    IndexIsFloor(x);
    FractionIsRest(x);
  }

  lemma IndexIsFloor(x: q31)
    ensures Index(x) == x / 0x10_0000 && -0x800 <= Index(x) < 0x800
  {
    hide And, LowBits, Pow2, ToUint32;
    Pow2Values();
    var u := ToUint32(x);
    AndHighMask(u, 32, 20);
    LowBitsIsMod(u, 20);
    SameLowBits(x);
    RoundedWord(x);
  }

  lemma FractionIsRest(x: q31)
    ensures Fraction(x) == x % 0x10_0000 && 0 <= Fraction(x) <= 0xF_FFFF
  {
    hide And, LowBits, Pow2, ToUint32, ToInt32;
    Pow2Values();
    var u := ToUint32(x);
    AndLowMask(u, 20);
    LowBitsIsMod(u, 20);
    SameLowBits(x);
    Fits32(x % 0x10_0000);
  }

  lemma SameLowBits(x: q31)
    ensures ToUint32(x) % 0x10_0000 == x % 0x10_0000
  {
  }

  /** Clearing the low bits of the unsigned word rounds the signed value down. */
  lemma RoundedWord(x: q31)
    ensures ToInt32(ToUint32(x) - x % 0x10_0000) == x - x % 0x10_0000
  {
  }

  // ---------------------------------------------------------------- one cell

  /** The weighted sum of two neighbours. */
  function Weighted(y0: int, y1: int, fract: int): int
  {
    y0 * (0xF_FFFF - fract) + y1 * fract
  }

  function Blend(y0: int, y1: int, fract: int): int
  {
    Weighted(y0, y1, fract) / 0x10_0000
  }

  /** What the interpolation returns exactly on a table point: positive values come out one low. */
  function Knot(y: int): int
  {
    if y > 0 then y - 1 else y
  }

  /** A weighted sum lies between the two values, each times the total weight. */
  lemma WeightedBetween(y0: int, y1: int, fract: int, lo: int, hi: int)
    requires 0 <= fract <= 0xF_FFFF && lo <= y0 <= hi && lo <= y1 <= hi
    ensures lo * 0xF_FFFF <= Weighted(y0, y1, fract) <= hi * 0xF_FFFF
  {
    var w := 0xF_FFFF - fract;
    MulOrder(w, lo, y0);
    MulOrder(w, y0, hi);
    MulOrder(fract, lo, y1);
    MulOrder(fract, y1, hi);
    assert w * lo + fract * lo == lo * 0xF_FFFF && w * hi + fract * hi == hi * 0xF_FFFF;
  }

  lemma BlendBetween(y0: int, y1: int, fract: int, lo: int, hi: int)
    requires 0 <= fract <= 0xF_FFFF && lo <= y0 <= hi && lo <= y1 <= hi
    requires -0x8000 <= lo && hi < 0x8000
    ensures Knot(lo) <= Blend(y0, y1, fract) <= Knot(hi)
  {
    WeightedBetween(y0, y1, fract, lo, hi);
  }

  lemma BlendEnds(y0: q15, y1: q15)
    ensures Blend(y0, y1, 0) == Knot(y0) && Blend(y0, y1, 0xF_FFFF) == Knot(y1)
  {
  }

  lemma BlendMonotone(y0: int, y1: int, f: int, f': int)
    requires y0 <= y1 && f <= f'
    ensures Blend(y0, y1, f) <= Blend(y0, y1, f')
  {
    assert Weighted(y0, y1, f') - Weighted(y0, y1, f) == (y1 - y0) * (f' - f);
    MulOrder(y1 - y0, 0, f' - f);
  }

  /** Linear interpolation with weights that sum to 2^20, as it is documented: the exact value times 2^20. */
  function Documented(y0: int, y1: int, fract: int): int
  {
    y0 * (0x10_0000 - fract) + y1 * fract
  }

  /** The short weight and the dropped bits together: at most 1/32 above the exact value, less than 1 + 1/32 below. */
  lemma BlendError(y0: q15, y1: q15, fract: int)
    ensures -0x10_8000 < 0x10_0000 * Blend(y0, y1, fract) - Documented(y0, y1, fract) <= 0x8000
  {
    assert Documented(y0, y1, fract) == Weighted(y0, y1, fract) + y0;
  }

  // ---------------------------------------------------------------- linear interpolation

  /** The behaviour both word sizes share. */
  function Interpolate(table: seq<q15>, x: q31): q15
    requires 1 <= |table|
  {
    var index := x / 0x10_0000;
    if index < 0 then table[0]
    else if index >= |table| - 1 then table[|table| - 1]
    else
      BlendBetween(table[index], table[index + 1], x % 0x10_0000, -0x8000, 0x7FFF);
      Blend(table[index], table[index + 1], x % 0x10_0000)
  }

  function LinearInterpQ15(table: seq<q15>, x: q31): q15
    requires 1 <= |table| <= 0x8000_0000
  {
    var index := Index(x);
    if index >= |table| - 1 then table[|table| - 1]
    else if index < 0 then table[0]
    else
      var fract := Fraction(x);
      IndexAndFraction(x);
      ProductBound(table[index], 0x8000, 0xF_FFFF - fract, 0xF_FFFF);
      ProductBound(table[index + 1], 0x8000, fract, 0xF_FFFF);
      var y: q63 := table[index] * (0xF_FFFF - fract);
      var y': q63 := y + table[index + 1] * fract;
      ToInt16(y' / 0x10_0000)
  }

  lemma LinearInterpQ15IsInterpolate(table: seq<q15>, x: q31)
    requires 1 <= |table| <= 0x8000_0000
    ensures LinearInterpQ15(table, x) == Interpolate(table, x)
  {
    hide Index, Fraction;
    IndexAndFraction(x);
    var i := x / 0x10_0000;
    if 0 <= i < |table| - 1 {
      BlendBetween(table[i], table[i + 1], x % 0x10_0000, -0x8000, 0x7FFF);
      Fits16(Blend(table[i], table[i + 1], x % 0x10_0000));
      hide ToInt16;
    }
  }

  function LinearInterpQ7(table: seq<q7>, x: q31): q7
    requires 1 <= |table| <= 0x1_0000_0000
  {
    if x < 0 then table[0]
    else
      var index := And(x / 0x10_0000, 0xFFF);
      if index >= |table| - 1 then table[|table| - 1]
      else
        var fract := Fraction(x);
        IndexAndFraction(x);
        ProductBound(table[index], 0x80, 0xF_FFFF - fract, 0xF_FFFF);
        ProductBound(table[index + 1], 0x80, fract, 0xF_FFFF);
        var y: q31 := table[index] * (0xF_FFFF - fract);
        var y': q31 := y + table[index + 1] * fract;
        ToInt8(y' / 0x10_0000)
  }

  lemma LinearInterpQ7IsInterpolate(table: seq<q7>, x: q31)
    requires 1 <= |table| <= 0x1_0000_0000
    ensures LinearInterpQ7(table, x) == Interpolate(table, x)
  {
    hide And, Fraction;
    IndexAndFraction(x);
    var i := x / 0x10_0000;
    if 0 <= x {
      TopIndex(i);
      if i < |table| - 1 {
        BlendBetween(table[i], table[i + 1], x % 0x10_0000, -0x80, 0x7F);
        Fits8(Blend(table[i], table[i + 1], x % 0x10_0000));
        hide ToInt8;
      }
    }
  }

  lemma TopIndex(top: nat)
    requires top < 0x800
    ensures And(top, 0xFFF) == top
  {
    hide And, LowBits, Pow2;
    Pow2Values();
    Pow2Add(6, 6);
    AndLowMask(top, 12);
    LowBitsIsMod(top, 12);
  }

  ghost predicate NonDecreasing(table: seq<int>)
  {
    forall i, j :: 0 <= i <= j < |table| ==> table[i] <= table[j]
  }

  /** Inside a cell of a non-decreasing table the result stays between the knots of the cell. */
  lemma CellRange(table: seq<q15>, x: q31)
    requires 1 <= |table| && NonDecreasing(table) && 0 <= x / 0x10_0000 < |table| - 1
    ensures Knot(table[x / 0x10_0000]) <= Interpolate(table, x) <= Knot(table[x / 0x10_0000 + 1])
  {
    var i := x / 0x10_0000;
    BlendBetween(table[i], table[i + 1], x % 0x10_0000, table[i], table[i + 1]);
  }

  /**
   * Inside any cell of any table the result is the weighted sum rounded down, and so the documented interpolation
   * up to 1/32 above and 1 + 1/32 below.
   */
  lemma InterpolateError(table: seq<q15>, x: q31)
    requires 1 <= |table| && 0 <= x / 0x10_0000 < |table| - 1
    ensures
      var y0, y1, f := table[x / 0x10_0000], table[x / 0x10_0000 + 1], x % 0x10_0000;
      && 0 <= y0 * (0xF_FFFF - f) + y1 * f - 0x10_0000 * Interpolate(table, x) < 0x10_0000
      && -0x10_8000 < 0x10_0000 * Interpolate(table, x) - (y0 * (0x10_0000 - f) + y1 * f) <= 0x8000
  {
    BlendError(table[x / 0x10_0000], table[x / 0x10_0000 + 1], x % 0x10_0000);
  }

  /** Below the table the first entry is returned and above it the last, for any table. */
  lemma OutsideTable(table: seq<q15>, x: q31)
    requires 1 <= |table|
    ensures x < 0 ==> Interpolate(table, x) == table[0]
    ensures x >= 0 && x / 0x10_0000 >= |table| - 1 ==> Interpolate(table, x) == table[|table| - 1]
  {
  }

  /** Interpolating a non-decreasing table is monotone over all non-negative inputs, across cells and into the clamp. */
  lemma InterpolateMonotone(table: seq<q15>, x: q31, x': q31)
    requires 1 <= |table| && NonDecreasing(table) && 0 <= x <= x'
    ensures Interpolate(table, x) <= Interpolate(table, x')
  {
    hide Blend, Weighted;
    var i, j, last := x / 0x10_0000, x' / 0x10_0000, |table| - 1;
    if i < last {
      CellRange(table, x);
      if i == j {
        BlendMonotone(table[i], table[i + 1], x % 0x10_0000, x' % 0x10_0000);
      } else if j < last {
        CellRange(table, x');
        assert table[i + 1] <= table[j];
      } else {
        assert table[i + 1] <= table[last];
      }
    }
  }

  /** Over all inputs it is monotone exactly when there is a single entry or the first one is not positive. */
  lemma MonotoneIff(table: seq<q15>)
    requires 1 <= |table| && NonDecreasing(table)
    ensures (forall x: q31, x': q31 :: x <= x' ==> Interpolate(table, x) <= Interpolate(table, x'))
            <==> |table| == 1 || table[0] <= 0
  {
    hide Blend, Weighted;
    if |table| == 1 || table[0] <= 0 {
      forall x: q31, x': q31 | x <= x'
        ensures Interpolate(table, x) <= Interpolate(table, x')
      {
        if x < 0 {
          AboveFirst(table, x');
        } else {
          InterpolateMonotone(table, x, x');
        }
      }
    } else {
      BlendEnds(table[0], table[1]);
      assert Interpolate(table, -1) > Interpolate(table, 0);
    }
  }

  lemma AboveFirst(table: seq<q15>, x: q31)
    requires 1 <= |table| && NonDecreasing(table) && (|table| == 1 || table[0] <= 0)
    ensures table[0] <= Interpolate(table, x)
  {
    if 0 <= x / 0x10_0000 < |table| - 1 {
      CellRange(table, x);
    }
  }

  /** A non-decreasing table that is not interpolated monotonically. */
  lemma MonotoneFails()
    ensures NonDecreasing([1, 1]) && Interpolate([1, 1], -1) == 1 && Interpolate([1, 1], 0) == 0
  {
    BlendEnds(1, 1);
  }

  /** Some input tells apart two tables of n entries that differ at entry i only. */
  ghost predicate EntryMatters(n: nat, i: nat)
    requires 0 < n
  {
    exists t: seq<q15>, t': seq<q15>, x: q31 ::
      && |t| == n && |t'| == n && (forall j :: 0 <= j < n && j != i ==> t[j] == t'[j])
      && Interpolate(t, x) != Interpolate(t', x)
  }

  /**
   * The documentation supports tables of 2^12 entries. The index is signed, so whatever the length, exactly the first
   * 2^11 + 1 entries can have an influence.
   */
  lemma EntryMattersIff(n: nat, i: nat)
    requires i < n
    ensures EntryMatters(n, i) <==> i <= 0x800
  {
    if i <= 0x800 {
      EntryVisible(n, i);
    } else {
      forall t: seq<q15>, t': seq<q15>, x: q31 |
        |t| == n && |t'| == n && (forall j :: 0 <= j < n && j != i ==> t[j] == t'[j])
        ensures Interpolate(t, x) == Interpolate(t', x)
      {
        FirstEntriesDecide(t, t', x);
      }
    }
  }

  /** Tables that agree on their first 2^11 + 1 entries give the same results. */
  lemma FirstEntriesDecide(t: seq<q15>, t': seq<q15>, x: q31)
    requires 0x801 < |t| == |t'| && forall j :: 0 <= j < 0x801 ==> t[j] == t'[j]
    ensures Interpolate(t, x) == Interpolate(t', x)
  {
    hide Blend;
    var index := x / 0x10_0000;
    assert index < 0x800;
  }

  lemma EntryVisible(n: nat, i: nat)
    requires i < n && i <= 0x800
    ensures EntryMatters(n, i)
  {
    hide Blend;
    var t: seq<q15> := seq(n, j => 0);
    var t': seq<q15> := t[i := 0x7FFF];
    BlendEnds(0, 0);
    BlendEnds(0x7FFF, 0);
    BlendEnds(0, 0x7FFF);
    var x: q31 := if i < 0x800 then i * 0x10_0000 else 0x7FFF_FFFF;
    assert x / 0x10_0000 == (if i < 0x800 then i else 0x7FF) && x % 0x10_0000 == if i < 0x800 then 0 else 0xF_FFFF;
    assert Interpolate(t, x) != Interpolate(t', x);
  }

  // ---------------------------------------------------------------- bilinear interpolation

  datatype Grid<T> = Grid(numRows: uint16, numCols: uint16, data: seq<T>)

  /** The guard of the source: outside it the result is zero. */
  predicate Admitted(numRows: uint16, numCols: uint16, x: q31, y: q31)
  {
    !(Index(x) < 0 || Index(x) > numRows - 1 || Index(y) < 0 || Index(y) > numCols - 1)
  }

  /** All four corners of an admitted cell are in the table. */
  predicate CornersInTable<T>(grid: Grid<T>, x: q31, y: q31)
  {
    Admitted(grid.numRows, grid.numCols, x, y) ==> Index(x) + grid.numCols * (Index(y) + 1) + 1 < |grid.data|
  }

  /** The four entries around (x, y) in a table that stores element (i, j) at i + j * numCols. */
  predicate CellInTable<T>(grid: Grid<T>, x: q31, y: q31)
  {
    var i, j, n := x / 0x10_0000, y / 0x10_0000, grid.numCols;
    && 0 <= i < grid.numRows && 0 <= j < n
    && 0 <= i + n * j && i + n * j + 1 < |grid.data|
    && 0 <= i + n * (j + 1) && i + n * (j + 1) + 1 < |grid.data|
  }

  function Corner<T>(grid: Grid<T>, x: q31, y: q31, right: int, down: int): T
    requires Admitted(grid.numRows, grid.numCols, x, y) && CornersInTable(grid, x, y)
    requires 0 <= right <= 1 && 0 <= down <= 1
  {
    MulOrder(grid.numCols, Index(y) + down, Index(y) + 1);
    MulOrder(grid.numCols, 0, Index(y) + down);
    grid.data[Index(x) + grid.numCols * (Index(y) + down) + right]
  }

  /** The code interpolates exactly in those cells. */
  lemma CellInTableIff<T>(grid: Grid<T>, x: q31, y: q31)
    ensures CellInTable(grid, x, y) <==> Admitted(grid.numRows, grid.numCols, x, y) && CornersInTable(grid, x, y)
  {
    hide Index;
    IndexAndFraction(x);
    IndexAndFraction(y);
    var j, n := y / 0x10_0000, grid.numCols;
    if j >= 0 {
      MulOrder(n, 0, j);
      MulOrder(n, j, j + 1);
    }
  }

  /** There the corners it reads are the entries of the documented layout. */
  lemma CornersAreEntries<T>(grid: Grid<T>, x: q31, y: q31)
    requires CellInTable(grid, x, y)
    ensures Admitted(grid.numRows, grid.numCols, x, y) && CornersInTable(grid, x, y)
    ensures
      var i, j, n := x / 0x10_0000, y / 0x10_0000, grid.numCols;
      && Corner(grid, x, y, 0, 0) == grid.data[i + n * j]
      && Corner(grid, x, y, 1, 0) == grid.data[i + n * j + 1]
      && Corner(grid, x, y, 0, 1) == grid.data[i + n * (j + 1)]
      && Corner(grid, x, y, 1, 1) == grid.data[i + n * (j + 1) + 1]
  {
    hide Index, Admitted, CornersInTable;
    CellInTableIff(grid, x, y);
    IndexAndFraction(x);
    IndexAndFraction(y);
  }

  /** Linear interpolation in x on both rows, then in y, keeping full precision. */
  function TwoStep(x1: int, x2: int, y1: int, y2: int, xf: int, yf: int): int
  {
    Weighted(Weighted(x1, x2, xf), Weighted(y1, y2, xf), yf)
  }

  /** The two-step sum lies between the corners, each times the square of the total weight. */
  lemma TwoStepBetween(x1: int, x2: int, y1: int, y2: int, xf: int, yf: int, lo: int, hi: int)
    requires 0 <= xf <= 0xF_FFFF && 0 <= yf <= 0xF_FFFF
    requires lo <= x1 <= hi && lo <= x2 <= hi && lo <= y1 <= hi && lo <= y2 <= hi
    ensures lo * 0xFF_FFE0_0001 <= TwoStep(x1, x2, y1, y2, xf, yf) <= hi * 0xFF_FFE0_0001
  {
    hide Weighted;
    WeightedBetween(x1, x2, xf, lo, hi);
    WeightedBetween(y1, y2, xf, lo, hi);
    WeightedBetween(Weighted(x1, x2, xf), Weighted(y1, y2, xf), yf, lo * 0xF_FFFF, hi * 0xF_FFFF);
  }

  /** The documented bilinear value times 2^40. */
  function DocumentedTwoStep(x1: int, x2: int, y1: int, y2: int, xf: int, yf: int): int
  {
    Documented(Documented(x1, x2, xf), Documented(y1, y2, xf), yf)
  }

  /** The weights of the two-step sum are short by a row and a column of the documented ones. */
  lemma ShortWeights(x1: int, x2: int, y1: int, y2: int, xf: int, yf: int)
    ensures DocumentedTwoStep(x1, x2, y1, y2, xf, yf)
         == TwoStep(x1, x2, y1, y2, xf, yf) + Weighted(x1, x2, xf) + Documented(x1, y1, yf)
  {
    ShortWeight(x1, x2, xf);
    ShortWeight(y1, y2, xf);
    var a, b := Weighted(x1, x2, xf), Weighted(y1, y2, xf);
    hide Weighted, Documented;
    ShortWeightOfSums(a, x1, b, y1, yf);
  }

  lemma ShortWeight(y0: int, y1: int, fract: int)
    ensures Documented(y0, y1, fract) == Weighted(y0, y1, fract) + y0
  {
  }

  lemma ShortWeightOfSums(a: int, x: int, b: int, y: int, fract: int)
    ensures Documented(a + x, b + y, fract) == Weighted(a, b, fract) + a + Documented(x, y, fract)
  {
    assert (a + x) * (0x10_0000 - fract) == a * (0xF_FFFF - fract) + a + x * (0x10_0000 - fract);
    assert (b + y) * fract == b * fract + y * fract;
  }

  /** With corners of magnitude at most m the shortfall is at most m / 2^19 of an output unit. */
  lemma TwoStepError(x1: int, x2: int, y1: int, y2: int, xf: int, yf: int, m: int)
    requires 0 <= xf <= 0xF_FFFF && 0 <= yf <= 0xF_FFFF
    requires -m <= x1 <= m && -m <= x2 <= m && -m <= y1 <= m && -m <= y2 <= m
    ensures -0x20_0000 * m <= DocumentedTwoStep(x1, x2, y1, y2, xf, yf) - TwoStep(x1, x2, y1, y2, xf, yf)
            <= 0x20_0000 * m
  {
    hide Weighted, Documented, TwoStep, DocumentedTwoStep;
    ShortWeights(x1, x2, y1, y2, xf, yf);
    WeightedBetween(x1, x2, xf, -m, m);
    WeightedBetween(x1, y1, yf, -m, m);
    ShortWeight(x1, y1, yf);
  }

  /** The two-step sum as the four products the code accumulates. */
  lemma FourProducts(x1: int, x2: int, y1: int, y2: int, u: int, v: int, xf: int, yf: int)
    ensures (x1 * u + x2 * xf) * v + (y1 * u + y2 * xf) * yf
         == (x1 * u) * v + (x2 * v) * xf + (y1 * u) * yf + (y2 * xf) * yf
    ensures (y2 * xf) * yf == (y2 * yf) * xf
  {
    assert (x2 * xf) * v == (x2 * v) * xf;
  }

  /** One multiply-accumulate; four of them stay far inside 64 bits. */
  function Accumulate(acc: q63, out: q31, weight: int): (acc': q63)
    requires -0x18_0000_0000_0000 <= acc <= 0x18_0000_0000_0000 && 0 <= weight <= 0xF_FFFF
    ensures acc' == acc + out * weight && -0x8_0000_0000_0000 <= acc' - acc <= 0x8_0000_0000_0000
  {
    ProductBound(out, 0x8000_0000, weight, 0xF_FFFF);
    acc + out * weight
  }

  function AccumulatorQ7(x1: q7, x2: q7, y1: q7, y2: q7, xf: int, yf: int): q63
    requires 0 <= xf <= 0xF_FFFF && 0 <= yf <= 0xF_FFFF
  {
    var acc1 := Accumulate(0, ToInt32(x1 * (0xF_FFFF - xf)), 0xF_FFFF - yf);
    var acc2 := Accumulate(acc1, ToInt32(x2 * (0xF_FFFF - yf)), xf);
    var acc3 := Accumulate(acc2, ToInt32(y1 * (0xF_FFFF - xf)), yf);
    Accumulate(acc3, ToInt32(y2 * yf), xf)
  }

  /** No 32-bit product is cut, and the four terms add up to the two-step interpolation. */
  lemma AccumulatorQ7IsTwoStep(x1: q7, x2: q7, y1: q7, y2: q7, xf: int, yf: int)
    requires 0 <= xf <= 0xF_FFFF && 0 <= yf <= 0xF_FFFF
    ensures AccumulatorQ7(x1, x2, y1, y2, xf, yf) == TwoStep(x1, x2, y1, y2, xf, yf)
  {
    hide ToInt32;
    var u, v := 0xF_FFFF - xf, 0xF_FFFF - yf;
    ProductBound(x1, 0x80, u, 0xF_FFFF);
    ProductBound(x2, 0x80, v, 0xF_FFFF);
    ProductBound(y1, 0x80, u, 0xF_FFFF);
    ProductBound(y2, 0x80, yf, 0xF_FFFF);
    Fits32(x1 * u);
    Fits32(x2 * v);
    Fits32(y1 * u);
    Fits32(y2 * yf);
    FourProducts(x1, x2, y1, y2, u, v, xf, yf);
  }

  function BilinearInterpQ7(grid: Grid<q7>, x: q31, y: q31): q7
    requires CornersInTable(grid, x, y)
  {
    if !Admitted(grid.numRows, grid.numCols, x, y) then 0
    else
      IndexAndFraction(x);
      IndexAndFraction(y);
      var acc := AccumulatorQ7(Corner(grid, x, y, 0, 0), Corner(grid, x, y, 1, 0),
                               Corner(grid, x, y, 0, 1), Corner(grid, x, y, 1, 1), Fraction(x), Fraction(y));
      ToInt8(acc / 0x100_0000_0000)
  }

  /** On the entries of the cell: the two-step interpolation rounded down, between the knots of the extreme corners. */
  lemma BilinearQ7Law(grid: Grid<q7>, x: q31, y: q31, lo: q7, hi: q7)
    requires CellInTable(grid, x, y) && CornersInTable(grid, x, y)
    requires
      var i, j, n := x / 0x10_0000, y / 0x10_0000, grid.numCols;
      && lo <= grid.data[i + n * j] <= hi && lo <= grid.data[i + n * j + 1] <= hi
      && lo <= grid.data[i + n * (j + 1)] <= hi && lo <= grid.data[i + n * (j + 1) + 1] <= hi
    ensures
      var i, j, n := x / 0x10_0000, y / 0x10_0000, grid.numCols;
      BilinearInterpQ7(grid, x, y)
      == TwoStep(grid.data[i + n * j], grid.data[i + n * j + 1], grid.data[i + n * (j + 1)],
                 grid.data[i + n * (j + 1) + 1], x % 0x10_0000, y % 0x10_0000) / 0x100_0000_0000
    ensures Knot(lo) <= BilinearInterpQ7(grid, x, y) <= Knot(hi)
  {
    hide Index, Fraction, TwoStep, AccumulatorQ7, Admitted, CornersInTable, CellInTable, Corner;
    IndexAndFraction(x);
    IndexAndFraction(y);
    CornersAreEntries(grid, x, y);
    var xf, yf := x % 0x10_0000, y % 0x10_0000;
    var x1, x2 := Corner(grid, x, y, 0, 0), Corner(grid, x, y, 1, 0);
    var y1, y2 := Corner(grid, x, y, 0, 1), Corner(grid, x, y, 1, 1);
    AccumulatorQ7IsTwoStep(x1, x2, y1, y2, xf, yf);
    TwoStepBetween(x1, x2, y1, y2, xf, yf, lo, hi);
    KnotOfSquare(TwoStep(x1, x2, y1, y2, xf, yf), lo, hi);
    Fits8(TwoStep(x1, x2, y1, y2, xf, yf) / 0x100_0000_0000);
  }

  lemma KnotOfSquare(t: int, lo: q15, hi: q15)
    requires lo * 0xFF_FFE0_0001 <= t <= hi * 0xFF_FFE0_0001
    ensures Knot(lo) <= t / 0x100_0000_0000 <= Knot(hi)
  {
  }

  /** Within 1/4096 above and 1 + 1/4096 below the documented bilinear interpolation of the entries of the cell. */
  lemma BilinearQ7Error(grid: Grid<q7>, x: q31, y: q31)
    requires CellInTable(grid, x, y) && CornersInTable(grid, x, y)
    ensures
      var i, j, n := x / 0x10_0000, y / 0x10_0000, grid.numCols;
      var f, g := x % 0x10_0000, y % 0x10_0000;
      var documented := (grid.data[i + n * j] * (0x10_0000 - f) + grid.data[i + n * j + 1] * f) * (0x10_0000 - g)
                        + (grid.data[i + n * (j + 1)] * (0x10_0000 - f) + grid.data[i + n * (j + 1) + 1] * f) * g;
      -0x100_1000_0000 < 0x100_0000_0000 * BilinearInterpQ7(grid, x, y) - documented <= 0x1000_0000
  {
    hide TwoStep, BilinearInterpQ7, CornersInTable, Knot;
    BilinearQ7Law(grid, x, y, -0x80, 0x7F);
    var i, j, n := x / 0x10_0000, y / 0x10_0000, grid.numCols;
    ResultError(grid.data[i + n * j], grid.data[i + n * j + 1], grid.data[i + n * (j + 1)],
                grid.data[i + n * (j + 1) + 1], x % 0x10_0000, y % 0x10_0000, 0x80, 0,
                BilinearInterpQ7(grid, x, y));
  }

  lemma DocumentedFormula(x1: int, x2: int, y1: int, y2: int, f: int, g: int)
    ensures DocumentedTwoStep(x1, x2, y1, y2, f, g)
         == (x1 * (0x10_0000 - f) + x2 * f) * (0x10_0000 - g) + (y1 * (0x10_0000 - f) + y2 * f) * g
  {
  }

  /** The error of a two-step sum of which at most loss is dropped before it is rounded down. */
  lemma ResultError(x1: int, x2: int, y1: int, y2: int, f: int, g: int, m: int, loss: int, r: int)
    requires 0 <= f <= 0xF_FFFF && 0 <= g <= 0xF_FFFF
    requires -m <= x1 <= m && -m <= x2 <= m && -m <= y1 <= m && -m <= y2 <= m
    requires
      var sum := TwoStep(x1, x2, y1, y2, f, g);
      sum - loss - 0x100_0000_0000 < 0x100_0000_0000 * r <= sum
    ensures
      var documented := (x1 * (0x10_0000 - f) + x2 * f) * (0x10_0000 - g) + (y1 * (0x10_0000 - f) + y2 * f) * g;
      -0x100_0000_0000 - 0x20_0000 * m - loss < 0x100_0000_0000 * r - documented <= 0x20_0000 * m
  {
    hide TwoStep, DocumentedTwoStep;
    TwoStepError(x1, x2, y1, y2, f, g, m);
    DocumentedFormula(x1, x2, y1, y2, f, g);
  }

  function AccumulatorQ15(x1: q15, x2: q15, y1: q15, y2: q15, xf: int, yf: int): q63
    requires 0 <= xf <= 0xF_FFFF && 0 <= yf <= 0xF_FFFF
  {
    var acc1 := Accumulate(0, ToInt32(x1 * (0xF_FFFF - xf) / 16), 0xF_FFFF - yf);
    var acc2 := Accumulate(acc1, ToInt32(x2 * (0xF_FFFF - yf) / 16), xf);
    var acc3 := Accumulate(acc2, ToInt32(y1 * (0xF_FFFF - xf) / 16), yf);
    Accumulate(acc3, ToInt32(y2 * xf / 16), yf)
  }

  /** Four bits are dropped from each product before it is weighted: less than 45 units of 2^20 in all. */
  lemma AccumulatorQ15NearTwoStep(x1: q15, x2: q15, y1: q15, y2: q15, xf: int, yf: int)
    requires 0 <= xf <= 0xF_FFFF && 0 <= yf <= 0xF_FFFF
    ensures 16 * AccumulatorQ15(x1, x2, y1, y2, xf, yf)
         == TwoStep(x1, x2, y1, y2, xf, yf)
            - x1 * (0xF_FFFF - xf) % 16 * (0xF_FFFF - yf) - x2 * (0xF_FFFF - yf) % 16 * xf
            - y1 * (0xF_FFFF - xf) % 16 * yf - y2 * xf % 16 * yf
    ensures TwoStep(x1, x2, y1, y2, xf, yf) - 45 * 0xF_FFFF
            <= 16 * AccumulatorQ15(x1, x2, y1, y2, xf, yf) <= TwoStep(x1, x2, y1, y2, xf, yf)
  {
    hide ToInt32;
    var u, v := 0xF_FFFF - xf, 0xF_FFFF - yf;
    ProductBound(x1, 0x8000, u, 0xF_FFFF);
    ProductBound(x2, 0x8000, v, 0xF_FFFF);
    ProductBound(y1, 0x8000, u, 0xF_FFFF);
    ProductBound(y2, 0x8000, xf, 0xF_FFFF);
    Fits32(x1 * u / 16);
    Fits32(x2 * v / 16);
    Fits32(y1 * u / 16);
    Fits32(y2 * xf / 16);
    DroppedBits(x1 * u, v);
    DroppedBits(x2 * v, xf);
    DroppedBits(y1 * u, yf);
    DroppedBits(y2 * xf, yf);
    FourProducts(x1, x2, y1, y2, u, v, xf, yf);
  }

  lemma DroppedBits(z: int, w: int)
    requires 0 <= w
    ensures 16 * ((z / 16) * w) == z * w - z % 16 * w
    ensures z * w - 15 * w <= 16 * ((z / 16) * w) <= z * w
  {
    var q, r := z / 16, z % 16;
    assert z * w == 16 * (q * w) + r * w by {
      assert z == 16 * q + r;
    }
    MulOrder(w, 0, r);
    MulOrder(w, r, 15);
  }

  function BilinearInterpQ15(grid: Grid<q15>, x: q31, y: q31): q15
    requires CornersInTable(grid, x, y)
  {
    if !Admitted(grid.numRows, grid.numCols, x, y) then 0
    else
      IndexAndFraction(x);
      IndexAndFraction(y);
      var acc := AccumulatorQ15(Corner(grid, x, y, 0, 0), Corner(grid, x, y, 1, 0),
                                Corner(grid, x, y, 0, 1), Corner(grid, x, y, 1, 1), Fraction(x), Fraction(y));
      ToInt16(acc / 0x10_0000_0000)
  }

  /** On the entries of the cell: the two-step interpolation rounded down or one below, within the corners less one. */
  lemma BilinearQ15Law(grid: Grid<q15>, x: q31, y: q31, lo: q15, hi: q15)
    requires CellInTable(grid, x, y) && CornersInTable(grid, x, y)
    requires
      var i, j, n := x / 0x10_0000, y / 0x10_0000, grid.numCols;
      && lo <= grid.data[i + n * j] <= hi && lo <= grid.data[i + n * j + 1] <= hi
      && lo <= grid.data[i + n * (j + 1)] <= hi && lo <= grid.data[i + n * (j + 1) + 1] <= hi
    ensures
      var i, j, n := x / 0x10_0000, y / 0x10_0000, grid.numCols;
      var exact := TwoStep(grid.data[i + n * j], grid.data[i + n * j + 1], grid.data[i + n * (j + 1)],
                           grid.data[i + n * (j + 1) + 1], x % 0x10_0000, y % 0x10_0000);
      && exact / 0x100_0000_0000 - 1 <= BilinearInterpQ15(grid, x, y) <= exact / 0x100_0000_0000
      && exact - 45 * 0xF_FFFF - 0x100_0000_0000 < 0x100_0000_0000 * BilinearInterpQ15(grid, x, y) <= exact
    ensures lo - 1 <= BilinearInterpQ15(grid, x, y) <= Knot(hi)
  {
    hide Index, Fraction, TwoStep, AccumulatorQ15, Admitted, CornersInTable, CellInTable, Corner;
    IndexAndFraction(x);
    IndexAndFraction(y);
    CornersAreEntries(grid, x, y);
    var xf, yf := x % 0x10_0000, y % 0x10_0000;
    var x1, x2 := Corner(grid, x, y, 0, 0), Corner(grid, x, y, 1, 0);
    var y1, y2 := Corner(grid, x, y, 0, 1), Corner(grid, x, y, 1, 1);
    AccumulatorQ15NearTwoStep(x1, x2, y1, y2, xf, yf);
    TwoStepBetween(x1, x2, y1, y2, xf, yf, lo, hi);
    var acc := AccumulatorQ15(x1, x2, y1, y2, xf, yf);
    NearSquare(TwoStep(x1, x2, y1, y2, xf, yf), acc, lo, hi);
    Fits16(acc / 0x10_0000_0000);
  }

  lemma NearSquare(t: int, acc: int, lo: q15, hi: q15)
    requires lo * 0xFF_FFE0_0001 <= t <= hi * 0xFF_FFE0_0001
    requires t - 45 * 0xF_FFFF <= 16 * acc <= t
    ensures t / 0x100_0000_0000 - 1 <= acc / 0x10_0000_0000 <= t / 0x100_0000_0000
    ensures lo - 1 <= acc / 0x10_0000_0000 <= Knot(hi) && -0x8000 <= acc / 0x10_0000_0000
    ensures t - 45 * 0xF_FFFF - 0x100_0000_0000 < 0x100_0000_0000 * (acc / 0x10_0000_0000) <= t
  {
    KnotOfSquare(t, lo, hi);
  }

  /** The same for Q15 within 1/16; the bits dropped from the products add less than 2^26 of 2^40 to the loss. */
  lemma BilinearQ15Error(grid: Grid<q15>, x: q31, y: q31)
    requires CellInTable(grid, x, y) && CornersInTable(grid, x, y)
    ensures
      var i, j, n := x / 0x10_0000, y / 0x10_0000, grid.numCols;
      var f, g := x % 0x10_0000, y % 0x10_0000;
      var documented := (grid.data[i + n * j] * (0x10_0000 - f) + grid.data[i + n * j + 1] * f) * (0x10_0000 - g)
                        + (grid.data[i + n * (j + 1)] * (0x10_0000 - f) + grid.data[i + n * (j + 1) + 1] * f) * g;
      -0x110_0400_0000 < 0x100_0000_0000 * BilinearInterpQ15(grid, x, y) - documented <= 0x10_0000_0000
  {
    hide TwoStep, BilinearInterpQ15, CornersInTable, Knot;
    BilinearQ15Law(grid, x, y, -0x8000, 0x7FFF);
    var i, j, n := x / 0x10_0000, y / 0x10_0000, grid.numCols;
    ResultError(grid.data[i + n * j], grid.data[i + n * j + 1], grid.data[i + n * (j + 1)],
                grid.data[i + n * (j + 1) + 1], x % 0x10_0000, y % 0x10_0000, 0x8000, 45 * 0xF_FFFF,
                BilinearInterpQ15(grid, x, y));
  }

  /** Coordinates whose cell does not start in the guarded range give zero, whatever the table holds. */
  lemma OutsideGridIsZero(grid: Grid<q7>, grid': Grid<q15>, x: q31, y: q31)
    requires CornersInTable(grid, x, y) && CornersInTable(grid', x, y)
    ensures !(0 <= x / 0x10_0000 < grid.numRows && 0 <= y / 0x10_0000 < grid.numCols)
            ==> BilinearInterpQ7(grid, x, y) == 0
    ensures !(0 <= x / 0x10_0000 < grid'.numRows && 0 <= y / 0x10_0000 < grid'.numCols)
            ==> BilinearInterpQ15(grid', x, y) == 0
  {
    hide Index;
    IndexAndFraction(x);
    IndexAndFraction(y);
  }

  // ---------------------------------------------------------------- the guard

  /** Element (x, y) of the documented table: column x of row y. */
  predicate InDocumentedTable(numRows: uint16, numCols: uint16, x: q31, y: q31)
  {
    0 <= Index(x) < numCols && 0 <= Index(y) < numRows
  }

  /**
   * The documentation has coordinates outside the table return zero. The guard compares the column with the number
   * of rows and the row with the number of columns, so it does that for all coordinates only when the two counts
   * agree as far as the 12-bit index reaches, or the table is empty.
   */
  lemma GuardIsDocumentedIff(numRows: uint16, numCols: uint16)
    ensures (forall x: q31, y: q31 :: Admitted(numRows, numCols, x, y) <==> InDocumentedTable(numRows, numCols, x, y))
            <==> numRows == numCols || numRows == 0 || numCols == 0 || (numRows >= 0x800 && numCols >= 0x800)
  {
    hide And32;
    forall x: q31
      ensures Index(x) == x / 0x10_0000 && Index(x) < 0x800
    {
      IndexAndFraction(x);
    }
    if numRows != numCols && numRows != 0 && numCols != 0 && (numRows < 0x800 || numCols < 0x800) {
      var k: int := if numRows < numCols then numRows else numCols;
      var x: q31 := k * 0x10_0000;
      assert Index(x) == k && Index(0) == 0;
      assert Admitted(numRows, numCols, x, 0) != InDocumentedTable(numRows, numCols, x, 0);
    }
  }

  /** A table of one row and two columns: column 1 is in the documented table and returns zero. */
  lemma GuardExample()
    ensures InDocumentedTable(1, 2, 0x10_0000, 0) && !Admitted(1, 2, 0x10_0000, 0)
  {
    hide And32;
    IndexAndFraction(0x10_0000);
    IndexAndFraction(0);
  }
}
