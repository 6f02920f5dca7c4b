/**
 * The table-seeded Newton reciprocals arm_recip_q31 and arm_recip_q15.
 * Both run the same integer iteration, with half scale h = 2^30 or h = 2^14:
 * the input a is normalised to [h, 2h) and the ideal reciprocal x satisfies a * x == 2h^2.
 */
module Reciprocal {
  import opened Bits
  import opened FixedPoint

  /** One Newton step in mathematical integers. */
  function NewtonStep(h: int, a: int, x: int): int
    requires h > 0
  {
    x * (2 * h - 1 - a * x / (2 * h)) / h
  }

  /** How far a * x falls short of the ideal product. */
  function Residual(h: int, a: int, x: int): int
  {
    2 * h * h - a * x
  }

  /**
   * The exact error law. With r and s the two remainders dropped by the two shifts,
   * the residual squares, plus one term per dropped remainder.
   */
  lemma NewtonIdentity(h: int, a: int, x: int)
    requires h > 0
    ensures
      var r := (a * x) % (2 * h);
      var s := (x * (2 * h - 1 - a * x / (2 * h))) % h;
      2 * h * h * Residual(h, a, NewtonStep(h, a, x))
      == Residual(h, a, x) * Residual(h, a, x) + (2 * h - r) * (a * x) + 2 * h * a * s
  {
  }

  /** On normalised inputs a step stays in range, never reaches the ideal, and contracts quadratically. */
  lemma NewtonBounds(h: int, a: int, x: int)
    requires 0 < h <= a < 2 * h && 0 <= x < 2 * h
    ensures 0 <= a * x / (2 * h) <= 2 * h - 1
    ensures 0 <= NewtonStep(h, a, x) < 2 * h
    ensures 0 < Residual(h, a, NewtonStep(h, a, x))
    ensures 2 * h * h * Residual(h, a, NewtonStep(h, a, x))
            < Residual(h, a, x) * Residual(h, a, x) + 2 * h * (a * x) + 2 * h * h * a
  {
    var d, p := 2 * h, a * x;
    MulOrder(x, 0, a);
    QuotientBound(d, a, x);
    var u := d - 1 - p / d;
    MulOrder(x, 0, u);
    NonNegativeQuotient(x * u, h);
    NewtonIdentity(h, a, x);
    hide Residual;
    var x' := NewtonStep(h, a, x);
    ResidualSign(h, a, x, p, p % d, (x * u) % h, Residual(h, a, x'));
    StopsShort(h, a, x');
  }

  lemma NonNegativeQuotient(v: int, d: int)
    requires 0 <= v && 0 < d
    ensures 0 <= v / d
  {
  }

  /** What the two dropped remainders of the identity leave of the residual. */
  lemma ResidualSign(h: int, a: int, x: int, p: int, r: int, s: int, next: int)
    requires 0 < h && 0 < a && 0 <= p == a * x && 0 <= r < 2 * h && 0 <= s < h
    requires 2 * h * h * next == Residual(h, a, x) * Residual(h, a, x) + (2 * h - r) * p + 2 * h * a * s
    ensures 0 < next
    ensures 2 * h * h * next < Residual(h, a, x) * Residual(h, a, x) + 2 * h * p + 2 * h * h * a
  {
    RemainderTerms(h, a, p, r, s);
    PositiveFactor(2 * h * h, next);
  }

  lemma StopsShort(h: int, a: int, x: int)
    requires 0 < h <= a && 0 < Residual(h, a, x)
    ensures x < 2 * h
  {
    if x >= 2 * h {
      MulOrder(a, 2 * h, x);
      MulOrder(2 * h, h, a);
      assert false;
    }
  }

  lemma QuotientBound(d: int, a: int, x: int)
    requires 0 < d && 0 <= a < d && 0 <= x < d
    ensures 0 <= a * x
    ensures 0 <= a * x / d <= d - 1
  {
    MulOrder(x, 0, a);
    MulOrder(a, x, d);
    var q, r := a * x / d, a * x % d;
    assert a * x == d * q + r;
    if q < 0 {
      MulOrder(d, q, -1);
      assert false;
    }
    if q >= d {
      MulOrder(d, d, q);
      MulOrder(d, a, d - 1);
      assert false;
    }
  }

  /** The two dropped remainders contribute a positive amount of bounded size. */
  lemma RemainderTerms(h: int, a: int, p: int, r: int, s: int)
    requires 0 < h && 0 < a && 0 <= p && 0 <= r < 2 * h && 0 <= s < h
    ensures 0 < (2 * h * h - p) * (2 * h * h - p) + (2 * h - r) * p + 2 * h * a * s
    ensures (2 * h - r) * p + 2 * h * a * s < 2 * h * p + 2 * h * h * a
  {
    var b, c := 2 * h * a, 2 * h * h;
    PositiveProduct(2 * h, a);
    PositiveProduct(2 * h, h);
    MulOrder(b, 0, s);
    MulOrder(b, s, h - 1);
    assert b * (h - 1) < c * a by {
      assert b * (h - 1) == b * h - b;
      assert b * h == c * a;
    }
    MulOrder(p, 1, 2 * h - r);
    MulOrder(p, 2 * h - r, 2 * h);
    PositiveWhenShort(c, p);
  }

  lemma PositiveWhenShort(c: int, p: int)
    requires 0 < c && 0 <= p
    ensures 0 < (c - p) * (c - p) + p
  {
    NonNegativeSquare(c - p);
    if p == 0 {
      PositiveProduct(c, c);
    }
  }

  lemma PositiveProduct(c: int, d: int)
    requires 0 < c && 0 < d
    ensures 0 < c * d
  {
  }

  lemma PositiveFactor(c: int, d: int)
    requires 0 <= c && 0 < c * d
    ensures 0 < d
  {
    if d <= 0 {
      MulOrder(c, d, 0);
    }
  }

  /** A residual of magnitude at most e has a square of at most e * e. */
  lemma SquareBound(c: int, e: int)
    requires -e <= c <= e
    ensures c * c <= e * e
  {
    ProductBound(c, e, c, e);
  }

  /** One step at scale 2^30 from a seed whose residual has magnitude at most e. */
  lemma StepQ31(a: int, x: int, e: int)
    requires 0x4000_0000 <= a < 0x8000_0000 && 0 <= x < 0x8000_0000
    requires -e <= Residual(0x4000_0000, a, x) <= e
    ensures 0 <= NewtonStep(0x4000_0000, a, x) < 0x8000_0000
    ensures 0 < Residual(0x4000_0000, a, NewtonStep(0x4000_0000, a, x))
    ensures 0x2000_0000_0000_0000 * Residual(0x4000_0000, a, NewtonStep(0x4000_0000, a, x))
            < e * e + 0x8000_0000 * (0x2000_0000_0000_0000 + e) + 0x2000_0000_0000_0000 * 0x8000_0000
  {
    NewtonBounds(0x4000_0000, a, x);
    SquareBound(Residual(0x4000_0000, a, x), e);
  }

  /** One step at scale 2^14 from a seed whose residual has magnitude at most e. */
  lemma StepQ15(a: int, x: int, e: int)
    requires 0x4000 <= a < 0x8000 && 0 <= x < 0x8000
    requires -e <= Residual(0x4000, a, x) <= e
    ensures 0 <= NewtonStep(0x4000, a, x) < 0x8000
    ensures 0 < Residual(0x4000, a, NewtonStep(0x4000, a, x))
    ensures 0x2000_0000 * Residual(0x4000, a, NewtonStep(0x4000, a, x))
            < e * e + 0x8000 * (0x2000_0000 + e) + 0x2000_0000 * 0x8000
  {
    NewtonBounds(0x4000, a, x);
    SquareBound(Residual(0x4000, a, x), e);
  }

  /** The software count of leading zeros: the position of the highest set bit, from the top. */
  method Clz(data: uint32) returns (count: nat)
    ensures count <= 32
    ensures data < Pow2(32 - count)
    ensures count < 32 ==> Pow2(31 - count) <= data
  {
    Pow2Values();
    if data == 0 {
      return 32;
    }
    count := 0;
    var mask := 0x8000_0000;
    AndTopBit(data, 31);
    while And(data, mask) == 0
      invariant count <= 31 && mask == Pow2(31 - count)
      invariant data < 2 * mask
      invariant And(data, mask) == 0 <==> data < mask
      decreases 31 - count
    {
      count := count + 1;
      mask := mask / 2;
      AndTopBit(data, 31 - count);
    }
  }

  /** A positive number has fewer than 32 leading zeros, zero has 32. */
  lemma ZerosOfPositive(x: nat, zeros: nat)
    requires zeros <= 32
    requires x < Pow2(32 - zeros)
    requires zeros < 32 ==> Pow2(31 - zeros) <= x
    ensures x == 0 <==> zeros == 32
  {
    assert Pow2(0) == 1;
  }

  /** Shifting k places left scales a range between two powers of two. */
  lemma ShiftRange(x: nat, m: nat, k: nat)
    requires Pow2(m) <= x < Pow2(m + 1)
    ensures Pow2(m + k) <= x * Pow2(k) < Pow2(m + k + 1)
  {
    hide Pow2;
    Pow2Add(m, k);
    Pow2Add(m + 1, k);
    ScaleRange(Pow2(m), x, Pow2(m + 1), Pow2(k));
  }

  lemma ScaleRange(lo: int, x: int, hi: int, c: int)
    requires lo <= x < hi && 0 < c
    ensures lo * c <= x * c < hi * c
  {
  }

  /** The loop body of arm_recip_q31, conversions included. */
  function RecipStepQ31(a: q31, out: q31): (out': q31)
    requires 0 <= a && 0 <= out
    ensures 0 <= out'
    ensures 0x4000_0000 <= a ==> out' == NewtonStep(0x4000_0000, a, out)
  {
    ProductBound(a, 0x7FFF_FFFF, out, 0x7FFF_FFFF);
    QuotientBound(0x8000_0000, a, out);
    var tempVal := ToUint32(0x7FFF_FFFF - ToUint32(a * out / 0x8000_0000));
    MulOrder(out, 0, tempVal);
    ProductBound(out, 0x7FFF_FFFF, tempVal, 0xFFFF_FFFF);
    assert 0x4000_0000 <= a ==> 0 <= NewtonStep(0x4000_0000, a, out) < 0x8000_0000 by {
      if 0x4000_0000 <= a {
        NewtonBounds(0x4000_0000, a, out);
      }
    }
    ClipQ63ToQ31(out * tempVal / 0x4000_0000)
  }

  /** The value after n passes of the loop. */
  function RefineQ31(a: q31, seed: q31, n: nat): (out: q31)
    requires 0 <= a && 0 <= seed
    ensures 0 <= out
  {
    if n == 0 then seed else RecipStepQ31(a, RefineQ31(a, seed, n - 1))
  }

  /** Two passes on a normalised input: the residual stays positive and a good seed becomes an accurate reciprocal. */
  lemma RefineQ31Law(a: q31, seed: q31)
    requires 0x4000_0000 <= a && 0 <= seed
    ensures RefineQ31(a, seed, 2) == NewtonStep(0x4000_0000, a, NewtonStep(0x4000_0000, a, seed))
    ensures 0 < Residual(0x4000_0000, a, RefineQ31(a, seed, 2))
    ensures -0x80_0000_0000_0000 <= Residual(0x4000_0000, a, seed) <= 0x80_0000_0000_0000 ==>
      Residual(0x4000_0000, a, RefineQ31(a, seed, 2)) < 0x40_0000_0000
  {
    var x1 := RefineQ31(a, seed, 1);
    assert x1 == RecipStepQ31(a, RefineQ31(a, seed, 0));
    NewtonBounds(0x4000_0000, a, x1);
    if -0x80_0000_0000_0000 <= Residual(0x4000_0000, a, seed) <= 0x80_0000_0000_0000 {
      StepQ31(a, seed, 0x80_0000_0000_0000);
      StepQ31(a, x1, 0x2_0002_0000_0000);
    }
  }

  /** A zero input doubles the seed twice and the clip saturates it, exactly for seeds above one quarter. */
  lemma RefineQ31OfZeroIff(seed: q31)
    requires 0 <= seed
    ensures RefineQ31(0, seed, 2) == 0x7FFF_FFFF <==> seed > 0x2000_0000
  {
    hide RecipStepQ31;
    StepOfZero(seed);
    StepOfZero(RecipStepQ31(0, seed));
    assert RefineQ31(0, seed, 0) == seed;
    assert RefineQ31(0, seed, 1) == RecipStepQ31(0, seed);
  }

  lemma StepOfZero(out: q31)
    requires 0 <= out
    ensures RecipStepQ31(0, out) == if out > 0x4000_0000 then 0x7FFF_FFFF else if out == 0 then 0 else 2 * out - 1
  {
    assert ToUint32(0x7FFF_FFFF - ToUint32(0 * out / 0x8000_0000)) == 0x7FFF_FFFF;
    assert RecipStepQ31(0, out) == Clamp(out * 0x7FFF_FFFF / 0x4000_0000, -0x8000_0000, 0x7FFF_FFFF);
  }

  /** Shifting out all leading zeros but the sign bit normalises a positive number to width bits. */
  lemma NormalisedRange(x: nat, zeros: nat, width: nat)
    requires 2 <= width <= 32 && x < Pow2(width - 1)
    requires zeros <= 32
    requires x < Pow2(32 - zeros)
    requires zeros < 32 ==> Pow2(31 - zeros) <= x
    ensures 33 - width <= zeros
    ensures x == 0 <==> zeros == 32
    ensures x == 0 ==> x * Pow2(zeros - (33 - width)) == 0
    ensures x > 0 ==> Pow2(width - 2) <= x * Pow2(zeros - (33 - width)) < Pow2(width - 1)
  {
    ZerosOfPositive(x, zeros);
    if zeros < 33 - width {
      Pow2Order(width - 1, 31 - zeros);
      assert false;
    }
    if x > 0 {
      ShiftRange(x, 31 - zeros, zeros - (33 - width));
    }
  }

  /** The index bits of a normalised number select table entries 0..63 in order. */
  lemma TableIndex(top: nat)
    requires top < 128
    ensures And(top, 0x3F) == if top < 64 then top else top - 64
  {
    hide And, LowBits, Pow2;
    Pow2Values();
    AndLowMask(top, 6);
    LowBitsIsMod(top, 6);
  }

  /** Counts the redundant sign bits of a width-bit value and shifts them out. */
  method Normalise(input: q31, width: nat) returns (shifted: int, signBits: uint32)
    requires width == 16 || width == 32
    requires 0 <= input < Pow2(width - 1)
    ensures signBits <= width - 1
    ensures shifted == input * Pow2(signBits)
    ensures input == 0 ==> signBits == width - 1 && shifted == 0
    ensures input > 0 ==> signBits <= width - 2 && Pow2(width - 2) <= shifted < Pow2(width - 1)
  {
    var zeros: nat;
    if input > 0 {
      zeros := Clz(input);
    } else {
      zeros := Clz(-input);
    }
    hide Pow2, ToUint32;
    NormalisedRange(input, zeros, width);
    Unsigned(zeros - (33 - width));
    signBits := ToUint32(zeros - (33 - width));
    shifted := input * Pow2(signBits);
  }

  /** Two Newton steps that stop short of the ideal product, and by little if the seed was within 2^55 of it. */
  ghost predicate RefinedQ31(a: int, seed: q31, out: q31)
  {
    && out == NewtonStep(0x4000_0000, a, NewtonStep(0x4000_0000, a, seed))
    && 0 < Residual(0x4000_0000, a, out)
    && (-0x80_0000_0000_0000 <= Residual(0x4000_0000, a, seed) <= 0x80_0000_0000_0000
        ==> Residual(0x4000_0000, a, out) < 0x40_0000_0000)
  }

  /** The refinement loop: two Newton passes over the seed. */
  method RefineLoopQ31(a: q31, seed: q31) returns (out: q31)
    requires 0 <= a && 0 <= seed
    ensures 0x4000_0000 <= a ==> RefinedQ31(a, seed, out)
    ensures a == 0 ==> (out == 0x7FFF_FFFF <==> seed > 0x2000_0000)
  {
    out := seed;
    for i := 0 to 2
      invariant out == RefineQ31(a, seed, i)
    {
      out := RecipStepQ31(a, out);
    }
    if 0x4000_0000 <= a {
      RefineQ31Law(a, seed);
    } else if a == 0 {
      RefineQ31OfZeroIff(seed);
    }
  }

  /** Reciprocal of a Q31 number; a is the normalised input, which the source holds in "in". */
  method RecipQ31(input: q31, recipTable: seq<q31>) returns (dst: q31, exponent: uint32, ghost a: int)
    requires 0 <= input
    requires |recipTable| == 64 && forall i :: 0 <= i < 64 ==> 0 <= recipTable[i]
    ensures 1 <= exponent <= 32 && a == input * Pow2(exponent - 1)
    ensures input > 0 ==> exponent <= 31 && 0x4000_0000 <= a < 0x8000_0000
    ensures input > 0 ==> RefinedQ31(a, recipTable[a / 0x100_0000 - 64], dst)
    ensures input == 0 ==> exponent == 32 && (dst == 0x7FFF_FFFF <==> recipTable[0] > 0x2000_0000)
  {
    hide Pow2, And, RefinedQ31, RefineQ31, ToInt32, ToUint32;
    Pow2Values();
    var shifted, signBits := Normalise(input, 32);
    Fits32(shifted);
    var x := ToInt32(shifted);
    Unsigned(x / 0x100_0000);
    var index := ToUint32(x / 0x100_0000);
    TableIndex(x / 0x100_0000);
    index := And(index, 0x3F);
    dst := RefineLoopQ31(x, recipTable[index]);
    exponent := signBits + 1;
    a := x;
  }

  /** The entry a recip table of 64 midpoint reciprocals holds at index. */
  function IdealSeedQ31(index: nat): (seed: q31)
    requires index < 64
    ensures 0 <= seed
  {
    0x40_0000_0000 / (129 + 2 * index)
  }

  /** Such a table meets the seed hypothesis for every normalised input, so the accuracy bound is not vacuous. */
  lemma IdealSeedQ31Suffices(a: q31)
    requires 0x4000_0000 <= a
    ensures var seed := IdealSeedQ31(a / 0x100_0000 - 64);
            -0x80_0000_0000_0000 <= Residual(0x4000_0000, a, seed) <= 0x80_0000_0000_0000
  {
    var m := 2 * (a / 0x100_0000) + 1;
    var seed := IdealSeedQ31(a / 0x100_0000 - 64);
    var delta := a - 0x80_0000 * m;
    SeedError(0x40_0000_0000, m, seed, 129, 255);
    ProductBound(delta, 0x80_0000, seed, 0x7FFF_FFFF);
    SplitProductOf(a, 0x80_0000, m, delta, seed);
  }

  /** floor(c / m) misses c / m by less than one. */
  lemma SeedError(c: int, m: int, seed: int, lo: int, hi: int)
    requires 0 < lo <= m <= hi && seed == c / m
    ensures 0 <= c - m * seed < hi
  {
  }

  lemma SplitProductOf(a: int, k: int, m: int, delta: int, seed: int)
    requires a == k * m + delta
    ensures a * seed == k * (m * seed) + delta * seed
  {
  }

  /** The loop body of arm_recip_q15; the product is taken in uint32 and the result cast without clipping. */
  function RecipStepQ15(a: q15, out: q15): q15
  {
    var tempVal := ToUint32(0x7FFF - ToUint32(a * out / 0x8000));
    ToInt16(ToUint32(ToUint32(out) * tempVal) / 0x4000)
  }

  /** On a normalised input the missing clip does no harm: no conversion changes a value. */
  lemma RecipStepQ15Lossless(a: q15, out: q15)
    requires 0x4000 <= a && 0 <= out
    ensures RecipStepQ15(a, out) == NewtonStep(0x4000, a, out) >= 0
  {
    NewtonBounds(0x4000, a, out);
    var u := 0x7FFF - a * out / 0x8000;
    MulOrder(out, 0, u);
    ProductBound(out, 0x7FFF, u, 0x7FFF);
    hide ToUint32, ToInt16;
    Unsigned(out);
    Unsigned(a * out / 0x8000);
    Unsigned(u);
    Unsigned(out * u);
    Fits16(out * u / 0x4000);
  }

  lemma Unsigned(v: int)
    requires 0 <= v < 0x1_0000_0000
    ensures ToUint32(v) == v
  {
  }

  function RefineQ15(a: q15, seed: q15, n: nat): q15
    requires 0 <= a
  {
    if n == 0 then seed else RecipStepQ15(a, RefineQ15(a, seed, n - 1))
  }

  /** Two passes on a normalised input: both casts are lossless and the result is accurate. */
  lemma RefineQ15Law(a: q15, seed: q15)
    requires 0x4000 <= a && 0 <= seed
    ensures RefineQ15(a, seed, 2) == NewtonStep(0x4000, a, NewtonStep(0x4000, a, seed))
    ensures 0 < Residual(0x4000, a, RefineQ15(a, seed, 2))
    ensures -0x80_0000 <= Residual(0x4000, a, seed) <= 0x80_0000 ==>
      Residual(0x4000, a, RefineQ15(a, seed, 2)) < 0x2_0000
  {
    var x1 := RefineQ15(a, seed, 1);
    assert x1 == RecipStepQ15(a, RefineQ15(a, seed, 0));
    RecipStepQ15Lossless(a, seed);
    RecipStepQ15Lossless(a, x1);
    NewtonBounds(0x4000, a, x1);
    if -0x80_0000 <= Residual(0x4000, a, seed) <= 0x80_0000 {
      StepQ15(a, seed, 0x80_0000);
      StepQ15(a, x1, 0x3_8000);
    }
  }

  /** Without the clip a zero input never saturates: the doubled seed wraps, and always misses the largest value. */
  lemma RefineQ15OfZero(seed: q15)
    requires 0 <= seed
    ensures RefineQ15(0, seed, 2) != 0x7FFF
  {
    hide RecipStepQ15;
    StepOfZeroQ15(seed);
    StepOfZeroQ15(RecipStepQ15(0, seed));
    assert RefineQ15(0, seed, 0) == seed;
    assert RefineQ15(0, seed, 1) == RecipStepQ15(0, seed);
  }

  lemma StepOfZeroQ15(out: q15)
    ensures RecipStepQ15(0, out) == ToInt16(out * 0x7FFF / 0x4000)
  {
    hide ToInt16;
    ProductOfZero(out);
    var v := out * 0x7FFF;
    ProductModulo32(out, v);
    if out < 0 {
      assert (v + 0x1_0000_0000) / 0x4000 == v / 0x4000 + 0x4_0000;
      FourLaps(v / 0x4000);
    }
  }

  lemma ProductOfZero(out: q15)
    ensures ToUint32(0x7FFF - ToUint32(0 * out / 0x8000)) == 0x7FFF
  {
  }

  lemma ProductModulo32(out: q15, v: int)
    requires v == out * 0x7FFF
    ensures ToUint32(ToUint32(out) * 0x7FFF) == if out < 0 then v + 0x1_0000_0000 else v
  {
    if out < 0 {
      var u := out + 0x1_0000_0000;
      DivModUnique(out, 0x1_0000_0000, -1, u);
      DivModUnique(u * 0x7FFF, 0x1_0000_0000, 0x7FFE, v + 0x1_0000_0000);
    } else {
      DivModUnique(out, 0x1_0000_0000, 0, out);
      DivModUnique(v, 0x1_0000_0000, 0, v);
    }
  }

  lemma FourLaps(v: int)
    ensures ToInt16(v + 0x4_0000) == ToInt16(v)
  {
    var u := v + 0x8000;
    DivModUnique(u + 0x4_0000, 0x1_0000, u / 0x1_0000 + 4, u % 0x1_0000);
  }

  /** A seed close to one comes back negative. */
  lemma RefineQ15OfZeroWraps()
    ensures RefineQ15(0, 0x7FFF, 2) == -8
  {
    hide RecipStepQ15, ToInt16;
    StepOfZeroQ15(0x7FFF);
    StepOfZeroQ15(-4);
    assert 0x7FFF * 0x7FFF / 0x4000 == 0xFFFC && -4 * 0x7FFF / 0x4000 == -8;
    CutToMinusFour();
    Fits16(-8);
    assert RefineQ15(0, 0x7FFF, 0) == 0x7FFF;
    assert RefineQ15(0, 0x7FFF, 1) == -4;
  }

  lemma CutToMinusFour()
    ensures ToInt16(0xFFFC) == -4
  {
  }

  /** The same at scale 2^14, for a seed within 2^23. */
  ghost predicate RefinedQ15(a: int, seed: q15, out: q15)
  {
    && out == NewtonStep(0x4000, a, NewtonStep(0x4000, a, seed))
    && 0 < Residual(0x4000, a, out)
    && (-0x80_0000 <= Residual(0x4000, a, seed) <= 0x80_0000 ==> Residual(0x4000, a, out) < 0x2_0000)
  }

  method RefineLoopQ15(a: q15, seed: q15) returns (out: q15)
    requires 0 <= a && 0 <= seed
    ensures 0x4000 <= a ==> RefinedQ15(a, seed, out)
    ensures a == 0 ==> out == RefineQ15(0, seed, 2) != 0x7FFF
  {
    out := seed;
    for i := 0 to 2
      invariant out == RefineQ15(a, seed, i)
    {
      out := RecipStepQ15(a, out);
    }
    if 0x4000 <= a {
      RefineQ15Law(a, seed);
    } else if a == 0 {
      RefineQ15OfZero(seed);
    }
  }

  /** Reciprocal of a Q15 number; a is the normalised input. */
  method RecipQ15(input: q15, recipTable: seq<q15>) returns (dst: q15, exponent: uint32, ghost a: int)
    requires 0 <= input
    requires |recipTable| == 64 && forall i :: 0 <= i < 64 ==> 0 <= recipTable[i]
    ensures 1 <= exponent <= 16 && a == input * Pow2(exponent - 1)
    ensures input > 0 ==> exponent <= 15 && 0x4000 <= a < 0x8000
    ensures input > 0 ==> RefinedQ15(a, recipTable[a / 0x100 - 64], dst)
    ensures input == 0 ==> exponent == 16 && dst == RefineQ15(0, recipTable[0], 2) != 0x7FFF
  {
    hide Pow2, And, RefinedQ15, RefineQ15, ToInt16, ToUint32;
    Pow2Values();
    var shifted, signBits := Normalise(input, 16);
    Fits16(shifted);
    var x := ToInt16(shifted);
    Unsigned(x / 0x100);
    var index := ToUint32(x / 0x100);
    TableIndex(x / 0x100);
    index := And(index, 0x3F);
    dst := RefineLoopQ15(x, recipTable[index]);
    exponent := signBits + 1;
    a := x;
  }

  function IdealSeedQ15(index: nat): (seed: q15)
    requires index < 64
    ensures 0 <= seed
  {
    0x40_0000 / (129 + 2 * index)
  }

  lemma IdealSeedQ15Suffices(a: q15)
    requires 0x4000 <= a
    ensures var seed := IdealSeedQ15(a / 0x100 - 64);
            -0x80_0000 <= Residual(0x4000, a, seed) <= 0x80_0000
  {
    var m := 2 * (a / 0x100) + 1;
    var seed := IdealSeedQ15(a / 0x100 - 64);
    var delta := a - 0x80 * m;
    SeedError(0x40_0000, m, seed, 129, 255);
    ProductBound(delta, 0x80, seed, 0x7FFF);
    SplitProductOf(a, 0x80, m, delta, seed);
  }
}
