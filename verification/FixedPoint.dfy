/**
 * The fixed-point integer types, C's narrowing conversions, and the saturating primitives.
 * A right shift by k is floor division by 2^k; every divisor is positive, so Dafny's "/" is that floor.
 */
module FixedPoint {
  import opened Bits

  type q7 = x: int | -0x80 <= x < 0x80
  type q15 = x: int | -0x8000 <= x < 0x8000
  type q31 = x: int | -0x8000_0000 <= x < 0x8000_0000
  type q63 = x: int | -0x8000_0000_0000_0000 <= x < 0x8000_0000_0000_0000
  type uint16 = x: int | 0 <= x < 0x1_0000
  type uint32 = x: int | 0 <= x < 0x1_0000_0000
  type uint64 = x: int | 0 <= x < 0x1_0000_0000_0000_0000

  // C's conversions to a narrower two's complement type keep the low bits.

  function ToInt8(x: int): q7 { (x + 0x80) % 0x100 - 0x80 }

  function ToInt16(x: int): q15 { (x + 0x8000) % 0x1_0000 - 0x8000 }

  function ToInt32(x: int): q31 { (x + 0x8000_0000) % 0x1_0000_0000 - 0x8000_0000 }

  function ToInt64(x: int): q63 {
    (x + 0x8000_0000_0000_0000) % 0x1_0000_0000_0000_0000 - 0x8000_0000_0000_0000
  }

  function ToUint16(x: int): uint16 { x % 0x1_0000 }

  function ToUint32(x: int): uint32 { x % 0x1_0000_0000 }

  function ToUint64(x: int): uint64 { x % 0x1_0000_0000_0000_0000 }

  // A value in range survives its conversion.

  lemma Fits8(v: int)
    requires -0x80 <= v < 0x80
    ensures ToInt8(v) == v
  {
  }

  lemma Fits16(v: int)
    requires -0x8000 <= v < 0x8000
    ensures ToInt16(v) == v
  {
  }

  lemma Fits32(v: int)
    requires -0x8000_0000 <= v < 0x8000_0000
    ensures ToInt32(v) == v
  {
  }

  /** The value of [lo, hi] nearest to x. */
  function Clamp(x: int, lo: int, hi: int): int
    requires lo <= hi
  {
    if x < lo then lo else if x > hi then hi else x
  }

  /** Exclusive or of v with a word of all zeros (0) or all ones (-1). */
  function XorSign(v: int, sign: int): int
    requires sign == 0 || sign == -1
  {
    if sign == 0 then v else -1 - v
  }

  /** The high-word test decides exactly whether x fits, so this is the plain clamp to 32 bits. */
  function ClipQ63ToQ31(x: q63): (r: q31)
    ensures r == Clamp(x, -0x8000_0000, 0x7FFF_FFFF)
  {
    if ToInt32(x / 0x1_0000_0000) != ToInt32(x) / 0x8000_0000
    then XorSign(0x7FFF_FFFF, x / 0x8000_0000_0000_0000)
    else ToInt32(x)
  }

  function ClipQ31ToQ15(x: q31): (r: q15)
    ensures r == Clamp(x, -0x8000, 0x7FFF)
  {
    if x / 0x1_0000 != x / 0x8000
    then XorSign(0x7FFF, x / 0x8000_0000)
    else ToInt16(x)
  }

  /** Tests whether x fits 24 bits, then keeps its low 8. */
  function ClipQ31ToQ7(x: q31): q7
  {
    if x / 0x100_0000 != x / 0x80_0000
    then XorSign(0x7F, x / 0x8000_0000)
    else ToInt8(x)
  }

  /** Tests whether x fits 32 bits, then keeps 16 bits of x >> 15. */
  function ClipQ63ToQ15(x: q63): q15
  {
    if ToInt32(x / 0x1_0000_0000) != ToInt32(x) / 0x8000_0000
    then XorSign(0x7FFF, x / 0x8000_0000_0000_0000)
    else ToInt16(x / 0x8000)
  }

  /** The Q31 to Q7 clip is a clamp exactly outside the band where x fits 24 bits but not 8. */
  lemma ClipQ31ToQ7ClampsIff(x: q31)
    ensures ClipQ31ToQ7(x) == Clamp(x, -0x80, 0x7F)
            <==> (-0x80 <= x <= 0x7F || x < -0x80_0000 || x >= 0x80_0000
                  || x % 0x100 == (if x < 0 then 0x80 else 0x7F))
  {
    Fits24Test(x);
    if -0x80_0000 <= x < 0x80_0000 {
      LowByte(x);
      hide ToInt8;
    }
  }

  lemma Fits24Test(x: q31)
    ensures x / 0x100_0000 == x / 0x80_0000 <==> -0x80_0000 <= x < 0x80_0000
  {
  }

  lemma LowByte(x: q31)
    ensures -0x80 <= x < 0x80 ==> ToInt8(x) == x
    ensures ToInt8(x) == 0x7F <==> x % 0x100 == 0x7F
    ensures ToInt8(x) == -0x80 <==> x % 0x100 == 0x80
  {
  }

  /** A value in that band which the clip gets wrong. */
  lemma ClipQ31ToQ7Wraps()
    ensures ClipQ31ToQ7(0x100) == 0 != Clamp(0x100, -0x80, 0x7F)
  {
  }

  /** The Q63 to Q15 clip is a clamp of x >> 15 exactly outside the band where x fits 32 bits but not 31. */
  lemma ClipQ63ToQ15ClampsIff(x: q63)
    ensures ClipQ63ToQ15(x) == Clamp(x / 0x8000, -0x8000, 0x7FFF)
            <==> -0x4000_0000 <= x < 0x4000_0000 || x < -0x8000_0000 || x >= 0x8000_0000
  {
    FitsTest(x);
    hide ToInt32;
  }

  /** The high word is the sign of the low word exactly when the value fits 32 bits. */
  lemma FitsTest(x: q63)
    ensures ToInt32(x / 0x1_0000_0000) == ToInt32(x) / 0x8000_0000 <==> -0x8000_0000 <= x < 0x8000_0000
  {
  }

  /** A value in that band. */
  lemma ClipQ63ToQ15Wraps()
    ensures ClipQ63ToQ15(0x4000_0000) == -0x8000 != Clamp(0x4000_0000 / 0x8000, -0x8000, 0x7FFF)
  {
  }

  /** 32 x 64 bit product: the low word is multiplied unsigned, the high word signed. */
  function Mult32x64(x: q63, y: q31): (r: q63)
    ensures r == (x * y) / 0x1_0000_0000
  {
    Pow2Values();
    AndLowMask(ToUint64(x), 32);
    LowBitsIsMod(ToUint64(x), 32);
    SplitProduct(x, y);
    And(ToUint64(x), 0xFFFF_FFFF) * y / 0x1_0000_0000 + (x / 0x1_0000_0000) * y
  }

  lemma SplitProduct(x: q63, y: q31)
    ensures ToUint64(x) % 0x1_0000_0000 == x % 0x1_0000_0000
    ensures -0x8000_0000_0000_0000 <= (x % 0x1_0000_0000) * y < 0x8000_0000_0000_0000
    ensures -0x4000_0000_0000_0000 <= (x / 0x1_0000_0000) * y <= 0x4000_0000_0000_0000
    ensures (x % 0x1_0000_0000) * y / 0x1_0000_0000 + (x / 0x1_0000_0000) * y == (x * y) / 0x1_0000_0000
  {
    LowWord(x);
    hide ToUint64;
    var lo, hi := x % 0x1_0000_0000, x / 0x1_0000_0000;
    ProductBound(lo, 0xFFFF_FFFF, y, 0x8000_0000);
    ProductBound(hi, 0x8000_0000, y, 0x8000_0000);
    SplitSum(x, lo, hi, y);
    DivShift(hi * y, lo * y);
    assert x * y / 0x1_0000_0000 == hi * y + lo * y / 0x1_0000_0000;
  }

  lemma LowWord(x: q63)
    ensures ToUint64(x) % 0x1_0000_0000 == x % 0x1_0000_0000
  {
  }

  lemma SplitSum(x: int, lo: int, hi: int, y: int)
    requires x == 0x1_0000_0000 * hi + lo
    ensures x * y == 0x1_0000_0000 * (hi * y) + lo * y
  {
  }

  lemma DivShift(a: int, b: int)
    ensures (0x1_0000_0000 * a + b) / 0x1_0000_0000 == a + b / 0x1_0000_0000
  {
  }

  /** The product of two values of bounded magnitude. */
  lemma ProductBound(a: int, m: int, b: int, n: int)
    requires -m <= a <= m && -n <= b <= n
    ensures -(m * n) <= a * b <= m * n
  {
    var a', b' := if a < 0 then -a else a, if b < 0 then -b else b;
    MulOrder(a', b', n);
    MulOrder(n, a', m);
    assert a' * b' == a * b || a' * b' == -(a * b);
  }

  /** Saturating addition. */
  function QAdd(x: q31, y: q31): (r: q31)
    ensures r == Clamp(x + y, -0x8000_0000, 0x7FFF_FFFF)
  {
    ClipQ63ToQ31(x + y)
  }

  /** Saturating subtraction. */
  function QSub(x: q31, y: q31): (r: q31)
    ensures r == Clamp(x - y, -0x8000_0000, 0x7FFF_FFFF)
  {
    ClipQ63ToQ31(x - y)
  }

  /** Signed saturation to sat bits; a width outside 1..32 leaves the value alone. */
  function Ssat(val: q31, sat: nat): (r: int)
    ensures 1 <= sat <= 32 ==> r == Clamp(val, -Pow2(sat - 1), Pow2(sat - 1) - 1)
    ensures !(1 <= sat <= 32) ==> r == val
  {
    if 1 <= sat <= 32 then
      var max := Pow2(sat - 1) - 1;
      var min := -1 - max;
      if val > max then max else if val < min then min else val
    else val
  }

  /** Saturation neither reverses nor widens a difference. */
  lemma ClampNonExpansive(x: int, y: int, lo: int, hi: int)
    requires lo <= hi && x <= y
    ensures 0 <= Clamp(y, lo, hi) - Clamp(x, lo, hi) <= y - x
  {
  }

  /** Both saturating operations are monotone and non-expansive in each argument (antitone in a subtrahend). */
  lemma SaturatingOpsNonExpansive(x: q31, x': q31, y: q31)
    requires x <= x'
    ensures 0 <= QAdd(x', y) - QAdd(x, y) <= x' - x
    ensures 0 <= QAdd(y, x') - QAdd(y, x) <= x' - x
    ensures 0 <= QSub(x', y) - QSub(x, y) <= x' - x
    ensures 0 <= QSub(y, x) - QSub(y, x') <= x' - x
  {
    hide QAdd, QSub, Clamp;
    var lo, hi := -0x8000_0000, 0x7FFF_FFFF;
    ClampNonExpansive(x + y, x' + y, lo, hi);
    ClampNonExpansive(x - y, x' - y, lo, hi);
    ClampNonExpansive(y - x', y - x, lo, hi);
    assert QAdd(y, x) == QAdd(x, y) && QAdd(y, x') == QAdd(x', y);
  }
}
