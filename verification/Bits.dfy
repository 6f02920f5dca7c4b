/** Powers of two and bitwise "and" on natural numbers, with the masks the modelled code applies. */
module Bits {

  function Pow2(n: nat): (p: int)
    ensures p > 0
  {
    if n == 0 then 1 else 2 * Pow2(n - 1)
  }

  /** Bitwise "and", one bit at a time from the least significant end. */
  function And(x: nat, y: nat): nat
  {
    if x == 0 || y == 0 then 0
    else (if x % 2 == 1 && y % 2 == 1 then 1 else 0) + 2 * And(x / 2, y / 2)
  }

  /** The k least significant bits of x. */
  function LowBits(x: nat, k: nat): nat
  {
    if k == 0 then 0 else x % 2 + 2 * LowBits(x / 2, k - 1)
  }

  /** x without its k least significant bits. */
  function DropBits(x: nat, k: nat): nat
  {
    if k == 0 then x else DropBits(x / 2, k - 1)
  }

  lemma {:induction false} LowBitsBound(x: nat, k: nat)
    ensures LowBits(x, k) < Pow2(k)
  {
    if k > 0 {
      LowBitsBound(x / 2, k - 1);
    }
  }

  lemma {:induction false} SplitBits(x: nat, k: nat)
    ensures x == Pow2(k) * DropBits(x, k) + LowBits(x, k)
  {
    if k > 0 {
      SplitBits(x / 2, k - 1);
      DoubleProduct(Pow2(k - 1), DropBits(x / 2, k - 1));
    }
  }

  lemma DoubleProduct(a: int, b: int)
    ensures (2 * a) * b == 2 * (a * b)
  {
  }

  /** The low bits are the remainder modulo a power of two. */
  lemma LowBitsIsMod(x: nat, k: nat)
    ensures LowBits(x, k) == x % Pow2(k)
  {
    hide Pow2, LowBits, DropBits;
    SplitBits(x, k);
    LowBitsBound(x, k);
    DivModUnique(x, Pow2(k), DropBits(x, k), LowBits(x, k));
  }

  /** A quotient and remainder are determined by x == d * q + r with 0 <= r < d. */
  lemma DivModUnique(x: int, d: int, q: int, r: int)
    requires 0 <= r < d
    requires x == d * q + r
    ensures x / d == q && x % d == r
  {
    var q', r' := x / d, x % d;
    assert x == d * q' + r';
    assert d * (q - q') == r' - r;
    if q > q' {
      MulOrder(d, 1, q - q');
    } else if q < q' {
      MulOrder(d, q - q', -1);
    }
  }

  lemma MulOrder(d: int, a: int, b: int)
    requires d >= 0 && a <= b
    ensures d * a <= d * b
  {
  }

  lemma NonNegativeSquare(x: int)
    ensures 0 <= x * x
  {
  }

  lemma AndStep(x: nat, y: nat)
    ensures And(x, y) == (if x % 2 == 1 && y % 2 == 1 then 1 else 0) + 2 * And(x / 2, y / 2)
  {
  }

  /** Masking with 2^k - 1 keeps the k low bits. */
  lemma {:induction false} AndLowMask(x: nat, k: nat)
    ensures And(x, Pow2(k) - 1) == LowBits(x, k)
    decreases k
  {
    if k > 0 {
      AndOddMask(x, Pow2(k - 1) - 1);
      AndLowMask(x / 2, k - 1);
    }
  }

  /** Masking an n-bit number with 2^n - 2^k clears its k low bits. */
  lemma {:induction false} AndHighMask(x: nat, n: nat, k: nat)
    requires k <= n && x < Pow2(n)
    ensures Pow2(k) <= Pow2(n)
    ensures And(x, Pow2(n) - Pow2(k)) == x - LowBits(x, k)
    decreases n
  {
    hide And;
    Pow2Order(k, n);
    if k == 0 {
      hide Pow2, LowBits;
      AndLowMask(x, n);
      LowBitsIsMod(x, n);
      DivModUnique(x, Pow2(n), 0, x);
      Pow2Zero(x);
    } else {
      var a, b := Pow2(n - 1), Pow2(k - 1);
      Pow2Order(k - 1, n - 1);
      AndHighMask(x / 2, n - 1, k - 1);
      AndEvenMask(x, a - b);
      assert LowBits(x, k) == x % 2 + 2 * LowBits(x / 2, k - 1);
    }
  }

  lemma AndEvenMask(x: nat, m: nat)
    ensures And(x, 2 * m) == 2 * And(x / 2, m)
  {
    AndStep(x, 2 * m);
    hide And;
    assert (2 * m) % 2 == 0 && (2 * m) / 2 == m;
  }

  lemma AndOddMask(x: nat, m: nat)
    ensures And(x, 2 * m + 1) == x % 2 + 2 * And(x / 2, m)
  {
    AndStep(x, 2 * m + 1);
    hide And;
    assert (2 * m + 1) % 2 == 1 && (2 * m + 1) / 2 == m;
  }

  lemma Pow2Zero(x: nat)
    ensures Pow2(0) == 1 && LowBits(x, 0) == 0
  {
  }

  /** Masking a (k+1)-bit number with 2^k isolates its top bit. */
  lemma {:induction false} AndTopBit(x: nat, k: nat)
    requires x < 2 * Pow2(k)
    ensures And(x, Pow2(k)) == if x < Pow2(k) then 0 else Pow2(k)
    decreases k
  {
    if k == 0 {
      AndStep(x, 1);
    } else {
      assert Pow2(k) == 2 * Pow2(k - 1);
      AndEvenMask(x, Pow2(k - 1));
      AndTopBit(x / 2, k - 1);
    }
  }

  lemma {:induction false} Pow2Order(k: nat, n: nat)
    requires k <= n
    ensures Pow2(k) <= Pow2(n)
    decreases n
  {
    if k < n {
      Pow2Order(k, n - 1);
    }
  }

  lemma {:induction false} Pow2Add(m: nat, n: nat)
    ensures Pow2(m + n) == Pow2(m) * Pow2(n)
  {
    if m > 0 {
      Pow2Add(m - 1, n);
      DoubleProduct(Pow2(m - 1), Pow2(n));
    }
  }

  /** The powers of two that occur as word sizes and field widths. */
  lemma Pow2Values()
    ensures Pow2(6) == 0x40
    ensures Pow2(14) == 0x4000 && Pow2(15) == 0x8000 && Pow2(16) == 0x1_0000 && Pow2(20) == 0x10_0000
    ensures Pow2(30) == 0x4000_0000 && Pow2(31) == 0x8000_0000 && Pow2(32) == 0x1_0000_0000
  {
    assert Pow2(6) == 0x40;
    assert Pow2(14) == 0x4000 by { Pow2Add(7, 7); }
    assert Pow2(16) == 2 * Pow2(15);
    assert Pow2(20) == 0x10_0000 by { Pow2Add(6, 14); }
    assert Pow2(30) == 0x4000_0000 by { Pow2Add(16, 14); }
    assert Pow2(32) == 2 * Pow2(31);
  }
}
