/** When the slots of a strided write are distinct, and so when a read gets the samples back. */
module CircularLaws {
  import opened Bits
  import opened OrderedStores
  import opened CircularBuffer

  // ---------------------------------------------------------------- greatest common divisors

  function Gcd(a: nat, b: nat): (g: nat)
    requires a > 0 || b > 0
    ensures g > 0
    decreases b
  {
    if b == 0 then a else Gcd(b, a % b)
  }

  /** The cofactors and the Bezout coefficients of the greatest common divisor. */
  lemma {:induction false} Bezout(a: nat, b: nat) returns (p: nat, q: nat, u: int, v: int)
    requires a > 0 || b > 0
    ensures a == Gcd(a, b) * p && b == Gcd(a, b) * q
    ensures u * a + v * b == Gcd(a, b)
    decreases b
  {
    if b == 0 {
      p, q, u, v := 1, 0, 1, 0;
    } else {
      var t, r := a / b, a % b;
      var p', q', u', v' := Bezout(b, r);
      u, v := v', u' - v' * t;
      assert a == b * t + r && t >= 0;
      p, q := Combine(a, b, t, r, Gcd(b, r), p', q', u', v');
    }
  }

  lemma Combine(a: nat, b: nat, t: nat, r: nat, g: nat, p: nat, q: nat, u: int, v: int) returns (p': nat, q': nat)
    requires a == b * t + r && b == g * p && r == g * q && u * b + v * r == g
    ensures a == g * p' && b == g * q' && v * a + (u - v * t) * b == g
  {
    p', q' := t * p + q, p;
    assert v * a == v * (b * t) + v * r;
    assert (u - v * t) * b == u * b - v * (b * t);
    assert b * t == g * (t * p);
  }

  /** A common divisor divides the greatest one. */
  lemma GcdGreatest(a: nat, b: nat, d: nat, m: nat, n: nat)
    requires a > 0 || b > 0
    requires a == d * m && b == d * n
    ensures d <= Gcd(a, b)
  {
    hide Gcd;
    var p, q, u, v := Bezout(a, b);
    var w := u * m + v * n;
    CommonFactor(d, m, n, u, v);
    if w <= 0 {
      MulOrder(d, w, 0);
    } else {
      MulOrder(d, 1, w);
    }
  }

  lemma CommonFactor(d: int, m: int, n: int, u: int, v: int)
    ensures u * (d * m) + v * (d * n) == d * (u * m + v * n)
  {
  }

  predicate Divides(d: nat, a: nat)
    requires d > 0
  {
    a % d == 0
  }

  ghost predicate Coprime(a: nat, b: nat)
  {
    forall d: nat :: d > 0 && Divides(d, a) && Divides(d, b) ==> d == 1
  }

  /** The remainder algorithm decides whether two numbers share a divisor. */
  lemma CoprimeIff(a: nat, b: nat)
    requires a > 0 || b > 0
    ensures Coprime(a, b) <==> Gcd(a, b) == 1
  {
    hide Gcd;
    var p, q, u, v := Bezout(a, b);
    DivModUnique(a, Gcd(a, b), p, 0);
    DivModUnique(b, Gcd(a, b), q, 0);
    assert Divides(Gcd(a, b), a) && Divides(Gcd(a, b), b);
    forall d: nat | d > 0 && Divides(d, a) && Divides(d, b)
      ensures d <= Gcd(a, b)
    {
      GcdGreatest(a, b, d, a / d, b / d);
    }
  }

  // ---------------------------------------------------------------- coinciding slots

  /** The number of passes after which the slots repeat. */
  function Period(L: int, inc: int): (p: int)
    requires L > 0 && inc >= 0
    ensures p >= 1 && p * Gcd(inc, L) == L
  {
    PeriodExact(L, inc);
    L / Gcd(inc, L)
  }

  lemma PeriodExact(L: int, inc: int)
    requires L > 0 && inc >= 0
    ensures var p := L / Gcd(inc, L); p >= 1 && p * Gcd(inc, L) == L
  {
    var w, p, u, v := Bezout(inc, L);
    var g := Gcd(inc, L);
    DivModUnique(L, g, p, 0);
    if p <= 0 {
      MulOrder(g, p, 0);
    }
  }

  /** The number of laps completed before pass k. */
  lemma Laps(L: int, start: int, inc: int, k: int) returns (z: int)
    requires L > 0
    ensures start + k * inc == L * z + Slot(L, start, inc, k)
  {
    z := (start + k * inc) / L;
  }

  lemma SlotAfterLaps(L: int, start: int, inc: int, k: int, z: int, slot: int)
    requires 0 <= slot < L && start + k * inc == L * z + slot
    ensures Slot(L, start, inc, k) == slot
  {
    DivModUnique(start + k * inc, L, z, slot);
  }

  /** Two passes hit the same slot exactly when they are a multiple of the period apart. */
  lemma SlotsCoincideIff(L: int, start: int, inc: int, a: int, b: int)
    requires L > 0 && inc >= 0
    ensures Slot(L, start, inc, a) == Slot(L, start, inc, b) <==> (b - a) % Period(L, inc) == 0
  {
    hide Slot, Gcd, Period;
    var g, p := Gcd(inc, L), Period(L, inc);
    var w, q, u, v := Bezout(inc, L);
    var d, slot := b - a, Slot(L, start, inc, a);
    var za := Laps(L, start, inc, a);
    var zb := Laps(L, start, inc, b);
    assert b * inc - a * inc == d * inc;
    if slot == Slot(L, start, inc, b) {
      assert d * inc == L * (zb - za);
      CancelGcd(d, inc, L, g, p, zb - za, u, v);
      DivModUnique(d, p, u * (zb - za) + d * v, 0);
    }
    if d % p == 0 {
      var t := d / p;
      PeriodJump(d, inc, L, g, p, t, w);
      assert L * (za + t * w) == L * za + L * (t * w);
      SlotAfterLaps(L, start, inc, b, za + t * w, slot);
    }
  }

  lemma PeriodJump(d: int, inc: int, L: int, g: int, p: int, t: int, w: int)
    requires p > 0 && d % p == 0 && t == d / p && inc == g * w && p * g == L
    ensures d * inc == L * (t * w)
  {
    assert d == p * t;
    assert (p * t) * (g * w) == (p * g) * (t * w);
  }

  lemma CancelGcd(d: int, inc: int, L: int, g: int, p: int, m: int, u: int, v: int)
    requires d * inc == L * m && u * inc + v * L == g && p * g == L && g > 0
    ensures d == p * (u * m + d * v)
  {
    assert d * g == u * (d * inc) + (d * v) * L;
    assert d * g == g * (p * (u * m + d * v)) by {
      assert u * (L * m) + (d * v) * L == L * (u * m + d * v);
      assert (p * g) * (u * m + d * v) == g * (p * (u * m + d * v));
    }
    CancelFactor(g, d, p * (u * m + d * v));
  }

  lemma CancelFactor(g: int, x: int, y: int)
    requires g > 0 && x * g == g * y
    ensures x == y
  {
    if x < y {
      MulOrder(g, x + 1, y);
    } else if x > y {
      MulOrder(g, y + 1, x);
    }
  }

  /** The slots of n passes are pairwise distinct exactly up to the period. */
  lemma SlotsDistinctIff(L: int, start: int, inc: int, n: nat)
    requires L > 0 && inc >= 0
    ensures (forall a, b :: 0 <= a < b < n ==> Slot(L, start, inc, a) != Slot(L, start, inc, b))
            <==> n <= Period(L, inc)
  {
    var p := Period(L, inc);
    if n <= p {
      forall a, b | 0 <= a < b < n
        ensures Slot(L, start, inc, a) != Slot(L, start, inc, b)
      {
        SlotsCoincideIff(L, start, inc, a, b);
        DivModUnique(b - a, p, 0, b - a);
      }
    } else {
      SlotsCoincideIff(L, start, inc, 0, p);
      DivModUnique(p, p, 1, 0);
      assert Slot(L, start, inc, 0) == Slot(L, start, inc, p);
    }
  }

  /** A full lap returns the offset to its start, whatever the stride. */
  lemma FullLapReturns(L: int, start: int, inc: int)
    requires 0 <= start < L
    ensures Slot(L, start, inc, L) == start
  {
    DivModUnique(start + L * inc, L, inc, start);
  }

  /** Some pass of the first lap hits slot j. */
  ghost predicate Filled(L: int, start: int, inc: int, j: int)
    requires L > 0
  {
    exists k :: 0 <= k < L && Slot(L, start, inc, k) == j
  }

  /** A full lap fills every slot exactly when no number above one divides both the stride and the length. */
  lemma FullLapFillsIff(L: int, start: int, inc: int)
    requires 0 <= start < L && inc >= 0
    ensures (forall j :: 0 <= j < L ==> Filled(L, start, inc, j)) <==> Coprime(inc, L)
  {
    hide Coprime;
    CoprimeIff(inc, L);
    if Gcd(inc, L) == 1 {
      forall j | 0 <= j < L
        ensures Filled(L, start, inc, j)
      {
        var k := PassReaching(L, start, inc, j);
      }
    } else {
      NeighbourMissed(L, start, inc);
    }
  }

  lemma PassReaching(L: int, start: int, inc: int, j: int) returns (k: int)
    requires 0 <= start < L && inc >= 0 && Gcd(inc, L) == 1 && 0 <= j < L
    ensures 0 <= k < L && Slot(L, start, inc, k) == j
  {
    hide Slot, Gcd;
    var w, q, u, v := Bezout(inc, L);
    var d := j - start;
    var e := d * u;
    k := e % L;
    var t := e / L;
    ReachingAlgebra(L, inc, d, u, v, e, t, k);
    SlotAfterLaps(L, start, inc, k, -d * v - t * inc, j);
  }

  lemma ReachingAlgebra(L: int, inc: int, d: int, u: int, v: int, e: int, t: int, k: int)
    requires L > 0 && u * inc + v * L == 1 && e == d * u && t == e / L && k == e % L
    ensures k * inc == L * (-d * v - t * inc) + d
  {
    assert k == e - L * t;
    assert k * inc == e * inc - L * (t * inc);
    assert e * inc == d * (u * inc);
    assert d * (u * inc) == d * (1 - v * L) == d - L * (d * v);
    assert L * (-d * v - t * inc) == -(L * (d * v)) - L * (t * inc);
  }

  lemma NeighbourMissed(L: int, start: int, inc: int)
    requires 0 <= start < L && inc >= 0 && Gcd(inc, L) != 1
    ensures !Filled(L, start, inc, Slot(L, start + 1, inc, 0))
  {
    hide Slot, Gcd;
    var g := Gcd(inc, L);
    var w, p, u, v := Bezout(inc, L);
    var zn := Laps(L, start + 1, inc, 0);
    forall k | 0 <= k < L
      ensures Slot(L, start, inc, k) != Slot(L, start + 1, inc, 0)
    {
      if Slot(L, start, inc, k) == Slot(L, start + 1, inc, 0) {
        var zk := Laps(L, start, inc, k);
        assert L * zn - L * zk == L * (zn - zk);
        OneAsMultiple(g, k, w, p, zn - zk, inc, L);
        FactorOfOne(g, k * w + p * (zn - zk));
        assert false;
      }
    }
  }

  lemma OneAsMultiple(g: int, k: int, w: int, p: int, m: int, inc: int, L: int)
    requires inc == g * w && L == g * p && 1 - k * inc == L * m
    ensures g * (k * w + p * m) == 1
  {
    assert g * (k * w) == k * inc;
    assert g * (p * m) == L * m;
    assert g * (k * w + p * m) == g * (k * w) + g * (p * m);
  }

  lemma FactorOfOne(g: int, c: int)
    requires g > 1
    ensures g * c != 1
  {
    if c <= 0 {
      MulOrder(g, c, 0);
    } else {
      MulOrder(g, 1, c);
    }
  }

  // ---------------------------------------------------------------- write, then read

  /** Samples that differ only where their passes hit different slots. */
  ghost predicate PeriodicIn<T>(xs: seq<T>, period: int)
    requires period >= 1
  {
    forall a, b :: 0 <= a < b < |xs| && (b - a) % period == 0 ==> xs[a] == xs[b]
  }

  /** Reading the slots just written returns the samples exactly when samples that share a slot agree. */
  lemma ReadBackIff<T>(buf: seq<T>, L: int, start: int, inc: int, xs: seq<T>)
    requires 0 < L <= |buf| && inc >= 0
    ensures Fetched(Stored(buf, Slots(L, start, inc, |xs|), xs), L, start, inc, |xs|) == xs
            <==> PeriodicIn(xs, Period(L, inc))
  {
    var at := Slots(L, start, inc, |xs|);
    var out := Fetched(Stored(buf, at, xs), L, start, inc, |xs|);
    if PeriodicIn(xs, Period(L, inc)) {
      forall a | 0 <= a < |xs|
        ensures out[a] == xs[a]
      {
        var k := LastWriter(buf, at, xs, a);
        SlotsCoincideIff(L, start, inc, a, k);
      }
    }
    if out == xs {
      forall a, b | 0 <= a < b < |xs| && (b - a) % Period(L, inc) == 0
        ensures xs[a] == xs[b]
      {
        SlotsCoincideIff(L, start, inc, a, b);
      }
    }
  }

  lemma ShortBlockPeriodic<T>(xs: seq<T>, period: int)
    requires period >= 1 && |xs| <= period
    ensures PeriodicIn(xs, period)
  {
    forall a, b | 0 <= a < b < |xs|
      ensures (b - a) % period == 0 ==> xs[a] == xs[b]
    {
      DivModUnique(b - a, period, 0, b - a);
    }
  }

  /** In particular every block no longer than the period, so every block of at most L samples on a coprime stride. */
  lemma ReadBack<T>(buf: seq<T>, L: int, start: int, inc: int, xs: seq<T>)
    requires 0 < L <= |buf| && inc >= 0 && |xs| <= Period(L, inc)
    ensures Fetched(Stored(buf, Slots(L, start, inc, |xs|), xs), L, start, inc, |xs|) == xs
  {
    assert PeriodicIn(xs, Period(L, inc)) by {
      ShortBlockPeriodic(xs, Period(L, inc));
    }
    ReadBackIff(buf, L, start, inc, xs);
  }

  lemma {:induction false} UnitPositions(base: int, length: int, n: nat)
    requires n < length
    ensures DstPosition(base, length, base, 1, n) == base + n
  {
    if n > 0 {
      UnitPositions(base, length, n - 1);
    }
  }

  /** Samples stored in a unit-stride destination that is long enough come out in order from its base. */
  lemma {:induction false} StoredInOrder<T>(dst: seq<T>, base: nat, length: nat, xs: seq<T>)
    requires |xs| <= length && base + |xs| <= |dst|
    ensures forall k :: 0 <= k < |xs| ==> DstPositions(base, length, base, 1, |xs|)[k] == base + k
    ensures Stored(dst, DstPositions(base, length, base, 1, |xs|), xs)[base..base + |xs|] == xs
  {
    var at := DstPositions(base, length, base, 1, |xs|);
    forall k | 0 <= k < |xs|
      ensures at[k] == base + k
    {
      UnitPositions(base, length, k);
    }
    forall k | 0 <= k < |xs|
      ensures Stored(dst, at, xs)[base + k] == xs[k]
    {
      LastWriterWins(dst, at, xs, base + k);
    }
  }

  /** Write a block, read it back into a linear destination: the destination holds the block. */
  lemma WriteThenRead<T>(buf: seq<T>, L: int, start: int, inc: int, xs: seq<T>, dst: seq<T>, base: nat, length: nat)
    requires 0 < L <= |buf| && inc >= 0 && |xs| <= Period(L, inc)
    requires |xs| <= length && base + |xs| <= |dst|
    ensures forall k :: 0 <= k < |xs| ==> DstPositions(base, length, base, 1, |xs|)[k] == base + k
    ensures
      var written := Stored(buf, Slots(L, start, inc, |xs|), xs);
      Stored(dst, DstPositions(base, length, base, 1, |xs|), Fetched(written, L, start, inc, |xs|))[base..base + |xs|]
      == xs
  {
    ReadBack(buf, L, start, inc, xs);
    StoredInOrder(dst, base, length, xs);
  }
}
