/**
 * Where a circular read puts its samples. The destination pointer goes back to its base only when it lands exactly
 * on the end, so a stride decides between running on, lapping, and lapping once.
 */
module DestinationWrap {
  import opened Bits
  import opened OrderedStores
  import opened CircularBuffer

  /** The positions are those of a pointer that never wraps exactly when that pointer never lands on the end. */
  lemma RunsOnIff(base: int, length: int, start: int, inc: int, n: nat)
    requires length != 0
    ensures (forall k :: 0 <= k <= n ==> DstPosition(base, length, start, inc, k) == start + k * inc)
            <==> (forall k :: 1 <= k <= n ==> start + k * inc != base + length)
  {
    if forall k :: 1 <= k <= n ==> start + k * inc != base + length {
      forall k | 0 <= k <= n
        ensures DstPosition(base, length, start, inc, k) == start + k * inc
      {
        RunsOn(base, length, start, inc, k);
      }
    } else {
      var k :| 1 <= k <= n && start + k * inc == base + length;
      StrideStep(k - 1, inc);
      DstStep(base, length, start, inc, k - 1);
      var j := if DstPosition(base, length, start, inc, k - 1) == start + (k - 1) * inc then k else k - 1;
      assert 0 <= j <= n && DstPosition(base, length, start, inc, j) != start + j * inc;
    }
  }

  lemma DstStep(base: int, length: int, start: int, inc: int, k: nat)
    ensures
      var next := DstPosition(base, length, start, inc, k) + inc;
      DstPosition(base, length, start, inc, k + 1) == if next == base + length then base else next
  {
  }

  lemma {:induction false} RunsOn(base: int, length: int, start: int, inc: int, n: nat)
    requires forall k :: 1 <= k <= n ==> start + k * inc != base + length
    ensures DstPosition(base, length, start, inc, n) == start + n * inc
  {
    if n > 0 {
      RunsOn(base, length, start, inc, n - 1);
      StrideStep(n - 1, inc);
    }
  }

  /** From any position on the pointer only depends on where it is. */
  lemma {:induction false} ContinuesFrom(base: int, length: int, start: int, inc: int, m: nat, n: nat)
    ensures DstPosition(base, length, start, inc, m + n)
         == DstPosition(base, length, DstPosition(base, length, start, inc, m), inc, n)
  {
    if n > 0 {
      ContinuesFrom(base, length, start, inc, m, n - 1);
      assert m + n - 1 == m + (n - 1);
    }
  }

  /** A stride that does not go up never reaches the end, and neither does one that does not divide the way to it. */
  lemma PassesEnd(base: int, length: int, start: int, inc: int, n: nat)
    requires start < base + length
    requires inc <= 0 || (base + length - start) % inc != 0
    ensures DstPosition(base, length, start, inc, n) == start + n * inc
  {
    forall k | 1 <= k <= n
      ensures start + k * inc != base + length
    {
      if inc <= 0 {
        MulOrder(k, inc, 0);
      } else if start + k * inc == base + length {
        DivModUnique(base + length - start, inc, k, 0);
      }
    }
    RunsOn(base, length, start, inc, n);
  }

  /** A stride that divides the way to the end lands on it after that many passes, and no sooner. */
  lemma FirstLanding(base: int, length: int, start: int, inc: int, n: nat)
    requires start < base + length && inc > 0 && (base + length - start) % inc == 0
    ensures (base + length - start) / inc >= 1
    ensures n < (base + length - start) / inc ==> DstPosition(base, length, start, inc, n) == start + n * inc
    ensures n == (base + length - start) / inc ==> DstPosition(base, length, start, inc, n) == base
  {
    var way, w := base + length - start, (base + length - start) / inc;
    assert way == inc * w;
    if w <= 0 {
      MulOrder(inc, w, 0);
    }
    forall k | 1 <= k < w
      ensures start + k * inc != base + length
    {
      MulOrder(inc, k + 1, w);
    }
    if n < w {
      RunsOn(base, length, start, inc, n);
    } else if n == w {
      RunsOn(base, length, start, inc, n - 1);
      StrideStep(n - 1, inc);
    }
  }

  /** A stride that divides both the way to the end and the length laps the destination for ever. */
  lemma {:induction false} Laps(base: int, length: int, start: int, inc: int, n: nat)
    requires base <= start < base + length && inc > 0
    requires (base + length - start) % inc == 0 && length % inc == 0
    ensures DstPosition(base, length, start, inc, n) == base + (start - base + n * inc) % length
  {
    if n == 0 {
      DivModUnique(start - base, length, 0, start - base);
    } else {
      Laps(base, length, start, inc, n - 1);
      LapsStep(base, length, start, inc, n - 1);
    }
  }

  lemma LapsStep(base: int, length: int, start: int, inc: int, n: nat)
    requires length > 0 && inc > 0 && (base + length - start) % inc == 0 && length % inc == 0
    requires DstPosition(base, length, start, inc, n) == base + (start - base + n * inc) % length
    ensures DstPosition(base, length, start, inc, n + 1) == base + (start - base + (n + 1) * inc) % length
  {
    DstStep(base, length, start, inc, n);
    hide DstPosition;
    StaysAligned(base, length, start, inc, n);
    var v := start - base + n * inc;
    LapStep(base, length, inc, v);
    StrideStep(n, inc);
    assert start - base + (n + 1) * inc == v + inc;
  }

  /** The distance to the end stays a multiple of the stride. */
  lemma StaysAligned(base: int, length: int, start: int, inc: int, n: nat)
    requires length > 0 && inc > 0 && (base + length - start) % inc == 0 && length % inc == 0
    ensures (length - (start - base + n * inc) % length) % inc == 0
  {
    var v := start - base + n * inc;
    var a, b, q := (base + length - start) / inc, length / inc, v / length;
    assert base + length - start == inc * a && length == inc * b && v == length * q + v % length;
    AlignedAlgebra(length, inc, v, n, a, b, q);
    DivModUnique(length - v % length, inc, a - n + b * q, 0);
  }

  lemma AlignedAlgebra(length: int, inc: int, v: int, n: int, a: int, b: int, q: int)
    requires length == inc * b && v == length - inc * a + n * inc
    ensures length - (v - length * q) == inc * (a - n + b * q)
  {
    assert length * q == inc * (b * q);
    assert inc * (a - n + b * q) == inc * a - inc * n + inc * (b * q);
  }

  /** One pass within a lap, or onto the end and back to the base. */
  lemma LapStep(base: int, length: int, inc: int, v: int)
    requires length > 0 && inc > 0 && (length - v % length) % inc == 0
    ensures
      var next := base + v % length + inc;
      base + (v + inc) % length == if next == base + length then base else next
  {
    var q, r := v / length, v % length;
    var a := (length - r) / inc;
    assert length - r == inc * a;
    if a <= 0 {
      MulOrder(inc, a, 0);
    } else if a == 1 {
      DivModUnique(v + inc, length, q + 1, 0);
    } else {
      MulOrder(inc, 2, a);
      DivModUnique(v + inc, length, q, r + inc);
    }
  }

  /** In particular the unit stride, from anywhere in the destination. */
  lemma UnitStrideLaps(base: int, length: int, start: int, n: nat)
    requires base <= start < base + length
    ensures DstPosition(base, length, start, 1, n) == base + (start - base + n) % length
  {
    Laps(base, length, start, 1, n);
  }

  /** A stride that lands on the end but does not divide the length goes back once and then runs on from the base. */
  lemma LapsOnce(base: int, length: int, start: int, inc: int, n: nat)
    requires start < base + length && length > 0 && inc > 0
    requires (base + length - start) % inc == 0 && length % inc != 0
    ensures
      var w := (base + length - start) / inc;
      DstPosition(base, length, start, inc, n) == if n < w then start + n * inc else base + (n - w) * inc
  {
    var w := (base + length - start) / inc;
    FirstLanding(base, length, start, inc, n);
    if n >= w {
      FirstLanding(base, length, start, inc, w);
      ContinuesFrom(base, length, start, inc, w, n - w);
      PassesEnd(base, length, base, inc, n - w);
    }
  }

  /**
   * The contents after a read that fills or laps its destination from anywhere in it: the last sample k for position p
   * is the one with dstStart + k == p modulo the length, and nothing outside the destination changes.
   */
  lemma LappedContents<T>(dst: seq<T>, base: nat, length: nat, dstStart: nat,
                          buf: seq<T>, L: int, start: int, inc: int, n: nat)
    requires 0 < length <= n && base <= dstStart < base + length <= |dst| && 0 < L <= |buf|
    ensures forall k :: 0 <= k < n ==> 0 <= DstPositions(base, length, dstStart, 1, n)[k] < |dst|
    ensures
      var after := Stored(dst, DstPositions(base, length, dstStart, 1, n), Fetched(buf, L, start, inc, n));
      && (forall p :: base <= p < base + length ==>
            after[p] == buf[(start + (n - 1 - (dstStart + n - 1 - p) % length) * inc) % L])
      && (forall p :: 0 <= p < |dst| && !(base <= p < base + length) ==> after[p] == dst[p])
  {
    hide Stored, Slot, DstPosition;
    var at, xs := DstPositions(base, length, dstStart, 1, n), Fetched(buf, L, start, inc, n);
    LappedPositions(base, length, dstStart, n);
    forall p | base <= p < base + length
      ensures Stored(dst, at, xs)[p] == buf[(start + (n - 1 - (dstStart + n - 1 - p) % length) * inc) % L]
    {
      var k := n - 1 - (dstStart + n - 1 - p) % length;
      LastOfResidue(length, dstStart - base + n, p - base, dstStart - base + k);
      LappedAt(dst, base, length, dstStart, at, xs, p, k);
    }
    forall p | 0 <= p < |dst| && !(base <= p < base + length)
      ensures Stored(dst, at, xs)[p] == dst[p]
    {
      LastWriterWins(dst, at, xs, p);
    }
  }

  function Residue(v: int, length: int): (r: int)
    requires length > 0
    ensures 0 <= r < length
  {
    v % length
  }

  lemma LappedAt<T>(dst: seq<T>, base: nat, length: nat, dstStart: nat, at: seq<int>, xs: seq<T>, p: int, k: int)
    requires 0 < length && |at| == |xs| && base <= p < base + length <= |dst| && base <= dstStart
    requires forall i :: 0 <= i < |at| ==> at[i] == base + Residue(dstStart - base + i, length)
    requires 0 <= k < |at| <= k + length && Residue(dstStart - base + k, length) == p - base
    ensures forall i :: 0 <= i < |at| ==> 0 <= at[i] < |dst|
    ensures Stored(dst, at, xs)[p] == xs[k]
  {
    hide Stored, Residue;
    forall k' | k < k' < |at|
      ensures at[k'] != p
    {
      LaterResidue(length, dstStart - base + k, dstStart - base + k');
    }
    LastStoredAt(dst, at, xs, k, p);
  }

  lemma LastStoredAt<T>(dst: seq<T>, at: seq<int>, xs: seq<T>, k: nat, p: int)
    requires |at| == |xs| && (forall k :: 0 <= k < |at| ==> 0 <= at[k] < |dst|)
    requires k < |at| && at[k] == p && forall k' :: k < k' < |at| ==> at[k'] != p
    ensures Stored(dst, at, xs)[p] == xs[k]
  {
    hide Stored;
    LastWriterWins(dst, at, xs, p);
  }

  lemma LappedPositions(base: nat, length: nat, dstStart: nat, n: nat)
    requires base <= dstStart < base + length
    ensures forall i :: 0 <= i < n ==>
      DstPositions(base, length, dstStart, 1, n)[i] == base + Residue(dstStart - base + i, length)
  {
    forall i | 0 <= i < n
      ensures DstPositions(base, length, dstStart, 1, n)[i] == base + Residue(dstStart - base + i, length)
    {
      UnitStrideLaps(base, length, dstStart, i);
    }
  }

  /** The last number below n that is j modulo length. */
  lemma LastOfResidue(length: nat, n: nat, j: nat, k: int)
    requires j < length <= n && k == n - 1 - (n - 1 - j) % length
    ensures n - length <= k < n && Residue(k, length) == j
  {
    var q, r := (n - 1 - j) / length, (n - 1 - j) % length;
    assert n - 1 - j == length * q + r;
    DivModUnique(k, length, q, j);
  }

  lemma LaterResidue(length: nat, k: int, k': int)
    requires k < k' < k + length
    ensures Residue(k', length) != Residue(k, length)
  {
    var q, q' := k / length, k' / length;
    if Residue(k', length) == Residue(k, length) {
      assert k' - k == length * (q' - q);
      if q' - q >= 1 {
        MulOrder(length, 1, q' - q);
      } else {
        MulOrder(length, q' - q, 0);
      }
    }
  }
}
