/**
 * The circular block copies. The three element types of the source share one body, so the element type is a parameter.
 * A write visits slot (start + k * inc) mod L with its k-th sample; a read visits the same slots.
 */
module CircularBuffer {
  import opened Bits
  import opened FixedPoint
  import opened OrderedStores

  // ---------------------------------------------------------------- slots

  /** The slot of the k-th sample. */
  function Slot(L: int, start: int, inc: int, k: int): (slot: int)
    requires L > 0
    ensures 0 <= slot < L
  {
    (start + k * inc) % L
  }

  /** The offset update of one loop pass: only upward wrap-around is handled. */
  function Advance(L: int, offset: int, inc: int): int
  {
    if offset + inc >= L then offset + inc - L else offset + inc
  }

  /** The offset after n loop passes. */
  function Offset(L: int, start: int, inc: int, n: nat): int
  {
    if n == 0 then start else Advance(L, Offset(L, start, inc, n - 1), inc)
  }

  /** Strides from 0 to L wrap correctly for ever; any other stride only works until the first time it would wrap. */
  predicate StaysInside(L: int, start: int, inc: int, n: nat)
  {
    || n == 0
    || 0 <= inc <= L
    || (inc < 0 && 0 <= start + (n - 1) * inc)
    || (inc > L && start + (n - 1) * (inc - L) < L)
  }

  /** The offsets that n passes use all lie in the buffer exactly under that condition. */
  lemma OffsetsInsideIff(L: int, start: int, inc: int, n: nat)
    requires 0 <= start < L
    ensures (forall k :: 0 <= k < n ==> 0 <= Offset(L, start, inc, k) < L) <==> StaysInside(L, start, inc, n)
  {
    hide Offset, Advance;
    if StaysInside(L, start, inc, n) {
      forall k | 0 <= k < n
        ensures 0 <= Offset(L, start, inc, k) < L
      {
        OffsetIsSlot(L, start, inc, n, k);
      }
    } else {
      OffsetUnwrapped(L, start, inc, n - 1);
      assert !(0 <= Offset(L, start, inc, n - 1) < L);
    }
  }

  /** Outside the strides that wrap, the offset runs away at a constant rate. */
  lemma {:induction false} OffsetUnwrapped(L: int, start: int, inc: int, n: nat)
    requires 0 <= start < L
    ensures inc < 0 ==> Offset(L, start, inc, n) == start + n * inc
    ensures inc > L ==> Offset(L, start, inc, n) == start + n * (inc - L)
  {
    if n > 0 {
      OffsetUnwrapped(L, start, inc, n - 1);
      StrideStep(n - 1, inc);
      StrideStep(n - 1, inc - L);
      if inc < 0 {
        MulOrder(n, inc, 0);
      } else if inc > L {
        MulOrder(n - 1, 0, inc - L);
      }
    }
  }

  lemma {:induction false} OffsetWraps(L: int, start: int, inc: int, n: nat)
    requires 0 <= start < L && 0 <= inc <= L
    ensures Offset(L, start, inc, n) == Slot(L, start, inc, n)
  {
    hide Slot;
    if n == 0 {
      SlotZero(L, start, inc);
    } else {
      OffsetWraps(L, start, inc, n - 1);
      SlotStep(L, start, inc, n - 1);
    }
  }

  lemma OffsetFormula(L: int, start: int, inc: int, n: nat)
    requires 0 <= start < L && 0 <= inc <= L
    ensures Offset(L, start, inc, n) == (start + n * inc) % L
  {
    hide Offset;
    OffsetWraps(L, start, inc, n);
  }

  /** As long as the offset stays inside, it is the slot of the current sample. */
  lemma OffsetIsSlot(L: int, start: int, inc: int, n: nat, k: nat)
    requires 0 <= start < L && StaysInside(L, start, inc, n) && k < n
    ensures Offset(L, start, inc, k) == Slot(L, start, inc, k)
  {
    if 0 <= inc <= L {
      OffsetWraps(L, start, inc, k);
    } else {
      hide Offset;
      OffsetUnwrapped(L, start, inc, k);
      if inc < 0 {
        NegativeSlot(L, start, inc, n, k);
      } else {
        LongSlot(L, start, inc, n, k);
      }
    }
  }

  lemma NegativeSlot(L: int, start: int, inc: int, n: nat, k: nat)
    requires 0 <= start < L && inc < 0 && k < n && 0 <= start + (n - 1) * inc
    ensures Slot(L, start, inc, k) == start + k * inc
  {
    MulOrder(-inc, k, n - 1);
    MulOrder(-inc, 0, k);
    var v := start + k * inc;
    DivModUnique(v, L, 0, v);
  }

  lemma LongSlot(L: int, start: int, inc: int, n: nat, k: nat)
    requires 0 <= start < L < inc && k < n && start + (n - 1) * (inc - L) < L
    ensures Slot(L, start, inc, k) == start + k * (inc - L)
  {
    MulOrder(inc - L, k, n - 1);
    MulOrder(inc - L, 0, k);
    var v := start + k * (inc - L);
    assert start + k * inc == L * k + v;
    DivModUnique(start + k * inc, L, k, v);
  }

  /** A stride the source mentions that leaves the buffer on its second pass. */
  lemma NegativeStrideLeaves()
    ensures Offset(4, 0, -1, 1) == -1 && !StaysInside(4, 0, -1, 2)
  {
  }

  lemma SlotStep(L: int, start: int, inc: int, k: int)
    requires L > 0 && 0 <= inc <= L
    ensures Advance(L, Slot(L, start, inc, k), inc) == Slot(L, start, inc, k + 1)
  {
    var v := start + k * inc;
    assert start + (k + 1) * inc == v + inc;
    var q, r := v / L, v % L;
    assert v == L * q + r;
    if r + inc >= L {
      DivModUnique(v + inc, L, q + 1, r + inc - L);
    } else {
      DivModUnique(v + inc, L, q, r + inc);
    }
  }

  lemma SlotZero(L: int, start: int, inc: int)
    requires 0 <= start < L
    ensures Slot(L, start, inc, 0) == start
  {
    DivModUnique(start, L, 0, start);
  }

  lemma SlotShift(L: int, start: int, inc: int, m: int, k: int)
    requires L > 0
    ensures Slot(L, Slot(L, start, inc, m), inc, k) == Slot(L, start, inc, m + k)
  {
    var u := start + m * inc;
    var q, r := u / L, u % L;
    assert u == L * q + r;
    var v := r + k * inc;
    assert start + (m + k) * inc == v + L * q;
    DivModUnique(v + L * q, L, v / L + q, v % L);
  }

  /** The first n slots. */
  function Slots(L: int, start: int, inc: int, n: nat): (at: seq<int>)
    requires L > 0
    ensures |at| == n && forall k :: 0 <= k < n ==> at[k] == Slot(L, start, inc, k)
  {
    seq(n, k => Slot(L, start, inc, k))
  }

  lemma StrideStep(k: int, inc: int)
    ensures (k + 1) * inc == k * inc + inc
  {
  }

  lemma OffsetZero(L: int, start: int, inc: int)
    ensures Offset(L, start, inc, 0) == start
  {
  }

  /** One pass of a loop that stays inside. */
  lemma OffsetStep(L: int, start: int, inc: int, n: nat, k: nat)
    requires 0 <= start < L && StaysInside(L, start, inc, n) && k < n
    ensures 0 <= Offset(L, start, inc, k) < L && Offset(L, start, inc, k) == Slot(L, start, inc, k)
    ensures
      var next := Offset(L, start, inc, k) + inc;
      Offset(L, start, inc, k + 1) == if next >= L then next - L else next
  {
    OffsetIsSlot(L, start, inc, n, k);
    hide Slot, StaysInside;
  }

  // ---------------------------------------------------------------- the write

  /** The samples a source pointer with stride srcInc delivers. */
  function Samples<T>(src: seq<T>, base: int, srcInc: int, n: nat): (xs: seq<T>)
    requires forall k :: 0 <= k < n ==> 0 <= base + k * srcInc < |src|
    ensures |xs| == n && forall k :: 0 <= k < n ==> xs[k] == src[base + k * srcInc]
  {
    seq(n, k requires 0 <= k < n => src[base + k * srcInc])
  }

  /**
   * The buffer after n samples: sample k is in slot (start + k * inc) mod L unless a later one has that slot too,
   * and every other position is as before.
   */
  ghost predicate Written<T>(before: seq<T>, after: seq<T>, L: int, start: int, inc: int,
                             src: seq<T>, srcBase: int, srcInc: int, n: nat)
    requires 0 < L <= |before|
    requires forall k :: 0 <= k < n ==> 0 <= srcBase + k * srcInc < |src|
  {
    && |after| == |before|
    && (forall k :: 0 <= k < n && (forall k' :: k < k' < n ==> (start + k' * inc) % L != (start + k * inc) % L)
                    ==> after[(start + k * inc) % L] == src[srcBase + k * srcInc])
    && (forall p :: 0 <= p < |before| && (forall k :: 0 <= k < n ==> (start + k * inc) % L != p)
                    ==> after[p] == before[p])
  }

  lemma StoredIsWritten<T>(buf: seq<T>, L: int, start: int, inc: int, src: seq<T>, srcBase: int, srcInc: int, n: nat)
    requires 0 < L <= |buf|
    requires forall k :: 0 <= k < n ==> 0 <= srcBase + k * srcInc < |src|
    ensures Written(buf, Stored(buf, Slots(L, start, inc, n), Samples(src, srcBase, srcInc, n)),
                    L, start, inc, src, srcBase, srcInc, n)
  {
    hide Stored;
    var at, xs := Slots(L, start, inc, n), Samples(src, srcBase, srcInc, n);
    forall k | 0 <= k < n && (forall k' :: k < k' < n ==> (start + k' * inc) % L != (start + k * inc) % L)
      ensures Stored(buf, at, xs)[(start + k * inc) % L] == src[srcBase + k * srcInc]
    {
      LastWriterWins(buf, at, xs, at[k]);
    }
    forall p | 0 <= p < |buf| && (forall k :: 0 <= k < n ==> (start + k * inc) % L != p)
      ensures Stored(buf, at, xs)[p] == buf[p]
    {
      LastWriterWins(buf, at, xs, p);
    }
  }

  method CircularWrite<T>(circBuffer: array<T>, L: q31, writeOffset: uint16, bufferInc: q31,
                          src: array<T>, srcBase: int, srcInc: int, blockSize: uint32)
    returns (newOffset: uint16)
    requires 0 < L <= circBuffer.Length
    requires writeOffset < L && StaysInside(L, writeOffset, bufferInc, blockSize)
    requires L + bufferInc <= 0x8000_0000
    requires circBuffer != src
    requires forall k :: 0 <= k < blockSize ==> 0 <= srcBase + k * srcInc < src.Length
    modifies circBuffer
    ensures circBuffer[..] == Stored(old(circBuffer[..]), Slots(L, writeOffset, bufferInc, blockSize),
                                     Samples(src[..], srcBase, srcInc, blockSize))
    ensures Written(old(circBuffer[..]), circBuffer[..], L, writeOffset, bufferInc, src[..], srcBase, srcInc, blockSize)
    ensures newOffset == Offset(L, writeOffset, bufferInc, blockSize) % 0x1_0000
    ensures 0 <= bufferInc <= L ==> newOffset == (writeOffset + blockSize * bufferInc) % L % 0x1_0000
  {
    hide Slot, Stored, Advance, Offset, StaysInside, Written;
    ghost var buf, xs := circBuffer[..], Samples(src[..], srcBase, srcInc, blockSize);
    ghost var at := Slots(L, writeOffset, bufferInc, blockSize);
    var wOffset: q31 := writeOffset;
    var s := srcBase;
    var i := blockSize;
    OffsetZero(L, writeOffset, bufferInc);
    StoredNone(buf);
    while i > 0
      invariant 0 <= i <= blockSize
      invariant wOffset == Offset(L, writeOffset, bufferInc, blockSize - i)
      invariant s == srcBase + (blockSize - i) * srcInc
      invariant circBuffer[..] == Stored(buf, at[..blockSize - i], xs[..blockSize - i])
    {
      ghost var k := blockSize - i;
      OffsetStep(L, writeOffset, bufferInc, blockSize, k);
      StoredStep(buf, at, xs, k);
      circBuffer[wOffset] := src[s];
      s := s + srcInc;
      StrideStep(k, srcInc);
      wOffset := wOffset + bufferInc;
      if wOffset >= L {
        wOffset := wOffset - L;
      }
      i := i - 1;
    }
    assert xs[..blockSize] == xs && at[..blockSize] == at;
    StoredIsWritten(buf, L, writeOffset, bufferInc, src[..], srcBase, srcInc, blockSize);
    newOffset := ToUint16(wOffset);
    if 0 <= bufferInc <= L {
      OffsetFormula(L, writeOffset, bufferInc, blockSize);
    }
  }

  /** The offset a write hands back: that of n passes, cut to 16 bits. */
  function Returned(L: int, start: int, inc: int, n: nat): (offset: uint16)
  {
    ToUint16(Offset(L, start, inc, n))
  }

  /** It continues the sequence of slots exactly when the next slot has a 16-bit number, as all have if L <= 2^16. */
  lemma ReturnedContinuesIff(L: int, start: int, inc: int, m: nat)
    requires 0 <= start < L && StaysInside(L, start, inc, m + 1)
    ensures (forall k :: 0 <= k ==> Slot(L, Returned(L, start, inc, m), inc, k) == Slot(L, start, inc, m + k))
            <==> Slot(L, start, inc, m) < 0x1_0000
  {
    hide Slot, Offset, StaysInside;
    var slot: int := Slot(L, start, inc, m);
    OffsetIsSlot(L, start, inc, m + 1, m);
    CutOffset(slot);
    if slot < 0x1_0000 {
      forall k | 0 <= k
        ensures Slot(L, Returned(L, start, inc, m), inc, k) == Slot(L, start, inc, m + k)
      {
        SlotShift(L, start, inc, m, k);
      }
    } else {
      SlotZero(L, Returned(L, start, inc, m), inc);
      assert Slot(L, Returned(L, start, inc, m), inc, 0) != Slot(L, start, inc, m + 0);
    }
  }

  lemma CutOffset(slot: nat)
    ensures ToUint16(slot) == slot <==> slot < 0x1_0000
    ensures ToUint16(slot) <= slot
  {
  }

  /** A second run from the returned offset stays inside and visits the slots the first would have visited next. */
  lemma SlotsContinue(L: int, start: int, inc: int, m: nat, n: nat)
    requires 0 <= start < L && StaysInside(L, start, inc, m + n) && n > 0 && Slot(L, start, inc, m) < 0x1_0000
    ensures
      var next := Returned(L, start, inc, m);
      && next < L && StaysInside(L, next, inc, n)
      && Slots(L, start, inc, m) + Slots(L, next, inc, n) == Slots(L, start, inc, m + n)
  {
    hide Slot, Offset, StaysInside;
    StaysInsideSplit(L, start, inc, m, n);
    OffsetIsSlot(L, start, inc, m + 1, m);
    CutOffset(Slot(L, start, inc, m));
    ReturnedContinuesIff(L, start, inc, m);
  }

  /**
   * Writing m samples and then n more from the returned offset is one write of m + n, provided the slot in between
   * has a 16-bit number. The second write is one that CircularWrite accepts.
   */
  lemma WritesCompose<T>(buf: seq<T>, L: int, start: int, inc: int, xs: seq<T>, ys: seq<T>)
    requires 0 <= start < L <= |buf| && StaysInside(L, start, inc, |xs| + |ys|)
    requires ys != [] ==> Slot(L, start, inc, |xs|) < 0x1_0000
    ensures
      var next := Returned(L, start, inc, |xs|);
      && (ys != [] ==> next < L && StaysInside(L, next, inc, |ys|))
      && Stored(Stored(buf, Slots(L, start, inc, |xs|), xs), Slots(L, next, inc, |ys|), ys)
         == Stored(buf, Slots(L, start, inc, |xs| + |ys|), xs + ys)
  {
    hide Slot, Stored, Returned, StaysInside;
    var at, at' := Slots(L, start, inc, |xs|), Slots(L, Returned(L, start, inc, |xs|), inc, |ys|);
    if ys == [] {
      assert at + at' == Slots(L, start, inc, |xs| + |ys|);
    } else {
      SlotsContinue(L, start, inc, |xs|, |ys|);
    }
    StoredAppend(buf, at, xs, at', ys);
  }

  /** A run that stays inside has a first part and a second part that do. */
  lemma StaysInsideSplit(L: int, start: int, inc: int, m: nat, n: nat)
    requires 0 <= start < L && StaysInside(L, start, inc, m + n) && n > 0
    ensures StaysInside(L, start, inc, m + 1)
    ensures StaysInside(L, Offset(L, start, inc, m), inc, n)
  {
    hide Offset;
    OffsetUnwrapped(L, start, inc, m);
    assert m + n - 1 == m + (n - 1);
    if inc < 0 {
      MulOrder(-inc, m, m + n - 1);
      SplitStride(m, n - 1, inc);
    } else if inc > L {
      MulOrder(inc - L, m, m + n - 1);
      SplitStride(m, n - 1, inc - L);
    }
  }

  lemma SplitStride(m: int, n: int, inc: int)
    ensures (m + n) * inc == m * inc + n * inc
  {
  }

  /** In a longer buffer the returned offset can be cut: here the second write lands in slot 0 instead of 65536. */
  lemma WritesDoNotCompose<T>(buf: seq<T>, x: T, y: T)
    requires |buf| == 70000 && y != buf[0]
    ensures Returned(70000, 0xFFFF, 1, 1) == 0
    ensures Stored(Stored(buf, Slots(70000, 0xFFFF, 1, 1), [x]), Slots(70000, 0, 1, 1), [y])
         != Stored(buf, Slots(70000, 0xFFFF, 1, 2), [x, y])
  {
    hide Slot, Stored, Returned;
    SlotsPast16Bits();
    var at, next := Slots(70000, 0xFFFF, 1, 2), Slots(70000, 0, 1, 1);
    LastWriterWins(buf, at, [x, y], 0);
    LastWriterWins(Stored(buf, Slots(70000, 0xFFFF, 1, 1), [x]), next, [y], 0);
    assert next[0] == 0;
  }

  lemma SlotsPast16Bits()
    ensures Returned(70000, 0xFFFF, 1, 1) == 0
    ensures Slot(70000, 0xFFFF, 1, 0) == 0xFFFF && Slot(70000, 0xFFFF, 1, 1) == 0x1_0000 && Slot(70000, 0, 1, 0) == 0
  {
    OffsetWraps(70000, 0xFFFF, 1, 1);
    assert Slot(70000, 0xFFFF, 1, 1) == 0x1_0000;
    hide Offset;
  }

  // ---------------------------------------------------------------- the read

  /** A destination pointer wraps only when it lands exactly on the end. */
  function DstAdvance(base: int, length: int, d: int, inc: int): int
  {
    if d + inc == base + length then base else d + inc
  }

  function DstPosition(base: int, length: int, start: int, inc: int, k: nat): int
  {
    if k == 0 then start else DstAdvance(base, length, DstPosition(base, length, start, inc, k - 1), inc)
  }

  function DstPositions(base: int, length: int, start: int, inc: int, n: nat): (at: seq<int>)
    ensures |at| == n && forall k :: 0 <= k < n ==> at[k] == DstPosition(base, length, start, inc, k)
  {
    seq(n, k requires 0 <= k < n => DstPosition(base, length, start, inc, k))
  }

  /** The samples found in the visited slots. */
  function Fetched<T>(buf: seq<T>, L: int, start: int, inc: int, n: nat): (xs: seq<T>)
    requires 0 < L <= |buf|
    ensures |xs| == n
    ensures forall k :: 0 <= k < n ==> xs[k] == buf[Slot(L, start, inc, k)] == buf[(start + k * inc) % L]
  {
    seq(n, k requires 0 <= k < n => buf[Slot(L, start, inc, k)])
  }

  method CircularRead<T>(circBuffer: array<T>, L: q31, readOffset: q31, bufferInc: q31,
                         dst: array<T>, dstStart: int, dstBase: int, dstLength: int, dstInc: int, blockSize: uint32)
    returns (newOffset: q31)
    requires 0 < L <= circBuffer.Length
    requires 0 <= readOffset < L && StaysInside(L, readOffset, bufferInc, blockSize)
    requires L + bufferInc <= 0x8000_0000
    requires circBuffer != dst
    requires forall k :: 0 <= k < blockSize ==> 0 <= DstPosition(dstBase, dstLength, dstStart, dstInc, k) < dst.Length
    modifies dst
    ensures dst[..] == Stored(old(dst[..]), DstPositions(dstBase, dstLength, dstStart, dstInc, blockSize),
                              Fetched(circBuffer[..], L, readOffset, bufferInc, blockSize))
    ensures newOffset == Offset(L, readOffset, bufferInc, blockSize)
    ensures 0 <= bufferInc <= L ==> newOffset == (readOffset + blockSize * bufferInc) % L
  {
    hide Slot, Stored, Advance, Offset, StaysInside;
    ghost var buf, xs := dst[..], Fetched(circBuffer[..], L, readOffset, bufferInc, blockSize);
    ghost var at := DstPositions(dstBase, dstLength, dstStart, dstInc, blockSize);
    var rOffset: q31 := readOffset;
    var dstEnd := dstBase + dstLength;
    var d := dstStart;
    var i := blockSize;
    OffsetZero(L, readOffset, bufferInc);
    StoredNone(buf);
    while i > 0
      invariant 0 <= i <= blockSize
      invariant rOffset == Offset(L, readOffset, bufferInc, blockSize - i)
      invariant d == DstPosition(dstBase, dstLength, dstStart, dstInc, blockSize - i)
      invariant dst[..] == Stored(buf, at[..blockSize - i], xs[..blockSize - i])
    {
      ghost var k := blockSize - i;
      OffsetStep(L, readOffset, bufferInc, blockSize, k);
      StoredStep(buf, at, xs, k);
      dst[d] := circBuffer[rOffset];
      d := d + dstInc;
      if d == dstEnd {
        d := dstBase;
      }
      rOffset := rOffset + bufferInc;
      if rOffset >= L {
        rOffset := rOffset - L;
      }
      i := i - 1;
    }
    assert xs[..blockSize] == xs && at[..blockSize] == at;
    newOffset := rOffset;
    if 0 <= bufferInc <= L {
      OffsetFormula(L, readOffset, bufferInc, blockSize);
    }
  }
}
