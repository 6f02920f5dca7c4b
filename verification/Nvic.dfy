/**
 * Interrupt priorities. The Baseline port packs four 8-bit priority fields per 32-bit register, the Mainline port
 * has one byte per interrupt. Negative interrupt numbers name processor exceptions and live in separate registers.
 */
module Nvic {

  /** (uint32_t)(int32_t)IRQn. */
  function Unsigned(irq: int): (u: nat)
  {
    irq % 0x1_0000_0000
  }

  /** The 8-bit field for a priority: only the top prioBits bits are implemented. */
  function Field(priority: bv32, prioBits: bv32): (f: bv32)
    requires 1 <= prioBits <= 8
    ensures f <= 0xFF
  {
    (priority << (8 - prioBits)) & 0xFF
  }

  /** The priority in a field. */
  function PriorityOf(field: bv32, prioBits: bv32): bv32
    requires 1 <= prioBits <= 8
  {
    field >> (8 - prioBits)
  }

  /** A priority reduced modulo 2^prioBits. */
  function Implemented(priority: bv32, prioBits: bv32): bv32
    requires 1 <= prioBits <= 8
  {
    priority & ((1 << prioBits) - 1)
  }

  lemma FieldRoundTrip(priority: bv32, prioBits: bv32)
    requires 1 <= prioBits <= 8
    ensures PriorityOf(Field(priority, prioBits), prioBits) == Implemented(priority, prioBits)
  {
  }

  // ---------------------------------------------------------------- the packed port

  /** _BIT_SHIFT: eight times the two low bits of the interrupt number. */
  function BitShift(irq: int): (s: bv32)
    ensures IsShift(s)
  {
    var lane := Unsigned(irq) % 4;
    if lane == 0 then 0 else if lane == 1 then 8 else if lane == 2 then 16 else 24
  }

  function IpIdx(irq: int): nat
  {
    Unsigned(irq) / 4
  }

  /** _SHP_IDX, in unsigned arithmetic. */
  function ShpIdx(irq: int): nat
  {
    ((Unsigned(irq) % 0x10 - 8) % 0x1_0000_0000) / 4
  }

  predicate IsShift(s: bv32)
  {
    s == 0 || s == 8 || s == 16 || s == 24
  }

  /** One byte lane of a word replaced. */
  function WithLane(word: bv32, shift: bv32, field: bv32): bv32
    requires IsShift(shift)
  {
    (word & !(0xFF << shift)) | (field << shift)
  }

  function Lane(word: bv32, shift: bv32): bv32
    requires IsShift(shift)
  {
    (word >> shift) & 0xFF
  }

  /** Writing a lane changes that lane and no other. */
  lemma LaneAfterWrite(word: bv32, shift: bv32, field: bv32, shift': bv32)
    requires IsShift(shift) && IsShift(shift') && field <= 0xFF
    ensures Lane(WithLane(word, shift, field), shift') == if shift == shift' then field else Lane(word, shift')
  {
    hide Lane, WithLane;
    LaneAfterWrite0(word, field);
    LaneAfterWrite8(word, field);
    LaneAfterWrite16(word, field);
    LaneAfterWrite24(word, field);
  }

  lemma LaneAfterWrite0(word: bv32, field: bv32)
    requires field <= 0xFF
    ensures var w := WithLane(word, 0, field);
            Lane(w, 0) == field && Lane(w, 8) == Lane(word, 8) && Lane(w, 16) == Lane(word, 16)
            && Lane(w, 24) == Lane(word, 24)
  {
  }

  lemma LaneAfterWrite8(word: bv32, field: bv32)
    requires field <= 0xFF
    ensures var w := WithLane(word, 8, field);
            Lane(w, 0) == Lane(word, 0) && Lane(w, 8) == field && Lane(w, 16) == Lane(word, 16)
            && Lane(w, 24) == Lane(word, 24)
  {
  }

  lemma LaneAfterWrite16(word: bv32, field: bv32)
    requires field <= 0xFF
    ensures var w := WithLane(word, 16, field);
            Lane(w, 0) == Lane(word, 0) && Lane(w, 8) == Lane(word, 8) && Lane(w, 16) == field
            && Lane(w, 24) == Lane(word, 24)
  {
  }

  lemma LaneAfterWrite24(word: bv32, field: bv32)
    requires field <= 0xFF
    ensures var w := WithLane(word, 24, field);
            Lane(w, 0) == Lane(word, 0) && Lane(w, 8) == Lane(word, 8) && Lane(w, 16) == Lane(word, 16)
            && Lane(w, 24) == field
  {
  }

  /** The interrupts and exceptions whose priority the packed port holds. */
  predicate InPackedPort(irq: int)
  {
    -8 <= irq < 496
  }

  lemma UnsignedValue(irq: int)
    requires -0x10 <= irq < 0x1_0000_0000
    ensures Unsigned(irq) == if irq < 0 then irq + 0x1_0000_0000 else irq
  {
  }

  /** Where the packed port keeps a priority: register file (true for external interrupts), word. */
  lemma PackedIndices(irq: int)
    requires InPackedPort(irq)
    ensures irq >= 0 ==> IpIdx(irq) == irq / 4 < 124
    ensures irq < 0 ==> ShpIdx(irq) == (irq + 8) / 4 < 2
    ensures BitShift(irq) == if irq % 4 == 0 then 0 else if irq % 4 == 1 then 8 else if irq % 4 == 2 then 16 else 24
  {
    hide Unsigned;
    UnsignedValue(irq);
    assert Unsigned(irq) % 4 == irq % 4 && (irq < 0 ==> Unsigned(irq) % 0x10 == irq + 0x10);
  }

  datatype Packed = Packed(ipr: seq<bv32>, shpr: seq<bv32>)

  predicate PackedShape(r: Packed)
  {
    |r.ipr| == 124 && |r.shpr| == 2
  }

  function PackedSet(r: Packed, irq: int, priority: bv32, prioBits: bv32): (r': Packed)
    requires PackedShape(r) && InPackedPort(irq) && 1 <= prioBits <= 8
    ensures PackedShape(r')
  {
    PackedIndices(irq);
    var s, f := BitShift(irq), Field(priority, prioBits);
    if irq >= 0 then r.(ipr := r.ipr[IpIdx(irq) := WithLane(r.ipr[IpIdx(irq)], s, f)])
    else r.(shpr := r.shpr[ShpIdx(irq) := WithLane(r.shpr[ShpIdx(irq)], s, f)])
  }

  function PackedGet(r: Packed, irq: int, prioBits: bv32): bv32
    requires PackedShape(r) && InPackedPort(irq) && 1 <= prioBits <= 8
  {
    PackedIndices(irq);
    PriorityOf(Lane(if irq >= 0 then r.ipr[IpIdx(irq)] else r.shpr[ShpIdx(irq)], BitShift(irq)), prioBits)
  }

  /** Reading any interrupt after setting one. */
  lemma PackedGetAfterSet(r: Packed, irq: int, priority: bv32, prioBits: bv32, irq': int)
    requires PackedShape(r) && InPackedPort(irq) && InPackedPort(irq') && 1 <= prioBits <= 8
    ensures PackedGet(PackedSet(r, irq, priority, prioBits), irq', prioBits)
         == if irq == irq' then Implemented(priority, prioBits) else PackedGet(r, irq', prioBits)
  {
    hide Lane, WithLane, Field, PriorityOf, Implemented, BitShift, IpIdx, ShpIdx;
    PackedIndices(irq);
    PackedIndices(irq');
    var s, s' := BitShift(irq), BitShift(irq');
    FieldRoundTrip(priority, prioBits);
    if irq >= 0 && irq' >= 0 {
      LaneAfterWrite(r.ipr[irq / 4], s, Field(priority, prioBits), s');
    } else if irq < 0 && irq' < 0 {
      LaneAfterWrite(r.shpr[(irq + 8) / 4], s, Field(priority, prioBits), s');
    }
  }

  /** The lanes are the four bytes of a word, from the least significant up. */
  lemma LanesAssemble(word: bv32)
    ensures Lane(word, 0) <= 0xFF && Lane(word, 8) <= 0xFF && Lane(word, 16) <= 0xFF && Lane(word, 24) <= 0xFF
    ensures word == Lane(word, 0) | (Lane(word, 8) << 8) | (Lane(word, 16) << 16) | (Lane(word, 24) << 24)
  {
  }

  /**
   * What a write changes in the packed registers: byte irq mod 4 of word irq / 4, counted from -8 for the exceptions,
   * becomes the priority shifted up to the implemented bits; every other byte of every word is as before.
   */
  lemma PackedSetBytes(r: Packed, irq: int, priority: bv32, prioBits: bv32, lane: nat, s: bv32)
    requires PackedShape(r) && InPackedPort(irq) && 1 <= prioBits <= 8 && lane < 4
    requires s == if lane == 0 then 0 else if lane == 1 then 8 else if lane == 2 then 16 else 24
    ensures forall w: nat :: w < 124 ==>
      Lane(PackedSet(r, irq, priority, prioBits).ipr[w], s)
      == if irq >= 0 && w == irq / 4 && lane == irq % 4 then (priority << (8 - prioBits)) & 0xFF
         else Lane(r.ipr[w], s)
    ensures forall w: nat :: w < 2 ==>
      Lane(PackedSet(r, irq, priority, prioBits).shpr[w], s)
      == if irq < 0 && w == (irq + 8) / 4 && lane == irq % 4 then (priority << (8 - prioBits)) & 0xFF
         else Lane(r.shpr[w], s)
  {
    hide WithLane, Lane, Field, BitShift, IpIdx, ShpIdx;
    PackedIndices(irq);
    UnfoldField(priority, prioBits);
    if irq >= 0 {
      LaneAfterWrite(r.ipr[irq / 4], BitShift(irq), Field(priority, prioBits), s);
    } else {
      LaneAfterWrite(r.shpr[(irq + 8) / 4], BitShift(irq), Field(priority, prioBits), s);
    }
  }

  /** What a read takes: those 8 bits, less the ones that are not implemented. */
  lemma PackedGetBits(r: Packed, irq: int, prioBits: bv32, s: bv32)
    requires PackedShape(r) && InPackedPort(irq) && 1 <= prioBits <= 8
    requires s == if irq % 4 == 0 then 0 else if irq % 4 == 1 then 8 else if irq % 4 == 2 then 16 else 24
    ensures irq >= 0 ==> PackedGet(r, irq, prioBits) == ((r.ipr[irq / 4] >> s) & 0xFF) >> (8 - prioBits)
    ensures irq < 0 ==> PackedGet(r, irq, prioBits) == ((r.shpr[(irq + 8) / 4] >> s) & 0xFF) >> (8 - prioBits)
  {
    hide BitShift, IpIdx, ShpIdx;
    PackedIndices(irq);
  }

  lemma UnfoldField(priority: bv32, prioBits: bv32)
    requires 1 <= prioBits <= 8
    ensures Field(priority, prioBits) == (priority << (8 - prioBits)) & 0xFF
  {
  }

  method ReplaceLane(word: bv32, s: bv32, field: bv32) returns (word': bv32)
    requires IsShift(s)
    ensures word' == WithLane(word, s, field)
  {
    word' := (word & !(0xFF << s)) | (field << s);
  }

  /** The read-modify-write expression of the packed port, for either register file. */
  method Insert(word: bv32, irq: int, priority: bv32, prioBits: bv32) returns (word': bv32)
    requires 1 <= prioBits <= 8
    ensures word' == WithLane(word, BitShift(irq), Field(priority, prioBits))
  {
    hide BitShift, WithLane, Field;
    var s := BitShift(irq);
    var field := (priority << (8 - prioBits)) & 0xFF;
    UnfoldField(priority, prioBits);
    assert field == Field(priority, prioBits);
    word' := ReplaceLane(word, s, field);
  }

  class BaselineNvic {
    const prioBits: bv32
    const IPR: array<bv32>
    const SHPR: array<bv32>

    ghost predicate Valid()
    {
      IPR.Length == 124 && SHPR.Length == 2 && IPR != SHPR && 1 <= prioBits <= 8
    }

    ghost function Registers(): (r: Packed)
      requires Valid()
      reads IPR, SHPR
      ensures PackedShape(r)
    {
      Packed(IPR[..], SHPR[..])
    }

    constructor (prioBits: bv32, IPR: array<bv32>, SHPR: array<bv32>)
      requires IPR.Length == 124 && SHPR.Length == 2 && IPR != SHPR && 1 <= prioBits <= 8
      ensures Valid() && this.prioBits == prioBits && this.IPR == IPR && this.SHPR == SHPR
    {
      this.prioBits, this.IPR, this.SHPR := prioBits, IPR, SHPR;
    }

    method SetPriority(irq: int, priority: bv32)
      requires Valid() && InPackedPort(irq)
      modifies IPR, SHPR
      ensures Registers() == PackedSet(old(Registers()), irq, priority, prioBits)
    {
      hide WithLane, Field, BitShift, IpIdx, ShpIdx;
      PackedIndices(irq);
      if irq >= 0 {
        var word := Insert(IPR[IpIdx(irq)], irq, priority, prioBits);
        IPR[IpIdx(irq)] := word;
      } else {
        var word := Insert(SHPR[ShpIdx(irq)], irq, priority, prioBits);
        SHPR[ShpIdx(irq)] := word;
      }
    }

    method GetPriority(irq: int) returns (priority: bv32)
      requires Valid() && InPackedPort(irq)
      ensures priority == PackedGet(Registers(), irq, prioBits)
    {
      PackedIndices(irq);
      if irq >= 0 {
        priority := ((IPR[IpIdx(irq)] >> BitShift(irq)) & 0xFF) >> (8 - prioBits);
      } else {
        priority := ((SHPR[ShpIdx(irq)] >> BitShift(irq)) & 0xFF) >> (8 - prioBits);
      }
    }
  }

  // ---------------------------------------------------------------- the byte port

  predicate InBytePort(irq: int)
  {
    -12 <= irq < 496
  }

  /** The index of an exception's byte, in unsigned arithmetic. */
  function ShpByte(irq: int): nat
  {
    (Unsigned(irq) % 0x10 - 4) % 0x1_0000_0000
  }

  lemma ByteIndices(irq: int)
    requires InBytePort(irq)
    ensures irq >= 0 ==> Unsigned(irq) == irq
    ensures irq < 0 ==> ShpByte(irq) == irq + 12 < 12
  {
    assert Unsigned(irq) == if irq < 0 then irq + 0x1_0000_0000 else irq;
  }

  datatype Bytes = Bytes(ipr: seq<bv8>, shpr: seq<bv8>)

  predicate BytesShape(r: Bytes)
  {
    |r.ipr| == 496 && |r.shpr| == 12
  }

  function ByteSet(r: Bytes, irq: int, priority: bv32, prioBits: bv32): (r': Bytes)
    requires BytesShape(r) && InBytePort(irq) && 1 <= prioBits <= 8
    ensures BytesShape(r')
  {
    ByteIndices(irq);
    var f := Field(priority, prioBits) as bv8;
    if irq >= 0 then r.(ipr := r.ipr[Unsigned(irq) := f]) else r.(shpr := r.shpr[ShpByte(irq) := f])
  }

  function ByteGet(r: Bytes, irq: int, prioBits: bv32): bv32
    requires BytesShape(r) && InBytePort(irq) && 1 <= prioBits <= 8
  {
    ByteIndices(irq);
    PriorityOf((if irq >= 0 then r.ipr[Unsigned(irq)] else r.shpr[ShpByte(irq)]) as bv32, prioBits)
  }

  /** A write stores one byte: the one of the interrupt, or twelve above a negative number; a read shifts it down. */
  lemma ByteSetGetBytes(r: Bytes, irq: int, priority: bv32, prioBits: bv32)
    requires BytesShape(r) && InBytePort(irq) && 1 <= prioBits <= 8
    ensures irq >= 0 ==>
      && ByteSet(r, irq, priority, prioBits) == r.(ipr := r.ipr[irq := ((priority << (8 - prioBits)) & 0xFF) as bv8])
      && ByteGet(r, irq, prioBits) == (r.ipr[irq] as bv32) >> (8 - prioBits)
    ensures irq < 0 ==>
      && ByteSet(r, irq, priority, prioBits)
         == r.(shpr := r.shpr[irq + 12 := ((priority << (8 - prioBits)) & 0xFF) as bv8])
      && ByteGet(r, irq, prioBits) == (r.shpr[irq + 12] as bv32) >> (8 - prioBits)
  {
    hide Unsigned, ShpByte;
    ByteIndices(irq);
  }

  lemma ByteGetAfterSet(r: Bytes, irq: int, priority: bv32, prioBits: bv32, irq': int)
    requires BytesShape(r) && InBytePort(irq) && InBytePort(irq') && 1 <= prioBits <= 8
    ensures ByteGet(ByteSet(r, irq, priority, prioBits), irq', prioBits)
         == if irq == irq' then Implemented(priority, prioBits) else ByteGet(r, irq', prioBits)
  {
    hide PriorityOf, Implemented, Unsigned, ShpByte;
    ByteIndices(irq);
    ByteIndices(irq');
    FieldRoundTrip(priority, prioBits);
  }

  class MainlineNvic {
    const prioBits: bv32
    const IPR: array<bv8>
    const SHPR: array<bv8>

    ghost predicate Valid()
    {
      IPR.Length == 496 && SHPR.Length == 12 && IPR != SHPR && 1 <= prioBits <= 8
    }

    ghost function Registers(): (r: Bytes)
      requires Valid()
      reads IPR, SHPR
      ensures BytesShape(r)
    {
      Bytes(IPR[..], SHPR[..])
    }

    constructor (prioBits: bv32, IPR: array<bv8>, SHPR: array<bv8>)
      requires IPR.Length == 496 && SHPR.Length == 12 && IPR != SHPR && 1 <= prioBits <= 8
      ensures Valid() && this.prioBits == prioBits && this.IPR == IPR && this.SHPR == SHPR
    {
      this.prioBits, this.IPR, this.SHPR := prioBits, IPR, SHPR;
    }

    method SetPriority(irq: int, priority: bv32)
      requires Valid() && InBytePort(irq)
      modifies IPR, SHPR
      ensures Registers() == ByteSet(old(Registers()), irq, priority, prioBits)
    {
      ByteIndices(irq);
      if irq >= 0 {
        IPR[Unsigned(irq)] := ((priority << (8 - prioBits)) & 0xFF) as bv8;
      } else {
        SHPR[ShpByte(irq)] := ((priority << (8 - prioBits)) & 0xFF) as bv8;
      }
    }

    method GetPriority(irq: int) returns (priority: bv32)
      requires Valid() && InBytePort(irq)
      ensures priority == ByteGet(Registers(), irq, prioBits)
    {
      ByteIndices(irq);
      if irq >= 0 {
        priority := (IPR[Unsigned(irq)] as bv32) >> (8 - prioBits);
      } else {
        priority := (SHPR[ShpByte(irq)] as bv32) >> (8 - prioBits);
      }
    }
  }

  // ---------------------------------------------------------------- both ports as one map

  datatype Write = Write(irq: int, priority: bv32)

  ghost predicate ForBothPorts(writes: seq<Write>)
  {
    forall k :: 0 <= k < |writes| ==> InPackedPort(writes[k].irq)
  }

  /** The priority an interrupt should have after the writes, given what it had before. */
  function Expected(initial: bv32, writes: seq<Write>, irq: int, prioBits: bv32): bv32
    requires 1 <= prioBits <= 8
  {
    if writes == [] then initial
    else
      var last := writes[|writes| - 1];
      if last.irq == irq then Implemented(last.priority, prioBits)
      else Expected(initial, writes[..|writes| - 1], irq, prioBits)
  }

  ghost function PackedRun(r: Packed, writes: seq<Write>, prioBits: bv32): (r': Packed)
    requires PackedShape(r) && ForBothPorts(writes) && 1 <= prioBits <= 8
    ensures PackedShape(r')
  {
    if writes == [] then r
    else
      var last := writes[|writes| - 1];
      PackedSet(PackedRun(r, writes[..|writes| - 1], prioBits), last.irq, last.priority, prioBits)
  }

  ghost function ByteRun(r: Bytes, writes: seq<Write>, prioBits: bv32): (r': Bytes)
    requires BytesShape(r) && ForBothPorts(writes) && 1 <= prioBits <= 8
    ensures BytesShape(r')
  {
    if writes == [] then r
    else
      var last := writes[|writes| - 1];
      ByteSet(ByteRun(r, writes[..|writes| - 1], prioBits), last.irq, last.priority, prioBits)
  }

  /** After any writes each port returns the last priority written modulo 2^prioBits, or what it held before. */
  lemma {:induction false} BothPortsAsExpected(p: Packed, b: Bytes, writes: seq<Write>, prioBits: bv32, irq: int)
    requires PackedShape(p) && BytesShape(b) && ForBothPorts(writes) && InPackedPort(irq) && 1 <= prioBits <= 8
    ensures PackedGet(PackedRun(p, writes, prioBits), irq, prioBits)
         == Expected(PackedGet(p, irq, prioBits), writes, irq, prioBits)
    ensures ByteGet(ByteRun(b, writes, prioBits), irq, prioBits)
         == Expected(ByteGet(b, irq, prioBits), writes, irq, prioBits)
    decreases |writes|
  {
    hide PackedGet, PackedSet, ByteGet, ByteSet, Implemented;
    if writes != [] {
      var n := |writes| - 1;
      var last := writes[n];
      BothPortsAsExpected(p, b, writes[..n], prioBits, irq);
      PackedGetAfterSet(PackedRun(p, writes[..n], prioBits), last.irq, last.priority, prioBits, irq);
      ByteGetAfterSet(ByteRun(b, writes[..n], prioBits), last.irq, last.priority, prioBits, irq);
    }
  }

  /** So the ports agree on an interrupt after any writes exactly when it was written or they agreed before. */
  lemma PortsAgreeIff(p: Packed, b: Bytes, writes: seq<Write>, prioBits: bv32, irq: int)
    requires PackedShape(p) && BytesShape(b) && ForBothPorts(writes) && InPackedPort(irq) && 1 <= prioBits <= 8
    ensures PackedGet(PackedRun(p, writes, prioBits), irq, prioBits)
            == ByteGet(ByteRun(b, writes, prioBits), irq, prioBits)
            <==> ((exists k :: 0 <= k < |writes| && writes[k].irq == irq)
                  || PackedGet(p, irq, prioBits) == ByteGet(b, irq, prioBits))
  {
    hide PackedGet, PackedSet, ByteGet, ByteSet, Implemented;
    BothPortsAsExpected(p, b, writes, prioBits, irq);
    ExpectedDependsOnInitial(PackedGet(p, irq, prioBits), ByteGet(b, irq, prioBits), writes, irq, prioBits);
  }

  lemma {:induction false} ExpectedDependsOnInitial(x: bv32, y: bv32, writes: seq<Write>, irq: int, prioBits: bv32)
    requires 1 <= prioBits <= 8
    ensures Expected(x, writes, irq, prioBits) == Expected(y, writes, irq, prioBits)
            <==> ((exists k :: 0 <= k < |writes| && writes[k].irq == irq) || x == y)
    decreases |writes|
  {
    hide Implemented;
    if writes != [] {
      ExpectedDependsOnInitial(x, y, writes[..|writes| - 1], irq, prioBits);
    }
  }
}
