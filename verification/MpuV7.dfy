/**
 * The Armv7-M region loader. A store to RBAR with VALID set selects the region named in its low bits;
 * a store to RASR configures the selected region. The alias pairs behave like RBAR and RASR themselves.
 */
module MpuV7 {
  import opened Bits
  import opened FixedPoint
  import opened OrderedStores

  /** One region: base address (RBAR without its VALID and REGION fields) and attributes. */
  datatype Region = Region(base: uint32, rasr: uint32)

  /** One table row, as written to the registers. */
  datatype Row = Row(rbar: uint32, rasr: uint32)

  /** The selected region and the region file; REGION is a 4-bit field. */
  datatype Device = Device(rnr: nat, regions: seq<Region>)

  ghost predicate WellFormed(d: Device)
  {
    d.rnr < 16 && |d.regions| == 16
  }

  predicate SelectsRegion(rbar: uint32)
  {
    And(rbar, 0x10) != 0
  }

  function RegionOf(rbar: uint32): (region: nat)
    ensures region < 16
  {
    rbar % 0x10
  }

  /** VALID is bit 4. */
  lemma ValidBit(rbar: uint32)
    ensures SelectsRegion(rbar) <==> rbar / 0x10 % 2 == 1
  {
    hide And;
    AndEvenMask(rbar, 8);
    AndEvenMask(rbar / 2, 4);
    AndEvenMask(rbar / 2 / 2, 2);
    AndEvenMask(rbar / 2 / 2 / 2, 1);
    AndStep(rbar / 0x10, 1);
    AndZero(rbar / 0x10 / 2);
  }

  lemma AndZero(x: nat)
    ensures And(x, 0) == 0
  {
  }

  function StoreWord(d: Device, w: nat, value: uint32): (d': Device)
    requires WellFormed(d)
    ensures WellFormed(d')
  {
    if w % 2 == 0 then
      var rnr := if SelectsRegion(value) then RegionOf(value) else d.rnr;
      Device(rnr, d.regions[rnr := d.regions[rnr].(base := value - value % 0x20)])
    else
      d.(regions := d.regions[d.rnr := d.regions[d.rnr].(rasr := value)])
  }

  function StoreWords(d: Device, w: nat, words: seq<uint32>): (d': Device)
    requires WellFormed(d)
    ensures WellFormed(d')
  {
    if words == [] then d
    else StoreWord(StoreWords(d, w, words[..|words| - 1]), w + |words| - 1, words[|words| - 1])
  }

  /** A table as the words it occupies in memory. */
  function Words(table: seq<Row>): (words: seq<uint32>)
    ensures |words| == 2 * |table|
  {
    seq(2 * |table|, i requires 0 <= i < 2 * |table| => if i % 2 == 0 then table[i / 2].rbar else table[i / 2].rasr)
  }

  /** The effect of ARM_MPU_SetRegion: RBAR, then RASR. */
  function AfterSetRegion(d: Device, row: Row): (d': Device)
    requires WellFormed(d)
    ensures WellFormed(d')
  {
    StoreWord(StoreWord(d, 0, row.rbar), 1, row.rasr)
  }

  /** The reference behaviour: ARM_MPU_SetRegion for every row, in table order. */
  function SetInTurn(d: Device, table: seq<Row>): (d': Device)
    requires WellFormed(d)
    ensures WellFormed(d')
  {
    if table == [] then d else AfterSetRegion(SetInTurn(d, table[..|table| - 1]), table[|table| - 1])
  }

  /** With VALID set a row configures the region it names, wholly, and no other. */
  lemma SetRegionOfValidRow(d: Device, row: Row)
    requires WellFormed(d) && SelectsRegion(row.rbar)
    ensures AfterSetRegion(d, row).regions
         == d.regions[RegionOf(row.rbar) := Region(row.rbar - row.rbar % 0x20, row.rasr)]
  {
  }

  /** ARM_MPU_RBAR: three disjoint fields, so that combining them adds them up. */
  function Rbar(region: uint32, base: uint32): uint32
  {
    RbarFields(region, base);
    And(base, 0xFFFF_FFE0) + And(region, 0xF) + 0x10
  }

  lemma RbarFields(region: uint32, base: uint32)
    ensures And(base, 0xFFFF_FFE0) == base - base % 0x20 <= 0xFFFF_FFE0
    ensures And(region, 0xF) == region % 0x10
  {
    hide And, LowBits, Pow2;
    SmallPowers();
    Pow2Values();
    AndHighMask(base, 32, 5);
    LowBitsIsMod(base, 5);
    AndLowMask(region, 4);
    LowBitsIsMod(region, 4);
  }

  lemma SmallPowers()
    ensures Pow2(4) == 0x10 && Pow2(5) == 0x20
  {
  }

  /**
   * What a row does, field by field: with VALID it configures the region in its low four bits, without it the one
   * selected before.
   */
  lemma SetRegionOfFields(d: Device, base: uint32, region: nat, rasr: uint32)
    requires WellFormed(d) && base % 0x20 == 0 && region < 0x10
    ensures base + 0x10 + region < 0x1_0000_0000
    ensures AfterSetRegion(d, Row(base + 0x10 + region, rasr))
         == Device(region, d.regions[region := Region(base, rasr)])
    ensures AfterSetRegion(d, Row(base + region, rasr)) == d.(regions := d.regions[d.rnr := Region(base, rasr)])
  {
    hide SelectsRegion;
    ValidBit(base + 0x10 + region);
    ValidBit(base + region);
    FieldArithmetic(base, region);
  }

  lemma FieldArithmetic(base: uint32, region: nat)
    requires base % 0x20 == 0 && region < 0x10
    ensures base <= 0xFFFF_FFE0
    ensures var v := base + 0x10 + region; v / 0x10 % 2 == 1 && v % 0x10 == region && v - v % 0x20 == base
    ensures var v := base + region; v / 0x10 % 2 == 0 && v - v % 0x20 == base
  {
    var q := base / 0x20;
    assert base == 0x20 * q;
    DivModUnique(base + 0x10 + region, 0x10, 2 * q + 1, region);
    DivModUnique(base + 0x10 + region, 0x20, q, 0x10 + region);
    DivModUnique(base + region, 0x10, 2 * q, region);
    DivModUnique(base + region, 0x20, q, region);
  }

  /** A row of the table an application builds with the macro. */
  datatype Setting = Setting(region: uint32, base: uint32, rasr: uint32)

  function MacroTable(settings: seq<Setting>): (table: seq<Row>)
    ensures |table| == |settings|
    ensures forall k :: 0 <= k < |settings| ==>
      table[k] == Row(Rbar(settings[k].region, settings[k].base), settings[k].rasr)
  {
    seq(|settings|, k requires 0 <= k < |settings| => Row(Rbar(settings[k].region, settings[k].base), settings[k].rasr))
  }

  /** Every row names the region it configures. */
  ghost predicate AllValid(table: seq<Row>)
  {
    forall k :: 0 <= k < |table| ==> SelectsRegion(table[k].rbar)
  }

  function Targets(table: seq<Row>): (at: seq<int>)
    ensures |at| == |table| && forall k :: 0 <= k < |table| ==> at[k] == RegionOf(table[k].rbar)
  {
    seq(|table|, k requires 0 <= k < |table| => RegionOf(table[k].rbar))
  }

  function Contents(table: seq<Row>): (regions: seq<Region>)
    ensures |regions| == |table|
    ensures forall k :: 0 <= k < |table| ==> regions[k] == Region(table[k].rbar - table[k].rbar % 0x20, table[k].rasr)
  {
    seq(|table|, k requires 0 <= k < |table| => Region(table[k].rbar - table[k].rbar % 0x20, table[k].rasr))
  }

  /** Then setting the rows in turn is storing each row's region at its number, so the last row for a region wins. */
  lemma {:induction false} ValidTableIsStored(d: Device, table: seq<Row>)
    requires WellFormed(d) && AllValid(table)
    ensures SetInTurn(d, table).regions == Stored(d.regions, Targets(table), Contents(table))
    decreases |table|
  {
    hide SelectsRegion, AfterSetRegion, RegionOf;
    if table != [] {
      var n := |table| - 1;
      ValidTableIsStored(d, table[..n]);
      assert Targets(table)[..n] == Targets(table[..n]) && Contents(table)[..n] == Contents(table[..n]);
      SetRegionOfValidRow(SetInTurn(d, table[..n]), table[n]);
    }
  }

  /** Region r after loading such a table: the last setting for r, modulo 16, or what it was before. */
  lemma MacroTableLoaded(d: Device, settings: seq<Setting>, r: nat)
    requires WellFormed(d) && r < 16
    ensures (forall k :: 0 <= k < |settings| ==> settings[k].region % 0x10 != r)
            ==> SetInTurn(d, MacroTable(settings)).regions[r] == d.regions[r]
    ensures forall k :: 0 <= k < |settings| && settings[k].region % 0x10 == r
                        && (forall k' :: k < k' < |settings| ==> settings[k'].region % 0x10 != r)
                        ==> SetInTurn(d, MacroTable(settings)).regions[r]
                            == Region(settings[k].base - settings[k].base % 0x20, settings[k].rasr)
  {
    hide SetInTurn, Rbar, SelectsRegion, RegionOf, Stored;
    var table := MacroTable(settings);
    forall k | 0 <= k < |settings|
      ensures SelectsRegion(table[k].rbar) && Targets(table)[k] == settings[k].region % 0x10
      ensures Contents(table)[k] == Region(settings[k].base - settings[k].base % 0x20, settings[k].rasr)
    {
      RbarDecoded(settings[k].region, settings[k].base);
    }
    ValidTableIsStored(d, table);
    LastWriterWins(d.regions, Targets(table), Contents(table), r);
  }

  /** The macro sets VALID and keeps the number and the address apart. */
  lemma RbarDecoded(region: uint32, base: uint32)
    ensures SelectsRegion(Rbar(region, base)) && RegionOf(Rbar(region, base)) == region % 0x10
    ensures Rbar(region, base) - Rbar(region, base) % 0x20 == base - base % 0x20
  {
    hide SelectsRegion, Rbar;
    var b, r := base - base % 0x20, region % 0x10;
    RbarValue(region, base);
    ValidBit(Rbar(region, base));
    FieldArithmetic(b, r);
    assert Rbar(region, base) == b + 0x10 + r;
  }

  lemma RbarValue(region: uint32, base: uint32)
    ensures Rbar(region, base) == base - base % 0x20 + 0x10 + region % 0x10
    ensures (base - base % 0x20) % 0x20 == 0
  {
    hide And;
    RbarFields(region, base);
    DivModUnique(base - base % 0x20, 0x20, base / 0x20, 0);
  }

  /** Loading the same valid table twice leaves the regions as loading it once. */
  lemma LoadIdempotent(d: Device, table: seq<Row>)
    requires WellFormed(d) && AllValid(table)
    ensures SetInTurn(SetInTurn(d, table), table).regions == SetInTurn(d, table).regions
  {
    var once := SetInTurn(d, table);
    ValidTableIsStored(d, table);
    ValidTableIsStored(once, table);
    forall r | 0 <= r < 16
      ensures SetInTurn(once, table).regions[r] == once.regions[r]
    {
      if r in Targets(table) {
        SameLastWriter(d.regions, once.regions, Targets(table), Contents(table), r);
      } else {
        LastWriterWins(once.regions, Targets(table), Contents(table), r);
      }
    }
  }

  lemma {:induction false} SetInTurnAppend(d: Device, a: seq<Row>, b: seq<Row>)
    requires WellFormed(d)
    ensures SetInTurn(SetInTurn(d, a), b) == SetInTurn(d, a + b)
    decreases |b|
  {
    hide AfterSetRegion;
    if b == [] {
      assert a + b == a;
    } else {
      var n := |b| - 1;
      SetInTurnAppend(d, a, b[..n]);
      assert (a + b)[..|a| + n] == a + b[..n];
    }
  }

  lemma WordsOfRow(table: seq<Row>, k: nat)
    requires k < |table|
    ensures Words(table)[2 * k] == table[k].rbar && Words(table)[2 * k + 1] == table[k].rasr
  {
    assert (2 * k) % 2 == 0 && (2 * k) / 2 == k && (2 * k + 1) % 2 == 1 && (2 * k + 1) / 2 == k;
  }

  lemma SetOneMore(d: Device, rows: seq<Row>, m: nat)
    requires WellFormed(d) && m < |rows|
    ensures SetInTurn(d, rows[..m + 1]) == AfterSetRegion(SetInTurn(d, rows[..m]), rows[m])
  {
    hide AfterSetRegion;
    assert rows[..m + 1][..m] == rows[..m];
  }

  /** Copying rows into the alias block configures them in turn; which pair a row lands on does not matter. */
  lemma {:induction false} StoreRowsUpTo(d: Device, rows: seq<Row>, n: nat)
    requires WellFormed(d) && n <= |rows|
    ensures StoreWords(d, 0, Words(rows)[..2 * n]) == SetInTurn(d, rows[..n])
  {
    hide StoreWord, StoreWords, AfterSetRegion, WellFormed, Words, SetInTurn;
    if n > 0 {
      var m := n - 1;
      StoreRowsUpTo(d, rows, m);
      WordsOfRow(rows, m);
      SetOneMore(d, rows, m);
      TwoWords(d, Words(rows), m, SetInTurn(d, rows[..m]), rows[m]);
      assert 2 * m + 2 == 2 * n;
    } else {
      SetNone(d, rows);
      StoreNone(d, Words(rows));
    }
  }

  lemma StoreNone(d: Device, words: seq<uint32>)
    requires WellFormed(d)
    ensures StoreWords(d, 0, words[..0]) == d
  {
  }

  lemma TwoWords(d: Device, words: seq<uint32>, m: nat, before: Device, row: Row)
    requires WellFormed(d) && WellFormed(before)
    requires 2 * m + 2 <= |words| && words[2 * m] == row.rbar && words[2 * m + 1] == row.rasr
    requires StoreWords(d, 0, words[..2 * m]) == before
    ensures StoreWords(d, 0, words[..2 * m + 2]) == AfterSetRegion(before, row)
  {
    hide StoreWord, StoreWords, AfterSetRegion, WellFormed;
    StoreStep(d, words, 2 * m);
    StoreStep(d, words, 2 * m + 1);
    ParityOnly(before, 2 * m, row);
  }

  lemma StoreRows(d: Device, rows: seq<Row>)
    requires WellFormed(d)
    ensures StoreWords(d, 0, Words(rows)) == SetInTurn(d, rows)
  {
    hide StoreWord, StoreWords, SetInTurn, WellFormed, Words;
    StoreRowsUpTo(d, rows, |rows|);
    assert Words(rows)[..2 * |rows|] == Words(rows) && rows[..|rows|] == rows;
  }

  lemma StoreStep(d: Device, words: seq<uint32>, k: nat)
    requires WellFormed(d) && k < |words|
    ensures StoreWords(d, 0, words[..k + 1]) == StoreWord(StoreWords(d, 0, words[..k]), k, words[k])
  {
    hide StoreWord, WellFormed;
    assert words[..k + 1][..k] == words[..k];
  }

  lemma ParityOnly(d: Device, w: nat, row: Row)
    requires WellFormed(d) && w % 2 == 0
    ensures StoreWord(StoreWord(d, w, row.rbar), w + 1, row.rasr) == AfterSetRegion(d, row)
  {
  }

  lemma WordsTake(table: seq<Row>, c: nat)
    requires c <= |table|
    ensures Words(table)[..2 * c] == Words(table[..c])
  {
  }

  class Mpu {
    /** The number of register pairs, MPU_TYPE_RALIASES. */
    const aliases: nat
    var RNR: nat
    const regions: array<Region>

    ghost predicate Valid()
      reads this
    {
      aliases >= 1 && RNR < 16 && regions.Length == 16
    }

    ghost function State(): (d: Device)
      requires Valid()
      reads this, regions
      ensures WellFormed(d)
    {
      Device(RNR, regions[..])
    }

    constructor (aliases: nat, regions: array<Region>)
      requires aliases >= 1 && regions.Length == 16
      ensures Valid() && this.aliases == aliases && this.regions == regions
      ensures State() == Device(0, regions[..])
    {
      this.aliases, this.regions, RNR := aliases, regions, 0;
    }

    /** A store to word w of the register block that starts at RBAR. */
    method Write(w: nat, value: uint32)
      requires Valid() && w < 2 * aliases
      modifies this`RNR, regions
      ensures Valid() && State() == StoreWord(old(State()), w, value)
    {
      if w % 2 == 0 {
        if SelectsRegion(value) {
          RNR := RegionOf(value);
        }
        regions[RNR] := regions[RNR].(base := value - value % 0x20);
      } else {
        regions[RNR] := regions[RNR].(rasr := value);
      }
    }

    method OrderedMemcpy(dst: nat, src: seq<uint32>, len: nat)
      requires Valid() && len <= |src| && dst + len <= 2 * aliases
      modifies this`RNR, regions
      ensures Valid() && State() == StoreWords(old(State()), dst, src[..len])
    {
      for i := 0 to len
        invariant Valid() && State() == StoreWords(old(State()), dst, src[..i])
      {
        assert src[..i + 1][..i] == src[..i];
        Write(dst + i, src[i]);
      }
    }

    method SetRegion(rbar: uint32, rasr: uint32)
      requires Valid()
      modifies this`RNR, regions
      ensures Valid() && State() == SetInTurn(old(State()), [Row(rbar, rasr)])
    {
      ghost var d := State();
      Write(0, rbar);
      Write(1, rasr);
      assert State() == AfterSetRegion(d, Row(rbar, rasr));
      assert [Row(rbar, rasr)][..0] == [];
    }

    method Load(table: seq<Row>, cnt: uint32)
      requires Valid() && cnt <= |table|
      modifies this`RNR, regions
      ensures Valid() && State() == SetInTurn(old(State()), table[..cnt])
    {
      hide SetInTurn, StoreWords, Words, WellFormed;
      ghost var d := State();
      var t, left := 0, cnt;
      SetNone(d, table);
      while left > aliases
        invariant 0 <= t && t + left == cnt && left >= 0
        invariant Valid() && State() == SetInTurn(d, table[..t])
        decreases left
      {
        CopyRows(table[t..], aliases);
        SetChunk(d, table, t, aliases);
        t := t + aliases;
        left := left - aliases;
      }
      CopyRows(table[t..], left);
      SetChunk(d, table, t, left);
    }

    /** One bulk copy of rows into the alias block. */
    method CopyRows(rows: seq<Row>, c: nat)
      requires Valid() && c <= |rows| && c <= aliases
      modifies this`RNR, regions
      ensures Valid() && State() == SetInTurn(old(State()), rows[..c])
    {
      hide StoreWords, SetInTurn, WellFormed, Words;
      StoreRows(State(), rows[..c]);
      WordsTake(rows, c);
      OrderedMemcpy(0, Words(rows), c * 2);
    }
  }

  lemma SetNone(d: Device, table: seq<Row>)
    requires WellFormed(d)
    ensures SetInTurn(d, table[..0]) == d
  {
  }

  lemma SetChunk(d: Device, table: seq<Row>, t: nat, c: nat)
    requires WellFormed(d) && t + c <= |table|
    ensures SetInTurn(SetInTurn(d, table[..t]), table[t..][..c]) == SetInTurn(d, table[..t + c])
  {
    hide SetInTurn, WellFormed;
    SetInTurnAppend(d, table[..t], table[t..][..c]);
    assert table[..t] + table[t..][..c] == table[..t + c];
  }
}
