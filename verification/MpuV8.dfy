/**
 * The Armv8-M region loader. The device is a file of regions behind a region number register and a block of
 * alias register pairs: pair 0 addresses region RNR, pair k > 0 addresses RNR with its low bits replaced by k.
 */
module MpuV8 {
  import opened Bits
  import opened FixedPoint

  /** The words of one table row. */
  const ROW_WORDS := 2

  datatype Region = Region(rbar: uint32, rlar: uint32)

  /** The region that alias pair k addresses. */
  function Target(rnr: nat, aliases: int, k: nat): (region: nat)
    requires 0 <= k < aliases
    ensures rnr % aliases == 0 ==> region == rnr + k
  {
    if k == 0 then rnr else rnr - rnr % aliases + k
  }

  /** A pair other than the first replaces the low bits of RNR by its number, and stays in the alias group of RNR. */
  lemma TargetReplacesLowBits(rnr: nat, aliases: int, k: nat)
    requires 0 < k < aliases
    ensures Target(rnr, aliases, k) % aliases == k && Target(rnr, aliases, k) / aliases == rnr / aliases
  {
    DivModUnique(rnr - rnr % aliases + k, aliases, rnr / aliases, k);
  }

  /** Word w lies in the alias block and addresses one of n regions. */
  ghost predicate Hits(n: nat, rnr: nat, aliases: int, w: nat)
  {
    w < 2 * aliases && Target(rnr, aliases, w / 2) < n
  }

  /** The region file after a store to word w of the alias block. */
  ghost function StoreWord(regs: seq<Region>, rnr: nat, aliases: int, w: nat, value: uint32): (r: seq<Region>)
    requires Hits(|regs|, rnr, aliases, w)
    ensures |r| == |regs|
  {
    var t := Target(rnr, aliases, w / 2);
    regs[t := if w % 2 == 0 then regs[t].(rbar := value) else regs[t].(rlar := value)]
  }

  ghost predicate Reachable(n: nat, rnr: nat, aliases: int, w: nat, len: nat)
  {
    forall v: nat :: w <= v < w + len ==> Hits(n, rnr, aliases, v)
  }

  /** The region file after storing words from word w upward. */
  ghost function StoreWords(regs: seq<Region>, rnr: nat, aliases: int, w: nat, words: seq<uint32>): (r: seq<Region>)
    requires Reachable(|regs|, rnr, aliases, w, |words|)
    ensures |r| == |regs|
  {
    if words == [] then regs
    else
      var n := |words| - 1;
      StoreWord(StoreWords(regs, rnr, aliases, w, words[..n]), rnr, aliases, w + n, words[n])
  }

  /** A table as the words it occupies in memory. */
  function Words(table: seq<Region>): (words: seq<uint32>)
    ensures |words| == 2 * |table|
  {
    seq(2 * |table|, i requires 0 <= i < 2 * |table| => if i % 2 == 0 then table[i / 2].rbar else table[i / 2].rlar)
  }

  /** The reference behaviour: set regions rnr, rnr + 1, ... one at a time. */
  function SetInTurn(regs: seq<Region>, rnr: nat, table: seq<Region>): (r: seq<Region>)
    requires rnr + |table| <= |regs|
    ensures |r| == |regs|
  {
    if table == [] then regs
    else SetInTurn(regs, rnr, table[..|table| - 1])[rnr + |table| - 1 := table[|table| - 1]]
  }

  /** Setting in turn replaces exactly the regions of the table and no other. */
  lemma {:induction false} SetInTurnIsSplice(regs: seq<Region>, rnr: nat, table: seq<Region>)
    requires rnr + |table| <= |regs|
    ensures SetInTurn(regs, rnr, table) == regs[..rnr] + table + regs[rnr + |table|..]
    decreases |table|
  {
    if table != [] {
      SetInTurnIsSplice(regs, rnr, table[..|table| - 1]);
    }
  }

  lemma {:induction false} SetInTurnAppend(regs: seq<Region>, rnr: nat, a: seq<Region>, b: seq<Region>)
    requires rnr + |a| + |b| <= |regs|
    ensures SetInTurn(SetInTurn(regs, rnr, a), rnr + |a|, b) == SetInTurn(regs, rnr, a + b)
    decreases |b|
  {
    if b == [] {
      assert a + b == a;
    } else {
      var n := |b| - 1;
      SetInTurnAppend(regs, rnr, a, b[..n]);
      assert (a + b)[..|a| + n] == a + b[..n];
    }
  }

  /** Two adjacent words of one pair set one whole region. */
  lemma StoreRow(regs: seq<Region>, rnr: nat, aliases: int, pair: nat, row: Region)
    requires pair < aliases && Target(rnr, aliases, pair) < |regs|
    ensures Hits(|regs|, rnr, aliases, 2 * pair) && Hits(|regs|, rnr, aliases, 2 * pair + 1)
    ensures StoreWord(StoreWord(regs, rnr, aliases, 2 * pair, row.rbar), rnr, aliases, 2 * pair + 1, row.rlar)
         == regs[Target(rnr, aliases, pair) := row]
  {
    assert (2 * pair) / 2 == pair && (2 * pair + 1) / 2 == pair && (2 * pair) % 2 == 0 && (2 * pair + 1) % 2 == 1;
  }

  lemma StoreStep(regs: seq<Region>, rnr: nat, aliases: int, w: nat, words: seq<uint32>, k: nat)
    requires Reachable(|regs|, rnr, aliases, w, |words|) && k < |words|
    ensures Reachable(|regs|, rnr, aliases, w, k) && Reachable(|regs|, rnr, aliases, w, k + 1)
    ensures Hits(|regs|, rnr, aliases, w + k)
    ensures StoreWords(regs, rnr, aliases, w, words[..k + 1])
         == StoreWord(StoreWords(regs, rnr, aliases, w, words[..k]), rnr, aliases, w + k, words[k])
  {
    hide StoreWord, Hits;
    assert words[..k + 1][..k] == words[..k];
  }

  lemma WordsOfRow(table: seq<Region>, k: nat)
    requires k < |table|
    ensures Words(table)[2 * k] == table[k].rbar && Words(table)[2 * k + 1] == table[k].rlar
  {
    assert (2 * k) % 2 == 0 && (2 * k) / 2 == k && (2 * k + 1) % 2 == 1 && (2 * k + 1) / 2 == k;
  }

  lemma SetOneMore(regs: seq<Region>, rnr: nat, rows: seq<Region>, m: nat)
    requires m < |rows| && rnr + |rows| <= |regs|
    ensures SetInTurn(regs, rnr, rows[..m + 1]) == SetInTurn(regs, rnr, rows[..m])[rnr + m := rows[m]]
  {
    assert rows[..m + 1][..m] == rows[..m];
  }

  /** Rows stored from alias pair off of an aligned RNR land on consecutive regions, as if set in turn. */
  lemma {:induction false} StoreRowsUpTo(regs: seq<Region>, rnr: nat, aliases: int, off: nat, rows: seq<Region>, n: nat)
    requires n <= |rows| && 0 < aliases && off + |rows| <= aliases && rnr + off + |rows| <= |regs|
    requires rnr % aliases == 0 || (off == 0 && |rows| <= 1)
    requires Reachable(|regs|, rnr, aliases, 2 * off, 2 * |rows|)
    ensures Reachable(|regs|, rnr, aliases, 2 * off, 2 * n)
    ensures StoreWords(regs, rnr, aliases, 2 * off, Words(rows)[..2 * n]) == SetInTurn(regs, rnr + off, rows[..n])
  {
    hide StoreWords, StoreWord, Target, Hits, Words, SetInTurn;
    if n > 0 {
      var m := n - 1;
      StoreRowsUpTo(regs, rnr, aliases, off, rows, m);
      WordsOfRow(rows, m);
      TargetOfPair(rnr, aliases, off + m);
      SetOneMore(regs, rnr + off, rows, m);
      TwoWords(regs, rnr, aliases, off, Words(rows), m, SetInTurn(regs, rnr + off, rows[..m]), rows[m]);
      assert 2 * m + 2 == 2 * n;
    } else {
      SetNone(regs, rnr + off, rows);
      StoreNone(regs, rnr, aliases, 2 * off, Words(rows));
    }
  }

  lemma StoreNone(regs: seq<Region>, rnr: nat, aliases: int, w: nat, words: seq<uint32>)
    ensures Reachable(|regs|, rnr, aliases, w, 0)
    ensures StoreWords(regs, rnr, aliases, w, words[..0]) == regs
  {
  }

  lemma TwoWords(regs: seq<Region>, rnr: nat, aliases: int, off: nat, words: seq<uint32>, m: nat,
                 before: seq<Region>, row: Region)
    requires 2 * m + 2 <= |words| && Reachable(|regs|, rnr, aliases, 2 * off, |words|)
    requires |before| == |regs| && words[2 * m] == row.rbar && words[2 * m + 1] == row.rlar
    requires off + m < aliases && Target(rnr, aliases, off + m) < |regs|
    requires Reachable(|regs|, rnr, aliases, 2 * off, 2 * m)
    requires StoreWords(regs, rnr, aliases, 2 * off, words[..2 * m]) == before
    ensures Reachable(|regs|, rnr, aliases, 2 * off, 2 * m + 2)
    ensures StoreWords(regs, rnr, aliases, 2 * off, words[..2 * m + 2]) == before[Target(rnr, aliases, off + m) := row]
  {
    hide StoreWords, StoreWord, Target, Hits, Reachable;
    StoreRow(before, rnr, aliases, off + m, row);
    StoreStep(regs, rnr, aliases, 2 * off, words, 2 * m);
    StoreStep(regs, rnr, aliases, 2 * off, words, 2 * m + 1);
    var w := 2 * (off + m);
    assert 2 * off + 2 * m == w && 2 * off + (2 * m + 1) == w + 1;
  }

  lemma StoreRows(regs: seq<Region>, rnr: nat, aliases: int, off: nat, rows: seq<Region>)
    requires 0 < aliases && off + |rows| <= aliases && rnr + off + |rows| <= |regs|
    requires rnr % aliases == 0 || (off == 0 && |rows| <= 1)
    ensures Reachable(|regs|, rnr, aliases, 2 * off, 2 * |rows|)
    ensures StoreWords(regs, rnr, aliases, 2 * off, Words(rows)) == SetInTurn(regs, rnr + off, rows)
  {
    hide StoreWords, StoreWord, Target, Words, SetInTurn;
    forall v: nat | 2 * off <= v < 2 * off + 2 * |rows|
      ensures Hits(|regs|, rnr, aliases, v)
    {
      TargetOfPair(rnr, aliases, v / 2);
    }
    StoreRowsUpTo(regs, rnr, aliases, off, rows, |rows|);
    assert Words(rows)[..2 * |rows|] == Words(rows) && rows[..|rows|] == rows;
  }

  lemma TargetOfPair(rnr: nat, aliases: int, k: nat)
    requires k < aliases && (rnr % aliases == 0 || k == 0)
    ensures Target(rnr, aliases, k) == rnr + k
  {
  }

  lemma WordsTake(table: seq<Region>, c: nat)
    requires c <= |table|
    ensures Words(table)[..2 * c] == Words(table[..c])
  {
  }

  class Mpu {
    const aliasBits: nat
    var RNR: uint32
    const regions: array<Region>

    /** The number of register pairs, MPU_TYPE_RALIASES. */
    function Aliases(): int
    {
      Pow2(aliasBits)
    }

    ghost predicate Valid()
    {
      aliasBits < 32
    }

    constructor (aliasBits: nat, regions: array<Region>)
      requires aliasBits < 32
      ensures Valid() && this.aliasBits == aliasBits && this.regions == regions
    {
      this.aliasBits, this.regions, RNR := aliasBits, regions, 0;
    }

    /** A store to word w of the register block that starts at RBAR. */
    method Write(w: nat, value: uint32)
      requires Hits(regions.Length, RNR, Aliases(), w)
      modifies regions
      ensures regions[..] == StoreWord(old(regions[..]), RNR, Aliases(), w, value)
    {
      var t := Target(RNR, Aliases(), w / 2);
      if w % 2 == 0 {
        regions[t] := regions[t].(rbar := value);
      } else {
        regions[t] := regions[t].(rlar := value);
      }
    }

    method OrderedMemcpy(dst: nat, src: seq<uint32>, len: nat)
      requires len <= |src| && Reachable(regions.Length, RNR, Aliases(), dst, len)
      modifies regions
      ensures regions[..] == StoreWords(old(regions[..]), RNR, Aliases(), dst, src[..len])
    {
      for i := 0 to len
        invariant regions[..] == StoreWords(old(regions[..]), RNR, Aliases(), dst, src[..i])
      {
        assert src[..i + 1][..i] == src[..i];
        Write(dst + i, src[i]);
      }
    }

    method SetRegionEx(rnr: uint32, rbar: uint32, rlar: uint32)
      requires Valid() && rnr < regions.Length
      modifies this`RNR, regions
      ensures RNR == rnr && regions[..] == SetInTurn(old(regions[..]), rnr, [Region(rbar, rlar)])
      ensures regions[..] == old(regions[..])[rnr := Region(rbar, rlar)]
    {
      RNR := rnr;
      Write(0, rbar);
      Write(1, rlar);
    }

    method LoadEx(rnr: uint32, table: seq<Region>, cnt: uint32)
      requires Valid() && cnt <= |table|
      requires rnr + cnt <= regions.Length <= 0x100
      modifies this`RNR, regions
      ensures regions[..] == SetInTurn(old(regions[..]), rnr, table[..cnt])
      ensures cnt == 1 ==> RNR == rnr
      ensures cnt != 1 ==> RNR % Aliases() == 0 && RNR <= rnr + (if cnt > 0 then cnt - 1 else 0) < RNR + Aliases()
    {
      hide And, Pow2, SetInTurn, StoreWords, Words;
      ghost var regs := regions[..];
      if cnt == 1 {
        RNR := rnr;
        StoreRows(regs, RNR, Aliases(), 0, table[..1]);
        WordsTake(table, 1);
        OrderedMemcpy(0, Words(table), ROW_WORDS);
      } else {
        AlignMask(rnr, aliasBits);
        var rnrBase := And(rnr, 0x1_0000_0000 - Aliases());
        var rnrOffset := rnr % Aliases();
        RNR := rnrBase;
        var t, left := 0, cnt;
        SetNone(regs, rnr, table);
        while rnrOffset + left > Aliases()
          invariant 0 <= t && t + left == cnt && left >= 0 && (cnt > 0 ==> left > 0)
          invariant 0 <= rnrOffset < Aliases()
          invariant RNR == rnrBase && rnrBase % Aliases() == 0
          invariant rnrBase + rnrOffset == rnr + t
          invariant regions[..] == SetInTurn(regs, rnr, table[..t])
          decreases left
        {
          var c := Aliases() - rnrOffset;
          CopyRows(rnrOffset, table[t..], c);
          SetChunk(regs, rnr, table, t, c);
          t := t + c;
          left := left - c;
          rnrOffset := 0;
          NextBase(rnrBase, Aliases());
          rnrBase := rnrBase + Aliases();
          RNR := rnrBase;
        }
        CopyRows(rnrOffset, table[t..], left);
        SetChunk(regs, rnr, table, t, left);
      }
    }

    /** One bulk copy of rows into consecutive alias pairs of an aligned RNR. */
    method CopyRows(off: nat, rows: seq<Region>, c: nat)
      requires c <= |rows| && off + c <= Aliases()
      requires RNR % Aliases() == 0 && RNR + off + c <= regions.Length
      modifies regions
      ensures regions[..] == SetInTurn(old(regions[..]), RNR + off, rows[..c])
    {
      hide StoreWords, SetInTurn, Words, Hits, Pow2;
      StoreRows(regions[..], RNR, Aliases(), off, rows[..c]);
      WordsTake(rows, c);
      OrderedMemcpy(2 * off, Words(rows), c * ROW_WORDS);
    }
  }

  lemma SetNone(regs: seq<Region>, rnr: nat, table: seq<Region>)
    requires rnr <= |regs|
    ensures SetInTurn(regs, rnr, table[..0]) == regs
  {
  }

  lemma SetChunk(regs: seq<Region>, rnr: nat, table: seq<Region>, t: nat, c: nat)
    requires t + c <= |table| && rnr + t + c <= |regs|
    ensures SetInTurn(SetInTurn(regs, rnr, table[..t]), rnr + t, table[t..][..c])
         == SetInTurn(regs, rnr, table[..t + c])
  {
    SetInTurnAppend(regs, rnr, table[..t], table[t..][..c]);
    assert table[..t] + table[t..][..c] == table[..t + c];
  }

  /** Masking off the low bits rounds a region number down to its alias group. */
  lemma AlignMask(rnr: uint32, a: nat)
    requires a <= 32
    ensures 0 < Pow2(a) <= 0x1_0000_0000
    ensures And(rnr, 0x1_0000_0000 - Pow2(a)) == rnr - rnr % Pow2(a)
    ensures 0 <= rnr % Pow2(a) < Pow2(a)
    ensures (rnr - rnr % Pow2(a)) % Pow2(a) == 0
  {
    hide And, Pow2;
    Pow2Values();
    AndHighMask(rnr, 32, a);
    LowBitsIsMod(rnr, a);
    RoundDown(rnr, Pow2(a));
  }

  lemma RoundDown(x: int, d: int)
    requires d > 0
    ensures (x - x % d) % d == 0
  {
    DivModUnique(x - x % d, d, x / d, 0);
  }

  lemma NextBase(base: int, d: int)
    requires d > 0 && base % d == 0
    ensures (base + d) % d == 0
  {
    DivModUnique(base + d, d, base / d + 1, 0);
  }
}
