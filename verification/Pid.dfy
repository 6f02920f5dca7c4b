/**
 * The PID controllers. Each instance keeps x[n-1], x[n-2] and y[n-1] in "state" and each call of
 * Process consumes one sample. Runs over whole input sequences are studied through the step functions.
 */
module Pid {
  import opened Bits
  import opened FixedPoint

  /** The derived gains A0, A1, A2. */
  datatype Gains = Gains(a0: q15, a1: q15, a2: q15)

  /** The contents of the state array: x[n-1], x[n-2], y[n-1]. */
  datatype State = State(x1: q15, x2: q15, y1: q15)

  const RESET := State(0, 0, 0)

  function ToState(s: seq<q15>): State
    requires |s| == 3
  {
    State(s[0], s[1], s[2])
  }

  // ---------------------------------------------------------------- arm_pid_q15

  /** A0 * x[n] + A1 * x[n-1] + A2 * x[n-2], exactly. */
  function Correction(g: Gains, s: State, sample: q15): (c: int)
    ensures -0xC000_0000 <= c <= 0xC000_0000
  {
    ProductBound(g.a0, 0x8000, sample, 0x8000);
    ProductBound(g.a1, 0x8000, s.x1, 0x8000);
    ProductBound(g.a2, 0x8000, s.x2, 0x8000);
    g.a0 * sample + g.a1 * s.x1 + g.a2 * s.x2
  }

  /** No product of two Q15 values is cut by the 32-bit multiplication. */
  lemma ProductsFit(g: Gains, s: State, sample: q15)
    ensures ToInt32(g.a0 * sample) == g.a0 * sample
    ensures ToInt32(g.a1 * s.x1) == g.a1 * s.x1
    ensures ToInt32(g.a2 * s.x2) == g.a2 * s.x2
    ensures ToInt32(g.a0 * sample) + ToInt32(g.a1 * s.x1) + ToInt32(g.a2 * s.x2) == Correction(g, s, sample)
    ensures ToInt32(s.y1 as int * 0x8000) == s.y1 as int * 0x8000
  {
    ProductBound(g.a0, 0x8000, sample, 0x8000);
    ProductBound(g.a1, 0x8000, s.x1, 0x8000);
    ProductBound(g.a2, 0x8000, s.x2, 0x8000);
  }

  /** The next output of an exact accumulator, scaled down and saturated. */
  function NextOutput(correction: int, y1: q15): q15
  {
    Clamp(correction / 0x8000 + y1, -0x8000, 0x7FFF)
  }

  /** The output conversion: drop 15 bits, saturate to 16. No accumulator of a PID step is large enough to be cut. */
  function Saturate(acc: q63): (out: q15)
    requires -0x2_0000_0000 <= acc <= 0x2_0000_0000
    ensures out == Clamp(acc / 0x8000, -0x8000, 0x7FFF)
  {
    Pow2Values();
    ToInt16(Ssat(ToInt32(acc / 0x8000), 16))
  }

  function Step(g: Gains, s: State, sample: q15): State
  {
    State(sample, s.x1, NextOutput(Correction(g, s, sample), s.y1))
  }

  /** One instance of the build without DSP instructions. */
  class PidQ15 {
    var A0: q15
    var A1: q15
    var A2: q15
    const state: array<q15>

    ghost predicate Valid()
      reads this
    {
      state.Length == 3
    }

    ghost function Gain(): Gains
      reads this
    {
      Gains(A0, A1, A2)
    }

    ghost function Memory(): State
      requires Valid()
      reads this, state
    {
      ToState(state[..])
    }

    constructor (gains: Gains)
      ensures Valid() && fresh(state) && Gain() == gains && Memory() == RESET
    {
      A0, A1, A2 := gains.a0, gains.a1, gains.a2;
      state := new q15[3](_ => 0);
    }

    method Process(sample: q15) returns (out: q15)
      requires Valid()
      modifies state
      ensures Valid()
      ensures Memory() == Step(Gain(), old(Memory()), sample)
      ensures out == Memory().y1
      ensures state[0] == sample && state[1] == old(state[0]) && state[2] == out
    {
      ghost var before := Memory();
      ProductsFit(Gain(), before, sample);
      var acc: q63 := ToInt32(A0 * sample);
      acc := acc + ToInt32(A1 * state[0]);
      acc := acc + ToInt32(A2 * state[1]);
      acc := acc + ToInt32(state[2] as int * 0x8000);
      out := Saturate(acc);
      state[1] := state[0];
      state[0] := sample;
      state[2] := out;
    }
  }

  // ---------------------------------------------------------------- the DSP build

  /** Signed low and high halves of a 32-bit word. */
  function Lo16(w: uint32): q15 { ToInt16(w) }

  function Hi16(w: uint32): q15 { ToInt32(w) / 0x1_0000 }

  /** Two 16-bit values in one word, the first in the low half. */
  function Pack(lo: q15, hi: q15): uint32
  {
    ToUint16(lo) + 0x1_0000 * ToUint16(hi)
  }

  lemma PackedHalves(lo: q15, hi: q15)
    ensures Lo16(Pack(lo, hi)) == lo && Hi16(Pack(lo, hi)) == hi
  {
    var l := ToUint16(lo);
    var h := if hi < 0 then hi + 0x1_0000 else hi as int;
    assert ToUint16(hi) == h;
    assert ToInt32(l + 0x1_0000 * h) == l + 0x1_0000 * hi;
    assert l == if lo < 0 then lo + 0x1_0000 else lo as int;
    LowHalf(l, h);
  }

  lemma LowHalf(l: uint16, h: int)
    ensures ToInt16(l + 0x1_0000 * h) == if l < 0x8000 then l else l - 0x1_0000
  {
    if l < 0x8000 {
      DivModUnique(l + 0x1_0000 * h + 0x8000, 0x1_0000, h, l + 0x8000);
    } else {
      DivModUnique(l + 0x1_0000 * h + 0x8000, 0x1_0000, h + 1, l - 0x8000);
    }
  }

  /** A sign-extended 16-bit value carries copies of its sign in the high half. */
  lemma SignExtended(v: q15)
    ensures Lo16(ToUint32(v)) == v
    ensures Hi16(ToUint32(v)) == if v < 0 then -1 else 0
  {
    var w: uint32 := if v < 0 then v + 0x1_0000_0000 else v as int;
    DivModUnique(v, 0x1_0000_0000, if v < 0 then -1 else 0, w);
    if v < 0 {
      DivModUnique(w + 0x8000, 0x1_0000, 0x1_0000, v + 0x8000);
      DivModUnique(w + 0x8000_0000, 0x1_0000_0000, 1, v + 0x8000_0000);
      DivModUnique(v, 0x1_0000, -1, v + 0x1_0000);
    } else {
      DivModUnique(w + 0x8000, 0x1_0000, 0, v + 0x8000);
      DivModUnique(w + 0x8000_0000, 0x1_0000_0000, 0, v + 0x8000_0000);
      DivModUnique(v, 0x1_0000, 0, v as int);
    }
  }

  function Smuad(x: uint32, y: uint32): uint32
  {
    ToUint32(Lo16(x) * Lo16(y) + Hi16(x) * Hi16(y))
  }

  /** The instruction: both products are added to the 64-bit accumulator. */
  function Smlald(x: uint32, y: uint32, sum: uint64): uint64
  {
    ToUint64(Lo16(x) * Lo16(y) + Hi16(x) * Hi16(y) + ToInt64(sum))
  }

  /**
   * The C emulation for builds without the instruction adds the two products as 32-bit integers first. That sum
   * overflows for exactly one pair of operands. In those builds the controller does not call it.
   */
  lemma SmlaldEmulationFitsIff(x: uint32, y: uint32)
    ensures -0x8000_0000 <= Lo16(x) * Lo16(y) + Hi16(x) * Hi16(y) < 0x8000_0000
            <==> !(x == 0x8000_8000 && y == 0x8000_8000)
  {
    BothHalvesLowest(x);
    BothHalvesLowest(y);
    hide Lo16, Hi16;
    TopProduct(Lo16(x), Lo16(y));
    TopProduct(Hi16(x), Hi16(y));
  }

  lemma BothHalvesLowest(w: uint32)
    ensures Lo16(w) == -0x8000 && Hi16(w) == -0x8000 <==> w == 0x8000_8000
  {
  }

  lemma TopProduct(a: q15, x: q15)
    ensures -0x3FFF_8000 <= a * x <= 0x4000_0000
    ensures a * x == 0x4000_0000 <==> a == -0x8000 && x == -0x8000
  {
    ProductBound(a, 0x8000, x, 0x8000);
    if a > -0x8000 {
      ProductBound(a, 0x7FFF, x, 0x8000);
    } else if x > -0x8000 {
      ProductBound(a, 0x8000, x, 0x7FFF);
    }
  }

  /** What the dual multiply of the sign-extended pair adds to A0 * x[n]: the product of the two sign halves. */
  function SignProduct(a0: q15, sample: q15): (e: int)
    ensures 0 <= e <= 1
  {
    if a0 < 0 && sample < 0 then 1 else 0
  }

  function DspCorrection(g: Gains, s: State, sample: q15): int
  {
    Correction(g, s, sample) + SignProduct(g.a0, sample)
  }

  function StepDsp(g: Gains, s: State, sample: q15): State
  {
    State(sample, s.x1, NextOutput(DspCorrection(g, s, sample), s.y1))
  }

  /** One instance of the DSP build; A1 holds both remaining gains. */
  class PidQ15Dsp {
    var A0: q15
    var A1: uint32
    const state: array<q15>
    ghost const gains: Gains

    ghost predicate Valid()
      reads this
    {
      state.Length == 3 && A0 == gains.a0 && A1 == Pack(gains.a1, gains.a2)
    }

    ghost function Memory(): State
      requires Valid()
      reads this, state
    {
      ToState(state[..])
    }

    constructor (gains: Gains)
      ensures Valid() && fresh(state) && this.gains == gains && Memory() == RESET
    {
      this.gains := gains;
      A0, A1 := gains.a0, Pack(gains.a1, gains.a2);
      state := new q15[3](_ => 0);
    }

    method Process(sample: q15) returns (out: q15)
      requires Valid()
      modifies state
      ensures Valid()
      ensures Memory() == StepDsp(gains, old(Memory()), sample)
      ensures out == Memory().y1
      ensures state[0] == sample && state[1] == old(state[0]) && state[2] == out
    {
      hide Smuad, Smlald, Pack, ToInt64, ToUint64, ToUint32, ToInt32, SignProduct;
      ghost var before := Memory();
      ghost var c := DspCorrection(gains, before, sample);
      Fits32(before.y1 as int * 0x8000);
      SmuadOfSignExtended(A0, sample);
      var acc: q63 := ToInt32(Smuad(ToUint32(A0), ToUint32(sample)));
      SmlaldOfPacked(gains.a1, gains.a2, state[0], state[1], acc);
      acc := ToInt64(Smlald(A1, Pack(state[0], state[1]), ToUint64(acc)));
      assert acc == c;
      acc := acc + ToInt32(state[2] as int * 0x8000);
      out := Saturate(acc);
      assert out == NextOutput(c, before.y1);
      state[1] := state[0];
      state[0] := sample;
      state[2] := out;
    }
  }

  lemma Reinterpret32(v: int)
    requires -0x8000_0000 <= v < 0x8000_0000
    ensures ToInt32(ToUint32(v)) == v
  {
  }

  lemma SmuadOfSignExtended(a0: q15, sample: q15)
    ensures -0x4000_0000 <= a0 * sample <= 0x4000_0000
    ensures ToInt32(Smuad(ToUint32(a0), ToUint32(sample))) == a0 * sample + SignProduct(a0, sample)
  {
    hide Lo16, Hi16, ToUint32, ToInt32;
    SignExtended(a0);
    SignExtended(sample);
    ProductBound(a0, 0x8000, sample, 0x8000);
    Reinterpret32(a0 * sample + SignProduct(a0, sample));
  }

  lemma Reinterpret64(v: q63)
    ensures ToInt64(ToUint64(v)) == v
  {
  }

  /** On packed operands the dual multiply adds the two remaining products of a step, exactly. */
  lemma SmlaldOfPacked(a1: q15, a2: q15, x1: q15, x2: q15, acc: q63)
    requires -0x4000_0000 <= acc <= 0x4000_0001
    ensures ToInt64(Smlald(Pack(a1, a2), Pack(x1, x2), ToUint64(acc))) == acc + a1 * x1 + a2 * x2
  {
    hide Lo16, Hi16, Pack, ToInt64, ToUint64;
    PackedHalves(a1, a2);
    PackedHalves(x1, x2);
    TopProduct(a1, x1);
    TopProduct(a2, x2);
    Reinterpret64(acc);
    Reinterpret64(a1 * x1 + a2 * x2 + acc);
  }
}
