/**
 * The Q31 controller wraps where the Q15 one saturates, both in its 64-bit accumulator and in its 32-bit output.
 * Because both wraps are reductions modulo a power of two, no intermediate overflow is ever visible:
 * after any run the output is the unbounded one reduced to 32 bits.
 */
module PidQ31 {
  import opened FixedPoint
  import opened Bits
  import PidRuns

  datatype Gains = Gains(a0: q31, a1: q31, a2: q31)

  datatype State = State(x1: q31, x2: q31, y1: q31)

  const RESET := State(0, 0, 0)

  function ToState(s: seq<q31>): State
    requires |s| == 3
  {
    State(s[0], s[1], s[2])
  }

  function Correction(g: Gains, s: State, sample: q31): int
  {
    g.a0 * sample + g.a1 * s.x1 + g.a2 * s.x2
  }

  function Step(g: Gains, s: State, sample: q31): State
  {
    State(sample, s.x1, ToInt32(Correction(g, s, sample) / 0x8000_0000 + s.y1))
  }

  class Pid {
    var A0: q31
    var A1: q31
    var A2: q31
    const state: array<q31>

    ghost predicate Valid()
      reads this
    {
      state.Length == 3
    }

    ghost function Gain(): Gains
      reads this
    {
      Gains(A0, A1, A2)
    }

    ghost function Memory(): State
      requires Valid()
      reads this, state
    {
      ToState(state[..])
    }

    constructor (gains: Gains)
      ensures Valid() && fresh(state) && Gain() == gains && Memory() == RESET
    {
      A0, A1, A2 := gains.a0, gains.a1, gains.a2;
      state := new q31[3](_ => 0);
    }

    method Process(sample: q31) returns (out: q31)
      requires Valid()
      modifies state
      ensures Valid()
      ensures Memory() == Step(Gain(), old(Memory()), sample)
      ensures out == Memory().y1
      ensures state[0] == sample && state[1] == old(state[0]) && state[2] == out
    {
      hide ToInt32, ToInt64;
      var acc := ToInt64(A0 * sample);
      acc := ToInt64(acc + ToInt64(A1 * state[0]));
      acc := ToInt64(acc + ToInt64(A2 * state[1]));
      AccumulatorWrap(A0 * sample, A1 * state[0], A2 * state[1]);
      ghost var c := Correction(Gain(), Memory(), sample);
      assert acc == ToInt64(c);
      out := ToInt32(acc / 0x8000_0000);
      OverflowInvisible(c, state[2]);
      out := ToInt32(out as int + state[2]);
      state[1] := state[0];
      state[0] := sample;
      state[2] := out;
    }
  }

  /** Wrapping each addition wraps the sum. */
  lemma AccumulatorWrap(p0: int, p1: int, p2: int)
    ensures ToInt64(ToInt64(ToInt64(p0) + ToInt64(p1)) + ToInt64(p2)) == ToInt64(p0 + p1 + p2)
  {
    WrapAdd64(p0, p1);
    WrapAdd64(p0 + p1, p2);
  }

  lemma WrapAdd64(a: int, b: int)
    ensures ToInt64(ToInt64(a) + ToInt64(b)) == ToInt64(a + b)
    ensures ToInt64(ToInt64(a) as int) == ToInt64(a)
  {
    var m := 0x1_0000_0000_0000_0000;
    var qa, qb := (a + m / 2) / m, (b + m / 2) / m;
    assert ToInt64(a) == a - m * qa && ToInt64(b) == b - m * qb;
    Shift64(a + b, -qa - qb);
  }

  lemma Shift64(v: int, k: int)
    ensures ToInt64(v + 0x1_0000_0000_0000_0000 * k) == ToInt64(v)
  {
    var m := 0x1_0000_0000_0000_0000;
    var u := v + 0x8000_0000_0000_0000;
    DivModUnique(u + m * k, m, u / m + k, u % m);
  }

  lemma Shift32(v: int, k: int)
    ensures ToInt32(v + 0x1_0000_0000 * k) == ToInt32(v)
  {
    var m := 0x1_0000_0000;
    var u := v + 0x8000_0000;
    DivModUnique(u + m * k, m, u / m + k, u % m);
  }

  /** Bits 31..62 of the accumulator survive its overflow, and the final 32-bit addition only needs those. */
  lemma OverflowInvisible(c: int, y1: q31)
    ensures ToInt32(ToInt32(ToInt64(c) / 0x8000_0000) as int + y1) == ToInt32(c / 0x8000_0000 + y1)
  {
    var k := (c + 0x8000_0000_0000_0000) / 0x1_0000_0000_0000_0000;
    assert ToInt64(c) == c - 0x1_0000_0000_0000_0000 * k;
    var h := c / 0x8000_0000;
    assert ToInt64(c) / 0x8000_0000 == h - 0x2_0000_0000 * k;
    Shift32(h, -2 * k);
    var j := (h + 0x8000_0000) / 0x1_0000_0000;
    assert ToInt32(h) == h - 0x1_0000_0000 * j;
    Shift32(h + y1, -j);
  }

  function Run(g: Gains, s: State, xs: seq<q31>): State
  {
    if xs == [] then s else Step(g, Run(g, s, xs[..|xs| - 1]), xs[|xs| - 1])
  }

  /** After any run from reset, however often it overflowed, the output is the unbounded output modulo 2^32. */
  lemma {:induction false} RunIsIdealWrapped(g: Gains, xs: seq<q31>)
    ensures Run(g, RESET, xs).x1 == PidRuns.At(xs, |xs| - 1)
    ensures Run(g, RESET, xs).x2 == PidRuns.At(xs, |xs| - 2)
    ensures Run(g, RESET, xs).y1 == ToInt32(PidRuns.Ideal(0x8000_0000, g.a0, g.a1, g.a2, xs))
    decreases |xs|
  {
    if xs != [] {
      hide ToInt32;
      var ys, x := xs[..|xs| - 1], xs[|xs| - 1];
      RunIsIdealWrapped(g, ys);
      var c := Correction(g, Run(g, RESET, ys), x);
      assert c == PidRuns.LastCorrection(g.a0, g.a1, g.a2, xs);
      WrapAdd32(c / 0x8000_0000, PidRuns.Ideal(0x8000_0000, g.a0, g.a1, g.a2, ys));
    } else {
      assert ToInt32(0) == 0;
    }
  }

  lemma WrapAdd32(a: int, b: int)
    ensures ToInt32(a + ToInt32(b)) == ToInt32(b + a)
  {
    var k := (b + 0x8000_0000) / 0x1_0000_0000;
    assert ToInt32(b) == b - 0x1_0000_0000 * k;
    Shift32(a + b, -k);
  }

  /** So a final output that fits is right, and tracks the textbook sum from below, whatever overflowed on the way. */
  lemma PidQ31TracksTextbook(g: Gains, kp: int, ki: int, kd: int, xs: seq<q31>)
    requires g.a0 == kp + ki + kd && g.a1 == -kp - 2 * kd && g.a2 == kd
    requires xs != []
    requires -0x8000_0000 <= PidRuns.Ideal(0x8000_0000, g.a0, g.a1, g.a2, xs) < 0x8000_0000
    ensures
      var y := Run(g, RESET, xs).y1;
      0x8000_0000 * y <= PidRuns.Textbook(kp, ki, kd, xs) < 0x8000_0000 * (y + |xs|)
  {
    hide ToInt32, Run, PidRuns.Ideal, PidRuns.Textbook;
    RunIsIdealWrapped(g, xs);
    Fits32(PidRuns.Ideal(0x8000_0000, g.a0, g.a1, g.a2, xs));
    PidRuns.IdealApproximatesTextbook(0x8000_0000, kp, ki, kd, xs);
  }

  /** The documented step: the accumulator wraps, is truncated and saturated, and then y[n-1] is added. */
  function DocumentedStep(g: Gains, s: State, sample: q31): State
  {
    var truncated := ToInt64(Correction(g, s, sample)) / 0x8000_0000;
    State(sample, s.x1, ToInt32(Clamp(truncated, -0x8000_0000, 0x7FFF_FFFF) + s.y1))
  }

  /**
   * The code leaves the documented saturation out: the two steps agree exactly when the exact products sum to less
   * than 2^62 in magnitude, or when all three products are (-1.0) * (-1.0) and the accumulator wraps back into range.
   */
  lemma SaturatesIff(g: Gains, s: State, sample: q31)
    ensures
      var c := Correction(g, s, sample);
      Step(g, s, sample) == DocumentedStep(g, s, sample)
      <==> -0x4000_0000_0000_0000 <= c < 0x4000_0000_0000_0000 || c == 0xC000_0000_0000_0000
  {
    hide ToInt32, ToInt64, Clamp;
    CorrectionBound(g, s, sample);
    var c := Correction(g, s, sample);
    var wrapped: int := ToInt64(c);
    var truncated := wrapped / 0x8000_0000;
    var saturated := Clamp(truncated, -0x8000_0000, 0x7FFF_FFFF);
    OverflowInvisible(c, s.y1);
    WrapOfSum(truncated, s.y1);
    SameOutputIff(truncated, saturated, s.y1);
    WrappedRange(c);
    ClampKeepsIff(truncated);
  }

  lemma CorrectionBound(g: Gains, s: State, sample: q31)
    ensures -0xBFFF_FFFF_8000_0000 <= Correction(g, s, sample) <= 0xC000_0000_0000_0000
  {
    LowestProduct(g.a0, sample);
    LowestProduct(g.a1, s.x1);
    LowestProduct(g.a2, s.x2);
  }

  lemma LowestProduct(a: q31, x: q31)
    ensures -0x3FFF_FFFF_8000_0000 <= a * x <= 0x4000_0000_0000_0000
  {
    ProductBound(a, 0x8000_0000, x, 0x8000_0000);
    if a > -0x8000_0000 {
      ProductBound(a, 0x7FFF_FFFF, x, 0x8000_0000);
    } else if x > -0x8000_0000 {
      ProductBound(a, 0x8000_0000, x, 0x7FFF_FFFF);
    }
  }

  lemma WrapOfSum(v: int, y1: int)
    ensures ToInt32(ToInt32(v) as int + y1) == ToInt32(v + y1)
  {
    WrapAdd32(y1, v);
  }

  /** Adding the same value modulo 2^32 to two others gives the same exactly when they agree modulo 2^32. */
  lemma SameOutputIff(v: int, w: int, y1: int)
    ensures ToInt32(v + y1) == ToInt32(w + y1) <==> ToInt32(v) == ToInt32(w)
  {
    WrapOfSum(v, y1);
    WrapOfSum(w, y1);
    WrapOfSum(v + y1, -y1);
    WrapOfSum(w + y1, -y1);
  }

  /** Where a wrapped accumulator of three products lies between -2^62 and 2^62. */
  lemma WrappedRange(c: int)
    requires -0xBFFF_FFFF_8000_0000 <= c <= 0xC000_0000_0000_0000
    ensures -0x4000_0000_0000_0000 <= ToInt64(c) < 0x4000_0000_0000_0000
            <==> -0x4000_0000_0000_0000 <= c < 0x4000_0000_0000_0000 || c == 0xC000_0000_0000_0000
  {
  }

  /** On truncated accumulators the saturation is invisible modulo 2^32 exactly if it does nothing. */
  lemma ClampKeepsIff(v: int)
    requires -0x1_0000_0000 <= v < 0x1_0000_0000
    ensures ToInt32(v) == ToInt32(Clamp(v, -0x8000_0000, 0x7FFF_FFFF)) <==> -0x8000_0000 <= v < 0x8000_0000
  {
  }

  /** A step on which the documented saturation is missing: (-1.0) * (-1.0) comes out as -1.0. */
  lemma SaturationMissing()
    ensures
      var g, s := Gains(-0x8000_0000, 0, 0), State(0, 0, 0);
      Step(g, s, -0x8000_0000).y1 == -0x8000_0000 && DocumentedStep(g, s, -0x8000_0000).y1 == 0x7FFF_FFFF
  {
    var g, s := Gains(-0x8000_0000, 0, 0), State(0, 0, 0);
    hide ToInt32, ToInt64;
    assert Correction(g, s, -0x8000_0000) == 0x4000_0000_0000_0000;
    TopOfRange();
  }

  lemma TopOfRange()
    ensures ToInt64(0x4000_0000_0000_0000) == 0x4000_0000_0000_0000
    ensures ToInt32(0x8000_0000) == -0x8000_0000 && ToInt32(0x7FFF_FFFF) == 0x7FFF_FFFF
  {
  }

  /**
   * Read as a saturation of the whole sum, y[n-1] included, it is missing too: the step agrees with that exactly when
   * the sum fits, or is one of the two out-of-range values that happen to wrap onto the limit.
   */
  lemma SumSaturatesIff(g: Gains, s: State, sample: q31)
    ensures
      var sum := Correction(g, s, sample) / 0x8000_0000 + s.y1;
      Step(g, s, sample).y1 == Clamp(sum, -0x8000_0000, 0x7FFF_FFFF)
      <==> -0x8000_0000 <= sum <= 0x7FFF_FFFF || sum == 0x1_7FFF_FFFF || sum == -0x1_8000_0000
  {
    ProductBound(g.a0, 0x8000_0000, sample, 0x8000_0000);
    ProductBound(g.a1, 0x8000_0000, s.x1, 0x8000_0000);
    ProductBound(g.a2, 0x8000_0000, s.x2, 0x8000_0000);
    var sum := Correction(g, s, sample) / 0x8000_0000 + s.y1;
    assert -0x2_0000_0000 <= sum < 0x2_0000_0000;
    WrapVersusClamp(sum);
  }

  lemma WrapVersusClamp(sum: int)
    requires -0x2_0000_0000 <= sum < 0x2_0000_0000
    ensures ToInt32(sum) == Clamp(sum, -0x8000_0000, 0x7FFF_FFFF)
            <==> (-0x8000_0000 <= sum <= 0x7FFF_FFFF || sum == 0x1_7FFF_FFFF || sum == -0x1_8000_0000)
  {
  }

  /** A step whose whole sum is one too large comes out negative. */
  lemma WrapExample()
    ensures Step(Gains(0x4000_0000, 0, 0), State(0, 0, 0x7FFF_FFFF), 2).y1 == -0x8000_0000
  {
  }
}
