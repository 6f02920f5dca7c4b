/** The floating-point controller with its rounding left out: over the reals it is the textbook controller. */
module PidF32 {

  datatype Gains = Gains(a0: real, a1: real, a2: real)

  datatype State = State(x1: real, x2: real, y1: real)

  const RESET := State(0.0, 0.0, 0.0)

  function ToState(s: seq<real>): State
    requires |s| == 3
  {
    State(s[0], s[1], s[2])
  }

  function Step(g: Gains, s: State, sample: real): State
  {
    State(sample, s.x1, g.a0 * sample + g.a1 * s.x1 + g.a2 * s.x2 + s.y1)
  }

  class Pid {
    var A0: real
    var A1: real
    var A2: real
    const state: array<real>

    ghost predicate Valid()
      reads this
    {
      state.Length == 3
    }

    ghost function Gain(): Gains
      reads this
    {
      Gains(A0, A1, A2)
    }

    ghost function Memory(): State
      requires Valid()
      reads this, state
    {
      ToState(state[..])
    }

    constructor (gains: Gains)
      ensures Valid() && fresh(state) && Gain() == gains && Memory() == RESET
    {
      A0, A1, A2 := gains.a0, gains.a1, gains.a2;
      state := new real[3](_ => 0.0);
    }

    method Process(sample: real) returns (out: real)
      requires Valid()
      modifies state
      ensures Valid()
      ensures Memory() == Step(Gain(), old(Memory()), sample)
      ensures out == Memory().y1
      ensures state[0] == sample && state[1] == old(state[0]) && state[2] == out
    {
      ghost var next := Step(Gain(), Memory(), sample);
      out := (A0 * sample) + (A1 * state[0]) + (A2 * state[1]) + state[2];
      assert out == next.y1;
      state[1] := state[0];
      state[0] := sample;
      state[2] := out;
      assert state[..] == [next.x1, next.x2, next.y1];
    }
  }

  function Run(g: Gains, s: State, xs: seq<real>): State
  {
    if xs == [] then s else Step(g, Run(g, s, xs[..|xs| - 1]), xs[|xs| - 1])
  }

  function At(xs: seq<real>, k: int): real
  {
    if 0 <= k < |xs| then xs[k] else 0.0
  }

  function Sum(xs: seq<real>): real
  {
    if xs == [] then 0.0 else Sum(xs[..|xs| - 1]) + xs[|xs| - 1]
  }

  /** With the derived gains every run from reset computes the textbook sum exactly. */
  lemma {:induction false} RunIsTextbook(kp: real, ki: real, kd: real, xs: seq<real>)
    ensures
      var s := Run(Gains(kp + ki + kd, -kp - 2.0 * kd, kd), RESET, xs);
      && s.x1 == At(xs, |xs| - 1)
      && s.x2 == At(xs, |xs| - 2)
      && s.y1 == kp * At(xs, |xs| - 1) + ki * Sum(xs) + kd * (At(xs, |xs| - 1) - At(xs, |xs| - 2))
    decreases |xs|
  {
    if xs != [] {
      var ys := xs[..|xs| - 1];
      RunIsTextbook(kp, ki, kd, ys);
      Telescope(kp, ki, kd, xs[|xs| - 1], At(ys, |ys| - 1), At(ys, |ys| - 2), Sum(ys));
    }
  }

  lemma Telescope(kp: real, ki: real, kd: real, x: real, x1: real, x2: real, sum: real)
    ensures (kp + ki + kd) * x + (-kp - 2.0 * kd) * x1 + kd * x2 + (kp * x1 + ki * sum + kd * (x1 - x2))
            == kp * x + ki * (sum + x) + kd * (x - x1)
  {
  }
}
