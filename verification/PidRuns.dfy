/** Whole runs of the Q15 controllers: against the textbook sum, and the two builds against each other. */
module PidRuns {
  import opened FixedPoint
  import opened Pid

  // ---------------------------------------------------------------- the textbook controller

  /** The k-th sample, zero outside the run: the reset state. */
  function At(xs: seq<int>, k: int): int
  {
    if 0 <= k < |xs| then xs[k] else 0
  }

  function Sum(xs: seq<int>): int
  {
    if xs == [] then 0 else Sum(xs[..|xs| - 1]) + xs[|xs| - 1]
  }

  /** Kp * x[n] + Ki * sum of x + Kd * (x[n] - x[n-1]) for the last sample x[n]. */
  function Textbook(kp: int, ki: int, kd: int, xs: seq<int>): int
  {
    kp * At(xs, |xs| - 1) + ki * Sum(xs) + kd * (At(xs, |xs| - 1) - At(xs, |xs| - 2))
  }

  /** The correction of the last step of a run. */
  function LastCorrection(a0: int, a1: int, a2: int, xs: seq<int>): int
  {
    a0 * At(xs, |xs| - 1) + a1 * At(xs, |xs| - 2) + a2 * At(xs, |xs| - 3)
  }

  /** The output in unbounded integers, each step's correction rounded down to a multiple of scale. */
  function Ideal(scale: int, a0: int, a1: int, a2: int, xs: seq<int>): int
    requires scale > 0
  {
    if xs == [] then 0
    else Ideal(scale, a0, a1, a2, xs[..|xs| - 1]) + LastCorrection(a0, a1, a2, xs) / scale
  }

  /** With the derived gains, one correction is exactly the increment of the textbook sum. */
  lemma TextbookIncrement(kp: int, ki: int, kd: int, xs: seq<int>)
    requires xs != []
    ensures Textbook(kp, ki, kd, xs) - Textbook(kp, ki, kd, xs[..|xs| - 1])
            == LastCorrection(kp + ki + kd, -kp - 2 * kd, kd, xs)
  {
  }

  /** Rounding each step loses less than one unit a step, and never overshoots. */
  lemma {:induction false} IdealApproximatesTextbook(scale: int, kp: int, ki: int, kd: int, xs: seq<int>)
    requires scale > 0
    ensures
      var y := Ideal(scale, kp + ki + kd, -kp - 2 * kd, kd, xs);
      && scale * y <= Textbook(kp, ki, kd, xs)
      && (xs != [] ==> Textbook(kp, ki, kd, xs) < scale * (y + |xs|))
    decreases |xs|
  {
    if xs == [] {
      assert Textbook(kp, ki, kd, xs) == 0;
    } else {
      var ys := xs[..|xs| - 1];
      IdealApproximatesTextbook(scale, kp, ki, kd, ys);
      assert ys == [] ==> Textbook(kp, ki, kd, ys) == 0;
      TextbookIncrement(kp, ki, kd, xs);
      FloorStep(scale, Ideal(scale, kp + ki + kd, -kp - 2 * kd, kd, ys), |ys|,
                Textbook(kp, ki, kd, ys), LastCorrection(kp + ki + kd, -kp - 2 * kd, kd, xs));
    }
  }

  lemma FloorStep(scale: int, y: int, n: nat, t: int, c: int)
    requires scale > 0
    requires scale * y <= t <= scale * (y + n)
    ensures scale * (y + c / scale) <= t + c < scale * (y + c / scale + n + 1)
  {
    var q, r := c / scale, c % scale;
    assert c == scale * q + r;
    assert scale * (y + q) == scale * y + scale * q;
    assert scale * (y + q + n + 1) == scale * (y + n) + scale * q + scale;
  }

  // ---------------------------------------------------------------- runs of arm_pid_q15

  function Run(g: Gains, s: State, xs: seq<q15>): State
  {
    if xs == [] then s else Step(g, Run(g, s, xs[..|xs| - 1]), xs[|xs| - 1])
  }

  /** A run from reset leaves the last two samples in the state. */
  lemma {:induction false} RunRemembers(g: Gains, xs: seq<q15>)
    ensures Run(g, RESET, xs).x1 == At(xs, |xs| - 1)
    ensures Run(g, RESET, xs).x2 == At(xs, |xs| - 2)
    decreases |xs|
  {
    if xs != [] {
      RunRemembers(g, xs[..|xs| - 1]);
    }
  }

  /** No output of a prefix of the run leaves the Q15 range before saturation. */
  ghost predicate Unsaturated(g: Gains, xs: seq<q15>)
  {
    forall k :: 0 <= k <= |xs| ==> -0x8000 <= Ideal(0x8000, g.a0, g.a1, g.a2, xs[..k]) < 0x8000
  }

  /** The controller produces the unbounded outputs throughout a run exactly when none of them saturates. */
  lemma RunIsIdealIff(g: Gains, xs: seq<q15>)
    ensures (forall k :: 0 <= k <= |xs| ==> Run(g, RESET, xs[..k]).y1 == Ideal(0x8000, g.a0, g.a1, g.a2, xs[..k]))
            <==> Unsaturated(g, xs)
  {
    if Unsaturated(g, xs) {
      forall k | 0 <= k <= |xs|
        ensures Run(g, RESET, xs[..k]).y1 == Ideal(0x8000, g.a0, g.a1, g.a2, xs[..k])
      {
        UnsaturatedRun(g, xs, k);
      }
    }
  }

  lemma {:induction false} UnsaturatedRun(g: Gains, xs: seq<q15>, k: nat)
    requires k <= |xs| && Unsaturated(g, xs)
    ensures Run(g, RESET, xs[..k]).y1 == Ideal(0x8000, g.a0, g.a1, g.a2, xs[..k])
  {
    if k > 0 {
      UnsaturatedRun(g, xs, k - 1);
      assert xs[..k][..k - 1] == xs[..k - 1];
      RunRemembers(g, xs[..k - 1]);
      var s := Run(g, RESET, xs[..k - 1]);
      assert Correction(g, s, xs[k - 1]) == LastCorrection(g.a0, g.a1, g.a2, xs[..k]);
    }
  }

  /** Every unsaturated run tracks the textbook sum from below, losing less than one LSB a sample. */
  lemma PidQ15TracksTextbook(g: Gains, kp: int, ki: int, kd: int, xs: seq<q15>)
    requires g.a0 == kp + ki + kd && g.a1 == -kp - 2 * kd && g.a2 == kd
    requires xs != [] && Unsaturated(g, xs)
    ensures
      var y := Run(g, RESET, xs).y1;
      0x8000 * y <= Textbook(kp, ki, kd, xs) < 0x8000 * (y + |xs|)
  {
    assert xs[..|xs|] == xs;
    UnsaturatedRun(g, xs, |xs|);
    IdealApproximatesTextbook(0x8000, kp, ki, kd, xs);
  }

  /** Saturation included, a higher starting output stays higher, and the gap never grows. */
  lemma {:induction false} RunNonExpansive(g: Gains, s: State, s': State, xs: seq<q15>)
    requires s'.x1 == s.x1 && s'.x2 == s.x2 && s.y1 <= s'.y1
    ensures Run(g, s, xs).x1 == Run(g, s', xs).x1 && Run(g, s, xs).x2 == Run(g, s', xs).x2
    ensures 0 <= Run(g, s', xs).y1 - Run(g, s, xs).y1 <= s'.y1 - s.y1
    decreases |xs|
  {
    if xs != [] {
      RunNonExpansive(g, s, s', xs[..|xs| - 1]);
    }
  }

  // ---------------------------------------------------------------- the DSP build against the plain build

  function RunDsp(g: Gains, s: State, xs: seq<q15>): State
  {
    if xs == [] then s else StepDsp(g, RunDsp(g, s, xs[..|xs| - 1]), xs[|xs| - 1])
  }

  function CountNegative(xs: seq<q15>): nat
  {
    if xs == [] then 0 else CountNegative(xs[..|xs| - 1]) + if xs[|xs| - 1] < 0 then 1 else 0
  }

  /** The DSP build is never below the plain one, and above by at most one LSB per negative sample (none if A0 >= 0). */
  ghost predicate DriftBounded(g: Gains, s: State, xs: seq<q15>)
  {
    0 <= RunDsp(g, s, xs).y1 - Run(g, s, xs).y1 <= if g.a0 < 0 then CountNegative(xs) else 0
  }

  lemma {:induction false} BuildsShareSamples(g: Gains, s: State, xs: seq<q15>)
    ensures RunDsp(g, s, xs).x1 == Run(g, s, xs).x1 && RunDsp(g, s, xs).x2 == Run(g, s, xs).x2
    decreases |xs|
  {
    if xs != [] {
      BuildsShareSamples(g, s, xs[..|xs| - 1]);
    }
  }

  /** From any common state and through saturation, over every run. */
  lemma {:induction false} DspBuildDrift(g: Gains, s: State, xs: seq<q15>)
    ensures DriftBounded(g, s, xs)
    decreases |xs|
  {
    if xs != [] {
      var ys, x := xs[..|xs| - 1], xs[|xs| - 1];
      DspBuildDrift(g, s, ys);
      BuildsShareSamples(g, s, ys);
      var p, d := Run(g, s, ys), RunDsp(g, s, ys);
      DriftStep(Correction(g, p, x), SignProduct(g.a0, x), p.y1, d.y1);
    }
  }

  lemma DriftStep(c: int, e: int, y: q15, y': q15)
    requires 0 <= e <= 1 && y <= y'
    ensures 0 <= NextOutput(c + e, y') - NextOutput(c, y) <= y' - y + e
  {
    ClampNonExpansive(c / 0x8000 + y, (c + e) / 0x8000 + y', -0x8000, 0x7FFF);
  }

  /** The bound is met: a run of negative samples through a negative gain drifts by its whole length. */
  lemma {:induction false} DspBuildDriftReached(n: nat)
    requires n <= 0x7FFF
    ensures CountNegative(Lows(n)) == n
    ensures Run(Gains(-1, 0, 0), RESET, Lows(n)).y1 == 0
    ensures RunDsp(Gains(-1, 0, 0), RESET, Lows(n)).y1 == n
  {
    if n > 0 {
      hide Correction, NextOutput;
      DspBuildDriftReached(n - 1);
      assert Lows(n)[..n - 1] == Lows(n - 1);
      LowStep(Run(Gains(-1, 0, 0), RESET, Lows(n - 1)), 0);
      LowStep(RunDsp(Gains(-1, 0, 0), RESET, Lows(n - 1)), n - 1);
    }
  }

  function Lows(n: nat): (xs: seq<q15>)
    ensures |xs| == n && forall k :: 0 <= k < n ==> xs[k] == -0x7FFF
  {
    seq(n, k => -0x7FFF)
  }

  lemma LowStep(s: State, y: nat)
    requires s.y1 == y < 0x7FFF
    ensures NextOutput(Correction(Gains(-1, 0, 0), s, -0x7FFF), s.y1) == y
    ensures NextOutput(Correction(Gains(-1, 0, 0), s, -0x7FFF) + 1, s.y1) == y + 1
  {
  }
}
