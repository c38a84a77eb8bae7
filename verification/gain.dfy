/** The gain ramp and the mix's number range (src/audio_alsa.cpp). */
module Gain {
  import opened Rounding
  import opened Mixer

  function Unit(v: real): real {
    if v < 0.0 then 0.0 else if v > 1.0 then 1.0 else v
  }

  /** Length of the ramp in gain steps. */
  function RampSteps(duration: real, rate: nat): real {
    var secs := if duration > 0.0 then duration else 0.02;
    if secs * rate as real > 1.0 then secs * rate as real else 1.0
  }

  /** A duck command: ramp toward `volume` over `duration` seconds. */
  function Duck(l: Lane, volume: real, duration: real): Lane {
    var target := Unit(volume);
    l.(target := target, step := (target - l.gain) / RampSteps(duration, l.rate))
  }

  /** Gain and target are levels, and the step points at the target. */
  ghost predicate GainOk(l: Lane) {
    && 0.0 <= l.gain <= 1.0 && 0.0 <= l.target <= 1.0
    && (l.step >= 0.0 ==> l.gain <= l.target)
    && (l.step <= 0.0 ==> l.target <= l.gain)
  }

  /** From a to b without leaving the segment between them and the target. */
  ghost predicate TowardTarget(a: real, b: real, target: real) {
    (a <= b <= target) || (target <= b <= a)
  }

  /** A fresh lane's gain is a level at rest, and a duck command keeps the gain a level: it
      points the step at the new target from wherever the last ramp had got to. */
  lemma DuckKeepsGainOk(l: Lane, volume: real, duration: real)
    requires GainOk(l)
    ensures GainOk(Duck(l, volume, duration)) && Duck(l, volume, duration).gain == l.gain
  {
    var d, n := Unit(volume) - l.gain, RampSteps(duration, l.rate);
    QuotientSign(d, n);
  }

  lemma QuotientSign(d: real, n: real)
    requires n >= 1.0
    ensures (d / n >= 0.0 <==> d >= 0.0) && (d / n <= 0.0 <==> d <= 0.0)
  {
    assert d == (d / n) * n;
  }

  /** Each gain step moves monotonically toward the target and never past it. */
  lemma AdvanceTowardTarget(l: Lane)
    requires ValidLane(l) && GainOk(l)
    ensures GainOk(Ramped(l)) && TowardTarget(l.gain, Ramped(l).gain, l.target)
  {
  }

  /** A whole block does the same. */
  lemma {:induction false} PlayTowardTarget(l: Lane, n: nat)
    requires ValidLane(l) && GainOk(l)
    ensures GainOk(Play(l, n).lane) && TowardTarget(l.gain, Play(l, n).lane.gain, l.target)
    decreases n
  {
    hide Contribution, Dry, Ratio;
    AdvanceTowardTarget(l);
    if n > 0 && !Dry(l) {
      PlayTowardTarget(Next(l), n - 1);
    }
  }

  /** The gain after `k` steps. */
  function AdvanceTimes(gain: real, target: real, step: real, k: nat): real
    decreases k
  {
    if k == 0 then gain else AdvanceTimes(Advance(gain, target, step), target, step, k - 1)
  }

  /** A straight line from the gain, held once it meets the target. */
  function Envelope(gain: real, target: real, step: real, k: nat): real {
    Held(gain + step * k as real, target, step)
  }

  /** Not past the target. */
  function Held(gain: real, target: real, step: real): real {
    if (step > 0.0 && gain > target) || (step < 0.0 && gain < target) then target else gain
  }

  /** The step points at the target. */
  predicate Aimed(gain: real, target: real, step: real) {
    (step > 0.0 ==> gain <= target) && (step < 0.0 ==> target <= gain)
  }

  /** The envelope in closed form: step by step the gain follows the line and stays on it. */
  lemma {:induction false} EnvelopeIsALine(gain: real, target: real, step: real, k: nat)
    requires Aimed(gain, target, step)
    ensures AdvanceTimes(gain, target, step, k) == Envelope(gain, target, step, k)
    decreases k
  {
    if k > 0 {
      var next := Advance(gain, target, step);
      EnvelopeIsALine(next, target, step, k - 1);
      LineGoesOn(gain, target, step, k);
    }
  }

  /** One step along the line first, or last. */
  lemma LineGoesOn(gain: real, target: real, step: real, k: nat)
    requires Aimed(gain, target, step) && k > 0
    ensures Envelope(Advance(gain, target, step), target, step, k - 1) == Envelope(gain, target, step, k)
  {
    var rest := step * (k - 1) as real;
    assert step * k as real == step + rest;
    assert step > 0.0 ==> rest >= 0.0;
    assert step < 0.0 ==> rest <= 0.0 by {
      assert -rest == (-step) * (k - 1) as real;
    }
    if k == 1 {
      assert rest == 0.0;
    } else if step > 0.0 {
      assert rest > 0.0;
    } else if step < 0.0 {
      assert rest < 0.0 by { assert -rest == (-step) * (k - 1) as real; }
    }
  }

  /** The ramp ends: after as many steps as the device's frames in the commanded time, rounded up, and
      one step at least, the gain is the commanded volume, and it stays there. */
  lemma RampReachesTarget(l: Lane, volume: real, duration: real, k: nat)
    requires GainOk(l) && k >= 1 && k as real >= (if duration > 0.0 then duration else 0.02) * l.rate as real
    ensures var d := Duck(l, volume, duration);
      var gain := AdvanceTimes(d.gain, d.target, d.step, k);
      && (0.0 <= volume <= 1.0 ==> gain == volume) && (volume < 0.0 ==> gain == 0.0)
      && (volume > 1.0 ==> gain == 1.0)
  {
    StepsSuffice(duration, l.rate, k);
    DuckReaches(l, volume, duration, k);
    hide Duck, AdvanceTimes;
  }

  lemma StepsSuffice(duration: real, rate: nat, k: nat)
    requires k >= 1 && k as real >= (if duration > 0.0 then duration else 0.02) * rate as real
    ensures k as real >= RampSteps(duration, rate)
  {
  }

  lemma DuckReaches(l: Lane, volume: real, duration: real, k: nat)
    requires GainOk(l) && k as real >= RampSteps(duration, l.rate)
    ensures var d := Duck(l, volume, duration);
            AdvanceTimes(d.gain, d.target, d.step, k) == Unit(volume)
  {
    var d, n := Duck(l, volume, duration), RampSteps(duration, l.rate);
    DuckKeepsGainOk(l, volume, duration);
    StepTimesSteps(d.target - d.gain, n);
    hide Duck, RampSteps, AdvanceTimes, Envelope;
    EnvelopeIsALine(d.gain, d.target, d.step, k);
    LineArrives(d.gain, d.target, d.step, n, k);
  }

  lemma StepTimesSteps(gap: real, n: real)
    requires n >= 1.0
    ensures gap == gap / n * n
  {
  }

  lemma LineArrives(gain: real, target: real, step: real, n: real, k: nat)
    requires target - gain == step * n && k as real >= n
    ensures Envelope(gain, target, step, k) == target
  {
    LongEnough(step, n, k as real);
  }

  lemma LongEnough(step: real, n: real, k: real)
    requires k >= n
    ensures step >= 0.0 ==> step * k >= step * n
    ensures step <= 0.0 ==> step * k <= step * n
  {
    if step >= 0.0 {
      NonNegative(step, k - n);
    } else {
      NonNegative(-step, k - n);
    }
  }

  /** A block takes one gain step for every frame it plays, and one more when it runs dry. */
  lemma {:induction false} PlayGain(l: Lane, n: nat)
    requires ValidLane(l)
    ensures var m := Play(l, n);
      m.lane.gain == AdvanceTimes(l.gain, l.target, l.step, if |m.out| < n then |m.out| + 1 else n)
    decreases n
  {
    hide Contribution, Dry, Ratio;
    if n > 0 && !Dry(l) {
      PlayGain(Next(l), n - 1);
    }
  }

  // ----- the number range ----------------------------------------------------------------

  predicate InSampleRange(n: int) {
    -32768 <= n <= 32767
  }

  lemma BlendInRange(s0: Sample, s1: Sample, frac: real, gain: real)
    requires 0.0 <= frac <= 1.0 && 0.0 <= gain <= 1.0
    ensures InSampleRange(Blend(s0, s1, frac, gain))
  {
    var x := s0 as real * (1.0 - frac) + s1 as real * frac;
    Mix(s0 as real, s1 as real, frac, -32768.0, 32767.0);
    ScaleDown(x, gain, -32768.0, 32767.0);
    LRoundBounds(x * gain, -32768, 32767);
    assert Blend(s0, s1, frac, gain) == LRound(x * gain);
  }

  lemma NonNegative(x: real, y: real)
    requires x >= 0.0 && y >= 0.0
    ensures x * y >= 0.0
  {
  }

  lemma Mix(a: real, b: real, f: real, lo: real, hi: real)
    requires 0.0 <= f <= 1.0 && lo <= a <= hi && lo <= b <= hi
    ensures lo <= a * (1.0 - f) + b * f <= hi
  {
    NonNegative(a - lo, 1.0 - f);
    NonNegative(b - lo, f);
    NonNegative(hi - a, 1.0 - f);
    NonNegative(hi - b, f);
  }

  lemma ScaleDown(x: real, g: real, lo: real, hi: real)
    requires 0.0 <= g <= 1.0 && lo <= 0.0 <= hi && lo <= x <= hi
    ensures lo <= x * g <= hi
  {
    NonNegative(x - lo, g);
    NonNegative(hi - x, g);
    NonNegative(-lo, 1.0 - g);
    NonNegative(hi, 1.0 - g);
  }

  lemma ContributionInRange(l: Lane)
    requires ValidLane(l) && !Dry(l) && 0.0 <= l.gain <= 1.0
    ensures InSampleRange(Contribution(l).left) && InSampleRange(Contribution(l).right)
  {
    hide Blend;
    var i0 := l.pos.Floor;
    var i1 := if i0 + 1 < FramesIn(|l.ring|, l.channels) then i0 + 1 else i0;
    var frac := l.pos - i0 as real;
    forall k: nat | k < 2 ensures InSampleRange(Interpolated(l.ring, l.channels, l.pos, l.gain, k)) {
      BlendInRange(SampleAt(l.ring, l.channels, i0, k), SampleAt(l.ring, l.channels, i1, k), frac, l.gain);
    }
  }

  /** Whatever the ramp does, a lane contributes samples in the 16-bit range. */
  lemma {:induction false} PlayInRange(l: Lane, n: nat)
    requires ValidLane(l) && GainOk(l)
    ensures forall i :: 0 <= i < |Play(l, n).out| ==>
              InSampleRange(Play(l, n).out[i].left) && InSampleRange(Play(l, n).out[i].right)
    decreases n
  {
    hide Contribution, Ratio;
    if n > 0 && !Dry(l) {
      AdvanceTowardTarget(l);
      ContributionInRange(Ramped(l));
      PlayInRange(Next(l), n - 1);
    }
  }

  function Sum(s: seq<int>): int {
    if s == [] then 0 else Sum(s[..|s| - 1]) + s[|s| - 1]
  }

  predicate FitsInt32(n: int) {
    -0x8000_0000 <= n <= 0x7fff_ffff
  }

  /** With up to 65536 lanes, no partial sum leaves 32 bits before saturation. */
  lemma {:induction false} AccumulatorFits(contributions: seq<int>)
    requires |contributions| <= 65536
    requires forall i :: 0 <= i < |contributions| ==> InSampleRange(contributions[i])
    ensures FitsInt32(Sum(contributions))
  {
    SumBounds(contributions);
  }

  lemma {:induction false} SumBounds(s: seq<int>)
    requires forall i :: 0 <= i < |s| ==> InSampleRange(s[i])
    ensures -32768 * |s| <= Sum(s) <= 32767 * |s|
  {
    if s != [] {
      SumBounds(s[..|s| - 1]);
    }
  }

  lemma {:induction false} SumOfEqual(s: seq<int>, n: int)
    requires forall i :: 0 <= i < |s| ==> s[i] == n
    ensures Sum(s) == n * |s|
  {
    if s != [] {
      SumOfEqual(s[..|s| - 1], n);
      assert n * |s| == n * (|s| - 1) + n;
    }
  }

  /** The clamp on the way to the device. */
  function Saturate(v: int): Sample {
    if v < -32768 then -32768 else if v > 32767 then 32767 else v
  }
}
