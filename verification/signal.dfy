/** What an output frame of a lane is, said of the samples themselves (src/audio_alsa.cpp): the
    straight line between the source frame under the head and the next one, times the gain, rounded
    to the nearest sample value. */
module Signal {
  import opened Rounding
  import opened Mixer

  /** `out` is the integer nearest to `v`, halves away from zero. */
  predicate Nearest(out: int, v: real) {
    && -0.5 <= out as real - v <= 0.5
    && (out as real - v == 0.5 ==> v >= 0.0) && (out as real - v == -0.5 ==> v <= 0.0)
  }

  /** The point `f` of the way from `a` to `b`, times the gain, rounded. */
  predicate Between(out: int, a: Sample, b: Sample, f: real, gain: real) {
    Nearest(out, (a as real * (1.0 - f) + b as real * f) * gain)
  }

  /** Both channels of `out` lie on the signal at `head`; the newest frame is held. */
  ghost predicate OnLine(ring: seq<Sample>, channels: nat, head: real, gain: real, out: Frame) {
    var i, frames := head.Floor, if channels == 1 then |ring| else |ring| / 2;
    var f := head - i as real;
    && 0 <= i < frames
    && if channels == 1 then
         var next := if i + 1 < frames then i + 1 else i;
         Between(out.left, ring[i], ring[next], f, gain) && Between(out.right, ring[i], ring[next], f, gain)
       else
         var next := if i + 1 < frames then 2 * i + 2 else 2 * i;
         && Between(out.left, ring[2 * i], ring[next], f, gain)
         && Between(out.right, ring[2 * i + 1], ring[next + 1], f, gain)
  }

  lemma LRoundIsNearest(r: real)
    ensures Nearest(LRound(r), r)
  {
  }

  lemma BlendIsBetween(a: Sample, b: Sample, f: real, gain: real)
    ensures Between(Blend(a, b, f, gain), a, b, f, gain)
  {
    hide LRound, Nearest;
    LRoundIsNearest((a as real * (1.0 - f) + b as real * f) * gain);
  }

  /** What a lane that is not dry contributes is on the line, in each channel; a mono lane is the same
      in both. */
  lemma ContributionIsOnLine(l: Lane)
    requires ValidLane(l) && !Dry(l)
    ensures OnLine(l.ring, l.channels, l.pos, l.gain, Contribution(l))
    ensures l.channels == 1 ==> Contribution(l).left == Contribution(l).right
  {
    hide Blend, Between;
    var i := l.pos.Floor;
    var next, f := if i + 1 < Avail(l) then i + 1 else i, l.pos - i as real;
    BlendIsBetween(SampleAt(l.ring, l.channels, i, 0), SampleAt(l.ring, l.channels, next, 0), f, l.gain);
    BlendIsBetween(SampleAt(l.ring, l.channels, i, 1), SampleAt(l.ring, l.channels, next, 1), f, l.gain);
  }

  /** Source frames that `k` output frames take, at the device's 44100 Hz. */
  lemma RatioIs(rate: nat)
    ensures Ratio(rate) * 44100.0 == rate as real
  {
  }

  /** A block, in the source's own numbers: the head has moved by the frames put out at the lane's
      rate; the block stops short only when that reaches the end of the data, and not before. */
  lemma BlockIs(l: Lane, n: nat)
    requires ValidLane(l)
    ensures var end, m := (if l.channels == 1 then |l.ring| else |l.ring| / 2) as real * 44100.0, Play(l, n);
      var k, start := |m.out|, l.pos * 44100.0;
      && k <= n && m.lane.pos * 44100.0 == start + (k * l.rate) as real
      && (k < n ==> start + (k * l.rate) as real >= end)
      && (k > 0 ==> start + ((k - 1) * l.rate) as real < end)
  {
    hide Play, ValidLane;
    BlockHead(l, n);
    BlockStops(l, n);
  }

  lemma {:induction false} BlockHead(l: Lane, n: nat)
    requires ValidLane(l)
    ensures Play(l, n).lane.pos * 44100.0 == l.pos * 44100.0 + (|Play(l, n).out| * l.rate) as real
    decreases n
  {
    hide Contribution, Ratio, Advance, Dry;
    if n > 0 && !Dry(l) {
      RatioIs(l.rate);
      BlockHead(Next(l), n - 1);
      OneMore(|Play(Next(l), n - 1).out|, l.rate);
    }
  }

  lemma DryIs(l: Lane)
    requires ValidLane(l)
    ensures Dry(l) <==> l.pos * 44100.0 >= Avail(l) as real * 44100.0
    ensures Avail(l) == if l.channels == 1 then |l.ring| else |l.ring| / 2
  {
  }

  lemma {:induction false} BlockStops(l: Lane, n: nat)
    requires ValidLane(l)
    ensures var end, k, start := Avail(l) as real * 44100.0, |Play(l, n).out|, l.pos * 44100.0;
      && (k < n ==> start + (k * l.rate) as real >= end)
      && (k > 0 ==> start + ((k - 1) * l.rate) as real < end)
    ensures Avail(l) == if l.channels == 1 then |l.ring| else |l.ring| / 2
    decreases n
  {
    hide Contribution, Ratio, Advance, Dry, FramesIn;
    DryIs(l);
    if n > 0 && !Dry(l) {
      RatioIs(l.rate);
      BlockStops(Next(l), n - 1);
      OneMore(|Play(Next(l), n - 1).out|, l.rate);
    }
  }

  lemma OneMore(k: nat, rate: nat)
    ensures (k + 1) * rate == k * rate + rate
    ensures k > 0 ==> k * rate == (k - 1) * rate + rate
  {
  }

  /** After a block the whole source frames the head has passed are gone, and no others; the head is
      left inside the next frame, or past the end of an empty ring. */
  lemma BlockErases(l: Lane, n: nat)
    requires ValidLane(l)
    ensures var played, after := Play(l, n).lane.pos, MixLane(l, n).lane;
      var frames := if l.channels == 1 then |l.ring| else |l.ring| / 2;
      var gone := if played.Floor < frames then played.Floor else frames;
      && gone >= 0 && gone * l.channels <= |l.ring|
      && after.ring == l.ring[gone * l.channels..] && after.pos == played - gone as real
      && (after.pos < 1.0 || |after.ring| < l.channels)
  {
    EraseIs(Play(l, n).lane);
    hide Play, Erase;
  }

  lemma EraseIs(l: Lane)
    requires ValidLane(l)
    ensures var after, frames := Erase(l), if l.channels == 1 then |l.ring| else |l.ring| / 2;
      var gone := if l.pos.Floor < frames then l.pos.Floor else frames;
      && gone >= 0 && gone * l.channels <= |l.ring|
      && after.ring == l.ring[gone * l.channels..] && after.pos == l.pos - gone as real
      && (after.pos < 1.0 || |after.ring| < l.channels)
  {
    Gone(l);
    hide Consumed;
  }

  /** What is erased, in frames. */
  lemma Gone(l: Lane)
    requires ValidLane(l)
    ensures var c, frames := Consumed(l), if l.channels == 1 then |l.ring| else |l.ring| / 2;
      && c == (if l.pos.Floor < frames then l.pos.Floor else frames)
      && 0 <= c * l.channels == SamplesIn(c, l.channels) <= |l.ring|
      && (l.pos - c as real < 1.0 || |l.ring| - c * l.channels < l.channels)
  {
  }
}
