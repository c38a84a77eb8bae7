/** One audio lane (src/audio_alsa.cpp): a ring of samples read by a fractional head, mixed
    block by block with linear interpolation and a gain ramp. Doubles are reals here. */
module Mixer {
  import opened Rounding

  type Sample = s: int | -32768 <= s <= 32767

  const OUT_RATE := 44100

  /** A stereo output frame, or one lane's contribution to it. */
  datatype Frame = Frame(left: int, right: int)

  datatype Lane = Lane(rate: nat, channels: nat, ring: seq<Sample>,
                       gain: real, target: real, step: real, pos: real)

  /** decode_type_format(): rate and channels. */
  function Format(decodeType: nat): (nat, nat) {
    if decodeType == 3 then (8000, 1)
    else if decodeType == 4 then (48000, 2)
    else if decodeType == 5 then (16000, 1)
    else if decodeType == 6 then (24000, 1)
    else if decodeType == 7 then (16000, 2)
    else (44100, 2)
  }

  function FreshLane(decodeType: nat): Lane {
    Lane(Format(decodeType).0, Format(decodeType).1, [], 1.0, 1.0, 0.0, 0.0)
  }

  ghost predicate ValidLane(l: Lane) {
    l.rate > 0 && 1 <= l.channels <= 2 && l.pos >= 0.0
  }

  /** Whole frames in `n` samples, and samples in `n` frames. */
  function FramesIn(n: nat, channels: nat): nat {
    if channels == 1 then n else n / 2
  }

  function SamplesIn(n: nat, channels: nat): nat {
    if channels == 1 then n else 2 * n
  }

  function Avail(l: Lane): nat {
    FramesIn(|l.ring|, l.channels)
  }

  /** Source frames per output frame. */
  function Ratio(rate: nat): (r: real)
    ensures r >= 0.0
  {
    rate as real / OUT_RATE as real
  }

  // ----- one output frame ------------------------------------------------------------

  /** One step of the gain envelope. */
  function Advance(gain: real, target: real, step: real): real {
    var g := gain + step;
    if (step > 0.0 && g > target) || (step < 0.0 && g < target) then target else g
  }

  function SampleAt(ring: seq<Sample>, channels: nat, frame: nat, channel: nat): Sample
    requires frame < FramesIn(|ring|, channels) && channel < 2
  {
    if channels == 1 then ring[frame] else ring[2 * frame + channel]
  }

  /** Linear interpolation at the head, clamped at the newest frame, times the gain. */
  function Interpolated(ring: seq<Sample>, channels: nat, pos: real, gain: real, channel: nat): int
    requires 0.0 <= pos && pos.Floor < FramesIn(|ring|, channels) && channel < 2
  {
    var i0 := pos.Floor;
    var i1 := if i0 + 1 < FramesIn(|ring|, channels) then i0 + 1 else i0;
    var frac := pos - i0 as real;
    Blend(SampleAt(ring, channels, i0, channel), SampleAt(ring, channels, i1, channel), frac, gain)
  }

  function Blend(s0: Sample, s1: Sample, frac: real, gain: real): int {
    LRound((s0 as real * (1.0 - frac) + s1 as real * frac) * gain)
  }

  function Contribution(l: Lane): Frame
    requires ValidLane(l) && !Dry(l)
  {
    Frame(Interpolated(l.ring, l.channels, l.pos, l.gain, 0),
          Interpolated(l.ring, l.channels, l.pos, l.gain, 1))
  }

  // ----- a block ----------------------------------------------------------------------

  datatype Mixed = Mixed(lane: Lane, out: seq<Frame>)

  /** The head has passed the newest frame. */
  predicate Dry(l: Lane)
    requires ValidLane(l)
  {
    l.pos.Floor >= Avail(l)
  }

  /** The gain moved one step. */
  function Ramped(l: Lane): (m: Lane)
    requires ValidLane(l)
    ensures ValidLane(m) && Dry(m) == Dry(l) && m == l.(gain := m.gain)
  {
    l.(gain := Advance(l.gain, l.target, l.step))
  }

  /** One output frame later. */
  function Next(l: Lane): (m: Lane)
    requires ValidLane(l)
    ensures ValidLane(m)
  {
    Ramped(l).(pos := l.pos + Ratio(l.rate))
  }

  /** Up to `n` output frames without erasing anything: the gain advances once for every
      frame tried, and the lane stops where its data ends. */
  function Play(l: Lane, n: nat): (m: Mixed)
    requires ValidLane(l)
    ensures ValidLane(m.lane) && |m.out| <= n
    ensures m.lane == l.(gain := m.lane.gain, pos := m.lane.pos)
    ensures m.lane.pos >= l.pos
    decreases n
  {
    if n == 0 then Mixed(l, [])
    else if Dry(l) then Mixed(Ramped(l), [])
    else
      var rest := Play(Next(l), n - 1);
      Mixed(rest.lane, [Contribution(Ramped(l))] + rest.out)
  }

  /** Whole frames behind the head. */
  function Consumed(l: Lane): nat
    requires ValidLane(l)
  {
    if l.pos.Floor < Avail(l) then l.pos.Floor else Avail(l)
  }

  /** The lane without its first `c` frames, read from the same place. */
  function Shift(l: Lane, c: nat): (m: Lane)
    requires ValidLane(l) && c <= Consumed(l)
    ensures ValidLane(m) && Avail(m) == Avail(l) - c && m.pos == l.pos - c as real
    ensures m == l.(ring := m.ring, pos := m.pos)
  {
    l.(ring := l.ring[SamplesIn(c, l.channels)..], pos := l.pos - c as real)
  }

  function Erase(l: Lane): Lane
    requires ValidLane(l)
  {
    Shift(l, Consumed(l))
  }

  /** mix_lane(): play a block, then erase what the head has passed. */
  function MixLane(l: Lane, n: nat): Mixed
    requires ValidLane(l)
  {
    var m := Play(l, n);
    Mixed(Erase(m.lane), m.out)
  }

  // ----- erasing is invisible ------------------------------------------------------------

  lemma ShiftTwice(l: Lane, c: nat, d: nat)
    requires ValidLane(l) && c + d <= Consumed(l)
    ensures d <= Consumed(Shift(l, c)) && Shift(Shift(l, c), d) == Shift(l, c + d)
    ensures Consumed(Shift(l, c)) == Consumed(l) - c
  {
    ShiftConsumed(l, c);
    var k, j := SamplesIn(c, l.channels), SamplesIn(d, l.channels);
    assert l.ring[k..][j..] == l.ring[k + j..];
  }

  lemma ShiftConsumed(l: Lane, c: nat)
    requires ValidLane(l) && c <= Consumed(l)
    ensures Consumed(Shift(l, c)) == Consumed(l) - c
    ensures (l.pos - c as real).Floor == l.pos.Floor - c
  {
  }

  lemma ErasedAfterShift(l: Lane, c: nat)
    requires ValidLane(l) && c <= Consumed(l)
    ensures Erase(Shift(l, c)) == Erase(l)
  {
    ShiftConsumed(l, c);
    ShiftTwice(l, c, Consumed(l) - c);
  }

  lemma ContributionShifted(l: Lane, c: nat)
    requires ValidLane(l) && c <= Consumed(l)
    ensures Dry(Shift(l, c)) == Dry(l)
    ensures !Dry(l) ==> Contribution(Shift(l, c)) == Contribution(l)
  {
    ShiftConsumed(l, c);
    if !Dry(l) {
      InterpolatedShifted(l, c, 0);
      InterpolatedShifted(l, c, 1);
    }
  }

  lemma InterpolatedShifted(l: Lane, c: nat, channel: nat)
    requires ValidLane(l) && c <= Consumed(l) && l.pos.Floor < Avail(l) && channel < 2
    ensures var m := Shift(l, c);
      && 0.0 <= m.pos && m.pos.Floor < FramesIn(|m.ring|, m.channels)
      && Interpolated(m.ring, m.channels, m.pos, m.gain, channel)
         == Interpolated(l.ring, l.channels, l.pos, l.gain, channel)
  {
    hide Blend;
    ShiftConsumed(l, c);
    var m := Shift(l, c);
    var i0 := l.pos.Floor;
    SampleShifted(l, c, i0, channel);
    if i0 + 1 < Avail(l) {
      SampleShifted(l, c, i0 + 1, channel);
    }
    assert l.pos - i0 as real == m.pos - (i0 - c) as real;
  }

  lemma SampleShifted(l: Lane, c: nat, i: nat, channel: nat)
    requires ValidLane(l) && c <= Consumed(l) && c <= i < Avail(l) && channel < 2
    ensures i - c < FramesIn(|Shift(l, c).ring|, l.channels)
    ensures SampleAt(Shift(l, c).ring, l.channels, i - c, channel) == SampleAt(l.ring, l.channels, i, channel)
  {
  }

  lemma NextShifted(l: Lane, c: nat)
    requires ValidLane(l) && c <= Consumed(l)
    ensures c <= Consumed(Ramped(l)) && Shift(Ramped(l), c) == Ramped(Shift(l, c))
    ensures c <= Consumed(Next(l)) && Shift(Next(l), c) == Next(Shift(l, c))
  {
    hide Advance, Ratio;
  }

  /** Playing after a shift is playing and then shifting. */
  lemma {:induction false} PlayShifted(l: Lane, c: nat, n: nat)
    requires ValidLane(l) && c <= Consumed(l)
    ensures c <= Consumed(Play(l, n).lane)
    ensures Play(Shift(l, c), n) == Mixed(Shift(Play(l, n).lane, c), Play(l, n).out)
    decreases n
  {
    hide Contribution, Next, Ramped, Dry, Shift, Consumed;
    if n > 0 {
      ContributionShifted(l, c);
      NextShifted(l, c);
      if !Dry(l) {
        ContributionShifted(Ramped(l), c);
        PlayShifted(Next(l), c, n - 1);
      }
    }
  }

  /** Playing a and then b more frames is playing a + b, unless the data ends within the
      first a. */
  lemma {:induction false} PlaySplit(l: Lane, a: nat, b: nat)
    requires ValidLane(l)
    ensures var m := Play(l, a);
      if |m.out| == a then
        Play(l, a + b) == Mixed(Play(m.lane, b).lane, m.out + Play(m.lane, b).out)
      else
        Play(l, a + b) == m && Dry(m.lane)
    decreases a
  {
    hide Contribution, Next, Ramped, Dry;
    if a == 0 {
      assert [] + Play(l, b).out == Play(l, b).out;
    } else if !Dry(l) {
      PlaySplit(Next(l), a - 1, b);
      var m, k := Play(Next(l), a - 1), Contribution(Ramped(l));
      assert Play(l, a).out == [k] + m.out;
      assert [k] + (m.out + Play(m.lane, b).out) == ([k] + m.out) + Play(m.lane, b).out;
    }
  }

  /** The ramp has nowhere to go. */
  predicate Settled(l: Lane)
    requires ValidLane(l)
  {
    Ramped(l) == l
  }

  /** A dry lane plays nothing; its gain moves once. */
  lemma PlayDry(l: Lane, n: nat)
    requires ValidLane(l) && Dry(l)
    ensures Play(l, n) == Mixed(if n == 0 then l else Ramped(l), [])
  {
  }

  /** Mixing a block of a and then one of b frames gives the same output and leaves the same
      data and head as one block of a + b; the gain is the same too, exactly unless the lane
      ran dry in the first block and the second one moves the ramp once more. */
  lemma MixSplit(l: Lane, a: nat, b: nat)
    requires ValidLane(l)
    ensures var first := MixLane(l, a);
      && ValidLane(first.lane)
      && var second, whole := MixLane(first.lane, b), MixLane(l, a + b);
         && whole.out == first.out + second.out
         && whole.lane == second.lane.(gain := whole.lane.gain)
         && (whole.lane.gain == second.lane.gain <==>
             (|first.out| == a || b == 0 || Settled(first.lane)))
  {
    hide Contribution, Ramped, Play, Shift, Consumed, Dry;
    var m := Play(l, a);
    var c := Consumed(m.lane);
    PlaySplit(l, a, b);
    ErasedAfterShift(m.lane, c);
    if |m.out| == a {
      PlayShifted(m.lane, c, b);
      ErasedAfterShift(Play(m.lane, b).lane, c);
    } else {
      var rest := Erase(m.lane);
      ContributionShifted(m.lane, c);
      PlayDry(rest, b);
      EraseRamped(rest);
      assert Erase(rest) == rest;
      assert m.out + [] == m.out;
    }
  }

  lemma EraseRamped(l: Lane)
    requires ValidLane(l)
    ensures Erase(Ramped(l)) == Ramped(Erase(l))
  {
    NextShifted(l, Consumed(l));
  }
}
