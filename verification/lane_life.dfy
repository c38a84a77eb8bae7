/** A lane over its whole life (src/audio_alsa.cpp): samples arrive, blocks are mixed, and
    the backlog is capped. Beside the lane runs an ideal one that never erases anything and
    reads the whole received signal; the lane is that one with its past cut off. */
module LaneLife {
  import opened Rounding
  import opened Mixer
  import opened Gain
  import opened Signal

  datatype Event =
    | Submit(pcm: seq<Sample>)
    | Ramp(volume: real, duration: real)
    | Block(n: nat)

  /** One second of samples. */
  function Cap(l: Lane): nat {
    SamplesIn(l.rate, l.channels)
  }

  function Overflow(l: Lane, pcm: seq<Sample>): nat {
    if |l.ring| + |pcm| > Cap(l) then |l.ring| + |pcm| - Cap(l) else 0
  }

  /** submit() with PCM: append, then drop the oldest samples above the cap. */
  function Append(l: Lane, pcm: seq<Sample>): Lane {
    var ring := l.ring + pcm;
    var drop := Overflow(l, pcm);
    if drop == 0 then l.(ring := ring)
    else
      var df := FramesIn(drop, l.channels) as real;
      l.(ring := ring[drop..], pos := if l.pos > df then l.pos - df else 0.0)
  }

  /** The lane, the ideal lane over everything received, the frames cut off so far, and what
      both have put out. */
  datatype Life = Life(lane: Lane, ideal: Lane, erased: nat, out: seq<Frame>, idealOut: seq<Frame>)

  function Born(decodeType: nat): Life {
    Life(FreshLane(decodeType), FreshLane(decodeType), 0, [], [])
  }

  function Max(a: real, b: real): real {
    if a < b then b else a
  }

  ghost function Step(s: Life, e: Event): Life
    requires ValidLane(s.lane) && ValidLane(s.ideal)
  {
    match e
    case Submit(pcm) =>
      var cut := s.erased + FramesIn(Overflow(s.lane, pcm), s.lane.channels);
      s.(lane := Append(s.lane, pcm), erased := cut,
         ideal := s.ideal.(ring := s.ideal.ring + pcm, pos := Max(s.ideal.pos, cut as real)))
    case Ramp(volume, duration) =>
      s.(lane := Duck(s.lane, volume, duration), ideal := Duck(s.ideal, volume, duration))
    case Block(n) =>
      var m, i := Play(s.lane, n), Play(s.ideal, n);
      Life(MixLane(s.lane, n).lane, i.lane, s.erased + Consumed(m.lane), s.out + MixLane(s.lane, n).out,
           s.idealOut + i.out)
  }

  /** Stereo samples arrive in pairs. */
  predicate Aligned(n: nat, channels: nat) {
    channels == 1 || n % 2 == 0
  }

  ghost predicate FrameAligned(channels: nat, es: seq<Event>) {
    forall i :: 0 <= i < |es| && es[i].Submit? ==> Aligned(|es[i].pcm|, channels)
  }

  /** The lane is the ideal lane without the frames cut off, and has put out the same. */
  ghost predicate Related(s: Life) {
    && ValidLane(s.ideal) && ValidLane(s.lane) && s.erased <= Consumed(s.ideal)
    && s.lane == Shift(s.ideal, s.erased)
    && Aligned(|s.lane.ring|, s.lane.channels)
    && s.out == s.idealOut
  }

  /** Capping the backlog is moving the head up to the cut, then cutting. */
  lemma AppendIsShift(l: Lane, pcm: seq<Sample>)
    requires ValidLane(l) && Aligned(|l.ring|, l.channels) && Aligned(|pcm|, l.channels)
    ensures var df := FramesIn(Overflow(l, pcm), l.channels);
      var w := l.(ring := l.ring + pcm, pos := Max(l.pos, df as real));
      && df <= Consumed(w) && Append(l, pcm) == Shift(w, df)
      && Aligned(|Append(l, pcm).ring|, l.channels)
  {
    var drop := Overflow(l, pcm);
    var df := FramesIn(drop, l.channels);
    assert SamplesIn(df, l.channels) == drop;
    assert Max(l.pos, df as real).Floor >= df;
    if drop == 0 {
      assert (l.ring + pcm)[0..] == l.ring + pcm;
    }
  }

  /** The same seen from the ideal lane, `erased` frames of which are cut off already. */
  lemma AppendCutsIdeal(ideal: Lane, erased: nat, pcm: seq<Sample>)
    requires ValidLane(ideal) && erased <= Consumed(ideal)
    requires Aligned(|Shift(ideal, erased).ring|, ideal.channels) && Aligned(|pcm|, ideal.channels)
    ensures var lane := Shift(ideal, erased);
      var cut := erased + FramesIn(Overflow(lane, pcm), lane.channels);
      var g := ideal.(ring := ideal.ring + pcm, pos := Max(ideal.pos, cut as real));
      && ValidLane(g) && cut <= Consumed(g) && Append(lane, pcm) == Shift(g, cut)
      && Aligned(|Append(lane, pcm).ring|, lane.channels)
  {
    hide Append, Overflow, Consumed, Shift, FramesIn, Max, Aligned;
    var lane := Shift(ideal, erased);
    var df := FramesIn(Overflow(lane, pcm), lane.channels);
    AppendIsShift(lane, pcm);
    MaxMoves(ideal.pos, df, erased);
    var head := Max(ideal.pos, (erased + df) as real);
    ShiftGrown(ideal, erased, pcm, head);
    var g := ideal.(ring := ideal.ring + pcm, pos := head);
    ShiftConsumed(g, erased);
    ShiftTwice(g, erased, df);
  }

  lemma RelatedSubmit(s: Life, pcm: seq<Sample>)
    requires Related(s) && Aligned(|pcm|, s.lane.channels)
    ensures Related(Step(s, Submit(pcm)))
  {
    hide Append, Overflow, Consumed, Shift, FramesIn, Max, Aligned;
    AppendCutsIdeal(s.ideal, s.erased, pcm);
  }

  lemma MaxMoves(pos: real, df: nat, erased: nat)
    ensures Max(pos, (erased + df) as real) - erased as real == Max(pos - erased as real, df as real)
    ensures Max(pos, (erased + df) as real) >= pos
  {
  }

  lemma ShiftGrown(l: Lane, c: nat, pcm: seq<Sample>, pos: real)
    requires ValidLane(l) && c <= Consumed(l) && pos >= l.pos
    ensures var g := l.(ring := l.ring + pcm, pos := pos);
      && c <= Consumed(g)
      && Shift(g, c) == Shift(l, c).(ring := Shift(l, c).ring + pcm, pos := pos - c as real)
  {
    var k := SamplesIn(c, l.channels);
    assert l.ring[k..] + pcm == (l.ring + pcm)[k..];
  }

  lemma RelatedRamp(s: Life, volume: real, duration: real)
    requires Related(s)
    ensures Related(Step(s, Ramp(volume, duration)))
  {
  }

  lemma RelatedBlock(s: Life, n: nat)
    requires Related(s)
    ensures Related(Step(s, Block(n)))
  {
    hide Consumed, Shift, Play;
    var i := Play(s.ideal, n);
    PlayShifted(s.ideal, s.erased, n);
    var m := Play(s.lane, n);
    assert m == Mixed(Shift(i.lane, s.erased), i.out);
    var c := Consumed(m.lane);
    ShiftConsumed(i.lane, s.erased);
    ShiftTwice(i.lane, s.erased, c);
    BlockKeepsAlignment(m.lane);
    assert Shift(m.lane, c) == Shift(i.lane, s.erased + c);
    var t := Step(s, Block(n));
    assert t.erased == s.erased + c && t.ideal == i.lane;
    assert t.lane == Erase(m.lane) == Shift(m.lane, c);
  }

  lemma BlockKeepsAlignment(l: Lane)
    requires ValidLane(l) && Aligned(|l.ring|, l.channels)
    ensures Aligned(|Erase(l).ring|, l.channels)
  {
  }

  lemma RelatedStep(s: Life, e: Event)
    requires Related(s) && (e.Submit? ==> Aligned(|e.pcm|, s.lane.channels))
    ensures Related(Step(s, e)) && Step(s, e).lane.channels == s.lane.channels
    ensures Step(s, e).lane.rate == s.lane.rate
  {
    match e
    case Submit(pcm) => RelatedSubmit(s, pcm);
    case Ramp(volume, duration) => RelatedRamp(s, volume, duration);
    case Block(n) => RelatedBlock(s, n);
  }

  ghost function Run(s: Life, es: seq<Event>): (t: Life)
    requires Related(s) && FrameAligned(s.lane.channels, es)
    ensures Related(t)
    decreases |es|
  {
    if es == [] then s
    else
      RelatedStep(s, es[0]);
      Run(Step(s, es[0]), es[1..])
  }

  lemma BornRelated(decodeType: nat)
    ensures Related(Born(decodeType))
  {
    assert Shift(FreshLane(decodeType), 0) == FreshLane(decodeType);
  }

  // ----- what that means ---------------------------------------------------------------

  /** Over any life of frame-aligned input the erasing and the cap's cuts are invisible: the lane
      has put out exactly what the ideal lane puts out, which goes through the same events and
      never erases, and it is the ideal lane with its past cut off. */
  lemma RefinesIdeal(decodeType: nat, es: seq<Event>)
    requires FrameAligned(Format(decodeType).1, es)
    ensures Related(Born(decodeType))
    ensures var s := Run(Born(decodeType), es);
      && s.out == s.idealOut
      && s.erased <= Consumed(s.ideal) && s.lane == Shift(s.ideal, s.erased)
  {
    BornRelated(decodeType);
  }

  /** Source frames that `k` output frames take. */
  function Span(k: nat, rate: nat): real {
    k as real * Ratio(rate)
  }

  lemma SpanAdds(j: nat, k: nat, rate: nat)
    ensures Span(j + k, rate) == Span(j, rate) + Span(k, rate)
    ensures Span(0, rate) == 0.0 && Span(1, rate) == Ratio(rate)
  {
    hide Ratio;
    assert (j + k) as real * Ratio(rate) == j as real * Ratio(rate) + k as real * Ratio(rate);
  }

  /** No submit hit the cap. */
  ghost predicate NeverCapped(s: Life, es: seq<Event>)
    requires Related(s) && FrameAligned(s.lane.channels, es)
    decreases |es|
  {
    es == [] ||
    (RelatedStep(s, es[0]);
     (es[0].Submit? ==> Overflow(s.lane, es[0].pcm) == 0) && NeverCapped(Step(s, es[0]), es[1..]))
  }

  /** The head moves by the ratio for every frame played. */
  lemma {:induction false} PlayMoves(l: Lane, n: nat)
    requires ValidLane(l)
    ensures Play(l, n).lane.pos == l.pos + Span(|Play(l, n).out|, l.rate)
    decreases n
  {
    hide Contribution, Dry, Ratio, Span;
    SpanAdds(0, 0, l.rate);
    if n > 0 && !Dry(l) {
      PlayMoves(Next(l), n - 1);
      SpanAdds(1, |Play(Next(l), n - 1).out|, l.rate);
    }
  }

  /** How far the head is ahead of what the output accounts for. */
  function Lead(s: Life): real {
    s.erased as real + s.lane.pos - Span(|s.out|, s.lane.rate)
  }

  lemma LeadOfIdeal(s: Life)
    requires Related(s)
    ensures Lead(s) == s.ideal.pos - Span(|s.out|, s.lane.rate) && s.lane.rate == s.ideal.rate
  {
    hide Span, Consumed;
  }

  lemma LeadAfterBlock(s: Life, n: nat)
    requires Related(s)
    ensures Lead(Step(s, Block(n))) == Lead(s)
  {
    hide Span, Consumed, Play, Shift, Related;
    SameOut(s);
    RelatedStep(s, Block(n));
    var t, i := Step(s, Block(n)), Play(s.ideal, n);
    LeadOfIdeal(s);
    LeadOfIdeal(t);
    PlayMoves(s.ideal, n);
    assert t.idealOut == s.idealOut + i.out && t.ideal == i.lane;
    SameOut(t);
    SpanAdds(|s.out|, |i.out|, s.lane.rate);
  }

  lemma SameOut(s: Life)
    requires Related(s)
    ensures s.out == s.idealOut && ValidLane(s.lane) && ValidLane(s.ideal)
  {
  }

  lemma LeadStep(s: Life, e: Event)
    requires Related(s) && (e.Submit? ==> Aligned(|e.pcm|, s.lane.channels))
    ensures Lead(Step(s, e)) >= Lead(s)
    ensures (e.Submit? ==> Overflow(s.lane, e.pcm) == 0) ==> Lead(Step(s, e)) == Lead(s)
  {
    hide Span, Play;
    match e
    case Submit(pcm) =>
      RelatedStep(s, e);
      LeadOfIdeal(s);
      LeadOfIdeal(Step(s, e));
    case Ramp(volume, duration) =>
    case Block(n) =>
      LeadAfterBlock(s, n);
  }

  /** Source frames cut off plus the head always account for the output: exactly ratio times
      the frames put out while the cap is never hit, and a hit of the cap only ever moves
      the head forward. */
  lemma {:induction false} HeadAccountsForOutput(s: Life, es: seq<Event>)
    requires Related(s) && FrameAligned(s.lane.channels, es)
    ensures Lead(Run(s, es)) >= Lead(s)
    ensures NeverCapped(s, es) ==> Lead(Run(s, es)) == Lead(s)
    decreases |es|
  {
    hide Step, Lead;
    if es != [] {
      RelatedStep(s, es[0]);
      LeadStep(s, es[0]);
      HeadAccountsForOutput(Step(s, es[0]), es[1..]);
    }
  }

  lemma {:induction false} PlayContributes(l: Lane, n: nat, j: nat)
    requires ValidLane(l) && j < |Play(l, n).out|
    ensures var at := l.(pos := l.pos + Span(j, l.rate),
                         gain := AdvanceTimes(l.gain, l.target, l.step, j + 1));
      ValidLane(at) && !Dry(at) && Play(l, n).out[j] == Contribution(at)
    decreases n
  {
    hide Contribution, Ratio, Span, Dry, Advance;
    SpanAdds(0, 0, l.rate);
    assert AdvanceTimes(l.gain, l.target, l.step, 1) == Advance(l.gain, l.target, l.step);
    if j == 0 {
      assert l.(pos := l.pos + Span(0, l.rate), gain := AdvanceTimes(l.gain, l.target, l.step, 1)) == Ramped(l);
    } else {
      PlayContributes(Next(l), n - 1, j - 1);
      SpanAdds(1, j - 1, l.rate);
    }
  }

  /** Frame `j` of a block lies on the signal `j` steps of the lane's rate after the block's head, at
      the gain of its step. */
  lemma PlayAt(l: Lane, n: nat, j: nat)
    requires ValidLane(l) && j < |Play(l, n).out|
    ensures OnLine(l.ring, l.channels, l.pos + (j * l.rate) as real / 44100.0,
                   AdvanceTimes(l.gain, l.target, l.step, j + 1), Play(l, n).out[j])
  {
    hide OnLine, Contribution, Dry, Span, Play, AdvanceTimes;
    PlayContributes(l, n, j);
    SpanIs(j, l.rate);
    ContributionIsOnLine(l.(pos := l.pos + Span(j, l.rate), gain := AdvanceTimes(l.gain, l.target, l.step, j + 1)));
  }

  lemma SpanIs(k: nat, rate: nat)
    ensures Span(k, rate) == (k * rate) as real / 44100.0 && Span(k, rate) * 44100.0 == (k * rate) as real
  {
    assert (k * rate) as real == k as real * rate as real;
  }

  /** Once the next source frame has arrived, later input does not change an output frame. */
  lemma ArrivedIsFinal(l: Lane, more: seq<Sample>)
    requires ValidLane(l) && l.pos.Floor + 1 < Avail(l)
    ensures Avail(l.(ring := l.ring + more)) >= Avail(l)
    ensures Contribution(l.(ring := l.ring + more)) == Contribution(l)
  {
    hide Blend;
    var m := l.(ring := l.ring + more);
    assert forall i: nat, k: nat | i < Avail(l) && k < 2 ::
      SampleAt(m.ring, l.channels, i, k) == SampleAt(l.ring, l.channels, i, k);
  }

  // ----- exact passthrough ---------------------------------------------------------------

  /** A stereo lane at the device's rate, at full gain, with its head on a frame. */
  ghost predicate Plain(l: Lane) {
    && l.rate == OUT_RATE && l.channels == 2
    && l.gain == 1.0 && l.target == 1.0 && l.step == 0.0
    && l.pos >= 0.0 && l.pos == l.pos.Floor as real
  }

  function StereoAt(ring: seq<Sample>, i: nat): Frame
    requires 2 * i + 1 < |ring|
  {
    Frame(ring[2 * i], ring[2 * i + 1])
  }

  lemma PlainContribution(l: Lane)
    requires Plain(l) && !Dry(l)
    ensures Contribution(l) == StereoAt(l.ring, l.pos.Floor)
  {
    var i0 := l.pos.Floor;
    var i1 := if i0 + 1 < Avail(l) then i0 + 1 else i0;
    hide Blend;
    PlainBlend(l.ring[2 * i0], l.ring[2 * i1]);
    PlainBlend(l.ring[2 * i0 + 1], l.ring[2 * i1 + 1]);
  }

  lemma PlainBlend(s: Sample, t: Sample)
    ensures Blend(s, t, 0.0, 1.0) == s
  {
    LRoundOfInt(s);
    assert (s as real * (1.0 - 0.0) + t as real * 0.0) * 1.0 == s as real;
  }

  lemma PlainNext(l: Lane, p: nat)
    requires Plain(l) && l.pos == p as real
    ensures Dry(l) <==> p >= Avail(l)
    ensures Ramped(l) == l && Next(l) == l.(pos := (p + 1) as real) && Plain(Next(l))
  {
    assert Ratio(OUT_RATE) == 1.0;
  }

  /** A plain lane plays its own samples, as many as there are, and stays plain. */
  lemma {:induction false} PlayPlain(l: Lane, n: nat, p: nat)
    requires Plain(l) && l.pos == p as real
    ensures var m := Play(l, n);
      && |m.out| == (if p >= Avail(l) then 0 else if n <= Avail(l) - p then n else Avail(l) - p)
      && m.lane == l.(pos := (p + |m.out|) as real) && Plain(m.lane)
      && forall j :: 0 <= j < |m.out| ==> m.out[j] == StereoAt(l.ring, p + j)
    decreases n
  {
    hide Contribution, Dry, Next, Ramped;
    PlainNext(l, p);
    if n > 0 && !Dry(l) {
      PlainContribution(l);
      PlayPlain(Next(l), n - 1, p + 1);
    }
  }

  /** Only samples and blocks. */
  ghost predicate NoRamps(es: seq<Event>) {
    forall i :: 0 <= i < |es| ==> !es[i].Ramp?
  }

  /** What has been put out is what was received, up to the head. */
  ghost predicate PassedThrough(s: Life) {
    && Related(s) && Plain(s.ideal) && s.ideal.pos == |s.out| as real && |s.out| <= Avail(s.ideal)
    && forall k :: 0 <= k < |s.out| ==> s.out[k] == StereoAt(s.ideal.ring, k)
  }

  lemma PassedThroughBlock(s: Life, n: nat)
    requires PassedThrough(s)
    ensures PassedThrough(Step(s, Block(n)))
  {
    hide Play, Related;
    PassedThroughIsRelated(s);
    RelatedStep(s, Block(n));
    SameOut(s);
    SameOut(Step(s, Block(n)));
    PlayPlain(s.ideal, n, |s.out|);
  }

  lemma PassedThroughSubmit(s: Life, pcm: seq<Sample>)
    requires PassedThrough(s) && Aligned(|pcm|, 2) && Overflow(s.lane, pcm) == 0
    ensures PassedThrough(Step(s, Submit(pcm)))
  {
    hide Append, Overflow;
    PassedThroughIsRelated(s);
    LeadOfIdeal(s);
    RelatedStep(s, Submit(pcm));
    hide Related;
    var t := Step(s, Submit(pcm));
    assert t.ideal == s.ideal.(ring := s.ideal.ring + pcm);
  }

  lemma PassedThroughStep(s: Life, e: Event)
    requires PassedThrough(s) && !e.Ramp?
    requires e.Submit? ==> Aligned(|e.pcm|, 2) && Overflow(s.lane, e.pcm) == 0
    ensures PassedThrough(Step(s, e))
  {
    hide PassedThrough, Step;
    match e
    case Submit(pcm) => PassedThroughSubmit(s, pcm);
    case Block(n) => PassedThroughBlock(s, n);
  }

  /** A lone 44100 Hz stereo lane at full gain, fed whole frames and never hitting the cap,
      puts out exactly what it received, in order, whatever the submit and block sizes. */
  lemma {:induction false} Passthrough(s: Life, es: seq<Event>)
    requires PassedThrough(s) && FrameAligned(s.lane.channels, es)
    requires NoRamps(es) && NeverCapped(s, es)
    ensures PassedThrough(Run(s, es))
    decreases |es|
  {
    hide Step, PassedThrough, Related;
    if es != [] {
      PassedThroughIsRelated(s);
      assert es[0].Submit? ==> Aligned(|es[0].pcm|, s.lane.channels);
      RelatedStep(s, es[0]);
      PassedThroughStep(s, es[0]);
      assert NoRamps(es[1..]) by { assert forall i | 0 <= i < |es[1..]| :: es[1..][i] == es[i + 1]; }
      Passthrough(Step(s, es[0]), es[1..]);
    }
  }

  lemma PassedThroughIsRelated(s: Life)
    requires PassedThrough(s)
    ensures Related(s) && s.lane.channels == 2 && ValidLane(s.lane) && ValidLane(s.ideal)
  {
  }

  /** Silence is inserted only when dry: a block that comes out short has played everything
      received so far. */
  lemma ShortBlockMeansDry(s: Life, n: nat)
    requires PassedThrough(s) && |MixLane(s.lane, n).out| < n
    ensures |Step(s, Block(n)).out| == Avail(Step(s, Block(n)).ideal)
  {
    hide Play, Consumed, Shift;
    PlayShifted(s.ideal, s.erased, n);
    PlayPlain(s.ideal, n, |s.out|);
  }

  /** Every decode type that means 44100 Hz stereo starts such a lane, the unlisted ones too, and
      no other type does. */
  lemma BornPlain(decodeType: nat)
    ensures PassedThrough(Born(decodeType)) <==> Format(decodeType) == (44100, 2)
  {
    BornRelated(decodeType);
    FreshIsPlain(decodeType);
    hide PassedThrough, FreshLane, Plain, Format;
    if Plain(FreshLane(decodeType)) {
      NothingPassedYet(FreshLane(decodeType));
    } else {
      PassedThroughIsPlain(Born(decodeType));
    }
  }

  lemma FreshIsPlain(decodeType: nat)
    ensures Plain(FreshLane(decodeType)) <==> Format(decodeType) == (44100, 2)
    ensures FreshLane(decodeType).pos == 0.0
  {
  }

  lemma PassedThroughIsPlain(s: Life)
    ensures PassedThrough(s) ==> Plain(s.ideal)
  {
  }

  lemma NothingPassedYet(l: Lane)
    requires Plain(l) && l.pos == 0.0 && Related(Life(l, l, 0, [], []))
    ensures PassedThrough(Life(l, l, 0, [], []))
  {
    hide Related, Plain;
  }
}
