/** The mixer's streams over all its calls (src/audio_alsa.cpp): frames submitted for any stream,
    blocks mixed, idle lanes dropped. Each stream's lane lives its own life, whatever the others do. */
module MixerEvents {
  import opened Options
  import opened Mixer
  import opened Gain
  import opened LaneLife

  /** decodeType and audioType. */
  type Key = (nat, nat)

  /** An AudioData frame: a duck command or PCM, possibly empty. */
  datatype AudioFrame = AudioFrame(key: Key, volume: real, duck: Option<real>, pcm: seq<Sample>)

  datatype MixerEvent =
    | Submits(f: AudioFrame)
    | Mixes(block: nat)
    | Drops(gone: set<Key>)

  ghost predicate ValidLanes(lanes: map<Key, Lane>) {
    forall k :: k in lanes ==> ValidLane(lanes[k]) && GainOk(lanes[k])
  }

  /** What submit() does to the lane it belongs to. */
  function Submitted(l: Lane, f: AudioFrame): Lane {
    match f.duck
    case Some(duration) => Duck(l, f.volume, duration)
    case None => if f.pcm != [] then Append(l, f.pcm) else l
  }

  function LaneOr(lanes: map<Key, Lane>, key: Key): Lane {
    if key in lanes then lanes[key] else FreshLane(key.0)
  }

  ghost function After(lanes: map<Key, Lane>, e: MixerEvent): (after: map<Key, Lane>)
    requires ValidLanes(lanes)
    ensures ValidLanes(after)
  {
    match e
    case Submits(f) =>
      SubmittedValid(LaneOr(lanes, f.key), f);
      lanes[f.key := Submitted(LaneOr(lanes, f.key), f)]
    case Mixes(block) =>
      AllMixedValid(lanes, block);
      map k | k in lanes :: MixLane(lanes[k], block).lane
    case Drops(gone) => lanes - gone
  }

  /** The lanes after everything that happened. */
  ghost function LanesAfter(es: seq<MixerEvent>): (lanes: map<Key, Lane>)
    ensures ValidLanes(lanes)
    decreases |es|
  {
    if es == [] then map[] else After(LanesAfter(es[..|es| - 1]), es[|es| - 1])
  }

  lemma OneEventMore(es: seq<MixerEvent>, e: MixerEvent)
    ensures LanesAfter(es + [e]) == After(LanesAfter(es), e)
  {
    assert (es + [e])[..|es|] == es;
  }

  lemma DropsKeep(lanes: map<Key, Lane>, kept: map<Key, Lane>)
    requires ValidLanes(lanes) && kept.Keys <= lanes.Keys && forall k :: k in kept ==> kept[k] == lanes[k]
    ensures After(lanes, Drops(lanes.Keys - kept.Keys)) == kept
  {
  }

  /** The life of one stream: what was submitted for it and all blocks, since it was last dropped. */
  ghost function EventsOf(key: Key, es: seq<MixerEvent>): seq<Event>
    decreases |es|
  {
    if es == [] then []
    else
      var before := EventsOf(key, es[..|es| - 1]);
      match es[|es| - 1]
      case Submits(f) => if f.key == key then before + EventOf(f) else before
      case Mixes(block) => before + [Block(block)]
      case Drops(gone) => if key in gone then [] else before
  }

  function EventOf(f: AudioFrame): seq<Event> {
    match f.duck
    case Some(duration) => [Ramp(f.volume, duration)]
    case None => if f.pcm != [] then [Submit(f.pcm)] else []
  }

  lemma SubmittedValid(l: Lane, f: AudioFrame)
    requires ValidLane(l) && GainOk(l)
    ensures ValidLane(Submitted(l, f)) && GainOk(Submitted(l, f))
  {
    if f.duck.Some? {
      DuckKeepsGainOk(l, f.volume, f.duck.value);
    }
  }

  lemma MixedValid(l: Lane, n: nat)
    requires ValidLane(l) && GainOk(l)
    ensures ValidLane(MixLane(l, n).lane) && GainOk(MixLane(l, n).lane)
  {
    hide Play, Consumed;
    PlayTowardTarget(l, n);
  }

  lemma AllMixedValid(lanes: map<Key, Lane>, n: nat)
    requires ValidLanes(lanes)
    ensures forall k :: k in lanes ==> ValidLane(MixLane(lanes[k], n).lane) && GainOk(MixLane(lanes[k], n).lane)
  {
    hide MixLane;
    forall k | k in lanes ensures ValidLane(MixLane(lanes[k], n).lane) && GainOk(MixLane(lanes[k], n).lane) {
      MixedValid(lanes[k], n);
    }
  }

  // ----- what a frame does --------------------------------------------------------------------

  /** A second of backlog at most: the newest samples stay, and the head goes back by the frames
      dropped, or to the oldest one left. */
  ghost predicate TakesPcm(was: Lane, pcm: seq<Sample>, now: Lane) {
    var all, cap := was.ring + pcm, was.rate * was.channels;
    if |all| <= cap then now == was.(ring := all)
    else
      0 < was.channels <= 2 && cap >= 0 &&
      var dropped := ((|all| - cap) / was.channels) as real;
      now == was.(ring := all[|all| - cap..], pos := now.pos)
      && (was.pos > dropped ==> now.pos == was.pos - dropped) && (was.pos <= dropped ==> now.pos == 0.0)
  }

  /** A duck command aims the gain at the volume, to get there in the given time; nothing else of the
      lane changes. */
  ghost predicate TakesDuck(was: Lane, volume: real, duration: real, now: Lane) {
    var secs := if duration > 0.0 then duration else 0.02;
    && now == was.(target := now.target, step := now.step)
    && 0.0 <= now.target <= 1.0 && (0.0 <= volume <= 1.0 ==> now.target == volume)
    && (volume < 0.0 ==> now.target == 0.0) && (volume > 1.0 ==> now.target == 1.0)
    && (secs * was.rate as real >= 1.0 ==> now.step * (secs * was.rate as real) == now.target - was.gain)
    && (secs * was.rate as real < 1.0 ==> now.step == now.target - was.gain)
  }

  ghost predicate Takes(was: Lane, f: AudioFrame, now: Lane) {
    match f.duck
    case Some(duration) => TakesDuck(was, f.volume, duration, now)
    case None => if f.pcm == [] then now == was else TakesPcm(was, f.pcm, now)
  }

  lemma AppendTakes(l: Lane, pcm: seq<Sample>)
    requires ValidLane(l)
    ensures TakesPcm(l, pcm, Append(l, pcm))
  {
    CapIs(l);
    FramesAre(Overflow(l, pcm), l.channels);
    hide Cap, FramesIn;
  }

  lemma CapIs(l: Lane)
    requires ValidLane(l)
    ensures Cap(l) == l.rate * l.channels
  {
  }

  lemma FramesAre(n: nat, channels: nat)
    requires 1 <= channels <= 2
    ensures FramesIn(n, channels) == n / channels
  {
  }

  lemma DuckTakes(l: Lane, volume: real, duration: real)
    requires ValidLane(l)
    ensures TakesDuck(l, volume, duration, Duck(l, volume, duration))
  {
    var secs := if duration > 0.0 then duration else 0.02;
    StepTimesSteps(Unit(volume) - l.gain, RampSteps(duration, l.rate));
  }

  lemma SubmittedTakes(l: Lane, f: AudioFrame)
    requires ValidLane(l)
    ensures Takes(l, f, Submitted(l, f))
  {
    hide Append, Duck, TakesPcm, TakesDuck;
    match f.duck
    case Some(duration) => DuckTakes(l, f.volume, duration);
    case None => AppendTakes(l, f.pcm);
  }

  // ----- every stream by itself ---------------------------------------------------------------

  /** A lane nobody has submitted to does not notice the blocks. */
  lemma FreshLaneWaits(decodeType: nat, n: nat)
    ensures MixLane(FreshLane(decodeType), n).lane == FreshLane(decodeType)
  {
    FreshLaneIsDry(decodeType, n);
    hide Play, Format;
    var l := FreshLane(decodeType);
    assert l.ring[0..] == l.ring;
  }

  lemma FreshLaneIsDry(decodeType: nat, n: nat)
    ensures Play(FreshLane(decodeType), n) == Mixed(FreshLane(decodeType), [])
  {
    hide Format, Contribution, Next;
  }

  lemma AfterAt(lanes: map<Key, Lane>, e: MixerEvent, key: Key)
    requires ValidLanes(lanes)
    ensures ValidLane(LaneOr(lanes, key))
    ensures LaneOr(After(lanes, e), key) ==
      match e
      case Submits(f) => if f.key == key then Submitted(LaneOr(lanes, key), f) else LaneOr(lanes, key)
      case Mixes(block) => MixLane(LaneOr(lanes, key), block).lane
      case Drops(gone) => if key in gone then FreshLane(key.0) else LaneOr(lanes, key)
  {
    hide MixLane, Submitted;
    if e.Mixes? {
      FreshLaneWaits(key.0, e.block);
    }
  }

  /** One event of a stream, on its lane alone. */
  ghost function LaneStep(l: Lane, e: Event): (m: Lane)
    requires ValidLane(l)
    ensures ValidLane(m)
  {
    match e
    case Submit(pcm) => Append(l, pcm)
    case Ramp(volume, duration) => Duck(l, volume, duration)
    case Block(n) => MixLane(l, n).lane
  }

  ghost function LaneAfter(l: Lane, es: seq<Event>): (m: Lane)
    requires ValidLane(l)
    ensures ValidLane(m)
    decreases |es|
  {
    if es == [] then l else LaneStep(LaneAfter(l, es[..|es| - 1]), es[|es| - 1])
  }

  lemma OneStepAfter(l: Lane, es: seq<Event>, e: Event)
    requires ValidLane(l)
    ensures LaneAfter(l, es + [e]) == LaneStep(LaneAfter(l, es), e)
  {
    assert (es + [e])[..|es|] == es;
  }

  /** For every sequence of frames submitted for any streams, blocks and drops: the lane of a stream
      is what its own frames since it was last dropped, and all blocks, make of a new lane. */
  lemma {:induction false} StreamsAreApart(key: Key, es: seq<MixerEvent>)
    ensures ValidLane(FreshLane(key.0))
    ensures LaneOr(LanesAfter(es), key) == LaneAfter(FreshLane(key.0), EventsOf(key, es))
    decreases |es|
  {
    hide LaneStep, MixLane, After, Format, LaneAfter, LaneOr;
    if es == [] {
      NothingYet(key);
    } else {
      var n := |es| - 1;
      var l, before := FreshLane(key.0), EventsOf(key, es[..n]);
      StreamsAreApart(key, es[..n]);
      AfterAt(LanesAfter(es[..n]), es[n], key);
      match es[n]
      case Submits(f) =>
        if f.key == key {
          FrameSteps(l, before, f);
        }
      case Mixes(block) =>
        OneStepAfter(l, before, Block(block));
        BlockIsMix(LaneAfter(l, before), block);
      case Drops(gone) =>
        if key in gone {
          NothingYet(key);
        }
    }
  }

  lemma NothingYet(key: Key)
    ensures ValidLane(FreshLane(key.0)) && LaneOr(map[], key) == FreshLane(key.0)
    ensures LaneAfter(FreshLane(key.0), []) == FreshLane(key.0)
  {
  }

  lemma BlockIsMix(l: Lane, n: nat)
    requires ValidLane(l)
    ensures LaneStep(l, Block(n)) == MixLane(l, n).lane
  {
  }

  lemma FrameSteps(l: Lane, before: seq<Event>, f: AudioFrame)
    requires ValidLane(l)
    ensures LaneAfter(l, before + EventOf(f)) == Submitted(LaneAfter(l, before), f)
  {
    hide Append, Duck, LaneAfter;
    if EventOf(f) != [] {
      OneStepAfter(l, before, EventOf(f)[0]);
    } else {
      assert before + [] == before;
    }
  }

  lemma {:induction false} RunAppend(s: Life, a: seq<Event>, b: seq<Event>)
    requires Related(s) && FrameAligned(s.lane.channels, a + b)
    ensures FrameAligned(s.lane.channels, a) && Run(s, a).lane.channels == s.lane.channels
    ensures FrameAligned(s.lane.channels, b) && Run(s, a + b) == Run(Run(s, a), b)
    decreases |a|
  {
    hide Related, Step;
    assert forall i :: 0 <= i < |a| ==> a[i] == (a + b)[i];
    assert forall i :: 0 <= i < |b| ==> b[i] == (a + b)[|a| + i];
    if a == [] {
      assert a + b == b;
    } else {
      SameOut(s);
      RelatedStep(s, a[0]);
      assert (a + b)[1..] == a[1..] + b && (a + b)[0] == a[0];
      RunAppend(Step(s, a[0]), a[1..], b);
    }
  }

  lemma OneMoreEvent(s: Life, e: Event)
    requires Related(s) && FrameAligned(s.lane.channels, [e])
    ensures ValidLane(s.lane) && ValidLane(s.ideal) && Run(s, [e]) == Step(s, e)
  {
    hide Step;
    assert [e][0] == e;
    RelatedStep(s, e);
  }

  lemma BlockStep(s: Life, n: nat)
    requires Related(s) && FrameAligned(s.lane.channels, [Block(n)])
    ensures ValidLane(s.lane) && Run(s, [Block(n)]).lane == MixLane(s.lane, n).lane
    ensures Run(s, [Block(n)]).out == s.out + Play(s.lane, n).out
  {
    OneMoreEvent(s, Block(n));
    hide Related, Play, Erase;
  }

  /** A life's lane is what its events make of the lane. */
  lemma {:induction false} LifeOfLane(s: Life, es: seq<Event>)
    requires Related(s) && FrameAligned(s.lane.channels, es)
    ensures ValidLane(s.lane) && Run(s, es).lane == LaneAfter(s.lane, es)
    decreases |es|
  {
    SameOut(s);
    hide Related, Step, LaneStep;
    if es != [] {
      var n := |es| - 1;
      assert es == es[..n] + [es[n]];
      RunAppend(s, es[..n], [es[n]]);
      LifeOfLane(s, es[..n]);
      OneMoreEvent(Run(s, es[..n]), es[n]);
      StepOfLane(Run(s, es[..n]), es[n]);
    }
  }

  lemma StepOfLane(s: Life, e: Event)
    requires ValidLane(s.lane) && ValidLane(s.ideal)
    ensures Step(s, e).lane == LaneStep(s.lane, e)
  {
    hide Append, Duck, Play, Erase;
  }

  /** So the theorems about lives are about every stream of the mixer. */
  lemma LaneIsItsLife(key: Key, es: seq<MixerEvent>)
    requires FrameAligned(Format(key.0).1, EventsOf(key, es))
    ensures Related(Born(key.0)) && Run(Born(key.0), EventsOf(key, es)).lane == LaneOr(LanesAfter(es), key)
  {
    hide Related, Step, LaneOr, FrameAligned, Format, LaneStep;
    BornRelated(key.0);
    StreamsAreApart(key, es);
    LifeOfLane(Born(key.0), EventsOf(key, es));
  }

  /** And a block adds to the mix what the stream's life puts out next. */
  lemma LifePutsOutShares(key: Key, es: seq<MixerEvent>, block: nat)
    requires FrameAligned(Format(key.0).1, EventsOf(key, es + [Mixes(block)]))
    ensures EventsOf(key, es + [Mixes(block)]) == EventsOf(key, es) + [Block(block)]
    ensures FrameAligned(Format(key.0).1, EventsOf(key, es)) && Related(Born(key.0))
    ensures ValidLane(LaneOr(LanesAfter(es), key))
    ensures Run(Born(key.0), EventsOf(key, es + [Mixes(block)])).out ==
            Run(Born(key.0), EventsOf(key, es)).out + Play(LaneOr(LanesAfter(es), key), block).out
  {
    hide Related, Step, FrameAligned, Format, Play, LaneOr;
    var all, before := es + [Mixes(block)], EventsOf(key, es);
    assert all[..|all| - 1] == es;
    BornRelated(key.0);
    RunAppend(Born(key.0), before, [Block(block)]);
    LaneIsItsLife(key, es);
    BlockStep(Run(Born(key.0), before), block);
  }

  // ----- what always holds --------------------------------------------------------------------

  /** At any time and for any input: a stream's lane has the rate and channels its decode type stands
      for, and no more than a second of backlog. */
  lemma {:induction false} StreamFormat(key: Key, es: seq<MixerEvent>)
    ensures var l := LaneOr(LanesAfter(es), key);
      && l.rate == (match key.0 case 3 => 8000 case 4 => 48000 case 5 => 16000 case 6 => 24000 case 7 => 16000
                    case _ => 44100)
      && l.channels == (match key.0 case 3 => 1 case 5 => 1 case 6 => 1 case _ => 2)
      && |l.ring| <= l.rate * l.channels
    decreases |es|
  {
    hide After, Format;
    if es == [] {
      FreshFormat(key.0);
    } else {
      var n := |es| - 1;
      StreamFormat(key, es[..n]);
      AfterAt(LanesAfter(es[..n]), es[n], key);
      var l := LaneOr(LanesAfter(es[..n]), key);
      hide MixLane, Submitted;
      match es[n]
      case Submits(f) =>
        SubmittedFits(l, f);
      case Mixes(block) =>
        MixedFits(l, block);
      case Drops(gone) =>
        FreshFormat(key.0);
    }
  }

  lemma FreshFormat(decodeType: nat)
    ensures var l := FreshLane(decodeType);
      && l.rate == (match decodeType case 3 => 8000 case 4 => 48000 case 5 => 16000 case 6 => 24000 case 7 => 16000
                    case _ => 44100)
      && l.channels == (match decodeType case 3 => 1 case 5 => 1 case 6 => 1 case _ => 2)
      && |l.ring| <= l.rate * l.channels
  {
  }

  lemma SubmittedFits(l: Lane, f: AudioFrame)
    requires ValidLane(l) && |l.ring| <= l.rate * l.channels
    ensures var m := Submitted(l, f);
      m.rate == l.rate && m.channels == l.channels && |m.ring| <= m.rate * m.channels
  {
    SubmittedTakes(l, f);
    hide Submitted;
  }

  lemma MixedFits(l: Lane, n: nat)
    requires ValidLane(l)
    ensures var m := MixLane(l, n).lane; m.rate == l.rate && m.channels == l.channels && |m.ring| <= |l.ring|
  {
    hide Play, Consumed;
  }
}
