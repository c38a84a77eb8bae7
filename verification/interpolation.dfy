/** What a lane has put out, frame by frame (src/audio_alsa.cpp). A note taken while a frame is
    mixed says how much had been received, where the head was in the received signal, and what
    the gain was; the output is the linear interpolation the notes describe. */
module Interpolation {
  import opened Mixer
  import opened Gain
  import opened LaneLife
  import opened Signal

  datatype Note = Note(heard: nat, head: real, gain: real)

  /** A life with a note for every output frame. */
  datatype Score = Score(life: Life, notes: seq<Note>)

  /** Taken while a block is played from `l`. */
  function NotesOf(l: Lane, n: nat): seq<Note>
    requires ValidLane(l)
    decreases n
  {
    if n == 0 || Dry(l) then []
    else [Note(|l.ring|, l.pos, Ramped(l).gain)] + NotesOf(Next(l), n - 1)
  }

  ghost function StepScore(s: Score, e: Event): Score
    requires ValidLane(s.life.lane) && ValidLane(s.life.ideal)
  {
    Score(Step(s.life, e), s.notes + if e.Block? then NotesOf(s.life.ideal, e.n) else [])
  }

  ghost function Perform(s: Score, es: seq<Event>): (t: Score)
    requires Related(s.life) && FrameAligned(s.life.lane.channels, es)
    ensures t.life == Run(s.life, es) && Related(t.life)
    decreases |es|
  {
    if es == [] then s
    else
      RelatedStep(s.life, es[0]);
      Perform(StepScore(s, es[0]), es[1..])
  }

  /** Everything submitted. */
  function Received(es: seq<Event>): seq<Sample>
    decreases |es|
  {
    if es == [] then [] else (if es[0].Submit? then es[0].pcm else []) + Received(es[1..])
  }

  // ----- what a note promises --------------------------------------------------------------

  /** The received signal, its first `n` samples, read as the note says. */
  function Reading(ideal: Lane, n: nat, note: Note): Lane
    requires n <= |ideal.ring|
  {
    ideal.(ring := ideal.ring[..n], pos := note.head, gain := note.gain)
  }

  ghost predicate Reads(ideal: Lane, n: nat, note: Note, out: Frame) {
    && n <= |ideal.ring| && ValidLane(Reading(ideal, n, note)) && !Dry(Reading(ideal, n, note))
    && out == Contribution(Reading(ideal, n, note))
  }

  /** The frame lies on the signal received by the time of the note; and on the whole signal if the
      source frame after the one under the head had arrived. */
  ghost predicate Interpolates(signal: seq<Sample>, channels: nat, note: Note, out: Frame) {
    var arrived := if channels == 1 then note.heard else note.heard / 2;
    && note.heard <= |signal| && OnLine(signal[..note.heard], channels, note.head, note.gain, out)
    && (note.head.Floor + 1 < arrived ==> OnLine(signal, channels, note.head, note.gain, out))
  }

  /** From one frame to the next the head moves by one step of the rate at least. */
  ghost predicate Advances(a: Note, b: Note, rate: nat) {
    a.heard <= b.heard && (b.head - a.head) * 44100.0 >= rate as real
  }

  ghost predicate InOrder(a: Note, b: Note, rate: nat) {
    a.heard <= b.heard && a.head + Ratio(rate) <= b.head
  }

  ghost predicate AllRead(ideal: Lane, notes: seq<Note>, out: seq<Frame>) {
    && |notes| == |out|
    && (forall k :: 0 <= k < |notes| ==> Reads(ideal, notes[k].heard, notes[k], out[k]))
  }

  /** Each note in order with the next, and the last with where the lane is now. */
  ghost predicate AllInOrder(notes: seq<Note>, rate: nat) {
    forall j, k :: 0 <= j && k == j + 1 && k < |notes| ==> InOrder(notes[j], notes[k], rate)
  }

  ghost predicate UpToNow(ideal: Lane, notes: seq<Note>) {
    notes != [] ==> InOrder(notes[|notes| - 1], Note(|ideal.ring|, ideal.pos, 0.0), ideal.rate)
  }

  ghost predicate WellNoted(s: Score) {
    && Related(s.life) && AllRead(s.life.ideal, s.notes, s.life.out)
    && AllInOrder(s.notes, s.life.ideal.rate) && UpToNow(s.life.ideal, s.notes)
  }

  // ----- a block ------------------------------------------------------------------------------

  /** Note `j` of a block, in closed form. */
  lemma {:induction false} NotesAt(l: Lane, n: nat, j: nat)
    requires ValidLane(l) && j < |NotesOf(l, n)|
    ensures NotesOf(l, n)[j] ==
            Note(|l.ring|, l.pos + Span(j, l.rate), AdvanceTimes(l.gain, l.target, l.step, j + 1))
    decreases n
  {
    hide Ratio, Span, Dry, Advance;
    SpanAdds(0, 0, l.rate);
    if j == 0 {
      assert AdvanceTimes(l.gain, l.target, l.step, 1) == Advance(l.gain, l.target, l.step);
    } else {
      NotesAt(Next(l), n - 1, j - 1);
      SpanAdds(1, j - 1, l.rate);
    }
  }

  lemma {:induction false} OneNotePerFrame(l: Lane, n: nat)
    requires ValidLane(l)
    ensures |NotesOf(l, n)| == |Play(l, n).out|
    decreases n
  {
    hide Contribution, Dry, Ratio, Advance;
    if n > 0 && !Dry(l) {
      OneNotePerFrame(Next(l), n - 1);
    }
  }

  /** Frame `j` of a block is what its note says. */
  lemma BlockReads(l: Lane, n: nat, j: nat)
    requires ValidLane(l) && j < |NotesOf(l, n)| && |NotesOf(l, n)| == |Play(l, n).out|
    ensures Reads(l, |l.ring|, NotesOf(l, n)[j], Play(l, n).out[j])
  {
    hide Contribution, Dry, Span, Play, NotesOf, AdvanceTimes;
    NotesAt(l, n, j);
    PlayContributes(l, n, j);
    assert l.ring[..|l.ring|] == l.ring;
  }

  lemma BlockInOrder(l: Lane, n: nat, j: nat)
    requires ValidLane(l) && j + 1 < |NotesOf(l, n)|
    ensures InOrder(NotesOf(l, n)[j], NotesOf(l, n)[j + 1], l.rate)
  {
    hide Span, NotesOf, AdvanceTimes, Ratio;
    NotesAt(l, n, j);
    NotesAt(l, n, j + 1);
    SpanAdds(j, 1, l.rate);
  }

  lemma BlockEnds(l: Lane, n: nat)
    requires ValidLane(l) && NotesOf(l, n) != []
    ensures var notes, after := NotesOf(l, n), Play(l, n).lane;
            && notes[0].head == l.pos && notes[0].heard == |l.ring|
            && InOrder(notes[|notes| - 1], Note(|l.ring|, after.pos, 0.0), l.rate)
  {
    hide Span, NotesOf, AdvanceTimes, Ratio, Play;
    var k := |NotesOf(l, n)|;
    NotesAt(l, n, 0);
    NotesAt(l, n, k - 1);
    OneNotePerFrame(l, n);
    PlayMoves(l, n);
    SpanAdds(k - 1, 1, l.rate);
  }

  // ----- every step -------------------------------------------------------------------------------

  /** Later samples do not change what a note reads. */
  lemma StillReads(a: Lane, b: Lane, n: nat, note: Note, out: Frame, more: seq<Sample>)
    requires Reads(a, n, note, out)
    requires b == a.(ring := a.ring + more, pos := b.pos, gain := b.gain, target := b.target, step := b.step)
    ensures Reads(b, n, note, out)
  {
    hide Contribution, Dry;
    var x, y := Reading(a, n, note), Reading(b, n, note);
    assert b.ring[..n] == a.ring[..n];
    assert y == x.(target := y.target, step := y.step);
    SameContribution(x, y);
  }

  lemma SameContribution(x: Lane, y: Lane)
    requires ValidLane(x) && y == x.(target := y.target, step := y.step)
    ensures ValidLane(y) && Dry(x) == Dry(y) && (!Dry(x) ==> Contribution(x) == Contribution(y))
  {
    hide Interpolated;
  }

  /** A block's own effect on the ideal lane and on the output. */
  lemma BlockPlaysIdeal(s: Life, n: nat)
    requires Related(s)
    ensures ValidLane(s.ideal) && ValidLane(s.lane)
    ensures Step(s, Block(n)).ideal == Play(s.ideal, n).lane
    ensures Step(s, Block(n)).out == s.out + Play(s.ideal, n).out
  {
    hide Play, Consumed, Shift;
    PlayShifted(s.ideal, s.erased, n);
  }

  /** The notes of a block follow those before it. */
  lemma NotesInOrder(l: Lane, notes: seq<Note>, n: nat)
    requires ValidLane(l) && AllInOrder(notes, l.rate) && UpToNow(l, notes)
    ensures AllInOrder(notes + NotesOf(l, n), l.rate) && UpToNow(Play(l, n).lane, notes + NotesOf(l, n))
  {
    hide Play, NotesOf, Ratio;
    var more := NotesOf(l, n);
    if more == [] {
      assert notes + more == notes;
    } else {
      BlockEnds(l, n);
      forall j, k | 0 <= j && k == j + 1 && k < |notes + more|
        ensures InOrder((notes + more)[j], (notes + more)[k], l.rate)
      {
        if j >= |notes| {
          BlockInOrder(l, n, j - |notes|);
        }
      }
    }
  }

  /** And they read what the block puts out. */
  lemma NotesAreRead(l: Lane, notes: seq<Note>, out: seq<Frame>, n: nat)
    requires ValidLane(l) && AllRead(l, notes, out)
    ensures AllRead(Play(l, n).lane, notes + NotesOf(l, n), out + Play(l, n).out)
  {
    OneNotePerFrame(l, n);
    hide Reads, Play, NotesOf;
    var after, all, frames := Play(l, n).lane, notes + NotesOf(l, n), out + Play(l, n).out;
    forall k | 0 <= k < |all| ensures Reads(after, all[k].heard, all[k], frames[k]) {
      if k >= |notes| {
        BlockReads(l, n, k - |notes|);
        NotesAt(l, n, k - |notes|);
      }
      StillReads(l, after, all[k].heard, all[k], frames[k], []);
    }
  }

  lemma WellNotedBlock(s: Score, n: nat)
    requires WellNoted(s) && ValidLane(s.life.ideal) && ValidLane(s.life.lane)
    ensures WellNoted(StepScore(s, Block(n))) && StepScore(s, Block(n)).life.ideal.ring == s.life.ideal.ring
  {
    hide Related, AllRead, AllInOrder, UpToNow, Step, Play, NotesOf;
    BlockPlaysIdeal(s.life, n);
    RelatedStep(s.life, Block(n));
    NotesInOrder(s.life.ideal, s.notes, n);
    NotesAreRead(s.life.ideal, s.notes, s.life.out, n);
  }

  /** What an event other than a block does to the ideal lane. */
  lemma IdealGrows(s: Life, e: Event) returns (more: seq<Sample>)
    requires Related(s) && !e.Block? && (e.Submit? ==> Aligned(|e.pcm|, s.lane.channels))
    ensures ValidLane(s.ideal) && ValidLane(s.lane)
    ensures var a, b := s.ideal, Step(s, e).ideal;
            && b == a.(ring := a.ring + more, pos := b.pos, gain := b.gain, target := b.target, step := b.step)
            && b.pos >= a.pos && Step(s, e).out == s.out
    ensures more == if e.Submit? then e.pcm else []
  {
    hide Append, Overflow;
    more := if e.Submit? then e.pcm else [];
    assert s.ideal.ring + [] == s.ideal.ring;
  }

  lemma NotesStay(a: Lane, b: Lane, notes: seq<Note>, out: seq<Frame>, more: seq<Sample>)
    requires b == a.(ring := a.ring + more, pos := b.pos, gain := b.gain, target := b.target, step := b.step)
    requires b.pos >= a.pos && AllRead(a, notes, out) && UpToNow(a, notes)
    ensures AllRead(b, notes, out) && UpToNow(b, notes)
  {
    hide Reads, Ratio;
    forall k | 0 <= k < |notes| ensures Reads(b, notes[k].heard, notes[k], out[k]) {
      StillReads(a, b, notes[k].heard, notes[k], out[k], more);
    }
  }

  lemma WellNotedOther(s: Score, e: Event)
    requires WellNoted(s) && !e.Block? && (e.Submit? ==> Aligned(|e.pcm|, s.life.lane.channels))
    requires ValidLane(s.life.ideal) && ValidLane(s.life.lane)
    ensures WellNoted(StepScore(s, e))
    ensures StepScore(s, e).life.ideal.ring == s.life.ideal.ring + if e.Submit? then e.pcm else []
  {
    hide Related, AllRead, AllInOrder, UpToNow, Step;
    var more := IdealGrows(s.life, e);
    RelatedStep(s.life, e);
    NotesStay(s.life.ideal, Step(s.life, e).ideal, s.notes, s.life.out, more);
    assert s.notes + [] == s.notes;
  }

  lemma NotedIsRelated(s: Score)
    requires WellNoted(s)
    ensures Related(s.life) && ValidLane(s.life.lane) && ValidLane(s.life.ideal)
  {
  }

  lemma {:induction false} WellNotedRun(s: Score, es: seq<Event>)
    requires WellNoted(s) && Related(s.life) && FrameAligned(s.life.lane.channels, es)
    ensures WellNoted(Perform(s, es))
    ensures Perform(s, es).life.ideal.ring == s.life.ideal.ring + Received(es)
    decreases |es|
  {
    hide WellNoted, Related, Step, Aligned, ValidLane;
    if es == [] {
      assert s.life.ideal.ring + [] == s.life.ideal.ring;
    } else {
      NotedIsRelated(s);
      RelatedStep(s.life, es[0]);
      var t, heard := StepScore(s, es[0]), if es[0].Submit? then es[0].pcm else [];
      if es[0].Block? {
        WellNotedBlock(s, es[0].n);
        assert s.life.ideal.ring + [] == s.life.ideal.ring;
      } else {
        assert es[0].Submit? ==> Aligned(|es[0].pcm|, s.life.lane.channels);
        WellNotedOther(s, es[0]);
      }
      WellNotedRun(t, es[1..]);
      assert s.life.ideal.ring + heard + Received(es[1..]) == s.life.ideal.ring + (heard + Received(es[1..]));
    }
  }

  /** What is read of the signal lies on it. */
  lemma ReadsOnLine(ideal: Lane, n: nat, note: Note, out: Frame)
    requires Reads(ideal, n, note, out)
    ensures OnLine(ideal.ring[..n], ideal.channels, note.head, note.gain, out)
  {
    hide OnLine, Contribution, Dry;
    ContributionIsOnLine(Reading(ideal, n, note));
  }

  lemma ReadsInFull(ideal: Lane, note: Note, out: Frame)
    requires Reads(ideal, note.heard, note, out)
    requires note.head.Floor + 1 < if ideal.channels == 1 then note.heard else note.heard / 2
    ensures Reads(ideal, |ideal.ring|, note, out)
  {
    hide Contribution;
    var all, n := ideal.ring, note.heard;
    assert all[..n] + all[n..] == all[..|all|] == all;
    ArrivedIsFinal(Reading(ideal, n, note), all[n..]);
    hide FramesIn;
    assert Reading(ideal, |all|, note) == Reading(ideal, n, note).(ring := all);
  }

  lemma ReadsInterpolates(ideal: Lane, note: Note, out: Frame)
    requires Reads(ideal, note.heard, note, out)
    ensures Interpolates(ideal.ring, ideal.channels, note, out)
  {
    ReadsOnLine(ideal, note.heard, note, out);
    hide OnLine;
    if note.head.Floor + 1 < if ideal.channels == 1 then note.heard else note.heard / 2 {
      ReadsInFull(ideal, note, out);
      hide Reads;
      ReadsOnLine(ideal, |ideal.ring|, note, out);
      assert ideal.ring[..|ideal.ring|] == ideal.ring;
    }
    assert note.heard <= |ideal.ring|;
  }

  lemma InOrderAdvances(a: Note, b: Note, rate: nat)
    requires InOrder(a, b, rate)
    ensures Advances(a, b, rate)
  {
    RatioIs(rate);
  }

  // ----- the theorem --------------------------------------------------------------------------------

  ghost function BornScore(decodeType: nat): Score {
    Score(Born(decodeType), [])
  }

  lemma BornWellNoted(decodeType: nat)
    ensures WellNoted(BornScore(decodeType))
  {
    BornRelated(decodeType);
  }

  /** The stream's rate and channels never change. */
  lemma {:induction false} FormatStays(s: Score, es: seq<Event>)
    requires Related(s.life) && FrameAligned(s.life.lane.channels, es)
    ensures var t := Perform(s, es).life;
      && t.lane.rate == t.ideal.rate == s.life.lane.rate
      && t.lane.channels == t.ideal.channels == s.life.lane.channels
    decreases |es|
  {
    hide Step;
    if es != [] {
      AlignedTail(s.life, es);
      RelatedStep(s.life, es[0]);
      FormatStays(StepScore(s, es[0]), es[1..]);
    }
  }

  /** Over any life of frame-aligned input, ramps and cap hits included: every output frame lies on
      the straight line between the two source frames around the head of the moment it was mixed, in
      the signal received by that moment; and in the whole received signal wherever the next source
      frame had arrived by then. The head moves on by the stream's rate from frame to frame, or
      further. */
  lemma OutputInterpolatesSignal(decodeType: nat, es: seq<Event>)
    requires FrameAligned(Format(decodeType).1, es)
    ensures Related(Born(decodeType))
    ensures var s := Perform(BornScore(decodeType), es);
      && s.life == Run(Born(decodeType), es) && |s.notes| == |s.life.out|
      && (forall k :: 0 <= k < |s.notes| ==>
            Interpolates(Received(es), Format(decodeType).1, s.notes[k], s.life.out[k]))
      && (forall j, k :: 0 <= j && k == j + 1 && k < |s.notes| ==>
            Advances(s.notes[j], s.notes[k], Format(decodeType).0))
  {
    hide Perform, Received, Related, Interpolates, UpToNow, Reads, Advances, InOrder;
    BornRelated(decodeType);
    BornWellNoted(decodeType);
    WellNotedRun(BornScore(decodeType), es);
    FormatStays(BornScore(decodeType), es);
    hide Format;
    assert [] + Received(es) == Received(es);
    var s := Perform(BornScore(decodeType), es);
    forall k | 0 <= k < |s.notes|
      ensures Interpolates(Received(es), Format(decodeType).1, s.notes[k], s.life.out[k])
    {
      ReadsInterpolates(s.life.ideal, s.notes[k], s.life.out[k]);
    }
    forall j, k | 0 <= j && k == j + 1 && k < |s.notes|
      ensures Advances(s.notes[j], s.notes[k], Format(decodeType).0)
    {
      InOrderAdvances(s.notes[j], s.notes[k], Format(decodeType).0);
    }
  }

  // ----- what the notes are ------------------------------------------------------------------------

  lemma AlignedParts(channels: nat, a: seq<Event>, b: seq<Event>)
    requires FrameAligned(channels, a + b)
    ensures FrameAligned(channels, a) && FrameAligned(channels, b)
  {
    assert forall i :: 0 <= i < |a| ==> a[i] == (a + b)[i];
    assert forall i :: 0 <= i < |b| ==> b[i] == (a + b)[|a| + i];
  }

  lemma {:induction false} PerformAppend(s: Score, a: seq<Event>, b: seq<Event>)
    requires Related(s.life) && FrameAligned(s.life.lane.channels, a + b)
    ensures FrameAligned(s.life.lane.channels, a) && FrameAligned(s.life.lane.channels, b)
    ensures Perform(s, a).life.lane.channels == s.life.lane.channels
    ensures Perform(s, a + b) == Perform(Perform(s, a), b)
    decreases |a|
  {
    AlignedParts(s.life.lane.channels, a, b);
    hide Related, Step, FrameAligned;
    if a == [] {
      assert a + b == b;
    } else {
      AlignedTail(s.life, a);
      assert (a + b)[1..] == a[1..] + b && (a + b)[0] == a[0];
      AlignedTail(s.life, a + b);
      PerformAppend(StepScore(s, a[0]), a[1..], b);
    }
  }

  lemma AlignedTail(s: Life, es: seq<Event>)
    requires Related(s) && es != [] && FrameAligned(s.lane.channels, es)
    ensures ValidLane(s.lane) && ValidLane(s.ideal)
    ensures Related(Step(s, es[0])) && Step(s, es[0]).lane.channels == s.lane.channels
    ensures FrameAligned(s.lane.channels, es[1..])
  {
    RelatedStep(s, es[0]);
  }

  lemma NotesPersist(s: Score, es: seq<Event>)
    requires Related(s.life) && FrameAligned(s.life.lane.channels, es)
    ensures s.notes <= Perform(s, es).notes
    decreases |es|
  {
    hide Related, Step, FrameAligned;
    if es != [] {
      AlignedTail(s.life, es);
      NotesPersist(StepScore(s, es[0]), es[1..]);
    }
  }

  /** The notes of a block say that everything submitted before the block had been heard, and
      nothing else. */
  lemma HeardWhenMixed(decodeType: nat, before: seq<Event>, n: nat, after: seq<Event>)
    requires FrameAligned(Format(decodeType).1, before + ([Block(n)] + after))
    ensures Related(Born(decodeType)) && FrameAligned(Format(decodeType).1, before)
    ensures var s := Perform(BornScore(decodeType), before);
      var t := Perform(BornScore(decodeType), before + ([Block(n)] + after));
      && |s.notes| + |Play(s.life.ideal, n).out| <= |t.notes|
      && (forall k :: |s.notes| <= k < |s.notes| + |Play(s.life.ideal, n).out| ==>
            t.notes[k].heard == |Received(before)|)
  {
    hide Related, FrameAligned, Play, WellNoted, Perform, Received, Format;
    BornRelated(decodeType);
    BornWellNoted(decodeType);
    var b := BornScore(decodeType);
    PerformAppend(b, before, [Block(n)] + after);
    WellNotedRun(b, before);
    assert [] + Received(before) == Received(before);
    var s := Perform(b, before);
    AlignedTail(s.life, [Block(n)] + after);
    OneBlockHeard(s, n, after);
  }

  lemma OneBlockHeard(s: Score, n: nat, after: seq<Event>)
    requires Related(s.life) && FrameAligned(s.life.lane.channels, [Block(n)] + after) && ValidLane(s.life.ideal)
    ensures var t := Perform(s, [Block(n)] + after);
      && |s.notes| + |Play(s.life.ideal, n).out| <= |t.notes|
      && (forall k :: |s.notes| <= k < |s.notes| + |Play(s.life.ideal, n).out| ==>
            t.notes[k].heard == |s.life.ideal.ring|)
  {
    hide Related, Step, FrameAligned, Play, NotesOf;
    var all := [Block(n)] + after;
    AlignedTail(s.life, all);
    assert all[1..] == after;
    var u := StepScore(s, Block(n));
    NotesPersist(u, after);
    OneNotePerFrame(s.life.ideal, n);
    forall k | |s.notes| <= k < |u.notes| ensures u.notes[k].heard == |s.life.ideal.ring| {
      NotesAt(s.life.ideal, n, k - |s.notes|);
    }
  }

  /** The head accounts for the output, frame by frame. */
  ghost predicate OnSchedule(s: Score) {
    && Related(s.life) && |s.notes| == |s.life.out|
    && s.life.ideal.pos == Span(|s.life.out|, s.life.ideal.rate)
    && forall k :: 0 <= k < |s.notes| ==> s.notes[k].head == Span(k, s.life.ideal.rate)
  }

  lemma NotesOnSchedule(l: Lane, notes: seq<Note>, n: nat)
    requires ValidLane(l) && l.pos == Span(|notes|, l.rate)
    requires forall k :: 0 <= k < |notes| ==> notes[k].head == Span(k, l.rate)
    ensures var all := notes + NotesOf(l, n);
      && Play(l, n).lane.pos == Span(|all|, l.rate)
      && (forall k :: 0 <= k < |all| ==> all[k].head == Span(k, l.rate))
  {
    hide Play, NotesOf, Span, ValidLane, AdvanceTimes;
    OneNotePerFrame(l, n);
    PlayMoves(l, n);
    SpanAdds(|notes|, |Play(l, n).out|, l.rate);
    var all := notes + NotesOf(l, n);
    forall k | |notes| <= k < |all| ensures all[k].head == Span(k, l.rate) {
      NotesAt(l, n, k - |notes|);
      SpanAdds(|notes|, k - |notes|, l.rate);
    }
  }

  lemma OnScheduleStep(s: Score, e: Event)
    requires OnSchedule(s) && ValidLane(s.life.ideal) && ValidLane(s.life.lane)
    requires e.Submit? ==> Aligned(|e.pcm|, s.life.lane.channels) && Overflow(s.life.lane, e.pcm) == 0
    ensures OnSchedule(StepScore(s, e))
  {
    hide Related, Step, Play, NotesOf, Span, ValidLane, Overflow, Aligned;
    RelatedStep(s.life, e);
    if e.Block? {
      BlockPlaysIdeal(s.life, e.n);
      OneNotePerFrame(s.life.ideal, e.n);
      NotesOnSchedule(s.life.ideal, s.notes, e.n);
    } else {
      UncappedIdeal(s.life, e);
      assert s.notes + [] == s.notes;
    }
  }

  lemma UncappedIdeal(s: Life, e: Event)
    requires Related(s) && !e.Block? && ValidLane(s.ideal) && ValidLane(s.lane)
    requires e.Submit? ==> Overflow(s.lane, e.pcm) == 0
    ensures Step(s, e).ideal.pos == s.ideal.pos && Step(s, e).ideal.rate == s.ideal.rate && Step(s, e).out == s.out
  {
    hide Append, Overflow;
  }

  lemma {:induction false} OnScheduleRun(s: Score, es: seq<Event>)
    requires OnSchedule(s) && Related(s.life)
    requires FrameAligned(s.life.lane.channels, es) && NeverCapped(s.life, es)
    ensures OnSchedule(Perform(s, es))
    decreases |es|
  {
    hide Related, Step, OnSchedule, Overflow;
    if es != [] {
      AlignedTail(s.life, es);
      assert es[0].Submit? ==> Aligned(|es[0].pcm|, s.life.lane.channels);
      OnScheduleStep(s, es[0]);
      OnScheduleRun(StepScore(s, es[0]), es[1..]);
    }
  }

  /** While the cap is not hit, output frame k is read k steps of the stream's rate from the start. */
  lemma UncappedHeads(decodeType: nat, es: seq<Event>)
    requires FrameAligned(Format(decodeType).1, es)
    requires Related(Born(decodeType)) && NeverCapped(Born(decodeType), es)
    ensures var s := Perform(BornScore(decodeType), es);
      forall k :: 0 <= k < |s.notes| ==> s.notes[k].head * 44100.0 == (k * Format(decodeType).0) as real
  {
    hide Related, Span, Perform;
    SpanAdds(0, 0, Format(decodeType).0);
    OnScheduleRun(BornScore(decodeType), es);
    FormatStays(BornScore(decodeType), es);
    hide Format;
    var s := Perform(BornScore(decodeType), es);
    forall k | 0 <= k < |s.notes| ensures s.notes[k].head * 44100.0 == (k * Format(decodeType).0) as real {
      SpanIs(k, Format(decodeType).0);
    }
  }

  /** Full gain, at rest. */
  ghost predicate FullGain(s: Score) {
    && s.life.ideal.gain == 1.0 && s.life.ideal.target == 1.0 && s.life.ideal.step == 0.0
    && forall k :: 0 <= k < |s.notes| ==> s.notes[k].gain == 1.0
  }

  lemma NotesAtFullGain(l: Lane, n: nat)
    requires ValidLane(l) && l.gain == 1.0 && l.target == 1.0 && l.step == 0.0
    ensures Play(l, n).lane.gain == 1.0
    ensures forall k :: 0 <= k < |NotesOf(l, n)| ==> NotesOf(l, n)[k].gain == 1.0
  {
    hide Play, NotesOf, AdvanceTimes, Span, ValidLane;
    PlayGain(l, n);
    RestingGain(if |Play(l, n).out| < n then |Play(l, n).out| + 1 else n);
    forall k | 0 <= k < |NotesOf(l, n)| ensures NotesOf(l, n)[k].gain == 1.0 {
      NotesAt(l, n, k);
      RestingGain(k + 1);
    }
  }

  lemma FullGainStep(s: Score, e: Event)
    requires FullGain(s) && !e.Ramp? && Related(s.life) && ValidLane(s.life.ideal) && ValidLane(s.life.lane)
    ensures FullGain(StepScore(s, e))
  {
    if e.Block? {
      hide Related, Step, Play, NotesOf, ValidLane;
      BlockPlaysIdeal(s.life, e.n);
      NotesAtFullGain(s.life.ideal, e.n);
    }
  }

  lemma {:induction false} RestingGain(k: nat)
    ensures AdvanceTimes(1.0, 1.0, 0.0, k) == 1.0
    decreases k
  {
    if k > 0 {
      RestingGain(k - 1);
    }
  }

  lemma {:induction false} FullGainRun(s: Score, es: seq<Event>)
    requires FullGain(s) && Related(s.life) && FrameAligned(s.life.lane.channels, es) && NoRamps(es)
    ensures FullGain(Perform(s, es))
    decreases |es|
  {
    hide Related, Step, FullGain, FrameAligned;
    if es != [] {
      AlignedTail(s.life, es);
      FullGainStep(s, es[0]);
      assert NoRamps(es[1..]) by { assert forall i | 0 <= i < |es[1..]| :: es[1..][i] == es[i + 1]; }
      FullGainRun(StepScore(s, es[0]), es[1..]);
    }
  }

  /** And without ramps it is read at full gain. */
  lemma UnrampedGains(decodeType: nat, es: seq<Event>)
    requires FrameAligned(Format(decodeType).1, es) && NoRamps(es)
    ensures Related(Born(decodeType))
    ensures var s := Perform(BornScore(decodeType), es);
      forall k :: 0 <= k < |s.notes| ==> s.notes[k].gain == 1.0
  {
    BornRelated(decodeType);
    FullGainRun(BornScore(decodeType), es);
  }
}
