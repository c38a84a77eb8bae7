/** Whether one block may be cut into two (src/audio_alsa.cpp). Output, data and head never tell;
    the gain can, because a lane that has run dry still takes a gain step in every block. The
    tests here can be made before the call. */
module BlockSplit {
  import opened Rounding
  import opened Mixer
  import opened Gain
  import opened LaneLife

  // ----- how long the data lasts ----------------------------------------------------------------

  function Ceiling(x: real): int {
    -(-x).Floor
  }

  /** Output frames until the head passes the newest source frame. */
  function FramesLeft(l: Lane): nat
    requires ValidLane(l)
  {
    if l.pos >= Avail(l) as real then 0
    else
      RatioPositive(l.rate);
      QuotientPositive(Avail(l) as real - l.pos, Ratio(l.rate));
      Ceiling((Avail(l) as real - l.pos) / Ratio(l.rate))
  }

  lemma RatioPositive(rate: nat)
    requires rate > 0
    ensures Ratio(rate) > 0.0
  {
  }

  lemma QuotientPositive(d: real, r: real)
    requires d > 0.0 && r > 0.0
    ensures d / r > 0.0 && Ceiling(d / r) > 0
  {
    assert d / r * r == d;
    SignOfProduct(d / r, r);
  }

  lemma SignOfProduct(x: real, r: real)
    requires r > 0.0
    ensures x > 0.0 <==> x * r > 0.0
  {
    if x <= 0.0 {
      NonNegative(-x, r);
    }
  }

  lemma CeilingIs(d: real, r: real, k: nat)
    requires d > 0.0 && r > 0.0
    ensures k as real * r >= d <==> k >= Ceiling(d / r)
  {
    var q := d / r;
    assert q * r == d;
    if k as real >= q {
      NonNegative(k as real - q, r);
    } else {
      StrictlyLess(k as real, q, r);
    }
  }

  lemma StrictlyLess(a: real, b: real, r: real)
    requires a < b && r > 0.0
    ensures a * r < b * r
  {
  }

  /** The head has passed the data after `k` frames exactly when that many were left at most. */
  lemma DryAfter(l: Lane, k: nat)
    requires ValidLane(l)
    ensures (l.pos + Span(k, l.rate)).Floor >= Avail(l) <==> k >= FramesLeft(l)
  {
    RatioPositive(l.rate);
    hide Ratio;
    var d := Avail(l) as real - l.pos;
    if d > 0.0 {
      CeilingIs(d, Ratio(l.rate), k);
    } else {
      NonNegative(k as real, Ratio(l.rate));
    }
  }

  /** A frame later there is one less. */
  lemma OneFrameLess(l: Lane)
    requires ValidLane(l) && !Dry(l)
    ensures FramesLeft(l) == FramesLeft(Next(l)) + 1
  {
    DryAfter(l, 0);
    SpanAdds(0, 0, l.rate);
    var n, m := FramesLeft(l), FramesLeft(Next(l));
    DryAfter(l, n);
    DryAfter(l, m + 1);
    DryAfter(Next(l), n - 1);
    DryAfter(Next(l), m);
    SpanAdds(1, n - 1, l.rate);
    SpanAdds(1, m, l.rate);
    hide FramesLeft, Span, Ratio;
    if m > 0 {
      DryAfter(l, m);
      DryAfter(Next(l), m - 1);
      SpanAdds(1, m - 1, l.rate);
    }
  }

  /** A block puts out as many frames as it asks for and the data lasts. */
  lemma {:induction false} BlockLength(l: Lane, n: nat)
    requires ValidLane(l)
    ensures |Play(l, n).out| == if n <= FramesLeft(l) then n else FramesLeft(l)
    decreases n
  {
    hide Contribution, Ratio, Advance, FramesLeft;
    DryAfter(l, 0);
    SpanAdds(0, 0, l.rate);
    if n > 0 && !Dry(l) {
      OneFrameLess(l);
      BlockLength(Next(l), n - 1);
    }
  }

  /** The same as a test on the head: the last frame asked for still finds data under it. */
  lemma FullBlock(l: Lane, n: nat)
    requires ValidLane(l)
    ensures |Play(l, n).out| == n <==> n == 0 || (l.pos + Span(n - 1, l.rate)).Floor < Avail(l)
  {
    hide Play, Span, FramesLeft;
    BlockLength(l, n);
    if n > 0 {
      DryAfter(l, n - 1);
    }
  }

  // ----- the gain -----------------------------------------------------------------------------------

  /** After `k` steps the ramp is over, or there was none. */
  predicate RampOver(l: Lane, k: nat) {
    && (l.step > 0.0 ==> l.target <= l.gain + l.step * k as real)
    && (l.step < 0.0 ==> l.gain + l.step * k as real <= l.target)
  }

  /** One step further the gain is the same exactly when the ramp is over. */
  lemma OneStepMore(l: Lane, k: nat)
    requires GainOk(l)
    ensures AdvanceTimes(l.gain, l.target, l.step, k) == AdvanceTimes(l.gain, l.target, l.step, k + 1)
       <==> RampOver(l, k)
  {
    hide AdvanceTimes;
    EnvelopeIsALine(l.gain, l.target, l.step, k);
    EnvelopeIsALine(l.gain, l.target, l.step, k + 1);
    NextProduct(l.step, k);
    LineStops(l.gain, l.target, l.step, l.step * k as real);
  }

  lemma NextProduct(step: real, k: nat)
    ensures step * (k + 1) as real == step * k as real + step
  {
  }

  lemma LineStops(gain: real, target: real, step: real, x: real)
    requires (step == 0.0 ==> gain == target && x == 0.0)
    ensures Held(gain + x, target, step) == Held(gain + (x + step), target, step)
       <==> (step > 0.0 ==> target <= gain + x) && (step < 0.0 ==> gain + x <= target)
  {
  }

  lemma {:induction false} AdvanceMore(gain: real, target: real, step: real, k: nat)
    ensures Advance(AdvanceTimes(gain, target, step, k), target, step) == AdvanceTimes(gain, target, step, k + 1)
    decreases k
  {
    if k > 0 {
      AdvanceMore(Advance(gain, target, step), target, step, k - 1);
    }
  }

  /** The cut does not show: the first block is full, the second one empty, or the ramp over by the
      one extra step that a lane takes when it runs dry. */
  predicate CutDoesNotShow(l: Lane, a: nat, b: nat)
    requires ValidLane(l)
  {
    a <= FramesLeft(l) || b == 0 || RampOver(l, FramesLeft(l) + 1)
  }

  /** A lane that runs dry in the first block has taken one step more than it has played, and its
      ramp is at rest if it is over by then. */
  lemma RestAfterRunningDry(l: Lane, a: nat)
    requires ValidLane(l) && GainOk(l) && a > FramesLeft(l)
    ensures Settled(MixLane(l, a).lane) <==> RampOver(l, FramesLeft(l) + 1)
  {
    hide Play, FramesLeft, Contribution, Advance, Erase;
    var n := FramesLeft(l);
    BlockLength(l, a);
    PlayGain(l, a);
    OneStepMore(l, n + 1);
    AdvanceMore(l.gain, l.target, l.step, n + 1);
    ErasedGain(Play(l, a).lane);
  }

  lemma ErasedGain(l: Lane)
    requires ValidLane(l)
    ensures ValidLane(Erase(l)) && Erase(l) == l.(ring := Erase(l).ring, pos := Erase(l).pos)
  {
  }

  /** Two blocks of a and b frames against one of a + b: same output, same data, same head; and the
      same gain if and only if the cut does not show, which the lane tells before the first. */
  lemma SplitIff(l: Lane, a: nat, b: nat)
    requires ValidLane(l) && GainOk(l)
    ensures var first := MixLane(l, a);
      && ValidLane(first.lane)
      && var second, whole := MixLane(first.lane, b), MixLane(l, a + b);
         && whole.out == first.out + second.out
         && whole.lane == second.lane.(gain := whole.lane.gain)
         && (whole.lane == second.lane <==> CutDoesNotShow(l, a, b))
  {
    hide MixLane, Play, FramesLeft, RampOver, Settled;
    MixSplit(l, a, b);
    BlockLength(l, a);
    MixOut(l, a);
    if a > FramesLeft(l) {
      RestAfterRunningDry(l, a);
    }
  }

  lemma MixOut(l: Lane, n: nat)
    requires ValidLane(l)
    ensures MixLane(l, n).out == Play(l, n).out && MixLane(l, n).lane == Erase(Play(l, n).lane)
  {
  }

  // ----- a cut that shows -----------------------------------------------------------------------------

  /** A new lane ducked over four frames' time before any sample has come. */
  function Ducked(): Lane {
    Lane(44100, 2, [], 1.0, 0.0, -0.25, 0.0)
  }

  lemma DuckedArises()
    ensures Ducked() == Duck(FreshLane(1), 0.0, 4.0 / 44100.0) && ValidLane(Ducked()) && GainOk(Ducked())
  {
    assert 4.0 / 44100.0 * 44100.0 == 4.0;
  }

  const LATE: seq<Sample> := [10000, 10000]

  /** One block of two frames leaves it at another gain than two blocks of one, and what comes in
      next is then played at another level. */
  lemma ACutThatShows()
    ensures var l := Ducked();
      && ValidLane(l) && GainOk(l) && !CutDoesNotShow(l, 1, 1)
      && ValidLane(MixLane(l, 1).lane)
      && var whole, cut := MixLane(l, 2).lane, MixLane(MixLane(l, 1).lane, 1).lane;
         && whole == l.(gain := 0.75) && cut == l.(gain := 0.5)
         && ValidLane(Append(whole, LATE)) && ValidLane(Append(cut, LATE))
         && MixLane(Append(whole, LATE), 1).out == [Frame(5000, 5000)]
         && MixLane(Append(cut, LATE), 1).out == [Frame(2500, 2500)]
  {
    DuckedArises();
    var l := Ducked();
    assert FramesLeft(l) == 0;
    hide MixLane, Append, Play, FramesLeft;
    DryBlock(l, 1);
    DryBlock(l, 2);
    DryBlock(l.(gain := 0.75), 1);
    LateFrame(l.(gain := 0.75), 0.5, 5000);
    LateFrame(l.(gain := 0.5), 0.25, 2500);
  }

  lemma DryBlock(l: Lane, n: nat)
    requires ValidLane(l) && l.ring == [] && l.pos == 0.0 && n > 0
    ensures MixLane(l, n) == Mixed(Ramped(l), [])
  {
    hide Advance;
    PlayDry(l, n);
    assert Ramped(l).ring[0..] == Ramped(l).ring;
  }

  lemma LateFrame(l: Lane, gain: real, v: int)
    requires l == Ducked().(gain := l.gain) && Advance(l.gain, 0.0, -0.25) == gain
    requires 10000.0 * gain == v as real
    ensures ValidLane(Append(l, LATE)) && MixLane(Append(l, LATE), 1).out == [Frame(v, v)]
  {
    hide Advance, Contribution, Ratio;
    var m := l.(ring := LATE);
    assert Append(l, LATE) == m by { assert l.ring + LATE == LATE; }
    FirstFrame(m);
    LateContribution(m.(gain := gain), v);
  }

  lemma FirstFrame(l: Lane)
    requires ValidLane(l) && !Dry(l)
    ensures MixLane(l, 1).out == [Contribution(Ramped(l))]
  {
    hide Contribution, Ratio, Advance, Dry;
    assert Play(Next(l), 0).out == [];
  }

  lemma LateContribution(l: Lane, v: int)
    requires ValidLane(l) && l.channels == 2 && l.ring == LATE && l.pos == 0.0
    requires 10000.0 * l.gain == v as real
    ensures !Dry(l) && Contribution(l) == Frame(v, v)
  {
    hide Blend;
    LateBlend(l.gain, v);
  }

  lemma LateBlend(gain: real, v: int)
    requires 10000.0 * gain == v as real
    ensures Blend(10000, 10000, 0.0, gain) == v
  {
    LRoundOfInt(v);
    assert 10000.0 * (1.0 - 0.0) + 10000.0 * 0.0 == 10000.0;
  }

  // ----- lives ------------------------------------------------------------------------------------------

  /** The ideal lane and the real one agree on everything the tests look at. */
  lemma SameTests(s: Life)
    requires Related(s)
    ensures ValidLane(s.lane) && ValidLane(s.ideal) && FramesLeft(s.ideal) == FramesLeft(s.lane)
    ensures s.ideal.gain == s.lane.gain && s.ideal.target == s.lane.target && s.ideal.step == s.lane.step
    ensures Avail(s.lane) == Avail(s.ideal) - s.erased
  {
    hide Consumed, Ratio, Ceiling;
  }

  /** What a block does to a life. */
  lemma BlockOfLife(s: Life, n: nat)
    requires Related(s)
    ensures ValidLane(s.lane) && ValidLane(s.ideal)
    ensures var t := Step(s, Block(n));
      && Related(t) && ValidLane(t.lane) && ValidLane(t.ideal)
      && t.lane == MixLane(s.lane, n).lane && t.out == s.out + MixLane(s.lane, n).out
      && t.ideal == Play(s.ideal, n).lane && t.idealOut == t.out
      && t.erased == Avail(s.ideal) - Avail(t.lane) && t.lane.gain == t.ideal.gain
  {
    SameTests(s);
    RelatedStep(s, Block(n));
    SameTests(Step(s, Block(n)));
    hide Play, MixLane, Shift, Consumed;
  }

  /** The ideal lane's two blocks against one. */
  lemma IdealSplit(l: Lane, a: nat, b: nat)
    requires ValidLane(l)
    ensures var first := Play(l, a).lane;
      && var second, whole := Play(first, b).lane, Play(l, a + b).lane;
         second.gain == whole.gain <==> second == whole
  {
    hide Contribution, Ramped;
    PlaySplit(l, a, b);
    var m := Play(l, a);
    if |m.out| < a {
      PlayDry(m.lane, b);
    }
  }

  lemma SameLife(s: Life, t: Life, u: Life, avail: int)
    requires t.lane == u.lane.(gain := t.lane.gain) && t.out == u.out
    requires t.idealOut == t.out && u.idealOut == u.out
    requires t.erased == avail - Avail(t.lane) && u.erased == avail - Avail(u.lane)
    requires t.ideal.gain == t.lane.gain && u.ideal.gain == u.lane.gain
    requires t.ideal.gain == u.ideal.gain <==> t.ideal == u.ideal
    ensures t == u <==> t.lane == u.lane
  {
  }

  /** The same for a whole life, in every reachable state: cutting a block in two leaves the life as
      the uncut block does, if and only if the cut does not show. */
  lemma LifeSplitIff(s: Life, a: nat, b: nat)
    requires Related(s) && GainOk(s.lane)
    ensures ValidLane(s.lane) && ValidLane(s.ideal)
    ensures var first := Step(s, Block(a));
      && ValidLane(first.lane) && ValidLane(first.ideal)
      && (Step(first, Block(b)) == Step(s, Block(a + b)) <==> CutDoesNotShow(s.lane, a, b))
  {
    hide Related, Step, MixLane, Play, CutDoesNotShow, GainOk, ValidLane;
    BlockOfLife(s, a);
    var first := Step(s, Block(a));
    BlockOfLife(first, b);
    BlockOfLife(s, a + b);
    SplitIff(s.lane, a, b);
    IdealSplit(s.ideal, a, b);
    SameRing(s.ideal, a);
    var t, u := Step(first, Block(b)), Step(s, Block(a + b));
    assert s.out + MixLane(s.lane, a).out + MixLane(first.lane, b).out
        == s.out + (MixLane(s.lane, a).out + MixLane(first.lane, b).out);
    SameLife(s, u, t, Avail(s.ideal));
  }

  lemma SameRing(l: Lane, n: nat)
    requires ValidLane(l)
    ensures Avail(Play(l, n).lane) == Avail(l)
  {
  }

  /** A level stays a level over a whole life. */
  lemma {:induction false} LifeGainOk(s: Life, es: seq<Event>)
    requires Related(s) && FrameAligned(s.lane.channels, es) && GainOk(s.lane)
    ensures GainOk(Run(s, es).lane)
    decreases |es|
  {
    hide Related, Step, GainOk;
    if es != [] {
      LaneIsValid(s);
      RelatedStep(s, es[0]);
      LaneGainOk(s, es[0]);
      LifeGainOk(Step(s, es[0]), es[1..]);
    }
  }

  lemma LaneIsValid(s: Life)
    requires Related(s)
    ensures ValidLane(s.lane) && ValidLane(s.ideal)
  {
  }

  lemma LaneGainOk(s: Life, e: Event)
    requires Related(s) && ValidLane(s.lane) && ValidLane(s.ideal) && GainOk(s.lane)
    ensures GainOk(Step(s, e).lane)
  {
    hide Related, Play;
    match e
    case Ramp(volume, duration) => DuckKeepsGainOk(s.lane, volume, duration);
    case Block(n) =>
      PlayTowardTarget(s.lane, n);
      ErasedGain(Play(s.lane, n).lane);
      MixOut(s.lane, n);
    case Submit(_) =>
  }

  /** A full first block never shows, whatever the gain. */
  lemma FullBlocksAddUp(s: Life, a: nat, b: nat)
    requires Related(s) && ValidLane(s.lane) && a <= FramesLeft(s.lane)
    ensures ValidLane(s.ideal)
    ensures var first := Step(s, Block(a));
      ValidLane(first.lane) && ValidLane(first.ideal) && Step(first, Block(b)) == Step(s, Block(a + b))
  {
    hide Related, Step, MixLane, Play, FramesLeft, ValidLane, Settled;
    BlockOfLife(s, a);
    var first := Step(s, Block(a));
    BlockOfLife(first, b);
    BlockOfLife(s, a + b);
    MixSplit(s.lane, a, b);
    BlockLength(s.lane, a);
    MixOut(s.lane, a);
    IdealSplit(s.ideal, a, b);
    SameRing(s.ideal, a);
    var t, u := Step(first, Block(b)), Step(s, Block(a + b));
    assert s.out + MixLane(s.lane, a).out + MixLane(first.lane, b).out
        == s.out + (MixLane(s.lane, a).out + MixLane(first.lane, b).out);
    SameLife(s, u, t, Avail(s.ideal));
  }

  function Blocks(ns: seq<nat>): (es: seq<Event>)
    ensures |es| == |ns| && forall i :: 0 <= i < |es| ==> es[i] == Block(ns[i])
  {
    seq(|ns|, i requires 0 <= i < |ns| => Block(ns[i]))
  }

  function TotalOf(ns: seq<nat>): nat {
    if ns == [] then 0 else ns[0] + TotalOf(ns[1..])
  }

  /** Block sizes are invisible while the data lasts: any schedule of blocks leaves the life that
      one block of their total does. */
  lemma {:induction false} BlockSizesInvisible(s: Life, ns: seq<nat>)
    requires Related(s) && ValidLane(s.lane) && ValidLane(s.ideal) && ns != [] && TotalOf(ns) <= FramesLeft(s.lane)
    ensures Run(s, Blocks(ns)) == Step(s, Block(TotalOf(ns)))
    decreases |ns|
  {
    hide Related, Step, FramesLeft, ValidLane;
    var es := Blocks(ns);
    assert es[0] == Block(ns[0]);
    RelatedStep(s, es[0]);
    if |ns| == 1 {
      assert es[1..] == [];
    } else {
      var first, fewer := Step(s, Block(ns[0])), [ns[0] + ns[1]] + ns[2..];
      assert TotalOf(ns) == ns[0] + (ns[1] + TotalOf(ns[2..])) by { assert ns[1..][1..] == ns[2..]; }
      assert fewer[1..] == ns[2..];
      FullBlocksAddUp(s, ns[0], ns[1]);
      BlockSizesInvisible(s, fewer);
      assert es[1..][0] == Block(ns[1]) && es[1..][1..] == Blocks(ns[2..]);
      RelatedStep(first, Block(ns[1]));
      assert Blocks(fewer)[1..] == Blocks(ns[2..]);
    }
  }

  /** And so it is for everything that follows: with the same events after it, a cut that does not
      show never will. */
  lemma CutNeverShows(s: Life, a: nat, b: nat, after: seq<Event>)
    requires Related(s) && ValidLane(s.lane) && GainOk(s.lane) && CutDoesNotShow(s.lane, a, b)
    requires FrameAligned(s.lane.channels, after)
    ensures FrameAligned(s.lane.channels, [Block(a), Block(b)] + after)
    ensures FrameAligned(s.lane.channels, [Block(a + b)] + after)
    ensures Run(s, [Block(a), Block(b)] + after) == Run(s, [Block(a + b)] + after)
  {
    hide Related, Step, CutDoesNotShow, ValidLane, GainOk;
    LifeSplitIff(s, a, b);
    var cut, whole := [Block(a), Block(b)] + after, [Block(a + b)] + after;
    assert cut[1..] == [Block(b)] + after && cut[1..][1..] == after && whole[1..] == after;
    RelatedStep(s, Block(a));
    RelatedStep(Step(s, Block(a)), Block(b));
    RelatedStep(s, Block(a + b));
  }
}
