/** The mixer around the lanes (src/audio_alsa.cpp): lanes keyed by stream, mixed block by
    block into a stereo accumulator and saturated to 16 bits. */
module AudioMixing {
  import opened Options
  import opened Mixer
  import opened Gain
  import opened LaneLife
  import opened MixerEvents
  import opened Signal

  /** A lane's share of output frame `i`: silence after its data ends. */
  function ShareLeft(l: Lane, block: nat, i: nat): int
    requires ValidLane(l)
  {
    var out := Play(l, block).out;
    if i < |out| then out[i].left else 0
  }

  function ShareRight(l: Lane, block: nat, i: nat): int
    requires ValidLane(l)
  {
    var out := Play(l, block).out;
    if i < |out| then out[i].right else 0
  }

  /** What each lane adds to the two channels of output frame `i`. */
  ghost function LeftShares(lanes: map<Key, Lane>, block: nat, i: nat): (m: map<Key, int>)
    requires ValidLanes(lanes)
    ensures m.Keys == lanes.Keys
  {
    map k | k in lanes :: ShareLeft(lanes[k], block, i)
  }

  ghost function RightShares(lanes: map<Key, Lane>, block: nat, i: nat): (m: map<Key, int>)
    requires ValidLanes(lanes)
    ensures m.Keys == lanes.Keys
  {
    map k | k in lanes :: ShareRight(lanes[k], block, i)
  }

  /** Sum of the shares of the lanes listed in `order`, in that order. */
  ghost function Total(shares: map<Key, int>, order: seq<Key>): int
    requires forall k :: k in order ==> k in shares
  {
    Sum(Picked(shares, order))
  }

  ghost function Picked(shares: map<Key, int>, order: seq<Key>): (s: seq<int>)
    requires forall k :: k in order ==> k in shares
    ensures |s| == |order| && forall j :: 0 <= j < |order| ==> s[j] == shares[order[j]]
  {
    seq(|order|, j requires 0 <= j < |order| =>
      assert order[j] in order;
      shares[order[j]])
  }

  /** `order` visits every key once. */
  ghost predicate Visits(order: seq<Key>, keys: set<Key>) {
    multiset(order) == multiset(keys)
  }

  lemma SharesInRange(l: Lane, n: nat, i: nat)
    requires ValidLane(l) && GainOk(l)
    ensures InSampleRange(ShareLeft(l, n, i)) && InSampleRange(ShareRight(l, n, i))
  {
    PlayInRange(l, n);
  }

  /** The order in which the lanes are visited does not matter. */
  lemma {:induction false} OrderIrrelevant(shares: map<Key, int>, a: seq<Key>, b: seq<Key>)
    requires forall k :: k in a ==> k in shares
    requires multiset(a) == multiset(b)
    ensures (forall k :: k in b ==> k in shares) && Total(shares, a) == Total(shares, b)
    decreases |a|
  {
    hide Sum;
    forall k | k in b ensures k in shares { assert k in multiset(b) && k in multiset(a); }
    if a == [] {
      assert |multiset(b)| == |b|;
      assert b == a;
    } else {
      var n := |a| - 1;
      assert a[n] in multiset(a) && a[n] in b;
      var at :| 0 <= at < |b| && b[at] == a[n];
      var rest := b[..at] + b[at + 1..];
      SameRest(a, b, at);
      OrderIrrelevant(shares, a[..n], rest);
      SumRemove(Picked(shares, a), n);
      SumRemove(Picked(shares, b), at);
      assert Picked(shares, a)[..n] + Picked(shares, a)[n + 1..] == Picked(shares, a[..n]);
      assert Picked(shares, b)[..at] + Picked(shares, b)[at + 1..] == Picked(shares, rest);
    }
  }

  lemma SplitOff(s: seq<Key>, at: nat)
    requires at < |s|
    ensures multiset(s) == multiset(s[..at] + s[at + 1..]) + multiset{s[at]}
  {
    assert s == s[..at] + [s[at]] + s[at + 1..];
  }

  lemma SameRest(a: seq<Key>, b: seq<Key>, at: nat)
    requires multiset(a) == multiset(b) && at < |b| && a != [] && b[at] == a[|a| - 1]
    ensures multiset(a[..|a| - 1]) == multiset(b[..at] + b[at + 1..])
  {
    var n := |a| - 1;
    SplitOff(a, n);
    SplitOff(b, at);
    assert a[..n] + a[n + 1..] == a[..n];
    Cancel(multiset(a[..n]), multiset(b[..at] + b[at + 1..]), multiset{a[n]});
  }

  lemma Cancel(x: multiset<Key>, y: multiset<Key>, z: multiset<Key>)
    requires x + z == y + z
    ensures x == y
  {
    forall k ensures x[k] == y[k] {
      assert (x + z)[k] == (y + z)[k];
    }
  }

  /** With up to 65536 lanes no partial sum of the mix leaves 32 bits, whatever the order. */
  lemma MixNeverOverflows(lanes: map<Key, Lane>, order: seq<Key>, block: nat, i: nat, n: nat)
    requires ValidLanes(lanes) && Visits(order, lanes.Keys) && |lanes| <= 65536 && n <= |order|
    ensures Listed(order, lanes)
    ensures FitsInt32(Total(LeftShares(lanes, block, i), order[..n]))
    ensures FitsInt32(Total(RightShares(lanes, block, i), order[..n]))
  {
    hide ShareLeft, ShareRight;
    forall k | k in order ensures k in lanes { assert k in multiset(order) && k in lanes.Keys; }
    assert |multiset(order)| == |order| == |lanes.Keys|;
    forall k | k in lanes
      ensures InSampleRange(ShareLeft(lanes[k], block, i)) && InSampleRange(ShareRight(lanes[k], block, i))
    {
      SharesInRange(lanes[k], block, i);
    }
    AccumulatorFits(Picked(LeftShares(lanes, block, i), order[..n]));
    AccumulatorFits(Picked(RightShares(lanes, block, i), order[..n]));
  }

  /** The mix of output frame `i` leaves 32 bits in one channel. */
  ghost predicate Overflows(lanes: map<Key, Lane>, order: seq<Key>, block: nat, i: nat) {
    && ValidLanes(lanes) && Visits(order, lanes.Keys) && Listed(order, lanes)
    && (!FitsInt32(Total(LeftShares(lanes, block, i), order)) || !FitsInt32(Total(RightShares(lanes, block, i), order)))
  }

  /** Some mix of `n` lanes overflows if and only if there are more than 65536 of them. */
  lemma OverflowIff(n: nat)
    ensures (exists lanes, order, block, i :: |lanes| == n && Overflows(lanes, order, block, i)) <==> n > 65536
  {
    hide Overflows;
    if n > 65536 {
      var lanes, order := LoudMix(n);
      assert |lanes| == n && Overflows(lanes, order, 1, 0);
    } else {
      forall lanes, order, block, i | |lanes| == n ensures !Overflows(lanes, order, block, i) {
        FewNeverOverflow(lanes, order, block, i);
      }
    }
  }

  lemma FewNeverOverflow(lanes: map<Key, Lane>, order: seq<Key>, block: nat, i: nat)
    requires |lanes| <= 65536
    ensures !Overflows(lanes, order, block, i)
  {
    hide Total, LeftShares, RightShares;
    if ValidLanes(lanes) && Visits(order, lanes.Keys) {
      MixNeverOverflows(lanes, order, block, i, |order|);
      assert order[..|order|] == order;
    }
  }

  /** Lanes each playing its loudest sample. */
  lemma LoudMix(n: nat) returns (lanes: map<Key, Lane>, order: seq<Key>)
    requires n > 65536
    ensures |lanes| == n && Overflows(lanes, order, 1, 0)
  {
    order := Streams(n);
    StreamsOnce(n);
    var keys := set k | k in order;
    lanes := map k | k in keys :: LoudLane();
    LoudLaneShare();
    assert lanes.Keys == keys;
    OnceVisits(order, keys);
    var shares := LeftShares(lanes, 1, 0);
    assert forall j :: 0 <= j < |order| ==> order[j] in order;
    SumOfEqual(Picked(shares, order), -32768);
    assert |multiset(order)| == |multiset(keys)|;
  }

  function LoudLane(): Lane {
    FreshLane(1).(ring := [-32768, -32768])
  }

  lemma LoudLaneShare()
    ensures ValidLane(LoudLane()) && GainOk(LoudLane()) && ShareLeft(LoudLane(), 1, 0) == -32768
  {
    var l := LoudLane();
    PlayPlain(l, 1, 0);
    assert Play(l, 1).out[0] == StereoAt(l.ring, 0);
  }

  function Streams(n: nat): (s: seq<Key>)
    ensures |s| == n && forall j :: 0 <= j < n ==> s[j] == (1, j)
  {
    seq(n, j requires 0 <= j < n => (1, j))
  }

  lemma StreamsOnce(n: nat)
    ensures forall i, j :: 0 <= i < j < n ==> Streams(n)[i] != Streams(n)[j]
  {
  }

  /** A list without repetition visits the set of its elements. */
  lemma {:induction false} OnceVisits(order: seq<Key>, keys: set<Key>)
    requires forall i, j :: 0 <= i < j < |order| ==> order[i] != order[j]
    requires forall k :: k in keys <==> k in order
    ensures Visits(order, keys)
    decreases |order|
  {
    if order == [] {
      assert keys == {};
    } else {
      var n := |order| - 1;
      var last := order[n];
      assert order == order[..n] + [last];
      assert forall k :: k in order[..n] <==> k in keys - {last};
      OnceVisits(order[..n], keys - {last});
      VisitsOneMore(order[..n], keys, {last}, last);
      assert keys - ({last} - {last}) == keys;
    }
  }

  lemma {:induction false} SumRemove(s: seq<int>, at: nat)
    requires at < |s|
    ensures Sum(s) == Sum(s[..at] + s[at + 1..]) + s[at]
    decreases |s|
  {
    var n := |s| - 1;
    if at == n {
      assert s[..at] + s[at + 1..] == s[..n];
    } else {
      SumRemove(s[..n], at);
      var t := s[..at] + s[at + 1..];
      assert t[..|t| - 1] == s[..n][..at] + s[..n][at + 1..];
    }
  }

  ghost predicate Listed(order: seq<Key>, lanes: map<Key, Lane>) {
    forall k :: k in order ==> k in lanes
  }

  lemma TotalOfNone(shares: map<Key, int>)
    ensures Total(shares, []) == 0
  {
    assert Picked(shares, []) == [];
  }

  lemma TotalOneMore(shares: map<Key, int>, order: seq<Key>, k: Key)
    requires (forall j :: j in order ==> j in shares) && k in shares
    ensures Total(shares, order + [k]) == Total(shares, order) + shares[k]
  {
    var s := Picked(shares, order + [k]);
    assert s[..|s| - 1] == Picked(shares, order);
  }

  /** The accumulator holds, for every output frame, the shares of the lanes in `order`. */
  ghost predicate Accumulated(acc: seq<int>, lanes: map<Key, Lane>, block: nat, order: seq<Key>)
    requires ValidLanes(lanes)
  {
    && |acc| == 2 * block && Listed(order, lanes)
    && (forall i :: 0 <= i < block ==>
          && acc[2 * i] == Total(LeftShares(lanes, block, i), order)
          && acc[2 * i + 1] == Total(RightShares(lanes, block, i), order))
  }

  lemma AccumulatedNone(acc: seq<int>, lanes: map<Key, Lane>, block: nat)
    requires ValidLanes(lanes) && |acc| == 2 * block && forall i :: 0 <= i < |acc| ==> acc[i] == 0
    ensures Accumulated(acc, lanes, block, [])
  {
    hide Total;
    forall i: nat
      ensures Total(LeftShares(lanes, block, i), []) == Total(RightShares(lanes, block, i), []) == 0
    {
      TotalOfNone(LeftShares(lanes, block, i));
      TotalOfNone(RightShares(lanes, block, i));
    }
  }

  lemma AccumulatedMore(acc: seq<int>, more: seq<int>, lanes: map<Key, Lane>, block: nat, order: seq<Key>, k: Key)
    requires ValidLanes(lanes) && Accumulated(acc, lanes, block, order) && k in lanes && |more| == |acc|
    requires forall i :: 0 <= i < block ==> more[2 * i] == acc[2 * i] + ShareLeft(lanes[k], block, i)
    requires forall i :: 0 <= i < block ==> more[2 * i + 1] == acc[2 * i + 1] + ShareRight(lanes[k], block, i)
    ensures Accumulated(more, lanes, block, order + [k])
  {
    hide Total, ShareLeft, ShareRight;
    forall i: nat
      ensures Total(LeftShares(lanes, block, i), order + [k]) ==
              Total(LeftShares(lanes, block, i), order) + ShareLeft(lanes[k], block, i)
      ensures Total(RightShares(lanes, block, i), order + [k]) ==
              Total(RightShares(lanes, block, i), order) + ShareRight(lanes[k], block, i)
    {
      TotalOneMore(LeftShares(lanes, block, i), order, k);
      TotalOneMore(RightShares(lanes, block, i), order, k);
    }
  }

  lemma AccumulatedInAnyOrder(acc: seq<int>, lanes: map<Key, Lane>, block: nat, a: seq<Key>, b: seq<Key>)
    requires ValidLanes(lanes) && Accumulated(acc, lanes, block, a) && multiset(a) == multiset(b)
    ensures Accumulated(acc, lanes, block, b)
  {
    hide Total, LeftShares, RightShares;
    OrderIrrelevant(LeftShares(lanes, block, 0), a, b);
    forall i: nat
      ensures Total(LeftShares(lanes, block, i), a) == Total(LeftShares(lanes, block, i), b)
      ensures Total(RightShares(lanes, block, i), a) == Total(RightShares(lanes, block, i), b)
    {
      OrderIrrelevant(LeftShares(lanes, block, i), a, b);
      OrderIrrelevant(RightShares(lanes, block, i), a, b);
    }
  }

  /** Every output sample is the saturated sum of the lanes' shares, taken in `order`. */
  ghost predicate IsSaturatedMix(out: seq<int>, lanes: map<Key, Lane>, block: nat, order: seq<Key>)
    requires ValidLanes(lanes)
  {
    && |out| == 2 * block && Listed(order, lanes)
    && (forall i :: 0 <= i < block ==>
          && out[2 * i] == Saturate(Total(LeftShares(lanes, block, i), order))
          && out[2 * i + 1] == Saturate(Total(RightShares(lanes, block, i), order)))
  }

  lemma SaturatedMix(acc: seq<int>, out: seq<int>, lanes: map<Key, Lane>, block: nat, order: seq<Key>)
    requires ValidLanes(lanes) && Accumulated(acc, lanes, block, order)
    requires |out| == |acc| && forall i :: 0 <= i < |acc| ==> out[i] == Saturate(acc[i])
    ensures IsSaturatedMix(out, lanes, block, order)
  {
    hide Saturate, Total, LeftShares, RightShares;
  }

  lemma VisitsNone(keys: set<Key>)
    requires keys == {}
    ensures Visits([], keys)
  {
  }

  lemma VisitsOneMore(order: seq<Key>, keys: set<Key>, todo: set<Key>, k: Key)
    requires todo <= keys && k in todo && Visits(order, keys - todo)
    ensures Visits(order + [k], keys - (todo - {k}))
  {
    assert keys - (todo - {k}) == keys - todo + {k};
    assert multiset(keys - todo + {k}) == multiset(keys - todo) + multiset{k};
  }

  lemma PlayStep(l: Lane, n: nat)
    requires ValidLane(l) && !Dry(l) && n > 0
    ensures Play(l, n).lane == Play(Next(l), n - 1).lane
    ensures Play(l, n).out == [Contribution(Ramped(l))] + Play(Next(l), n - 1).out
  {
  }

  lemma PlayNothing(l: Lane)
    requires ValidLane(l)
    ensures Play(l, 0) == Mixed(l, [])
  {
  }

  /** What a lane adds to the two channels of output frame `i`: its signal there, or nothing once the
      data has ended. */
  ghost predicate IsShare(l: Lane, i: nat, left: int, right: int) {
    var frames, head := if l.channels == 1 then |l.ring| else |l.ring| / 2, l.pos + (i * l.rate) as real / 44100.0;
    if head < frames as real then
      OnLine(l.ring, l.channels, head, AdvanceTimes(l.gain, l.target, l.step, i + 1), Frame(left, right))
    else left == right == 0
  }

  lemma SharesAre(l: Lane, block: nat, i: nat)
    requires ValidLane(l) && i < block
    ensures IsShare(l, i, ShareLeft(l, block, i), ShareRight(l, block, i))
  {
    hide OnLine, Play, AdvanceTimes, ValidLane;
    BlockIs(l, block);
    var k := |Play(l, block).out|;
    if i < k {
      PlayAt(l, block, i);
      Ordered(i, k - 1, l.rate);
    } else {
      Ordered(k, i, l.rate);
    }
  }

  lemma Ordered(i: nat, j: nat, rate: nat)
    requires i <= j
    ensures i * rate <= j * rate
  {
  }

  // ----- a stream alone ------------------------------------------------------------------------

  lemma OneSharesTotal(shares: map<Key, int>, k: Key)
    requires k in shares
    ensures Total(shares, [k]) == shares[k]
  {
    TotalOfNone(shares);
    TotalOneMore(shares, [], k);
    assert [] + [k] == [k];
  }

  /** The block of one lane mixed alone is what the lane plays, and then silence. */
  lemma LoneLaneBlock(l: Lane, k: Key, block: nat, out: seq<int>, i: nat)
    requires ValidLane(l) && GainOk(l) && i < block
    requires IsSaturatedMix(out, map[k := l], block, [k])
    ensures var frames := MixLane(l, block).out;
      (out[2 * i], out[2 * i + 1]) == if i < |frames| then (frames[i].left, frames[i].right) else (0, 0)
  {
    hide MixLane, Total, Play;
    var lanes := map[k := l];
    OneSharesTotal(LeftShares(lanes, block, i), k);
    OneSharesTotal(RightShares(lanes, block, i), k);
    SharesInRange(l, block, i);
    SamePlay(l, block);
  }

  lemma SamePlay(l: Lane, n: nat)
    requires ValidLane(l)
    ensures MixLane(l, n).out == Play(l, n).out
  {
  }

  /** The mixer's output for a lone 44100 Hz stereo stream at full gain: the next frames received,
      in order, and silence only after the last of them. */
  lemma LoneStreamPassesThrough(s: Life, k: Key, block: nat, out: seq<int>)
    requires PassedThrough(s) && ValidLane(s.lane) && GainOk(s.lane)
    requires ValidLane(s.ideal) && s.ideal.channels == 2 && IsSaturatedMix(out, map[k := s.lane], block, [k])
    ensures |out| == 2 * block
    ensures forall i :: 0 <= i < block ==> NextOrSilence(s, (out[2 * i], out[2 * i + 1]), |s.out| + i)
  {
    hide MixLane, IsSaturatedMix, NextOrSilence;
    MixLength(out, map[k := s.lane], block, [k]);
    forall i | 0 <= i < block ensures NextOrSilence(s, (out[2 * i], out[2 * i + 1]), |s.out| + i) {
      LoneLaneBlock(s.lane, k, block, out, i);
      LoneBlockFrame(s, block, i);
    }
  }

  /** Frame `n` received, or silence when there is none. */
  ghost predicate NextOrSilence(s: Life, frame: (int, int), n: nat)
    requires ValidLane(s.ideal) && s.ideal.channels == 2
  {
    frame == if n < Avail(s.ideal)
             then (StereoAt(s.ideal.ring, n).left, StereoAt(s.ideal.ring, n).right)
             else (0, 0)
  }

  lemma MixLength(out: seq<int>, lanes: map<Key, Lane>, block: nat, order: seq<Key>)
    requires ValidLanes(lanes) && IsSaturatedMix(out, lanes, block, order)
    ensures |out| == 2 * block
  {
  }

  /** What the lane's next block is. */
  lemma LoneBlockFrame(s: Life, n: nat, i: nat)
    requires PassedThrough(s) && ValidLane(s.lane) && ValidLane(s.ideal) && s.ideal.channels == 2 && i < n
    ensures var frames := MixLane(s.lane, n).out;
      NextOrSilence(s, if i < |frames| then (frames[i].left, frames[i].right) else (0, 0), |s.out| + i)
  {
    hide Play, Consumed, Shift;
    PlayShifted(s.ideal, s.erased, n);
    PlayPlain(s.ideal, n, |s.out|);
  }

  class AudioMixer {
    var running: bool
    var lanes: map<Key, Lane>
    ghost var history: seq<MixerEvent>

    ghost predicate Valid()
      reads this
    {
      lanes == LanesAfter(history)
    }

    constructor ()
      ensures Valid() && lanes == map[] && !running && history == []
    {
      running, lanes, history := false, map[], [];
    }

    method Start()
      modifies this`running
      ensures running
    {
      running := true;
    }

    method Stop()
      modifies this`running
      ensures !running
    {
      running := false;
    }

    method LaneFor(key: Key) returns (l: Lane)
      requires ValidLanes(lanes)
      modifies this`lanes
      ensures ValidLanes(lanes) && key in lanes && l == lanes[key]
      ensures l == LaneOr(old(lanes), key) && lanes == old(lanes)[key := l]
    {
      if key !in lanes {
        lanes := lanes[key := FreshLane(key.0)];
      }
      l := lanes[key];
    }

    /** The lane of the frame's stream takes the frame; other streams are not touched. */
    method Submit(f: AudioFrame)
      requires Valid()
      modifies this`lanes, this`history
      ensures Valid() && history == if running then old(history) + [Submits(f)] else old(history)
      ensures !running ==> lanes == old(lanes)
      ensures running ==> f.key in lanes && lanes == old(lanes)[f.key := lanes[f.key]]
      ensures running ==> Takes(LaneOr(old(lanes), f.key), f, lanes[f.key])
    {
      if !running {
        return;
      }
      OneEventMore(history, Submits(f));
      history := history + [Submits(f)];
      hide LanesAfter, Takes, Submitted, ValidLane, GainOk;
      var l := LaneFor(f.key);
      SubmittedTakes(l, f);
      l := TakeFrame(l, f);
      lanes := lanes[f.key := l];
    }

    /** The lane with its gain ramped or its backlog added to. */
    method TakeFrame(was: Lane, f: AudioFrame) returns (l: Lane)
      requires ValidLane(was)
      ensures l == Submitted(was, f)
    {
      l := was;
      match f.duck
      case Some(duration) =>
        var target := if f.volume < 0.0 then 0.0 else if f.volume > 1.0 then 1.0 else f.volume;
        l := l.(target := target);
        l := l.(step := (l.target - l.gain) / RampSteps(duration, l.rate));
      case None =>
        if f.pcm != [] {
          l := l.(ring := l.ring + f.pcm);
          if |l.ring| > Cap(l) {
            var drop := |l.ring| - Cap(l);
            l := l.(ring := l.ring[drop..]);
            var df := FramesIn(drop, l.channels) as real;
            l := l.(pos := if l.pos > df then l.pos - df else 0.0);
          }
        }
    }

    /** Drop the lanes with no audio among those idle for too long. */
    method DropIdle(idle: set<Key>)
      requires Valid()
      modifies this`lanes, this`history
      ensures Valid() && history == old(history) + [Drops(old(lanes).Keys - lanes.Keys)]
      ensures forall k :: k in lanes <==> k in old(lanes) && !(k in idle && old(lanes)[k].ring == [])
      ensures forall k :: k in lanes ==> lanes[k] == old(lanes)[k]
    {
      hide LanesAfter, After;
      ghost var was := lanes;
      var todo := lanes.Keys;
      while todo != {}
        invariant todo <= lanes.Keys <= was.Keys && history == old(history)
        invariant forall k :: k in lanes ==> lanes[k] == was[k]
        invariant forall k :: k in was && k !in todo ==> (k in lanes <==> !(k in idle && was[k].ring == []))
        decreases todo
      {
        var k :| k in todo;
        if lanes[k].ring == [] && k in idle {
          lanes := lanes - {k};
        }
        todo := todo - {k};
      }
      OneEventMore(history, Drops(was.Keys - lanes.Keys));
      DropsKeep(was, lanes);
      history := history + [Drops(was.Keys - lanes.Keys)];
    }

    /** Drop the frames the head has passed. */
    method EraseConsumed(l: Lane) returns (after: Lane)
      requires ValidLane(l)
      ensures after == Erase(l)
    {
      var consumed := if l.pos.Floor < Avail(l) then l.pos.Floor else Avail(l);
      after := l;
      if consumed > 0 {
        after := l.(ring := l.ring[SamplesIn(consumed, l.channels)..], pos := l.pos - consumed as real);
      }
    }

    /** Adds the lane's signal at the frames of a block to the accumulator, silence after its end, and
        returns the lane moved on. */
    method MixOne(l: Lane, acc: array<int>, block: nat) returns (after: Lane)
      requires ValidLane(l) && acc.Length == 2 * block
      modifies acc
      ensures after == MixLane(l, block).lane
      ensures forall i :: 0 <= i < block ==> acc[2 * i] == old(acc[2 * i]) + ShareLeft(l, block, i)
      ensures forall i :: 0 <= i < block ==> acc[2 * i + 1] == old(acc[2 * i + 1]) + ShareRight(l, block, i)
      ensures forall i :: 0 <= i < block ==>
                IsShare(l, i, acc[2 * i] - old(acc[2 * i]), acc[2 * i + 1] - old(acc[2 * i + 1]))
    {
      hide ShareLeft, ShareRight, IsShare, MixLane;
      after := AddLane(l, acc, block);
      forall i | 0 <= i < block
        ensures IsShare(l, i, acc[2 * i] - old(acc[2 * i]), acc[2 * i + 1] - old(acc[2 * i + 1]))
      {
        SharesAre(l, block, i);
      }
    }

    method AddLane(l: Lane, acc: array<int>, block: nat) returns (after: Lane)
      requires ValidLane(l) && acc.Length == 2 * block
      modifies acc
      ensures after == MixLane(l, block).lane
      ensures forall i :: 0 <= i < block ==> acc[2 * i] == old(acc[2 * i]) + ShareLeft(l, block, i)
      ensures forall i :: 0 <= i < block ==> acc[2 * i + 1] == old(acc[2 * i + 1]) + ShareRight(l, block, i)
    {
      hide Play, Contribution, Ratio, Advance, Interpolated, Erase;
      ghost var all := Play(l, block);
      var cur := l;
      var i := 0;
      while i < block
        invariant 0 <= i <= block && ValidLane(cur) && i <= |all.out|
        invariant all.lane == Play(cur, block - i).lane && all.out[i..] == Play(cur, block - i).out
        invariant forall j :: 0 <= j < i ==>
                    acc[2 * j] == old(acc[2 * j]) + all.out[j].left &&
                    acc[2 * j + 1] == old(acc[2 * j + 1]) + all.out[j].right
        invariant forall j :: 2 * i <= j < acc.Length ==> acc[j] == old(acc[j])
      {
        var dry := cur.pos.Floor >= Avail(cur);
        ghost var before := cur;
        cur := cur.(gain := Advance(cur.gain, cur.target, cur.step));
        assert cur == Ramped(before);
        if dry {
          PlayDry(before, block - i);
          break;
        }
        var v := Contribution(cur);
        PlayStep(before, block - i);
        assert all.out[i] == all.out[i..][0] == v;
        acc[2 * i] := acc[2 * i] + v.left;
        acc[2 * i + 1] := acc[2 * i + 1] + v.right;
        cur := cur.(pos := cur.pos + Ratio(cur.rate));
        assert cur == Next(before);
        i := i + 1;
      }
      if i == block {
        PlayNothing(cur);
      }
      assert all.out == all.out[..i] + all.out[i..];
      assert all.lane == cur && |all.out| == i;
      after := EraseConsumed(cur);
    }

    /** Every lane, in some order, into a zeroed accumulator. */
    method MixAll(block: nat) returns (acc: array<int>, ghost order: seq<Key>)
      requires ValidLanes(lanes)
      modifies this`lanes
      ensures ValidLanes(lanes) && fresh(acc) && acc.Length == 2 * block
      ensures lanes.Keys == old(lanes).Keys
      ensures forall k :: k in lanes ==> lanes[k] == MixLane(old(lanes)[k], block).lane
      ensures Visits(order, lanes.Keys) && Accumulated(acc[..], old(lanes), block, order)
    {
      hide MixLane, Accumulated, GainOk, ValidLane, ShareLeft, ShareRight, Visits;
      ghost var was := lanes;
      order := [];
      acc := new int[2 * block](_ => 0);
      var todo := lanes.Keys;
      assert was.Keys - todo == {};
      AccumulatedNone(acc[..], was, block);
      VisitsNone(was.Keys - todo);
      while todo != {}
        invariant todo <= was.Keys == lanes.Keys && ValidLanes(was) && ValidLanes(lanes)
        invariant Visits(order, was.Keys - todo) && Accumulated(acc[..], was, block, order)
        invariant forall k :: k in todo ==> lanes[k] == was[k]
        invariant forall k :: k in was.Keys - todo ==> lanes[k] == MixLane(was[k], block).lane
        decreases todo
      {
        var k :| k in todo;
        MixedValid(lanes[k], block);
        ghost var before := acc[..];
        var after := MixOne(lanes[k], acc, block);
        lanes := lanes[k := after];
        AccumulatedMore(before, acc[..], was, block, order, k);
        VisitsOneMore(order, was.Keys, todo, k);
        order := order + [k];
        todo := todo - {k};
      }
      assert was.Keys - todo == was.Keys;
    }

    /** One pass of run(): mix every lane, then saturate. The result does not depend on the
        order of the lanes, and every lane has moved on by one block. */
    method MixBlock(block: nat) returns (out: array<int>)
      requires Valid()
      modifies this`lanes, this`history
      ensures Valid() && history == old(history) + [Mixes(block)] && fresh(out) && out.Length == 2 * block
      ensures lanes.Keys == old(lanes).Keys
      ensures forall k :: k in lanes ==> lanes[k] == MixLane(old(lanes)[k], block).lane
      ensures forall order :: Visits(order, lanes.Keys) ==> IsSaturatedMix(out[..], old(lanes), block, order)
    {
      hide MixLane, Total, GainOk, ValidLane, Saturate, LanesAfter, IsSaturatedMix, Accumulated;
      ghost var was, order := lanes, [];
      OneEventMore(history, Mixes(block));
      history := history + [Mixes(block)];
      out, order := MixAll(block);
      assert lanes == After(was, Mixes(block));
      hide After;
      ghost var acc := out[..];
      SaturateAll(out);
      forall other | Visits(other, was.Keys) ensures IsSaturatedMix(out[..], was, block, other) {
        AccumulatedInAnyOrder(acc, was, block, order, other);
        SaturatedMix(acc, out[..], was, block, other);
      }
    }
  }

  method SaturateAll(acc: array<int>)
    modifies acc
    ensures forall i :: 0 <= i < acc.Length ==> acc[i] == Saturate(old(acc[i]))
    ensures forall i :: 0 <= i < acc.Length ==> -32768 <= acc[i] <= 32767
    ensures forall i :: 0 <= i < acc.Length ==>
              (acc[i] < old(acc[i]) ==> acc[i] == 32767) && (acc[i] > old(acc[i]) ==> acc[i] == -32768)
  {
    var j := 0;
    while j < acc.Length
      invariant 0 <= j <= acc.Length
      invariant forall i :: 0 <= i < j ==> acc[i] == Saturate(old(acc[i]))
      invariant forall i :: j <= i < acc.Length ==> acc[i] == old(acc[i])
    {
      acc[j] := if acc[j] < -32768 then -32768 else if acc[j] > 32767 then 32767 else acc[j];
      j := j + 1;
    }
  }
}
