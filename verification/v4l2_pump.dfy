/** The bitstream queue between the USB thread and the V4L2 pump
    (src/v4l2_decoder_source_adapter.cpp). The producer tests `failed` and then pushes under
    the lock; the pump takes the front chunk, holds it across EAGAIN, and offers it until the
    decoder takes or refuses it. Each event is one such section, so a run is any interleaving. */
module V4l2Pump {
  import opened Options
  import opened Sequences

  type Chunk = seq<nat>

  /** kMaxQueue. */
  const MAX_QUEUE := 16

  /** The decoder's answer to a chunk. */
  datatype Answer = Taken | Again | Error

  /** What has become of a pushed chunk. */
  datatype Fate = Queued | Held | Delivered | Overflowed | Refused

  /** Beside the queue, the held chunk and the flag: every chunk pushed so far with its fate,
      what the decoder has taken, which chunk is held, and the one about to be pushed. */
  datatype State = State(
    queue: seq<Chunk>, cur: Option<Chunk>, failed: bool, pumping: bool,
    pushing: Option<Chunk>, submitted: seq<Chunk>, fate: seq<Fate>, held: nat, delivered: seq<Chunk>)

  datatype Event =
    | Submits(chunk: Chunk)
    | Pushes
    | Takes
    | Offers(answer: Answer)
    | PumpFails
    | PumpStops

  function Start(): State {
    State([], None, false, true, None, [], [], 0, [])
  }

  ghost predicate Enabled(s: State, e: Event) {
    match e
    case Submits(_) => s.pushing.None?
    case Pushes => s.pushing.Some?
    case Takes => s.pumping && s.cur.None? && s.queue != []
    case Offers(_) => s.pumping && s.cur.Some?
    case PumpFails => s.pumping
    case PumpStops => s.pumping
  }

  /** The number of chunks that have left the queue at its front. */
  ghost function First(s: State): int {
    |s.submitted| - |s.queue|
  }

  ghost function Set(fate: seq<Fate>, k: int, f: Fate): seq<Fate> {
    if 0 <= k < |fate| then fate[k := f] else fate
  }

  ghost function Step(s: State, e: Event): State
    requires Enabled(s, e)
  {
    match e
    case Submits(chunk) => if s.failed || chunk == [] then s else s.(pushing := Some(chunk))
    case Pushes =>
      var full := |s.queue| >= MAX_QUEUE;
      s.(pushing := None, submitted := s.submitted + [s.pushing.value],
         queue := (if full then s.queue[1..] else s.queue) + [s.pushing.value],
         fate := (if full then Set(s.fate, First(s), Overflowed) else s.fate) + [Queued])
    case Takes =>
      s.(cur := Some(s.queue[0]), queue := s.queue[1..], held := if First(s) >= 0 then First(s) else 0,
         fate := Set(s.fate, First(s), Held))
    case Offers(answer) =>
      match answer {
        case Taken => s.(cur := None, delivered := s.delivered + [s.cur.value], fate := Set(s.fate, s.held, Delivered))
        case Again => s
        case Error => s.(cur := None, fate := Set(s.fate, s.held, Refused))
      }
    case PumpFails => s.(pumping := false, failed := true)
    case PumpStops => s.(pumping := false)
  }

  // ----- what is kept -------------------------------------------------------------------------

  predicate Lost(f: Fate) {
    f.Overflowed? || f.Refused?
  }

  /** The chunks not lost, in the order they were pushed. */
  function Survivors(submitted: seq<Chunk>, fate: seq<Fate>): seq<Chunk>
    requires |submitted| == |fate|
  {
    if submitted == [] then []
    else
      var n := |submitted| - 1;
      Survivors(submitted[..n], fate[..n]) + if Lost(fate[n]) then [] else [submitted[n]]
  }

  lemma SurvivorsLast(submitted: seq<Chunk>, fate: seq<Fate>)
    requires |submitted| == |fate| > 0
    ensures var n := |submitted| - 1;
            Survivors(submitted, fate) ==
            Survivors(submitted[..n], fate[..n]) + if Lost(fate[n]) then [] else [submitted[n]]
  {
  }

  /** Up to `k`, with nothing but losses after chunk `h`. */
  lemma {:induction false} UpToHeld(submitted: seq<Chunk>, fate: seq<Fate>, h: nat, k: nat)
    requires |submitted| == |fate| && h < k <= |fate|
    requires forall i :: h < i < k ==> Lost(fate[i])
    ensures Survivors(submitted[..k], fate[..k]) ==
            Survivors(submitted[..h], fate[..h]) + if Lost(fate[h]) then [] else [submitted[h]]
    decreases k
  {
    hide Survivors;
    SurvivorsLast(submitted[..k], fate[..k]);
    TakeTwice(submitted, k, k - 1);
    TakeTwice(fate, k, k - 1);
    if k > h + 1 {
      UpToHeld(submitted, fate, h, k - 1);
    }
  }

  /** From `k` on nothing is lost. */
  lemma {:induction false} KeptFrom(submitted: seq<Chunk>, fate: seq<Fate>, k: nat)
    requires |submitted| == |fate| && k <= |fate|
    requires forall i :: k <= i < |fate| ==> !Lost(fate[i])
    ensures Survivors(submitted, fate) == Survivors(submitted[..k], fate[..k]) + submitted[k..]
    decreases |submitted|
  {
    hide Survivors;
    var n := |submitted| - 1;
    if k == |submitted| {
      assert submitted[..k] == submitted && fate[..k] == fate;
    } else {
      SurvivorsLast(submitted, fate);
      KeptFrom(submitted[..n], fate[..n], k);
      TakeTwice(submitted, n, k);
      TakeTwice(fate, n, k);
      assert submitted[k..] == submitted[..n][k..] + [submitted[n]];
    }
  }

  /** Every loss shows in the length. */
  lemma {:induction false} SurvivorsCount(submitted: seq<Chunk>, fate: seq<Fate>)
    requires |submitted| == |fate|
    ensures |Survivors(submitted, fate)| <= |submitted|
    ensures |Survivors(submitted, fate)| == |submitted| <==> NoneLost(fate)
    decreases |submitted|
  {
    if submitted != [] {
      var n := |submitted| - 1;
      SurvivorsCount(submitted[..n], fate[..n]);
      assert NoneLost(fate) <==> NoneLost(fate[..n]) && !Lost(fate[n]) by {
        assert forall i :: 0 <= i < n ==> fate[..n][i] == fate[i];
      }
    }
  }

  ghost predicate NoneLost(fate: seq<Fate>) {
    forall i :: 0 <= i < |fate| ==> !Lost(fate[i])
  }

  // ----- the invariant -----------------------------------------------------------------------------

  /** The queue is the newest chunks, all of them, and never longer than its bound. */
  ghost predicate QueueIsNewest(s: State) {
    && |s.fate| == |s.submitted| && |s.queue| <= MAX_QUEUE && |s.queue| <= |s.submitted|
    && s.queue == s.submitted[First(s)..]
    && (forall i :: 0 <= i < |s.fate| ==> (s.fate[i].Queued? <==> First(s) <= i))
  }

  /** Where a held chunk stands: taken from the queue, with only lost chunks between it and the
      queue, and everything before it decided. */
  ghost predicate HeldOk(s: State)
    requires QueueIsNewest(s)
  {
    && (forall i :: 0 <= i < |s.fate| ==> (s.fate[i].Held? <==> s.cur.Some? && i == s.held))
    && (s.cur.Some? ==>
          && s.held < First(s) && s.cur.value == s.submitted[s.held]
          && (forall i :: s.held < i < First(s) ==> s.fate[i].Overflowed?))
  }

  /** The decoder has taken exactly the chunks before that point that were not lost. */
  ghost predicate DeliveredOk(s: State)
    requires QueueIsNewest(s) && HeldOk(s)
  {
    var k := if s.cur.Some? then s.held else First(s);
    s.delivered == Survivors(s.submitted[..k], s.fate[..k])
  }

  /** A chunk overflows only when MAX_QUEUE newer ones are behind it. */
  ghost predicate OverflowOk(s: State) {
    && (forall i :: 0 <= i < |s.fate| && s.fate[i].Overflowed? ==> i + MAX_QUEUE < |s.fate|)
    && (forall i :: 0 <= i < |s.submitted| ==> s.submitted[i] != [])
    && (s.pushing.Some? ==> s.pushing.value != [])
  }

  ghost predicate Inv(s: State) {
    QueueIsNewest(s) && HeldOk(s) && DeliveredOk(s) && OverflowOk(s)
  }

  lemma PushQueue(s: State)
    requires Inv(s) && Enabled(s, Pushes)
    ensures var t := Step(s, Pushes); QueueIsNewest(t) && HeldOk(t) && OverflowOk(t)
  {
    hide DeliveredOk;
  }

  lemma PushKeeps(s: State)
    requires Inv(s) && Enabled(s, Pushes)
    ensures Inv(Step(s, Pushes))
  {
    hide Survivors, OverflowOk;
    PushQueue(s);
    var t := Step(s, Pushes);
    var k := if s.cur.Some? then s.held else First(s);
    assert t.submitted[..k] == s.submitted[..k] && t.fate[..k] == s.fate[..k];
    if |s.queue| == MAX_QUEUE && s.cur.None? {
      assert First(t) == k + 1;
      assert t.submitted[..k + 1][..k] == s.submitted[..k] && t.fate[..k + 1][..k] == s.fate[..k];
      SurvivorsLast(t.submitted[..k + 1], t.fate[..k + 1]);
    }
  }

  lemma TakeKeeps(s: State)
    requires Inv(s) && Enabled(s, Takes)
    ensures Inv(Step(s, Takes))
  {
    hide Survivors;
    var t, k := Step(s, Takes), First(s);
    assert t.submitted[..k] == s.submitted[..k] && t.fate[..k] == s.fate[..k];
  }

  lemma OfferKeeps(s: State, answer: Answer)
    requires Inv(s) && Enabled(s, Offers(answer))
    ensures Inv(Step(s, Offers(answer)))
  {
    hide Survivors;
    var t, h := Step(s, Offers(answer)), s.held;
    if !answer.Again? {
      UpToHeld(t.submitted, t.fate, h, First(t));
      assert t.fate[..h] == s.fate[..h];
    }
  }

  lemma StartInv()
    ensures Inv(Start())
  {
  }

  lemma InvStep(s: State, e: Event)
    requires Inv(s) && Enabled(s, e)
    ensures Inv(Step(s, e))
  {
    hide Survivors;
    match e
    case Pushes => PushKeeps(s);
    case Takes => TakeKeeps(s);
    case Offers(answer) => OfferKeeps(s, answer);
    case _ =>
  }

  ghost predicate Possible(s: State, events: seq<Event>)
    decreases |events|
  {
    events == [] || (Enabled(s, events[0]) && Possible(Step(s, events[0]), events[1..]))
  }

  ghost function Run(s: State, events: seq<Event>): State
    requires Possible(s, events)
    decreases |events|
  {
    if events == [] then s else Run(Step(s, events[0]), events[1..])
  }

  lemma {:induction false} InvRun(s: State, events: seq<Event>)
    requires Inv(s) && Possible(s, events)
    ensures Inv(Run(s, events))
    decreases |events|
  {
    hide Inv;
    if events != [] {
      InvStep(s, events[0]);
      InvRun(Step(s, events[0]), events[1..]);
    }
  }

  /** In every interleaving: what the decoder took, then the held chunk, then the queue, is
      exactly the submitted chunks that were not lost, in order and without repetition; a chunk
      is lost only by overflow, with MAX_QUEUE newer chunks behind it, or by a refusal. */
  lemma OrderedDelivery(events: seq<Event>)
    requires Possible(Start(), events)
    ensures var s := Run(Start(), events);
            && |s.fate| == |s.submitted|
            && s.delivered + InHand(s) + s.queue == Survivors(s.submitted, s.fate)
            && |s.queue| <= MAX_QUEUE
            && (forall i :: 0 <= i < |s.fate| && s.fate[i].Overflowed? ==> i + MAX_QUEUE < |s.fate|)
  {
    hide Survivors, Run, Possible;
    StartInv();
    InvRun(Start(), events);
    Accounted(Run(Start(), events));
  }

  ghost function InHand(s: State): seq<Chunk> {
    if s.cur.Some? then [s.cur.value] else []
  }

  lemma Accounted(s: State)
    requires Inv(s)
    ensures s.delivered + InHand(s) + s.queue == Survivors(s.submitted, s.fate)
  {
    hide Survivors;
    KeptFrom(s.submitted, s.fate, First(s));
    if s.cur.Some? {
      UpToHeld(s.submitted, s.fate, s.held, First(s));
    }
  }

  /** The pump keeps up: the decoder refuses nothing, and no chunk is pushed to a full queue. */
  ghost predicate KeepsUp(s: State, events: seq<Event>)
    requires Possible(s, events)
    decreases |events|
  {
    events == [] || (!Loses(s, events[0]) && KeepsUp(Step(s, events[0]), events[1..]))
  }

  ghost predicate Loses(s: State, e: Event) {
    e == Offers(Error) || (e.Pushes? && |s.queue| == MAX_QUEUE)
  }

  lemma LosesStep(s: State, e: Event)
    requires Inv(s) && Enabled(s, e)
    ensures NoneLost(Step(s, e).fate) <==> NoneLost(s.fate) && !Loses(s, e)
  {
    hide Survivors, DeliveredOk, OverflowOk;
    var t := Step(s, e);
    assert forall i :: 0 <= i < |s.fate| ==> (Lost(s.fate[i]) ==> Lost(t.fate[i]));
    if e.Pushes? && |s.queue| == MAX_QUEUE {
      assert Lost(t.fate[First(s)]);
    } else if e == Offers(Error) {
      assert Lost(t.fate[s.held]);
    }
  }

  lemma {:induction false} KeepsUpRun(s: State, events: seq<Event>)
    requires Inv(s) && Possible(s, events)
    ensures NoneLost(Run(s, events).fate) <==> NoneLost(s.fate) && KeepsUp(s, events)
    decreases |events|
  {
    hide Inv, Enabled, Step, Loses;
    if events != [] {
      LosesStep(s, events[0]);
      InvStep(s, events[0]);
      KeepsUpRun(Step(s, events[0]), events[1..]);
    }
  }

  /** Nothing is missing, and everything submitted is delivered, in hand or queued in order, if
      and only if the pump kept up. */
  lemma CompleteIffKeptUp(events: seq<Event>)
    requires Possible(Start(), events)
    ensures var s := Run(Start(), events);
            s.delivered + InHand(s) + s.queue == s.submitted <==> KeepsUp(Start(), events)
  {
    hide Survivors, Run, Possible, KeepsUp;
    StartInv();
    InvRun(Start(), events);
    KeepsUpRun(Start(), events);
    var s := Run(Start(), events);
    Accounted(s);
    SurvivorsCount(s.submitted, s.fate);
    if NoneLost(s.fate) {
      AllKept(s.submitted, s.fate);
    }
  }

  lemma AllKept(submitted: seq<Chunk>, fate: seq<Fate>)
    requires |submitted| == |fate| && NoneLost(fate)
    ensures Survivors(submitted, fate) == submitted
  {
    KeptFrom(submitted, fate, 0);
  }

  // ----- the adapter itself --------------------------------------------------------------------------

  lemma Nothing(s: State)
    ensures Possible(s, []) && Run(s, []) == s
  {
  }

  /** One more event at the end of a run. */
  lemma {:induction false} Then(s: State, run: seq<Event>, e: Event) returns (longer: seq<Event>)
    requires Possible(s, run) && Enabled(Run(s, run), e)
    ensures Possible(s, longer) && Run(s, longer) == Step(Run(s, run), e)
    decreases |run|
  {
    hide Enabled, Step;
    longer := [e];
    if run != [] {
      var rest := Then(Step(s, run[0]), run[1..], e);
      longer := [run[0]] + rest;
      assert longer[1..] == rest;
    }
  }

  ghost function AllOf(s: State): seq<Chunk> {
    s.delivered + InHand(s) + s.queue
  }

  lemma TakeMovesOne(s: State)
    requires Enabled(s, Takes)
    ensures var t := Step(s, Takes);
            && t.delivered == s.delivered && InHand(t) + t.queue == InHand(s) + s.queue
            && AllOf(t) == AllOf(s) && t.pumping && t.cur.Some?
  {
    assert s.queue == [s.queue[0]] + s.queue[1..];
  }

  lemma OfferMovesOne(s: State, answer: Answer)
    requires Enabled(s, Offers(answer))
    ensures var t := Step(s, Offers(answer));
            && t.pumping && (answer.Again? ==> t == s)
            && (answer.Taken? ==> AllOf(t) == AllOf(s) && |t.delivered| == |s.delivered| + 1)
  {
  }

  class V4l2DecoderSourceAdapter {
    var queue: seq<Chunk>
    var cur: Option<Chunk>
    var failed: bool
    ghost var pumping: bool
    ghost var submitted: seq<Chunk>
    ghost var fate: seq<Fate>
    ghost var held: nat
    ghost var delivered: seq<Chunk>

    ghost function Now(): State
      reads this
    {
      State(queue, cur, failed, pumping, None, submitted, fate, held, delivered)
    }

    constructor ()
      ensures Now() == Start() && Inv(Now())
    {
      queue, cur, failed, pumping := [], None, false, true;
      submitted, fate, held, delivered := [], [], 0, [];
      new;
      StartInv();
    }

    /** submit_bitstream(): ignored after a failure or when empty; a full queue loses its oldest
        chunk, and only that one. */
    method SubmitBitstream(chunk: Chunk) returns (ghost run: seq<Event>)
      requires Inv(Now())
      modifies this`queue, this`submitted, this`fate
      ensures Inv(Now()) && Possible(old(Now()), run) && Now() == Run(old(Now()), run)
      ensures failed || chunk == [] ==> queue == old(queue)
      ensures !failed && chunk != [] ==>
                queue == (if |old(queue)| == MAX_QUEUE then old(queue)[1..] else old(queue)) + [chunk]
    {
      hide Inv, Possible, Run;
      ghost var was := Now();
      QueueFits(was);
      run := [];
      Nothing(was);
      if failed || chunk == [] {
        return;
      }
      run := Then(was, run, Submits(chunk));
      run := Then(was, run, Pushes);
      if |queue| >= MAX_QUEUE {
        fate := Set(fate, First(was), Overflowed);
        queue := queue[1..];
      }
      queue, submitted, fate := queue + [chunk], submitted + [chunk], fate + [Queued];
      InvRun(was, run);
    }

    /** The front chunk leaves the queue. */
    method Take()
      requires Enabled(Now(), Takes)
      modifies this`queue, this`cur, this`fate, this`held
      ensures Now() == Step(old(Now()), Takes)
    {
      fate, held := Set(fate, First(Now()), Held), if First(Now()) >= 0 then First(Now()) else 0;
      cur, queue := Some(queue[0]), queue[1..];
    }

    /** The held chunk is offered; it stays held only for EAGAIN. */
    method Offer(answer: Answer) returns (keep: bool)
      requires Enabled(Now(), Offers(answer))
      modifies this`cur, this`fate, this`delivered
      ensures Now() == Step(old(Now()), Offers(answer)) && keep == answer.Again?
    {
      keep := false;
      match answer {
        case Taken => delivered, fate := delivered + [cur.value], Set(fate, held, Delivered);
        case Again => keep := true;
        case Error => fate := Set(fate, held, Refused);
      }
      if !keep {
        cur := None;
      }
    }

    /** The inner loop of pump(), with the decoder's answers in turn: chunks are offered from the
        held one on until one is kept for later or the queue is empty. */
    method FeedQueue(answers: seq<Answer>) returns (ghost run: seq<Event>)
      requires Inv(Now()) && pumping
      modifies this`queue, this`cur, this`fate, this`held, this`delivered
      ensures Inv(Now()) && Possible(old(Now()), run) && Now() == Run(old(Now()), run)
      ensures (forall i :: 0 <= i < |answers| ==> answers[i].Taken?) &&
              |answers| >= |InHand(old(Now()))| + |old(queue)| ==>
                delivered == old(delivered) + InHand(old(Now())) + old(queue)
      ensures answers != [] && answers[0].Again? ==>
                delivered == old(delivered) && InHand(Now()) + queue == InHand(old(Now())) + old(queue)
    {
      hide Inv, Possible, Run, Step;
      ghost var was := Now();
      run := [];
      Nothing(was);
      var i := 0;
      while i < |answers|
        invariant i <= |answers| && pumping && Possible(was, run) && Now() == Run(was, run)
        invariant (forall j :: 0 <= j < |answers| ==> answers[j].Taken?) ==>
                    AllOf(Now()) == AllOf(was) && |delivered| == |was.delivered| + i
        invariant i == 0 ==> Now() == was
        invariant i > 0 ==> !answers[0].Again?
      {
        if cur.None? {
          if queue == [] {
            break;
          }
          TakeMovesOne(Now());
          run := Then(was, run, Takes);
          Take();
        }
        OfferMovesOne(Now(), answers[i]);
        run := Then(was, run, Offers(answers[i]));
        var keep := Offer(answers[i]);
        if keep {
          break;
        }
        i := i + 1;
      }
      InvRun(was, run);
    }

    /** pump() gives up: poll() or drive() failed. */
    method Fail() returns (ghost run: seq<Event>)
      requires Inv(Now()) && pumping
      modifies this`failed, this`pumping
      ensures Inv(Now()) && failed && Possible(old(Now()), run) && Now() == Run(old(Now()), run)
    {
      hide Inv, Possible, Run;
      ghost var was := Now();
      Nothing(was);
      run := Then(was, [], PumpFails);
      failed, pumping := true, false;
      InvRun(was, run);
    }
  }

  lemma QueueFits(s: State)
    requires Inv(s)
    ensures |s.queue| <= MAX_QUEUE
  {
  }
}
