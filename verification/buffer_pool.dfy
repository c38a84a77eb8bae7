/** The software decoder's four-buffer pool (src/software_decoder_source.cpp), shared by the
    decode thread, which fills a free buffer outside the lock and then publishes it, and
    the commit thread, which acquires the newest buffer and releases old ones.
    Every section under the lock is one step; the filling in between is a run of steps that
    any other step may interleave with. What a buffer holds is a frame number. */
module BufferPool {

  const BUFS := 4

  /** What is in a buffer's memory: never written, half written, or one whole frame. */
  datatype Content = Blank | Torn | Whole(frame: nat)

  /** A buffer in the scene's hands, with the frame it held when it was acquired. */
  datatype Hold = Hold(slot: nat, frame: nat)

  datatype Pool = Pool(
    displayed: int,          // last buffer handed to the scene, -1 for none
    pending: int,            // newest filled buffer, -1 for none
    inFlight: seq<bool>,
    contents: seq<Content>,
    filling: int,            // the decode thread's own slot, -1 outside a fill
    frames: nat,             // number of the frame being decoded or decoded last
    published: nat,          // number of the newest published frame, 0 for none
    shown: seq<nat>,         // frames promoted to the screen, in order
    holds: seq<Hold>)        // what the scene has acquired and not released

  datatype Event =
    | Pick                   // a new frame: choose a slot, under the lock
    | Write(done: bool)      // write into the slot, outside the lock; `done` completes the frame
    | Publish                // under the lock
    | Acquire
    | Release(slot: nat)

  const EMPTY_POOL :=
    Pool(-1, -1, [false, false, false, false], [Blank, Blank, Blank, Blank], -1, 0, 0, [], [])

  predicate Shape(p: Pool) {
    && |p.inFlight| == |p.contents| == BUFS
    && -1 <= p.displayed < BUFS && -1 <= p.pending < BUFS && -1 <= p.filling < BUFS
  }

  predicate IsFree(p: Pool, i: nat)
    requires Shape(p) && i < BUFS
  {
    i != p.displayed && i != p.pending && !p.inFlight[i]
  }

  /** The lowest free slot from `i` on, -1 when there is none. */
  function FreeSlotFrom(p: Pool, i: nat): (slot: int)
    requires Shape(p) && i <= BUFS
    ensures slot == -1 || i <= slot < BUFS
    ensures slot >= 0 ==> IsFree(p, slot) && forall j: nat :: i <= j < slot ==> !IsFree(p, j)
    ensures slot < 0 ==> forall j: nat :: i <= j < BUFS ==> !IsFree(p, j)
    decreases BUFS - i
  {
    if i == BUFS then -1 else if IsFree(p, i) then i else FreeSlotFrom(p, i + 1)
  }

  /** The buffer acquire() hands out, -1 when it reports "try again". */
  function HandsOut(p: Pool): int {
    if p.pending >= 0 then p.pending else p.displayed
  }

  predicate Holds(p: Pool, slot: int) {
    exists i :: 0 <= i < |p.holds| && p.holds[i].slot == slot
  }

  predicate Enabled(p: Pool, e: Event) {
    Shape(p) && match e
      case Pick => p.filling < 0
      case Write(_) => p.filling >= 0
      case Publish => p.filling >= 0 && p.contents[p.filling] == Whole(p.frames)
      case Acquire => true
      case Release(slot) => slot < BUFS && Holds(p, slot)
  }

  function FirstHold(hs: seq<Hold>, slot: nat): (i: nat)
    requires exists i :: 0 <= i < |hs| && hs[i].slot == slot
    ensures i < |hs| && hs[i].slot == slot
  {
    if hs[0].slot == slot then 0 else 1 + FirstHold(hs[1..], slot)
  }

  function Step(p: Pool, e: Event): (q: Pool)
    requires Enabled(p, e)
    ensures Shape(q)
  {
    match e
    case Pick => p.(filling := FreeSlotFrom(p, 0), frames := p.frames + 1)
    case Write(done) => p.(contents := p.contents[p.filling := if done then Whole(p.frames) else Torn])
    case Publish => p.(pending := p.filling, filling := -1, published := p.frames)
    case Acquire =>
      var slot := HandsOut(p);
      if slot < 0 then p else
        var frame := if p.contents[slot].Whole? then p.contents[slot].frame else 0;
        p.(displayed := slot, pending := -1, inFlight := p.inFlight[slot := true],
           shown := if p.pending >= 0 then p.shown + [frame] else p.shown,
           holds := p.holds + [Hold(slot, frame)])
    case Release(slot) =>
      var i := FirstHold(p.holds, slot);
      p.(inFlight := p.inFlight[slot := false], holds := p.holds[..i] + p.holds[i + 1..])
  }

  // ----- what every interleaving keeps ---------------------------------------------

  ghost predicate Increasing(s: seq<nat>) {
    forall i, j :: 0 <= i < j < |s| ==> s[i] < s[j]
  }

  /** The slot being filled is in nobody else's hands. */
  predicate FillIsPrivate(p: Pool) {
    Shape(p) && (p.filling >= 0 ==> IsFree(p, p.filling))
  }

  /** A pending buffer is the newest published frame, newer than any shown so far; the
      displayed buffer is the one shown last. */
  ghost predicate NewestWins(p: Pool) {
    && Shape(p)
    && p.published <= p.frames && (p.filling >= 0 ==> p.published < p.frames)
    && Increasing(p.shown)
    && (p.displayed < 0 <==> p.shown == [])
    && (p.shown != [] ==>
          && p.contents[p.displayed] == Whole(p.shown[|p.shown| - 1])
          && p.shown[|p.shown| - 1] <= p.published)
    && (p.pending >= 0 ==>
          && p.pending != p.displayed && !p.inFlight[p.pending]
          && p.contents[p.pending] == Whole(p.published)
          && (p.shown != [] ==> p.shown[|p.shown| - 1] < p.published))
  }

  ghost predicate Inv(p: Pool) {
    FillIsPrivate(p) && NewestWins(p)
  }

  lemma InvInit()
    ensures Inv(EMPTY_POOL)
  {
  }

  lemma InvStep(p: Pool, e: Event)
    requires Inv(p) && Enabled(p, e)
    ensures Inv(Step(p, e))
  {
  }

  ghost predicate Legal(p: Pool, es: seq<Event>)
    decreases |es|
  {
    es == [] || (Enabled(p, es[0]) && Legal(Step(p, es[0]), es[1..]))
  }

  ghost function Run(p: Pool, es: seq<Event>): (q: Pool)
    requires Legal(p, es)
    ensures Shape(p) ==> Shape(q)
    decreases |es|
  {
    if es == [] then p else Run(Step(p, es[0]), es[1..])
  }

  lemma {:induction false} InvRun(p: Pool, es: seq<Event>)
    requires Inv(p) && Legal(p, es)
    ensures Inv(Run(p, es))
    decreases |es|
  {
    hide Inv, Step, Enabled;
    if es != [] {
      InvStep(p, es[0]);
      InvRun(Step(p, es[0]), es[1..]);
    }
  }

  /** In every interleaving, whatever the scene does: the buffer being filled is not
      displayed, not pending and not in flight, and the frames shown only get newer. */
  lemma EveryInterleaving(es: seq<Event>)
    requires Legal(EMPTY_POOL, es)
    ensures FillIsPrivate(Run(EMPTY_POOL, es)) && Increasing(Run(EMPTY_POOL, es).shown)
  {
    InvInit();
    InvRun(EMPTY_POOL, es);
  }

  /** Each promotion shows the newest published frame, newer than every frame before it;
      without a new frame acquire() repeats the last one. */
  lemma AcquireShowsNewest(p: Pool)
    requires Inv(p)
    ensures var q := Step(p, Acquire);
      if p.pending >= 0 then
        q.shown == p.shown + [p.published] && (forall i :: 0 <= i < |p.shown| ==> p.shown[i] < p.published)
      else q.shown == p.shown && q.displayed == p.displayed
  {
    if p.pending >= 0 && p.shown != [] {
      assert p.shown[|p.shown| - 1] < p.published;
    }
  }

  /** Nothing is published or acquired. */
  ghost predicate OnlyFills(es: seq<Event>) {
    forall i :: 0 <= i < |es| ==> !es[i].Publish? && !es[i].Acquire?
  }

  lemma {:induction false} PendingStays(p: Pool, es: seq<Event>)
    requires Inv(p) && p.pending >= 0 && Legal(p, es) && OnlyFills(es)
    ensures var q := Run(p, es);
      q.pending == p.pending && q.published == p.published && q.shown == p.shown && Inv(q)
    decreases |es|
  {
    hide Inv;
    if es != [] {
      InvStep(p, es[0]);
      assert !es[0].Publish? && !es[0].Acquire?;
      hide Step;
      PendingStays(Step(p, es[0]), es[1..]);
    }
  }

  /** Whatever is filled or released meanwhile, the next acquire after a publication shows that frame,
      from the buffer it was written into. */
  lemma PublishedIsShown(p: Pool, es: seq<Event>)
    requires Inv(p) && Enabled(p, Publish) && Legal(Step(p, Publish), es) && OnlyFills(es)
    ensures var r := Run(Step(p, Publish), es);
      && Enabled(r, Acquire)
      && var q := Step(r, Acquire);
      && q.shown == p.shown + [p.frames] && q.displayed == p.filling && q.contents[q.displayed] == Whole(p.frames)
      && q.inFlight[q.displayed] && q.holds == r.holds + [Hold(p.filling, p.frames)]
  {
    InvStep(p, Publish);
    PendingStays(Step(p, Publish), es);
    hide Run;
  }

  // ----- what the scene holds ------------------------------------------------------------

  /** Every buffer the scene holds is in flight and still the frame it was acquired with. */
  ghost predicate HeldIntact(p: Pool) {
    Shape(p) && forall i :: 0 <= i < |p.holds| ==> HoldIntact(p, p.holds[i])
  }

  predicate HoldIntact(p: Pool, h: Hold)
    requires Shape(p)
  {
    h.slot < BUFS && p.inFlight[h.slot] && p.contents[h.slot] == Whole(h.frame)
  }

  /** The scene has acquired the buffer at least twice more than it has released it. */
  ghost predicate HeldTwice(p: Pool, slot: nat) {
    exists i, j :: 0 <= i < j < |p.holds| && p.holds[i].slot == slot && p.holds[j].slot == slot
  }

  /** release() of a buffer that stays held by another acquire. */
  ghost predicate EarlyRelease(p: Pool, e: Event) {
    e.Release? && HeldTwice(p, e.slot)
  }

  lemma IntactAfterAcquire(p: Pool)
    requires Inv(p) && HeldIntact(p)
    ensures HeldIntact(Step(p, Acquire))
  {
    var q, slot := Step(p, Acquire), HandsOut(p);
    if slot >= 0 {
      assert p.contents[slot].Whole?;
      forall i | 0 <= i < |q.holds| ensures HoldIntact(q, q.holds[i]) {
        if i < |p.holds| {
          assert HoldIntact(p, p.holds[i]);
        }
      }
    }
  }

  /** What is left of the holds after one has been taken out. */
  lemma Others(hs: seq<Hold>, at: nat, k: nat)
    requires at < |hs| && k < |hs| - 1
    ensures (hs[..at] + hs[at + 1..])[k] == hs[if k < at then k else k + 1]
  {
  }

  lemma ReleaseEffect(p: Pool, slot: nat) returns (at: nat)
    requires Enabled(p, Release(slot))
    ensures at < |p.holds| && p.holds[at].slot == slot
    ensures Step(p, Release(slot)) ==
            p.(inFlight := p.inFlight[slot := false], holds := p.holds[..at] + p.holds[at + 1..])
  {
    at := FirstHold(p.holds, slot);
  }

  lemma IntactAfterRelease(p: Pool, slot: nat)
    requires HeldIntact(p) && Enabled(p, Release(slot))
    ensures HeldIntact(Step(p, Release(slot))) <==> !HeldTwice(p, slot)
  {
    if HeldTwice(p, slot) {
      BrokenByRelease(p, slot);
    } else {
      KeptByRelease(p, slot);
    }
  }

  lemma BrokenByRelease(p: Pool, slot: nat)
    requires Enabled(p, Release(slot)) && HeldTwice(p, slot)
    ensures !HeldIntact(Step(p, Release(slot)))
  {
    hide Step;
    var at := ReleaseEffect(p, slot);
    var q := Step(p, Release(slot));
    var i, j :| 0 <= i < j < |p.holds| && p.holds[i].slot == slot && p.holds[j].slot == slot;
    var k := if j != at then j else i;
    var left := if k < at then k else k - 1;
    Others(p.holds, at, left);
    assert !HoldIntact(q, q.holds[left]);
  }

  lemma KeptByRelease(p: Pool, slot: nat)
    requires HeldIntact(p) && Enabled(p, Release(slot)) && !HeldTwice(p, slot)
    ensures HeldIntact(Step(p, Release(slot)))
  {
    hide Step;
    var at := ReleaseEffect(p, slot);
    var q := Step(p, Release(slot));
    forall k | 0 <= k < |q.holds| ensures HoldIntact(q, q.holds[k]) {
      Others(p.holds, at, k);
      assert HoldIntact(p, q.holds[k]);
    }
  }

  lemma IntactAfterDecoding(p: Pool, e: Event)
    requires Inv(p) && HeldIntact(p) && Enabled(p, e) && (e.Pick? || e.Write? || e.Publish?)
    ensures HeldIntact(Step(p, e))
  {
    var q := Step(p, e);
    forall i | 0 <= i < |q.holds| ensures HoldIntact(q, q.holds[i]) {
      assert HoldIntact(p, p.holds[i]);
    }
  }

  /** A step breaks the promise to the scene if and only if it releases a buffer that the scene
      holds a second time. */
  lemma OnlyEarlyReleaseBreaks(p: Pool, e: Event)
    requires Inv(p) && HeldIntact(p) && Enabled(p, e)
    ensures HeldIntact(Step(p, e)) <==> !EarlyRelease(p, e)
  {
    hide HeldIntact, Inv, Step;
    match e
    case Acquire => IntactAfterAcquire(p);
    case Release(slot) => IntactAfterRelease(p, slot);
    case _ => IntactAfterDecoding(p, e);
  }

  ghost predicate AlwaysIntact(p: Pool, es: seq<Event>)
    requires Legal(p, es)
    decreases |es|
  {
    HeldIntact(p) && (es == [] || AlwaysIntact(Step(p, es[0]), es[1..]))
  }

  ghost predicate NoEarlyRelease(p: Pool, es: seq<Event>)
    requires Legal(p, es)
    decreases |es|
  {
    es == [] || (!EarlyRelease(p, es[0]) && NoEarlyRelease(Step(p, es[0]), es[1..]))
  }

  /** In every interleaving held buffers keep the frames they were acquired with throughout, if
      and only if no buffer is released while it is held a second time. */
  lemma {:induction false} HeldBuffersKeepTheirFrames(p: Pool, es: seq<Event>)
    requires Inv(p) && HeldIntact(p) && Legal(p, es)
    ensures AlwaysIntact(p, es) <==> NoEarlyRelease(p, es)
    decreases |es|
  {
    hide Inv, Step, Enabled, HeldIntact, EarlyRelease;
    if es != [] {
      InvStep(p, es[0]);
      OnlyEarlyReleaseBreaks(p, es[0]);
      if HeldIntact(Step(p, es[0])) {
        HeldBuffersKeepTheirFrames(Step(p, es[0]), es[1..]);
      }
    }
  }

  lemma {:induction false} IntactAtTheEnd(p: Pool, es: seq<Event>)
    requires Legal(p, es) && AlwaysIntact(p, es)
    ensures HeldIntact(Run(p, es))
    decreases |es|
  {
    hide HeldIntact, Step, Enabled;
    if es != [] {
      IntactAtTheEnd(Step(p, es[0]), es[1..]);
    }
  }

  // ----- a scene that does not acquire what it holds -----------------------------------

  /** The scene never acquires a buffer it still holds. */
  ghost predicate Disciplined(p: Pool, es: seq<Event>)
    requires Legal(p, es)
    decreases |es|
  {
    es == [] ||
    ((es[0] == Acquire ==> !Holds(p, HandsOut(p))) && Disciplined(Step(p, es[0]), es[1..]))
  }

  /** Every buffer the scene holds is in flight, held once, and still the frame acquired. */
  ghost predicate HoldsStable(p: Pool) {
    HeldIntact(p) && HeldOnce(p)
  }

  ghost predicate HeldOnce(p: Pool) {
    forall i, j :: 0 <= i < j < |p.holds| ==> p.holds[i].slot != p.holds[j].slot
  }

  lemma OnceAfterRelease(p: Pool, slot: nat)
    requires HeldOnce(p) && Enabled(p, Release(slot))
    ensures HeldOnce(Step(p, Release(slot)))
  {
    hide Step;
    var at := ReleaseEffect(p, slot);
    var q := Step(p, Release(slot));
    forall i, j | 0 <= i < j < |q.holds| ensures q.holds[i].slot != q.holds[j].slot {
      Others(p.holds, at, i);
      Others(p.holds, at, j);
    }
  }

  lemma OnceAfterAcquire(p: Pool)
    requires HeldOnce(p) && Enabled(p, Acquire) && !Holds(p, HandsOut(p))
    ensures HeldOnce(Step(p, Acquire))
  {
    assert forall i :: 0 <= i < |p.holds| ==> p.holds[i].slot != HandsOut(p);
  }

  lemma OnceStep(p: Pool, e: Event)
    requires HeldOnce(p) && Enabled(p, e) && (e == Acquire ==> !Holds(p, HandsOut(p)))
    ensures HeldOnce(Step(p, e)) && !EarlyRelease(p, e)
  {
    match e
    case Acquire => OnceAfterAcquire(p);
    case Release(slot) => OnceAfterRelease(p, slot);
    case _ =>
  }

  lemma {:induction false} DisciplineReleasesInTime(p: Pool, es: seq<Event>)
    requires HeldOnce(p) && Legal(p, es) && Disciplined(p, es)
    ensures NoEarlyRelease(p, es) && HeldOnce(Run(p, es))
    decreases |es|
  {
    hide Step, Enabled, HeldOnce, EarlyRelease;
    if es != [] {
      OnceStep(p, es[0]);
      DisciplineReleasesInTime(Step(p, es[0]), es[1..]);
    }
  }

  /** A scene that never acquires what it holds never releases early, so from acquire to release
      a held buffer is one whole frame, in every interleaving. */
  lemma HeldFramesAreStable(p: Pool, es: seq<Event>)
    requires Inv(p) && HoldsStable(p) && Legal(p, es) && Disciplined(p, es)
    ensures HoldsStable(Run(p, es)) && AlwaysIntact(p, es)
  {
    hide Inv, HeldIntact, HeldOnce, Run, Legal, Disciplined;
    DisciplineReleasesInTime(p, es);
    HeldBuffersKeepTheirFrames(p, es);
    IntactAtTheEnd(p, es);
  }

  /** The gate of the render loop: acquire to commit only when a new frame waits
      (has_fresh_content), or, for the first commit, when nothing is held any more. */
  ghost predicate Gated(p: Pool, es: seq<Event>)
    requires Legal(p, es)
    decreases |es|
  {
    es == [] ||
    ((es[0] == Acquire ==> p.pending >= 0 || p.holds == []) && Gated(Step(p, es[0]), es[1..]))
  }

  lemma GateNeverHandsOutAHeldBuffer(p: Pool)
    requires Inv(p) && HeldIntact(p) && (p.pending >= 0 || p.holds == [])
    ensures !Holds(p, HandsOut(p))
  {
  }

  lemma {:induction false} GatedIsDisciplined(p: Pool, es: seq<Event>)
    requires Inv(p) && HoldsStable(p) && Legal(p, es) && Gated(p, es)
    ensures Disciplined(p, es)
    decreases |es|
  {
    hide Inv, Step, Enabled, HeldIntact, HeldOnce, EarlyRelease;
    if es != [] {
      if es[0] == Acquire {
        GateNeverHandsOutAHeldBuffer(p);
      }
      InvStep(p, es[0]);
      OnceStep(p, es[0]);
      OnlyEarlyReleaseBreaks(p, es[0]);
      GatedIsDisciplined(Step(p, es[0]), es[1..]);
    }
  }

  /** Every run of the render loop is disciplined from the start, so what the scene holds is
      stable throughout. */
  lemma GatedRunsAreStable(es: seq<Event>)
    requires Legal(EMPTY_POOL, es) && Gated(EMPTY_POOL, es)
    ensures Disciplined(EMPTY_POOL, es)
    ensures AlwaysIntact(EMPTY_POOL, es) && HoldsStable(Run(EMPTY_POOL, es))
  {
    InvInit();
    GatedIsDisciplined(EMPTY_POOL, es);
    HeldFramesAreStable(EMPTY_POOL, es);
  }

  lemma {:induction false} RunSnoc(p: Pool, es: seq<Event>, e: Event)
    requires Legal(p, es) && Enabled(Run(p, es), e)
    ensures Legal(p, es + [e]) && Run(p, es + [e]) == Step(Run(p, es), e)
    decreases |es|
  {
    hide Enabled, Step;
    if es == [] {
      assert Legal(Step(p, e), []);
      assert es + [e] == [e];
    } else {
      RunSnoc(Step(p, es[0]), es[1..], e);
      assert (es + [e])[1..] == es[1..] + [e];
    }
  }

  /** One more whole frame decoded into `slot` and published. */
  lemma RunFrame(p: Pool, es: seq<Event>, q: Pool, slot: nat)
    requires Legal(p, es) && Run(p, es) == q && Shape(q) && q.filling < 0
    requires slot < BUFS && IsFree(q, slot) && forall j: nat :: j < slot ==> !IsFree(q, j)
    ensures Legal(p, es + FRAME)
    ensures Run(p, es + FRAME)
         == q.(frames := q.frames + 1, contents := q.contents[slot := Whole(q.frames + 1)],
               pending := slot, filling := -1, published := q.frames + 1)
  {
    hide Run, Legal;
    assert FreeSlotFrom(q, 0) == slot;
    RunSnoc(p, es, Pick);
    RunSnoc(p, es + [Pick], Write(true));
    RunSnoc(p, es + [Pick] + [Write(true)], Publish);
    assert es + [Pick] + [Write(true)] + [Publish] == es + FRAME;
  }

  const FRAME: seq<Event> := [Pick, Write(true), Publish]

  /** The scene acquires the first frame twice and releases it once. */
  lemma AcquiredTwice()
    ensures var es := FRAME + [Acquire] + [Acquire] + [Release(0)];
      && Legal(EMPTY_POOL, es)
      && Run(EMPTY_POOL, es)
         == Pool(0, -1, [false, false, false, false], [Whole(1), Blank, Blank, Blank],
                 -1, 1, 1, [1], [Hold(0, 1)])
  {
    var p := EMPTY_POOL;
    assert Legal(p, []) && Run(p, []) == p;
    hide Run, Legal;
    RunFrame(p, [], p, 0);
    assert [] + FRAME == FRAME;
    assert Run(p, FRAME) == Pool(-1, 0, [false, false, false, false], [Whole(1), Blank, Blank, Blank],
                                 -1, 1, 1, [], []);
    RunSnoc(p, FRAME, Acquire);
    RunSnoc(p, FRAME + [Acquire], Acquire);
    var q := Run(p, FRAME + [Acquire] + [Acquire]);
    assert q == Pool(0, -1, [true, false, false, false], [Whole(1), Blank, Blank, Blank],
                     -1, 1, 1, [1], [Hold(0, 1), Hold(0, 1)]);
    assert q.holds[0].slot == 0;
    RunSnoc(p, FRAME + [Acquire] + [Acquire], Release(0));
  }

  /** What an early release can lead to: a buffer acquired twice and released once is still
      held, and the decode thread writes into it. */
  lemma EarlyReleaseTearsAHeldBuffer()
    ensures var es := FRAME + [Acquire] + [Acquire] + [Release(0)] + FRAME + [Acquire] + [Pick] + [Write(false)];
      && Legal(EMPTY_POOL, es)
      && Run(EMPTY_POOL, es).holds == [Hold(0, 1), Hold(1, 2)]
      && Run(EMPTY_POOL, es).contents == [Torn, Whole(2), Blank, Blank]
  {
    AcquiredTwice();
    hide Run, Legal;
    var p, s := EMPTY_POOL, FRAME + [Acquire] + [Acquire] + [Release(0)];
    RunFrame(p, s, Run(p, s), 1);
    s := s + FRAME;
    assert Run(p, s) == Pool(0, 1, [false, false, false, false], [Whole(1), Whole(2), Blank, Blank],
                             -1, 2, 2, [1], [Hold(0, 1)]);
    RunSnoc(p, s, Acquire);
    s := s + [Acquire];
    assert Run(p, s) == Pool(1, -1, [false, true, false, false], [Whole(1), Whole(2), Blank, Blank],
                             -1, 2, 2, [1, 2], [Hold(0, 1), Hold(1, 2)]);
    RunSnoc(p, s, Pick);
    s := s + [Pick];
    RunSnoc(p, s, Write(false));
  }

  // ----- enough buffers ---------------------------------------------------------------

  function Count(s: seq<bool>): (n: nat)
    ensures n <= |s|
  {
    if s == [] then 0 else (if s[0] then 1 else 0) + Count(s[1..])
  }

  /** At most two buffers are in flight after every step. */
  ghost predicate AtMostTwo(p: Pool, es: seq<Event>)
    requires Legal(p, es)
    decreases |es|
  {
    Count(p.inFlight) <= 2 && (es == [] || AtMostTwo(Step(p, es[0]), es[1..]))
  }

  /** Two in flight include the one displayed. */
  predicate NewestIsAmongTwo(p: Pool) {
    Shape(p) && (Count(p.inFlight) == 2 ==> p.displayed >= 0 && p.inFlight[p.displayed])
  }

  lemma CountFour(s: seq<bool>)
    requires |s| == BUFS
    ensures Count(s) == (if s[0] then 1 else 0) + (if s[1] then 1 else 0) + (if s[2] then 1 else 0)
                      + (if s[3] then 1 else 0)
  {
    assert Count(s) == (if s[0] then 1 else 0) + Count(s[1..]);
    assert Count(s[1..]) == (if s[1] then 1 else 0) + Count(s[1..][1..]);
    assert s[1..][1..] == s[2..];
    assert Count(s[2..]) == (if s[2] then 1 else 0) + Count(s[2..][1..]);
    assert s[2..][1..] == s[3..] == [s[3]];
  }

  lemma NewestIsAmongTwoStep(p: Pool, e: Event)
    requires Inv(p) && NewestIsAmongTwo(p) && Enabled(p, e)
    requires Count(p.inFlight) <= 2 && Count(Step(p, e).inFlight) <= 2
    ensures NewestIsAmongTwo(Step(p, e))
  {
    CountFour(p.inFlight);
    CountFour(Step(p, e).inFlight);
  }

  lemma SlotIsFree(p: Pool)
    requires Inv(p) && NewestIsAmongTwo(p) && Count(p.inFlight) <= 2
    ensures FreeSlotFrom(p, 0) >= 0
  {
    CountFour(p.inFlight);
    assert IsFree(p, 0) || IsFree(p, 1) || IsFree(p, 2) || IsFree(p, 3);
  }

  /** Four buffers are enough for a scene that never holds more than two, in whatever order
      it releases them: a slot for the next frame is always found. */
  lemma {:induction false} PoolNeverDry(p: Pool, es: seq<Event>)
    requires Inv(p) && NewestIsAmongTwo(p) && Legal(p, es) && AtMostTwo(p, es)
    ensures FreeSlotFrom(Run(p, es), 0) >= 0
    decreases |es|
  {
    hide Inv, Step, Enabled, NewestIsAmongTwo;
    if es == [] {
      SlotIsFree(p);
    } else {
      InvStep(p, es[0]);
      assert AtMostTwo(Step(p, es[0]), es[1..]);
      NewestIsAmongTwoStep(p, es[0]);
      PoolNeverDry(Step(p, es[0]), es[1..]);
    }
  }

  lemma PoolNeverDryFromStart(es: seq<Event>)
    requires Legal(EMPTY_POOL, es) && AtMostTwo(EMPTY_POOL, es)
    ensures FreeSlotFrom(Run(EMPTY_POOL, es), 0) >= 0
  {
    InvInit();
    CountFour(EMPTY_POOL.inFlight);
    PoolNeverDry(EMPTY_POOL, es);
  }

  /** The slots in flight or displayed. */
  function Taken(p: Pool): (s: seq<bool>)
    requires Shape(p)
    ensures |s| == BUFS && forall i :: 0 <= i < BUFS ==> s[i] == (p.inFlight[i] || i == p.displayed)
  {
    seq(BUFS, i requires 0 <= i < BUFS => p.inFlight[i] || i == p.displayed)
  }

  /** A frame finds no slot, in any reachable state, if and only if the slots in flight or displayed,
      and one more for a frame that waits, are all four. */
  lemma DryIff(p: Pool)
    requires Inv(p)
    ensures FreeSlotFrom(p, 0) == -1 <==> Count(Taken(p)) + (if p.pending >= 0 then 1 else 0) == BUFS
  {
    CountFour(Taken(p));
    assert IsFree(p, 0) || IsFree(p, 1) || IsFree(p, 2) || IsFree(p, 3) <==> FreeSlotFrom(p, 0) >= 0;
  }

  /** Two is the limit: with three buffers held and a frame waiting, the next frame finds
      no slot and is dropped. */
  lemma ThreeHeldIsTooMany()
    ensures var es := FRAME + [Acquire] + FRAME + [Acquire] + FRAME + [Acquire] + FRAME;
      && Legal(EMPTY_POOL, es)
      && Run(EMPTY_POOL, es).inFlight == [true, true, true, false]
      && FreeSlotFrom(Run(EMPTY_POOL, es), 0) == -1
  {
    var p := EMPTY_POOL;
    assert Legal(p, []) && Run(p, []) == p;
    hide Run, Legal;
    assert [] + FRAME == FRAME;
    ShowOne(p, [], 0);
    ShowOne(p, FRAME + [Acquire], 1);
    ShowOne(p, FRAME + [Acquire] + FRAME + [Acquire], 2);
    var s := FRAME + [Acquire] + FRAME + [Acquire] + FRAME + [Acquire];
    RunFrame(p, s, Run(p, s), 3);
    var q := Run(p, s + FRAME);
    assert q.inFlight == [true, true, true, false];
    assert FreeSlotFrom(q, 4) == FreeSlotFrom(q, 3) == FreeSlotFrom(q, 2) == FreeSlotFrom(q, 1) == -1;
  }

  /** The first `n` buffers are held, the last of them displayed. */
  predicate FirstHeld(p: Pool, n: nat) {
    && Shape(p) && p.filling == p.pending == -1 && p.displayed == n - 1
    && forall i :: 0 <= i < BUFS ==> (p.inFlight[i] <==> i < n)
  }

  lemma ShowOne(p: Pool, es: seq<Event>, n: nat)
    requires n < BUFS && Legal(p, es) && FirstHeld(Run(p, es), n)
    ensures Legal(p, es + FRAME + [Acquire]) && FirstHeld(Run(p, es + FRAME + [Acquire]), n + 1)
  {
    hide Run, Legal;
    RunFrame(p, es, Run(p, es), n);
    RunSnoc(p, es + FRAME, Acquire);
  }

  // ----- the source object, as the code updates it --------------------------------------

  /** The pool's bookkeeping. Each method is one section under the lock, except Fill, which
      is the decode thread's write into its slot. The ghost fields say what is in the
      buffers and what the scene holds. */
  class SoftwareDecoderSource {
    var displayed: int
    var pending: int
    const inFlight: array<bool>
    const fbId: seq<nat>       // the kernel's framebuffer ids, one per buffer

    ghost var contents: seq<Content>
    ghost var filling: int
    ghost var frames: nat
    ghost var published: nat
    ghost var shown: seq<nat>
    ghost var holds: seq<Hold>

    ghost function View(): Pool
      reads this, inFlight
    {
      Pool(displayed, pending, inFlight[..], contents, filling, frames, published, shown, holds)
    }

    ghost predicate Valid()
      reads this, inFlight
    {
      && inFlight.Length == BUFS && |fbId| == BUFS
      && (forall i, j :: 0 <= i < j < BUFS ==> fbId[i] != fbId[j])
      && Inv(View())
    }

    constructor (ids: seq<nat>)
      requires |ids| == BUFS && forall i, j :: 0 <= i < j < BUFS ==> ids[i] != ids[j]
      ensures Valid() && View() == EMPTY_POOL && fbId == ids && fresh(inFlight)
    {
      displayed, pending := -1, -1;
      inFlight := new bool[BUFS](_ => false);
      fbId := ids;
      contents, filling := EMPTY_POOL.contents, -1;
      frames, published, shown, holds := 0, 0, [], [];
    }

    method PickFreeSlot() returns (slot: int)
      requires Valid()
      ensures slot == FreeSlotFrom(View(), 0)
    {
      for i := 0 to BUFS
        invariant FreeSlotFrom(View(), 0) == FreeSlotFrom(View(), i)
      {
        if i != displayed && i != pending && !inFlight[i] {
          return i;
        }
      }
      return -1;
    }

    /** A new frame: choose its slot, -1 when the frame is dropped. */
    method BeginFrame() returns (slot: int)
      requires Valid() && filling < 0
      modifies this
      ensures Valid() && View() == Step(old(View()), Pick) && slot == filling
    {
      InvStep(View(), Pick);
      slot := PickFreeSlot();
      filling := slot;
      frames := frames + 1;
    }

    ghost method Fill(done: bool)
      requires Valid() && filling >= 0
      modifies this`contents
      ensures Valid() && View() == Step(old(View()), Write(done))
    {
      InvStep(View(), Write(done));
      contents := contents[filling := if done then Whole(frames) else Torn];
    }

    method PublishFrame(slot: nat)
      requires Valid() && slot == filling && contents[slot] == Whole(frames)
      modifies this
      ensures Valid() && View() == Step(old(View()), Publish)
    {
      InvStep(View(), Publish);
      pending := slot;
      filling := -1;
      published := frames;
    }

    /** The framebuffer to scan out, or "try again" before the first frame. */
    method AcquireBuffer() returns (ok: bool, fb: nat)
      requires Valid()
      modifies this, inFlight
      ensures Valid() && View() == Step(old(View()), Acquire)
      ensures ok == (HandsOut(old(View())) >= 0)
      ensures ok ==> fb == fbId[displayed] && contents[displayed].Whole?
      ensures displayed == (if old(pending) >= 0 then old(pending) else old(displayed)) && pending == -1
    {
      InvStep(View(), Acquire);
      ghost var fresh' := pending >= 0;
      hide Increasing;
      if pending >= 0 {
        displayed := pending;
        pending := -1;
      }
      if displayed < 0 {
        return false, 0;
      }
      ghost var frame := contents[displayed].frame;
      inFlight[displayed] := true;
      holds := holds + [Hold(displayed, frame)];
      shown := if fresh' then shown + [frame] else shown;
      return true, fbId[displayed];
    }

    /** The buffer with this framebuffer id is off screen. */
    method ReleaseBuffer(fb: nat, ghost slot: nat)
      requires Valid() && slot < BUFS && fbId[slot] == fb && Holds(View(), slot)
      modifies this, inFlight
      ensures Valid() && View() == Step(old(View()), Release(slot))
    {
      InvStep(View(), Release(slot));
      ghost var first := FirstHold(holds, slot);
      for i := 0 to BUFS
        invariant i <= slot && View() == old(View())
        invariant forall j :: 0 <= j < i ==> fbId[j] != fb
      {
        if fbId[i] == fb {
          inFlight[i] := false;
          break;
        }
      }
      holds := holds[..first] + holds[first + 1..];
    }

    method HasFreshContent() returns (fresh': bool)
      requires Valid()
      ensures fresh' <==> pending >= 0
      ensures fresh' ==> contents[pending] == Whole(published)
      ensures fresh' ==> forall i :: 0 <= i < |shown| ==> shown[i] < published
    {
      fresh' := pending >= 0;
      assert fresh' && shown != [] ==> shown[|shown| - 1] < published;
    }
  }
}
