/** The USB transfers of a session (src/dongle.cpp). A ring of RX transfers is serviced by one
    event thread while other threads send and one of them stops the session. Every access to
    a shared flag or counter is a step of its own, so a run is any interleaving of the
    threads. Runs begin where a successful start() leaves the ring: all of it submitted. */
module Transfers {
  datatype Status = Completed | TimedOut | WasCancelled | NoDevice | Failure

  /** What libusb_submit_transfer() returned. */
  datatype Submitted = Accepted | Gone | Refused

  /** An RX transfer: with libusb, in its callback, given up by it, or freed by stop(). */
  datatype Slot = InFlight(cancelled: bool) | Called | Out | Released

  /** One call of send(): its buffer is allocated, counted, with libusb, freed (by a failed
      submit or by the completion) but still counted, or over. */
  datatype Send = Allocated | Counted | OnWire | SubmitFailed | Completing | Over

  /** Where the event thread is inside a callback. */
  datatype Callback =
    | NoCallback
    | Received(slot: nat, status: Status)
    | Resubmitting(slot: nat)
    | Leaving(slot: nat)
    | TxDone(send: nat)

  /** Where the event thread is in its loop; the three tests of the condition are separate. */
  datatype LoopPc = TestRunning | TestRx | TestTx | Handling | Exited

  datatype StopPc = NotCalled | Cancelling(next: nat) | Joining | Freeing(next: nat) | Stopped

  /** `frees` counts free() calls per send; `missed` collects the slots that were about to be
      resubmitted when stop() tried to cancel them. */
  datatype State = State(
    running: bool, failed: bool, rx: int, tx: int,
    ring: seq<Slot>, sends: seq<Send>, callback: Callback, loop: LoopPc, stop: StopPc,
    frees: seq<nat>, missed: set<nat>)

  /** The event thread outside callbacks. */
  datatype LoopEvent = LoopTest | HandlingReturns

  /** rx_complete(), in the order of its steps. Only a transfer that was cancelled comes back so. */
  datatype RxEvent = RxFires(slot: nat, status: Status) | RxDecides | RxResubmits(result: Submitted) | RxLeaves

  /** send(), on any thread, and tx_complete(). */
  datatype TxEvent =
    | SendBegins
    | SendCounts(send: nat)
    | SendSubmits(send: nat, result: Submitted)
    | SendGivesUp(send: nat)
    | TxFires(send: nat)
    | TxLeaves

  /** stop(), on the one thread that cleared `running`. */
  datatype StopEvent = StopBegins | StopCancels | StopJoins | StopFrees

  datatype Event = Loop(l: LoopEvent) | Rx(r: RxEvent) | Tx(t: TxEvent) | Stop(p: StopEvent)

  /** The event thread is between callbacks. */
  ghost predicate Idle(s: State) {
    s.loop.Handling? && s.callback.NoCallback?
  }

  ghost predicate LoopEnabled(s: State, e: LoopEvent) {
    match e
    case LoopTest => s.loop.TestRunning? || s.loop.TestRx? || s.loop.TestTx?
    case HandlingReturns => Idle(s)
  }

  ghost function LoopStep(s: State, e: LoopEvent): (t: State)
    requires LoopEnabled(s, e)
    ensures |t.ring| == |s.ring|
  {
    match e
    case LoopTest =>
      if s.loop.TestRunning? then s.(loop := if s.running then Handling else TestRx)
      else if s.loop.TestRx? then s.(loop := if s.rx > 0 then Handling else TestTx)
      else s.(loop := if s.tx > 0 then Handling else Exited)
    case HandlingReturns => s.(loop := TestRunning)
  }

  ghost predicate RxEnabled(s: State, e: RxEvent) {
    match e
    case RxFires(i, status) =>
      Idle(s) && i < |s.ring| && s.ring[i].InFlight? && (status.WasCancelled? ==> s.ring[i].cancelled)
    case RxDecides => s.callback.Received?
    case RxResubmits(_) => s.callback.Resubmitting? && s.callback.slot < |s.ring|
    case RxLeaves => s.callback.Leaving? && s.callback.slot < |s.ring|
  }

  ghost function RxStep(s: State, e: RxEvent): (t: State)
    requires RxEnabled(s, e)
    ensures |t.ring| == |s.ring|
  {
    match e
    case RxFires(i, status) => s.(ring := s.ring[i := Called], callback := Received(i, status))
    case RxDecides =>
      var i := s.callback.slot;
      if s.callback.status.Completed? || s.callback.status.TimedOut? then
        s.(callback := if s.running then Resubmitting(i) else Leaving(i))
      else
        s.(callback := Leaving(i), failed := s.failed || s.callback.status.NoDevice?)
    case RxResubmits(result) =>
      var i := s.callback.slot;
      if result.Accepted? then s.(callback := NoCallback, ring := s.ring[i := InFlight(false)])
      else s.(callback := Leaving(i), failed := s.failed || result.Gone?)
    case RxLeaves => s.(callback := NoCallback, rx := s.rx - 1, ring := s.ring[s.callback.slot := Out])
  }

  ghost predicate TxEnabled(s: State, e: TxEvent) {
    match e
    case SendBegins => s.running
    case SendCounts(k) => k < |s.sends| && s.sends[k].Allocated?
    case SendSubmits(k, _) => k < |s.sends| && s.sends[k].Counted? && k < |s.frees|
    case SendGivesUp(k) => k < |s.sends| && s.sends[k].SubmitFailed?
    case TxFires(k) => Idle(s) && k < |s.sends| && s.sends[k].OnWire? && k < |s.frees|
    case TxLeaves => s.callback.TxDone? && s.callback.send < |s.sends|
  }

  ghost function TxStep(s: State, e: TxEvent): (t: State)
    requires TxEnabled(s, e)
    ensures |t.ring| == |s.ring|
  {
    match e
    case SendBegins => s.(sends := s.sends + [Allocated], frees := s.frees + [0])
    case SendCounts(k) => s.(tx := s.tx + 1, sends := s.sends[k := Counted])
    case SendSubmits(k, result) =>
      if result.Accepted? then s.(sends := s.sends[k := OnWire])
      else s.(sends := s.sends[k := SubmitFailed], frees := s.frees[k := s.frees[k] + 1],
              failed := s.failed || result.Gone?)
    case SendGivesUp(k) => s.(tx := s.tx - 1, sends := s.sends[k := Over])
    case TxFires(k) =>
      s.(callback := TxDone(k), sends := s.sends[k := Completing], frees := s.frees[k := s.frees[k] + 1])
    case TxLeaves => s.(callback := NoCallback, tx := s.tx - 1, sends := s.sends[s.callback.send := Over])
  }

  ghost predicate StopEnabled(s: State, e: StopEvent) {
    match e
    case StopBegins => s.running && s.stop.NotCalled?
    case StopCancels => s.stop.Cancelling?
    case StopJoins => s.stop.Joining? && s.loop.Exited?
    case StopFrees => s.stop.Freeing?
  }

  ghost function StopStep(s: State, e: StopEvent): (t: State)
    requires StopEnabled(s, e)
    ensures |t.ring| == |s.ring|
  {
    match e
    case StopBegins => s.(running := false, stop := Cancelling(0))
    case StopCancels =>
      var i := s.stop.next;
      if i >= |s.ring| then s.(stop := Joining)
      else if s.ring[i].InFlight? then s.(ring := s.ring[i := InFlight(true)], stop := Cancelling(i + 1))
      else s.(stop := Cancelling(i + 1),
              missed := if s.callback == Resubmitting(i) then s.missed + {i} else s.missed)
    case StopJoins => s.(stop := Freeing(0))
    case StopFrees =>
      var i := s.stop.next;
      if i >= |s.ring| then s.(stop := Stopped)
      else s.(ring := s.ring[i := Released], stop := Freeing(i + 1))
  }

  ghost predicate Enabled(s: State, e: Event) {
    match e
    case Loop(l) => LoopEnabled(s, l)
    case Rx(r) => RxEnabled(s, r)
    case Tx(t) => TxEnabled(s, t)
    case Stop(p) => StopEnabled(s, p)
  }

  ghost function Step(s: State, e: Event): (t: State)
    requires Enabled(s, e)
    ensures |t.ring| == |s.ring|
  {
    match e
    case Loop(l) => LoopStep(s, l)
    case Rx(r) => RxStep(s, r)
    case Tx(t) => TxStep(s, t)
    case Stop(p) => StopStep(s, p)
  }

  ghost predicate Possible(s: State, events: seq<Event>)
    decreases |events|
  {
    events == [] || (Enabled(s, events[0]) && Possible(Step(s, events[0]), events[1..]))
  }

  ghost function Run(s: State, events: seq<Event>): (t: State)
    requires Possible(s, events)
    ensures |t.ring| == |s.ring|
    decreases |events|
  {
    if events == [] then s else Run(Step(s, events[0]), events[1..])
  }

  /** start() has succeeded with `n` transfers. */
  function Started(n: nat): State {
    State(true, false, n, 0, seq(n, _ => InFlight(false)), [], NoCallback, TestRunning, NotCalled, [], {})
  }

  // ----- counting -------------------------------------------------------------------------

  /** The slots libusb or a callback still owns. */
  function Owned(ring: seq<Slot>): nat {
    if ring == [] then 0
    else Owned(ring[..|ring| - 1]) + (if IsOwned(ring[|ring| - 1]) then 1 else 0)
  }

  predicate IsOwned(x: Slot) {
    x.InFlight? || x.Called?
  }

  function Open(sends: seq<Send>): nat {
    if sends == [] then 0
    else Open(sends[..|sends| - 1]) + (if IsOpen(sends[|sends| - 1]) then 1 else 0)
  }

  predicate IsOpen(x: Send) {
    !x.Allocated? && !x.Over?
  }

  lemma {:induction false} OwnedUpdate(ring: seq<Slot>, i: nat, x: Slot)
    requires i < |ring|
    ensures Owned(ring[i := x]) == Owned(ring) + (if IsOwned(x) then 1 else 0) - (if IsOwned(ring[i]) then 1 else 0)
  {
    var n := |ring| - 1;
    if i == n {
      assert ring[i := x][..n] == ring[..n];
    } else {
      assert ring[i := x][..n] == ring[..n][i := x];
      OwnedUpdate(ring[..n], i, x);
    }
  }

  lemma {:induction false} OpenUpdate(sends: seq<Send>, k: nat, x: Send)
    requires k < |sends|
    ensures Open(sends[k := x]) == Open(sends) + (if IsOpen(x) then 1 else 0) - (if IsOpen(sends[k]) then 1 else 0)
  {
    var n := |sends| - 1;
    if k == n {
      assert sends[k := x][..n] == sends[..n];
    } else {
      assert sends[k := x][..n] == sends[..n][k := x];
      OpenUpdate(sends[..n], k, x);
    }
  }

  lemma {:induction false} OwnedZero(ring: seq<Slot>)
    ensures Owned(ring) == 0 <==> forall i :: 0 <= i < |ring| ==> !IsOwned(ring[i])
  {
    if ring != [] {
      var n := |ring| - 1;
      OwnedZero(ring[..n]);
      assert forall i :: 0 <= i < n ==> ring[..n][i] == ring[i];
      if forall i :: 0 <= i < n ==> !IsOwned(ring[..n][i]) {
        assert forall i :: 0 <= i < n ==> !IsOwned(ring[i]);
      }
    }
  }

  lemma {:induction false} OwnedAll(n: nat)
    ensures Owned(seq(n, _ => InFlight(false))) == n
  {
    if n > 0 {
      OwnedAll(n - 1);
      assert seq(n, _ => InFlight(false))[..n - 1] == seq(n - 1, _ => InFlight(false));
    }
  }

  // ----- the invariant -----------------------------------------------------------------------

  /** The counters count exactly what libusb or a thread still owes a decrement for. */
  ghost predicate CountersExact(s: State) {
    s.rx == Owned(s.ring) && s.tx == Open(s.sends)
  }

  /** The slot a callback works on. */
  ghost predicate CallbackOn(c: Callback, i: nat) {
    (c.Received? || c.Resubmitting? || c.Leaving?) && c.slot == i
  }

  /** One callback at a time, on the event thread, for a transfer that is in it. */
  ghost predicate CallbackOk(s: State) {
    && (!s.callback.NoCallback? ==> s.loop.Handling?)
    && (forall i :: 0 <= i < |s.ring| ==> (s.ring[i].Called? <==> CallbackOn(s.callback, i)))
    && (s.callback.Received? || s.callback.Resubmitting? || s.callback.Leaving? ==> s.callback.slot < |s.ring|)
    && (forall k :: 0 <= k < |s.sends| ==> (s.sends[k].Completing? <==> s.callback == TxDone(k)))
    && (s.callback.TxDone? ==> s.callback.send < |s.sends|)
  }

  /** A buffer has been freed once when its send is past libusb, and never before. */
  ghost predicate FreedOnce(s: State) {
    && |s.frees| == |s.sends|
    && (forall k :: 0 <= k < |s.sends| ==>
          s.frees[k] == if s.sends[k].SubmitFailed? || s.sends[k].Completing? || s.sends[k].Over? then 1 else 0)
  }

  /** stop() has cleared `running`; past the RX test of its condition the loop has seen the
      RX counter at zero; the ring is freed only after the loop has exited. */
  ghost predicate Phases(s: State) {
    && (s.running <==> s.stop.NotCalled?)
    && (s.loop.TestRx? || s.loop.TestTx? || s.loop.Exited? ==> !s.running)
    && (s.loop.TestTx? || s.loop.Exited? ==> s.rx == 0)
    && (s.stop.Freeing? || s.stop.Stopped? ==> s.loop.Exited?)
    && (forall i :: 0 <= i < |s.ring| ==>
          (s.ring[i].Released? <==> s.stop.Stopped? || (s.stop.Freeing? && i < s.stop.next)))
  }

  /** stop() has tried to cancel slot `i`. */
  ghost predicate Passed(s: State, i: nat) {
    !s.stop.NotCalled? && (s.stop.Cancelling? ==> i < s.stop.next)
  }

  /** A slot in flight and not cancelled after stop() passed it is one it missed; that is at
      most the one slot whose callback had read `running` before stop() cleared it. */
  ghost predicate Escapes(s: State) {
    && (forall i :: i in s.missed ==> i < |s.ring| && Passed(s, i))
    && (forall i, j :: i in s.missed && j in s.missed ==> i == j)
    && (forall i, j :: i in s.missed && s.callback == Resubmitting(j) ==> i == j)
    && (forall i :: 0 <= i < |s.ring| && Passed(s, i) && s.callback == Resubmitting(i) ==> i in s.missed)
    && (forall i :: 0 <= i < |s.ring| && Passed(s, i) && s.ring[i] == InFlight(false) ==> i in s.missed)
  }

  ghost predicate Inv(s: State) {
    CountersExact(s) && CallbackOk(s) && FreedOnce(s) && Phases(s) && Escapes(s)
  }

  lemma StartedInv(n: nat)
    ensures Inv(Started(n))
  {
    OwnedAll(n);
  }

  lemma LoopKeeps(s: State, e: LoopEvent)
    requires Inv(s) && LoopEnabled(s, e)
    ensures Inv(LoopStep(s, e))
  {
    hide Owned, Open;
  }

  lemma RxCounters(s: State, e: RxEvent)
    requires Inv(s) && RxEnabled(s, e)
    ensures CountersExact(RxStep(s, e))
  {
    hide FreedOnce, Phases, Escapes;
    match e
    case RxFires(i, _) => OwnedUpdate(s.ring, i, Called);
    case RxDecides =>
    case RxResubmits(_) => OwnedUpdate(s.ring, s.callback.slot, InFlight(false));
    case RxLeaves => OwnedUpdate(s.ring, s.callback.slot, Out);
  }

  lemma RxCallback(s: State, e: RxEvent)
    requires Inv(s) && RxEnabled(s, e)
    ensures CallbackOk(RxStep(s, e)) && FreedOnce(RxStep(s, e))
  {
    hide Owned, Open, Phases, Escapes;
  }

  lemma RxPhases(s: State, e: RxEvent)
    requires Inv(s) && RxEnabled(s, e)
    ensures Phases(RxStep(s, e))
  {
    hide Owned, Open, Escapes, FreedOnce;
  }

  lemma RxEscapes(s: State, e: RxEvent)
    requires Inv(s) && RxEnabled(s, e)
    ensures Escapes(RxStep(s, e))
  {
    hide CountersExact, FreedOnce;
  }

  lemma TxCounters(s: State, e: TxEvent)
    requires Inv(s) && TxEnabled(s, e)
    ensures CountersExact(TxStep(s, e))
  {
    hide FreedOnce, Phases, Escapes;
    match e
    case SendBegins => assert (s.sends + [Allocated])[..|s.sends|] == s.sends;
    case SendCounts(k) => OpenUpdate(s.sends, k, Counted);
    case SendSubmits(k, result) => OpenUpdate(s.sends, k, if result.Accepted? then OnWire else SubmitFailed);
    case SendGivesUp(k) => OpenUpdate(s.sends, k, Over);
    case TxFires(k) => OpenUpdate(s.sends, k, Completing);
    case TxLeaves => OpenUpdate(s.sends, s.callback.send, Over);
  }

  lemma TxCallback(s: State, e: TxEvent)
    requires Inv(s) && TxEnabled(s, e)
    ensures CallbackOk(TxStep(s, e))
  {
    hide Owned, Open, Phases, Escapes, FreedOnce;
  }

  lemma TxFrees(s: State, e: TxEvent)
    requires Inv(s) && TxEnabled(s, e)
    ensures FreedOnce(TxStep(s, e))
  {
    hide Owned, Open, Phases, Escapes;
  }

  lemma TxRest(s: State, e: TxEvent)
    requires Inv(s) && TxEnabled(s, e)
    ensures Phases(TxStep(s, e)) && Escapes(TxStep(s, e))
  {
    hide CountersExact, FreedOnce;
  }

  lemma StopCounters(s: State, e: StopEvent)
    requires Inv(s) && StopEnabled(s, e)
    ensures CountersExact(StopStep(s, e))
  {
    hide FreedOnce, Escapes;
    if e.StopCancels? && s.stop.next < |s.ring| {
      OwnedUpdate(s.ring, s.stop.next, InFlight(true));
    } else if e.StopFrees? && s.stop.next < |s.ring| {
      OwnedZero(s.ring);
      OwnedUpdate(s.ring, s.stop.next, Released);
    }
  }

  lemma StopCallback(s: State, e: StopEvent)
    requires Inv(s) && StopEnabled(s, e)
    ensures CallbackOk(StopStep(s, e)) && FreedOnce(StopStep(s, e))
  {
    hide Owned, Open, Escapes, FreedOnce;
    var t := StopStep(s, e);
    assert FreedOnce(t) by { SameSends(s, t); }
    if e.StopFrees? {
      OwnedZero(s.ring);
      assert s.callback.NoCallback?;
    }
    assert forall i :: 0 <= i < |s.ring| ==> t.ring[i].Called? == s.ring[i].Called?;
  }

  lemma SameSends(s: State, t: State)
    requires FreedOnce(s) && t.sends == s.sends && t.frees == s.frees
    ensures FreedOnce(t)
  {
  }

  lemma StopPhases(s: State, e: StopEvent)
    requires Inv(s) && StopEnabled(s, e)
    ensures Phases(StopStep(s, e))
  {
    hide Owned, Open, Escapes, CallbackOk, FreedOnce;
  }

  lemma StopEscapes(s: State, e: StopEvent)
    requires Inv(s) && StopEnabled(s, e)
    ensures Escapes(StopStep(s, e))
  {
    hide CountersExact, FreedOnce;
    if e.StopCancels? && s.stop.next < |s.ring| {
      CancelEscapes(s, StopStep(s, e), s.stop.next);
    } else {
      assert forall i :: 0 <= i < |s.ring| ==> StopStep(s, e).ring[i] in {s.ring[i], Released};
    }
  }

  lemma CancelEscapes(s: State, t: State, at: nat)
    requires Escapes(s) && CallbackOk(s) && s.stop == Cancelling(at) && at < |s.ring|
    requires t == s.(stop := Cancelling(at + 1), ring := t.ring, missed := t.missed)
    requires t.ring == if s.ring[at].InFlight? then s.ring[at := InFlight(true)] else s.ring
    requires t.missed == if s.callback == Resubmitting(at) then s.missed + {at} else s.missed
    ensures Escapes(t)
  {
  }

  /** Every step of every thread keeps the invariant. */
  lemma InvStep(s: State, e: Event)
    requires Inv(s) && Enabled(s, e)
    ensures Inv(Step(s, e))
  {
    hide LoopStep, RxStep, TxStep, StopStep, LoopEnabled, RxEnabled, TxEnabled, StopEnabled;
    hide CountersExact, CallbackOk, FreedOnce, Phases, Escapes;
    match e
    case Loop(l) => LoopKeeps(s, l);
    case Rx(r) => RxCounters(s, r); RxCallback(s, r); RxPhases(s, r); RxEscapes(s, r);
    case Tx(t) => TxCounters(s, t); TxCallback(s, t); TxFrees(s, t); TxRest(s, t);
    case Stop(p) => StopCounters(s, p); StopCallback(s, p); StopPhases(s, p); StopEscapes(s, p);
  }

  lemma {:induction false} InvRun(s: State, events: seq<Event>)
    requires Inv(s) && Possible(s, events)
    ensures Inv(Run(s, events))
    decreases |events|
  {
    if events != [] {
      InvStep(s, events[0]);
      InvRun(Step(s, events[0]), events[1..]);
    }
  }

  // ----- safety over every run ------------------------------------------------------------------

  /** The RX counter is the number of transfers submitted or in their callback, and the TX
      counter the number of sends between their increment and their decrement, at every
      moment of every interleaving. */
  lemma CountersAlwaysExact(n: nat, events: seq<Event>)
    requires Possible(Started(n), events)
    ensures var s := Run(Started(n), events);
            s.rx == Owned(s.ring) && s.tx == Open(s.sends)
  {
    StartedInv(n);
    InvRun(Started(n), events);
  }

  /** No transfer is with libusb or in a callback. */
  ghost predicate Quiet(s: State) {
    && s.callback.NoCallback?
    && (forall i :: 0 <= i < |s.ring| ==> !s.ring[i].InFlight? && !s.ring[i].Called?)
  }

  lemma ExitedIsQuiet(s: State)
    requires Inv(s) && s.loop.Exited?
    ensures Quiet(s)
  {
    OwnedZero(s.ring);
  }

  /** From the moment stop() starts freeing the ring, whatever the other threads still do, no
      transfer is in flight, no callback runs, and the freed transfers are exactly those stop()
      has reached; when it returns all of them have been freed. */
  lemma FreedRingIsQuiet(n: nat, events: seq<Event>, more: seq<Event>)
    requires Possible(Started(n), events) && Possible(Run(Started(n), events), more)
    requires var s := Run(Started(n), events); s.stop.Freeing? || s.stop.Stopped?
    ensures var t := Run(Run(Started(n), events), more);
            && (t.stop.Freeing? || t.stop.Stopped?) && Quiet(t)
            && (forall i :: 0 <= i < n ==> (t.ring[i].Released? <==> t.stop.Stopped? || i < t.stop.next))
  {
    hide Owned, Open, CallbackOk, FreedOnce, Escapes, CountersExact, Possible, Run, Quiet;
    StartedInv(n);
    InvRun(Started(n), events);
    StaysFreeing(Run(Started(n), events), more);
    InvRun(Run(Started(n), events), more);
    ExitedIsQuiet(Run(Run(Started(n), events), more));
  }

  lemma {:induction false} StaysFreeing(s: State, events: seq<Event>)
    requires Possible(s, events) && (s.stop.Freeing? || s.stop.Stopped?)
    ensures Run(s, events).stop.Freeing? || Run(s, events).stop.Stopped?
    decreases |events|
  {
    hide LoopStep, RxStep, TxStep, LoopEnabled, RxEnabled, TxEnabled;
    if events != [] {
      StopMovesOn(s, events[0]);
      StaysFreeing(Step(s, events[0]), events[1..]);
    }
  }

  lemma StopMovesOn(s: State, e: Event)
    requires Enabled(s, e)
    ensures !e.Stop? ==> Step(s, e).stop == s.stop
    ensures (s.stop.Freeing? || s.stop.Stopped?) ==> Step(s, e).stop.Freeing? || Step(s, e).stop.Stopped?
  {
  }

  /** Every TX buffer is freed at most once, never while libusb has it, and has been freed by
      the time its send is over, whether the submit failed or the completion came. */
  lemma BuffersFreedOnce(n: nat, events: seq<Event>, k: nat)
    requires Possible(Started(n), events) && k < |Run(Started(n), events).sends|
    ensures var s := Run(Started(n), events);
            && |s.frees| == |s.sends| && s.frees[k] <= 1
            && (s.sends[k].OnWire? ==> s.frees[k] == 0)
            && (s.sends[k].Over? ==> s.frees[k] == 1)
  {
    StartedInv(n);
    InvRun(Started(n), events);
  }

  /** The loop ends only after stop() was called and every RX callback has returned. */
  lemma LoopOutlivesTheRing(n: nat, events: seq<Event>)
    requires Possible(Started(n), events) && Run(Started(n), events).loop.Exited?
    ensures var s := Run(Started(n), events); !s.running && s.rx == 0 && Quiet(s)
  {
    StartedInv(n);
    InvRun(Started(n), events);
    ExitedIsQuiet(Run(Started(n), events));
  }

  // ----- how long stop() waits ----------------------------------------------------------------------

  /** Once stop() is past its cancel loop, at most one transfer is in flight uncancelled. */
  lemma AtMostOneEscapes(n: nat, events: seq<Event>, i: nat, j: nat)
    requires Possible(Started(n), events) && i < n && j < n
    requires var s := Run(Started(n), events);
             s.stop.Joining? && s.ring[i] == s.ring[j] == InFlight(false)
    ensures i == j && i in Run(Started(n), events).missed
  {
    StartedInv(n);
    InvRun(Started(n), events);
  }

  /** Until the device answers a transfer that is in flight, stop() does not return. */
  lemma {:induction false} StopWaitsForTheDevice(s: State, events: seq<Event>, i: nat)
    requires Inv(s) && Possible(s, events) && i < |s.ring| && s.ring[i].InFlight? && s.stop.Joining?
    requires forall k :: 0 <= k < |events| ==> !(events[k].Rx? && events[k].r.RxFires? && events[k].r.slot == i)
    ensures var t := Run(s, events); t.stop.Joining? && !t.loop.Exited? && t.ring[i] == s.ring[i]
    decreases |events|
  {
    hide Inv, LoopStep, RxStep, TxStep, StopStep, LoopEnabled, RxEnabled, TxEnabled, StopEnabled;
    InFlightKeepsLoop(s, i);
    if events != [] {
      InFlightStays(s, events[0], i);
      InvStep(s, events[0]);
      StopWaitsForTheDevice(Step(s, events[0]), events[1..], i);
    }
  }

  lemma InFlightKeepsLoop(s: State, i: nat)
    requires Inv(s) && i < |s.ring| && s.ring[i].InFlight?
    ensures !s.loop.Exited?
  {
    OwnedZero(s.ring);
  }

  lemma InFlightStays(s: State, e: Event, i: nat)
    requires Inv(s) && Enabled(s, e) && i < |s.ring| && s.ring[i].InFlight? && s.stop.Joining?
    requires !(e.Rx? && e.r.RxFires? && e.r.slot == i)
    ensures var t := Step(s, e); t.stop.Joining? && i < |t.ring| && t.ring[i] == s.ring[i]
  {
    hide Owned, Open, FreedOnce, Phases, Escapes, CountersExact;
    InFlightKeepsLoop(s, i);
  }

  /** A transfer can escape: its callback reads `running`, stop() clears the flag and tries to
      cancel it, and then it is submitted again, with no timeout. */
  lemma ATransferCanEscape()
    ensures exists events ::
      Possible(Started(1), events) &&
      var s := Run(Started(1), events); s.stop.Joining? && s.ring == [InFlight(false)]
  {
    hide Owned;
    hide Possible, Run;
    var a := Started(1);
    var run: seq<Event> := [];
    assert Possible(a, run) && Run(a, run) == a by { Nothing(a); }
    run := Then(a, run, Loop(LoopTest));
    run := Then(a, run, Rx(RxFires(0, Completed)));
    run := Then(a, run, Rx(RxDecides));
    run := Then(a, run, Stop(StopBegins));
    run := Then(a, run, Stop(StopCancels));
    run := Then(a, run, Stop(StopCancels));
    run := Then(a, run, Rx(RxResubmits(Accepted)));
  }

  /** What stop() does not promise: a send that read `running` before stop() cleared it can
      reach libusb after the event thread, which would run its completion, has gone. */
  lemma ASendCanOutliveTheLoop()
    ensures exists events ::
      Possible(Started(1), events) &&
      var s := Run(Started(1), events); s.loop.Exited? && s.sends == [OnWire] && s.frees == [0]
  {
    hide Owned;
    hide Possible, Run;
    var a := Started(1);
    var run: seq<Event> := [];
    assert Possible(a, run) && Run(a, run) == a by { Nothing(a); }
    run := Then(a, run, Tx(SendBegins));
    run := Then(a, run, Loop(LoopTest));
    run := Then(a, run, Rx(RxFires(0, NoDevice)));
    run := Then(a, run, Rx(RxDecides));
    run := Then(a, run, Rx(RxLeaves));
    run := Then(a, run, Loop(HandlingReturns));
    run := Then(a, run, Stop(StopBegins));
    run := Then(a, run, Loop(LoopTest));
    run := Then(a, run, Loop(LoopTest));
    run := Then(a, run, Loop(LoopTest));
    run := Then(a, run, Tx(SendCounts(0)));
    run := Then(a, run, Tx(SendSubmits(0, Accepted)));
  }

  lemma Nothing(s: State)
    ensures Possible(s, []) && Run(s, []) == s
  {
  }

  /** One more event at the end of a run. */
  lemma {:induction false} Then(s: State, run: seq<Event>, e: Event) returns (longer: seq<Event>)
    requires Possible(s, run) && Enabled(Run(s, run), e)
    ensures Possible(s, longer) && Run(s, longer) == Step(Run(s, run), e)
    decreases |run|
  {
    hide Enabled, Step;
    longer := run + [e];
    if run == [] {
      assert longer[1..] == [];
    } else {
      var rest := Then(Step(s, run[0]), run[1..], e);
      longer := [run[0]] + rest;
      assert longer[1..] == rest;
    }
  }

  // ----- the functions themselves -----------------------------------------------------------------

  /** The steps of one rx_complete() that nothing interrupts. */
  lemma RxSteps(s: State, result: Submitted) returns (run: seq<Event>)
    requires Inv(s) && s.callback.Received?
    ensures Possible(s, run) && s.callback.slot < |s.ring|
    ensures var data := s.callback.status.Completed? || s.callback.status.TimedOut?;
            var kept := data && s.running && result.Accepted?;
            Run(s, run) == s.(
              ring := s.ring[s.callback.slot := if kept then InFlight(false) else Out],
              rx := if kept then s.rx else s.rx - 1, callback := NoCallback,
              failed := s.failed || s.callback.status.NoDevice? || (data && s.running && result.Gone?))
  {
    hide Owned, Open, Possible, Run, Inv, LoopStep, TxStep, StopStep;
    SlotInRing(s);
    run := [];
    Nothing(s);
    run := Then(s, run, Rx(RxDecides));
    if Run(s, run).callback.Resubmitting? {
      run := Then(s, run, Rx(RxResubmits(result)));
    }
    if Run(s, run).callback.Leaving? {
      run := Then(s, run, Rx(RxLeaves));
    }
  }

  /** What libusb_cancel_transfer() does: nothing to a transfer it does not have. */
  function Cancelled(x: Slot): Slot {
    if x.InFlight? then InFlight(true) else x
  }

  lemma {:induction false} CancelFrom(s: State) returns (run: seq<Event>)
    requires s.stop.Cancelling? && s.stop.next <= |s.ring|
    ensures Possible(s, run)
    ensures Run(s, run) == s.(stop := Joining, ring := Run(s, run).ring, missed := Run(s, run).missed)
    ensures forall i :: 0 <= i < |s.ring| ==>
              Run(s, run).ring[i] == if i < s.stop.next then s.ring[i] else Cancelled(s.ring[i])
    decreases |s.ring| - s.stop.next
  {
    hide Owned, Open, LoopStep, RxStep, TxStep;
    var t := Step(s, Stop(StopCancels));
    var rest := [];
    if s.stop.next < |s.ring| {
      rest := CancelFrom(t);
    } else {
      Nothing(t);
    }
    run := [Stop(StopCancels)] + rest;
    assert run[1..] == rest;
  }

  /** The steps of stop() up to the join when nothing interrupts it. */
  lemma CancelSteps(s: State) returns (run: seq<Event>)
    requires Inv(s) && s.running
    ensures Possible(s, run)
    ensures Run(s, run) == s.(running := false, stop := Joining, ring := Run(s, run).ring, missed := Run(s, run).missed)
    ensures forall i :: 0 <= i < |s.ring| ==> Run(s, run).ring[i] == Cancelled(s.ring[i])
  {
    hide Owned, Open, LoopStep, RxStep, TxStep;
    NotStoppedYet(s);
    var t := Step(s, Stop(StopBegins));
    var rest := CancelFrom(t);
    run := [Stop(StopBegins)] + rest;
    assert run[1..] == rest;
  }

  /** The steps of one send() that nothing interrupts. */
  lemma SendSteps(s: State, result: Submitted) returns (run: seq<Event>)
    requires Inv(s) && s.running
    ensures Possible(s, run)
    ensures Run(s, run) ==
            if result.Accepted? then s.(tx := s.tx + 1, sends := s.sends + [OnWire], frees := s.frees + [0])
            else s.(sends := s.sends + [Over], frees := s.frees + [1], failed := s.failed || result.Gone?)
  {
    hide Owned, Open, Possible, Run, Inv, LoopStep, RxStep, StopStep;
    OneFreePerSend(s);
    var k := |s.sends|;
    run := [];
    Nothing(s);
    run := Then(s, run, Tx(SendBegins));
    run := Then(s, run, Tx(SendCounts(k)));
    assert (s.sends + [Allocated])[k := Counted] == s.sends + [Counted];
    run := Then(s, run, Tx(SendSubmits(k, result)));
    assert (s.sends + [Counted])[k := OnWire] == s.sends + [OnWire];
    if !result.Accepted? {
      assert (s.sends + [Counted])[k := SubmitFailed] == s.sends + [SubmitFailed];
      assert (s.frees + [0])[k := 1] == s.frees + [1];
      run := Then(s, run, Tx(SendGivesUp(k)));
      assert (s.sends + [SubmitFailed])[k := Over] == s.sends + [Over];
    }
  }

  lemma SlotInRing(s: State)
    requires Inv(s) && s.callback.Received?
    ensures s.callback.slot < |s.ring|
  {
  }

  lemma NotStoppedYet(s: State)
    requires Inv(s) && s.running
    ensures s.stop.NotCalled?
  {
  }

  lemma OneFreePerSend(s: State)
    requires Inv(s)
    ensures |s.frees| == |s.sends|
  {
  }

  /** The object the threads share. Each method is one of the source's functions run without
      interference; its contract names the steps it takes, so that the interleavings above
      are interleavings of these bodies. */
  class Dongle {
    var running: bool
    var failed: bool
    var rxInflight: int
    var txInflight: int
    var ring: seq<Slot>
    var sends: seq<Send>
    ghost var callback: Callback
    ghost var loop: LoopPc
    ghost var stop: StopPc
    ghost var frees: seq<nat>
    ghost var missed: set<nat>

    ghost function Now(): State
      reads this
    {
      State(running, failed, rxInflight, txInflight, ring, sends, callback, loop, stop, frees, missed)
    }

    /** The ring submitted by a start() that succeeds. */
    constructor (count: nat)
      ensures Now() == Started(count)
    {
      running, failed, rxInflight, txInflight, sends := true, false, 0, 0, [];
      callback, loop, stop, frees, missed := NoCallback, TestRunning, NotCalled, [], {};
      ring := [];
      new;
      while |ring| < count
        invariant rxInflight == |ring| <= count && forall i :: 0 <= i < |ring| ==> ring[i] == InFlight(false)
        invariant running && !failed && txInflight == 0 && sends == [] && callback.NoCallback?
        invariant loop.TestRunning? && stop.NotCalled? && frees == [] && missed == {}
      {
        ring := ring + [InFlight(false)];
        rxInflight := rxInflight + 1;
      }
      assert ring == seq(count, _ => InFlight(false));
    }

    /** rx_complete(): a transfer is resubmitted after data or a timeout while running, and is
        otherwise given up with one decrement. */
    method RxComplete(slot: nat, status: Status, result: Submitted) returns (ghost run: seq<Event>)
      requires Inv(Now()) && callback == Received(slot, status)
      modifies this
      ensures Inv(Now())
      ensures var kept := (status.Completed? || status.TimedOut?) && running && result.Accepted?;
              && ring == old(ring)[slot := if kept then InFlight(false) else Out]
              && rxInflight == old(rxInflight) - (if kept then 0 else 1)
      ensures running == old(running) && sends == old(sends) && txInflight == old(txInflight)
      ensures failed <==> old(failed) || status.NoDevice? ||
                          ((status.Completed? || status.TimedOut?) && running && result.Gone?)
      ensures Possible(old(Now()), run) && Now() == Run(old(Now()), run)
    {
      hide Owned, Open, Possible, Run, Inv, Step, Enabled;
      ghost var was := Now();
      SlotInRing(was);
      run := RxSteps(was, result);
      var kept := false;
      if status.Completed? || status.TimedOut? {
        if running {
          if result.Accepted? {
            ring := ring[slot := InFlight(false)];
            kept := true;
          } else if result.Gone? {
            failed := true;
          }
        }
      } else if status.NoDevice? {
        failed := true;
      }
      if !kept {
        rxInflight := rxInflight - 1;
        ring := ring[slot := Out];
      }
      callback := NoCallback;
      InvRun(was, run);
    }

    /** tx_complete(). */
    method TxComplete(k: nat) returns (ghost run: seq<Event>)
      requires Inv(Now()) && Idle(Now()) && k < |sends| && sends[k].OnWire?
      modifies this
      ensures Inv(Now()) && txInflight == old(txInflight) - 1 && sends == old(sends)[k := Over]
      ensures k < |frees| == |old(frees)| && frees == old(frees)[k := old(frees)[k] + 1]
      ensures ring == old(ring) && rxInflight == old(rxInflight) && running == old(running) && failed == old(failed)
      ensures Possible(old(Now()), run) && Now() == Run(old(Now()), run)
    {
      hide Owned, Open, Possible, Run, Inv;
      ghost var was := Now();
      OneFreePerSend(was);
      run := [];
      Nothing(was);
      run := Then(was, run, Tx(TxFires(k)));
      frees := frees[k := frees[k] + 1];
      callback, sends := TxDone(k), sends[k := Completing];
      assert Now() == Run(was, run);
      run := Then(was, run, Tx(TxLeaves));
      txInflight := txInflight - 1;
      callback, sends := NoCallback, sends[k := Over];
      assert Now() == Run(was, run);
      InvRun(was, run);
    }

    /** send(): `hasBuffer` tells whether the transfer and its buffer could be had. A buffer
        libusb did not take is freed at once and leaves the counter where it was. */
    method Send(hasBuffer: bool, result: Submitted) returns (ok: bool, ghost run: seq<Event>)
      requires Inv(Now())
      modifies this
      ensures Inv(Now()) && ok == (old(running) && hasBuffer && result.Accepted?)
      ensures txInflight == old(txInflight) + if ok then 1 else 0
      ensures !(old(running) && hasBuffer) ==> sends == old(sends) && frees == old(frees)
      ensures old(running) && hasBuffer ==>
                sends == old(sends) + [if ok then OnWire else Over] && frees == old(frees) + [if ok then 0 else 1]
      ensures failed == (old(failed) || (old(running) && hasBuffer && result.Gone?))
      ensures ring == old(ring) && rxInflight == old(rxInflight) && running == old(running)
      ensures Possible(old(Now()), run) && Now() == Run(old(Now()), run)
    {
      hide Owned, Open, Possible, Run, Inv, Step, Enabled;
      ghost var was := Now();
      ok, run := false, [];
      Nothing(was);
      if !running || !hasBuffer {
        return;
      }
      run := SendSteps(was, result);
      txInflight := txInflight + 1;
      if !result.Accepted? {
        if result.Gone? {
          failed := true;
        }
        frees := frees + [1];
        sends := sends + [Over];
        txInflight := txInflight - 1;
      } else {
        frees := frees + [0];
        sends := sends + [OnWire];
        ok := true;
      }
      InvRun(was, run);
    }

    /** stop() up to the join: clear `running`, then ask libusb to cancel every transfer. */
    method CancelRing() returns (ghost run: seq<Event>)
      requires Inv(Now()) && running
      modifies this
      ensures Inv(Now()) && !running && stop.Joining? && |ring| == |old(ring)|
      ensures forall i :: 0 <= i < |ring| ==>
                ring[i] == Cancelled(old(ring)[i])
      ensures rxInflight == old(rxInflight) && txInflight == old(txInflight) && sends == old(sends)
      ensures Possible(old(Now()), run) && Now() == Run(old(Now()), run)
    {
      hide Owned, Open, Possible, Run, Inv, Step, Enabled;
      ghost var was := Now();
      run := CancelSteps(was);
      running := false;
      var i := 0;
      while i < |ring|
        invariant i <= |ring| == |was.ring|
        invariant forall j :: 0 <= j < i ==> ring[j] == Cancelled(was.ring[j])
        invariant forall j :: i <= j < |ring| ==> ring[j] == was.ring[j]
        invariant Now() == was.(running := false, ring := ring)
      {
        if ring[i].InFlight? {
          ring := ring[i := InFlight(true)];
        }
        i := i + 1;
      }
      stop, missed := Joining, Run(was, run).missed;
      assert ring == Run(was, run).ring;
      InvRun(was, run);
    }

    /** stop() after the join: free the ring. Nothing libusb or a callback still uses is freed. */
    method FreeRing() returns (ghost run: seq<Event>)
      requires Inv(Now()) && stop.Joining? && loop.Exited?
      modifies this
      ensures Inv(Now()) && stop.Stopped? && Quiet(old(Now())) && |ring| == |old(ring)|
      ensures forall i :: 0 <= i < |ring| ==> ring[i].Released?
      ensures rxInflight == old(rxInflight) && txInflight == old(txInflight) && sends == old(sends)
      ensures Possible(old(Now()), run) && Now() == Run(old(Now()), run)
    {
      hide Owned, Open, Possible, Run, CountersExact, CallbackOk, FreedOnce, Escapes, Quiet;
      ghost var was := Now();
      ExitedIsQuiet(was);
      run := [];
      Nothing(was);
      run := Then(was, run, Stop(StopJoins));
      stop := Freeing(0);
      var i := 0;
      while i < |ring|
        invariant i <= |ring| == |was.ring| && stop == Freeing(i)
        invariant Possible(was, run) && Now() == Run(was, run)
        invariant forall j :: 0 <= j < i ==> ring[j].Released?
        invariant rxInflight == was.rx && txInflight == was.tx && sends == was.sends
      {
        run := Then(was, run, Stop(StopFrees));
        ring := ring[i := Released];
        i := i + 1;
        stop := Freeing(i);
        assert Now() == Run(was, run);
      }
      run := Then(was, run, Stop(StopFrees));
      stop := Stopped;
      InvRun(was, run);
    }
  }
}
