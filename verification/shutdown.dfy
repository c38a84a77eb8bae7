/** When stop() does what it means to (src/dongle.cpp): the exact conditions, on the state in
    which it clears `running`, under which every transfer gets cancelled and every buffer sent
    gets freed. */
module Shutdown {
  import opened Transfers

  /** stop() has cleared the flag. */
  ghost function Cleared(s: State): (t: State)
    requires s.running && s.stop.NotCalled?
  {
    StopStep(s, StopBegins)
  }

  lemma ClearedInv(s: State)
    requires Inv(s) && s.running
    ensures s.stop.NotCalled? && Inv(Cleared(s))
    ensures Cleared(s) == s.(running := false, stop := Cancelling(0))
    ensures s.missed == {}
  {
    NotStoppedYet(s);
    InvStep(s, Stop(StopBegins));
    assert forall i :: i in s.missed ==> Passed(s, i);
  }

  // ----- cancellation ---------------------------------------------------------------------------

  /** Past the cancel loop, a transfer is still in flight that was not cancelled. */
  ghost predicate Escaped(s: State) {
    s.stop.Joining? && exists i :: 0 <= i < |s.ring| && s.ring[i] == InFlight(false)
  }

  /** Nothing has been missed, and nothing can be any more. */
  ghost predicate NothingToMiss(s: State) {
    !s.running && !s.callback.Resubmitting? && s.missed == {}
  }

  lemma NothingToMissStep(s: State, e: Event)
    requires NothingToMiss(s) && Enabled(s, e)
    ensures NothingToMiss(Step(s, e))
  {
  }

  lemma {:induction false} NothingToMissRun(s: State, events: seq<Event>)
    requires NothingToMiss(s) && Possible(s, events)
    ensures NothingToMiss(Run(s, events))
    decreases |events|
  {
    hide Enabled, Step, NothingToMiss;
    if events != [] {
      NothingToMissStep(s, events[0]);
      NothingToMissRun(Step(s, events[0]), events[1..]);
    }
  }

  lemma NothingMissedNothingEscapes(s: State)
    requires Inv(s) && s.missed == {}
    ensures !Escaped(s)
  {
    hide Owned, Open, CountersExact, CallbackOk, FreedOnce, Phases;
    assert s.stop.Joining? ==> forall i :: 0 <= i < |s.ring| ==> Passed(s, i);
  }

  lemma ResubmittingInRing(s: State)
    requires Inv(s) && s.callback.Resubmitting?
    ensures s.callback.slot < |s.ring| && s.ring[s.callback.slot].Called?
  {
  }

  /** The callback waits for the whole cancel loop, and then resubmits. */
  lemma TheResubmissionEscapes(s: State) returns (run: seq<Event>)
    requires Inv(s) && s.running && s.callback.Resubmitting?
    ensures s.stop.NotCalled? && Possible(Cleared(s), run) && Escaped(Run(Cleared(s), run))
  {
    hide Owned, Open, Possible, Run, Inv, StopStep, TxStep, LoopStep;
    ClearedInv(s);
    ResubmittingInRing(s);
    var i := s.callback.slot;
    var cancels := CancelFrom(Cleared(s));
    var t := Run(Cleared(s), cancels);
    assert t.callback == s.callback && |t.ring| == |s.ring|;
    run := Then(Cleared(s), cancels, Rx(RxResubmits(Accepted)));
    assert Run(Cleared(s), run).ring[i] == InFlight(false);
  }

  /** From the moment stop() clears the flag, some continuation gets past the cancel loop with an
      uncancelled transfer in flight, if and only if a callback is, at that moment, between its
      reading of the flag and its resubmission. */
  lemma CancellationCanFailIff(s: State)
    requires Inv(s) && s.running
    ensures s.stop.NotCalled?
    ensures (exists more :: Possible(Cleared(s), more) && Escaped(Run(Cleared(s), more))) <==> s.callback.Resubmitting?
  {
    hide Inv, Possible, Run, Escaped, StopStep;
    ClearedInv(s);
    if s.callback.Resubmitting? {
      var run := TheResubmissionEscapes(s);
    } else {
      forall more | Possible(Cleared(s), more) ensures !Escaped(Run(Cleared(s), more)) {
        NothingToMissRun(Cleared(s), more);
        InvRun(Cleared(s), more);
        NothingMissedNothingEscapes(Run(Cleared(s), more));
      }
    }
  }

  // ----- sends --------------------------------------------------------------------------------------

  /** Every send is over and its buffer has been freed once. */
  ghost predicate Drained(s: State) {
    && s.tx == 0 && |s.frees| == |s.sends|
    && (forall k :: 0 <= k < |s.sends| ==> s.sends[k].Over? && s.frees[k] == 1)
  }

  /** No send is between its test of `running` and its count. */
  ghost predicate NoneUncounted(s: State) {
    forall k :: 0 <= k < |s.sends| ==> !s.sends[k].Allocated?
  }

  /** That stays so once `running` is clear, and a loop that has exited has seen every counted
      send end. */
  ghost predicate WillDrain(s: State) {
    !s.running && NoneUncounted(s) && (s.loop.Exited? ==> AllOver(s))
  }

  ghost predicate AllOver(s: State) {
    forall k :: 0 <= k < |s.sends| ==> s.sends[k].Over?
  }

  lemma {:induction false} OpenZero(sends: seq<Send>)
    ensures Open(sends) == 0 <==> forall k :: 0 <= k < |sends| ==> !IsOpen(sends[k])
  {
    if sends != [] {
      var n := |sends| - 1;
      OpenZero(sends[..n]);
      assert forall k :: 0 <= k < n ==> sends[..n][k] == sends[k];
      if forall k :: 0 <= k < n ==> !IsOpen(sends[..n][k]) {
        assert forall k :: 0 <= k < n ==> !IsOpen(sends[k]);
      }
    }
  }

  lemma WillDrainStep(s: State, e: Event)
    requires Inv(s) && WillDrain(s) && Enabled(s, e)
    ensures WillDrain(Step(s, e))
  {
    hide Owned, Open, FreedOnce, Phases, Escapes;
    OpenZero(s.sends);
    match e
    case Tx(t) => WillDrainTx(s, t);
    case _ =>
  }

  lemma WillDrainTx(s: State, e: TxEvent)
    requires WillDrain(s) && TxEnabled(s, e) && (s.callback.TxDone? ==> s.loop.Handling?)
    ensures WillDrain(TxStep(s, e))
  {
  }

  lemma {:induction false} WillDrainRun(s: State, events: seq<Event>)
    requires Inv(s) && WillDrain(s) && Possible(s, events)
    ensures WillDrain(Run(s, events)) && Inv(Run(s, events))
    decreases |events|
  {
    hide Inv, Enabled, Step, WillDrain;
    if events != [] {
      InvStep(s, events[0]);
      WillDrainStep(s, events[0]);
      WillDrainRun(Step(s, events[0]), events[1..]);
    }
  }

  lemma OverIsDrained(s: State)
    requires Inv(s) && AllOver(s)
    ensures Drained(s)
  {
    OpenZero(s.sends);
  }

  // ----- a send that is not counted yet ---------------------------------------------------------------

  lemma {:induction false} Append(s: State, a: seq<Event>, b: seq<Event>)
    requires Possible(s, a) && Possible(Run(s, a), b)
    ensures Possible(s, a + b) && Run(s, a + b) == Run(Run(s, a), b)
    decreases |a|
  {
    hide Enabled, Step;
    if a == [] {
      assert a + b == b;
    } else {
      Append(Step(s, a[0]), a[1..], b);
      assert (a + b)[1..] == a[1..] + b;
    }
  }

  /** After stop() has begun, with send `k` about to be counted and the loop still running. */
  ghost predicate Waiting(s: State, k: nat) {
    Inv(s) && !s.running && !s.loop.Exited? && k < |s.sends| && s.sends[k].Allocated?
  }

  /** `t` is `s` with one transfer or send less to wait for. */
  ghost predicate OneLess(s: State, t: State, k: nat) {
    Waiting(t, k) && t.rx + t.tx == s.rx + s.tx - 1
  }

  lemma LoopGoesOn(s: State) returns (run: seq<Event>)
    requires Inv(s) && !s.running && s.callback.NoCallback? && s.rx + s.tx > 0 && !s.loop.Exited?
    ensures Possible(s, run) && Run(s, run) == s.(loop := Handling)
  {
    hide Owned, Open, Possible, Run, RxStep, TxStep, StopStep, CallbackOk, FreedOnce, Escapes;
    run := [];
    Nothing(s);
    OwnedZero(s.ring);
    if s.loop.TestRunning? {
      run := Then(s, run, Loop(LoopTest));
    }
    if Run(s, run).loop.TestRx? {
      run := Then(s, run, Loop(LoopTest));
    }
    if Run(s, run).loop.TestTx? {
      run := Then(s, run, Loop(LoopTest));
    }
  }

  lemma CallbackInPlace(s: State)
    requires Inv(s)
    ensures !s.callback.NoCallback? ==> s.loop.Handling?
    ensures s.callback.Received? || s.callback.Resubmitting? || s.callback.Leaving? ==> s.callback.slot < |s.ring|
    ensures s.callback.TxDone? ==> s.callback.send < |s.sends| && s.sends[s.callback.send].Completing?
    ensures |s.frees| == |s.sends|
  {
  }

  /** The callback that is running returns, giving its transfer up. */
  lemma CallbackReturns(s: State, k: nat) returns (run: seq<Event>)
    requires Waiting(s, k) && !s.callback.NoCallback?
    ensures Possible(s, run) && OneLess(s, Run(s, run), k)
  {
    hide Owned, Open, Possible, Run, Inv, LoopStep, StopStep;
    CallbackInPlace(s);
    run := [];
    Nothing(s);
    if s.callback.TxDone? {
      run := Then(s, run, Tx(TxLeaves));
    } else {
      if s.callback.Received? {
        run := Then(s, run, Rx(RxDecides));
      } else if s.callback.Resubmitting? {
        run := Then(s, run, Rx(RxResubmits(Refused)));
      }
      run := Then(s, run, Rx(RxLeaves));
    }
    InvRun(s, run);
  }

  /** A send that is counted and not with libusb fails and ends. */
  lemma SendFails(s: State, k: nat, j: nat) returns (run: seq<Event>)
    requires Waiting(s, k) && j < |s.sends| && (s.sends[j].Counted? || s.sends[j].SubmitFailed?)
    ensures Possible(s, run) && OneLess(s, Run(s, run), k)
  {
    hide Owned, Open, Possible, Run, Inv, LoopStep, StopStep, RxStep;
    CallbackInPlace(s);
    run := [];
    Nothing(s);
    if s.sends[j].Counted? {
      run := Then(s, run, Tx(SendSubmits(j, Refused)));
    }
    run := Then(s, run, Tx(SendGivesUp(j)));
    InvRun(s, run);
  }

  /** A transfer in flight comes back because the device is gone. */
  lemma TransferReturns(s: State, k: nat, i: nat) returns (run: seq<Event>)
    requires Waiting(s, k) && s.callback.NoCallback? && i < |s.ring| && s.ring[i].InFlight? && s.rx + s.tx > 0
    ensures Possible(s, run) && OneLess(s, Run(s, run), k)
  {
    hide Owned, Open, Possible, Run, Inv, LoopStep, StopStep, TxStep;
    run := LoopGoesOn(s);
    run := Then(s, run, Rx(RxFires(i, NoDevice)));
    run := Then(s, run, Rx(RxDecides));
    run := Then(s, run, Rx(RxLeaves));
    InvRun(s, run);
  }

  /** A send on the wire completes. */
  lemma SendCompletes(s: State, k: nat, j: nat) returns (run: seq<Event>)
    requires Waiting(s, k) && s.callback.NoCallback? && j < |s.sends| && s.sends[j].OnWire? && s.rx + s.tx > 0
    ensures Possible(s, run) && OneLess(s, Run(s, run), k)
  {
    hide Owned, Open, Possible, Run, Inv, LoopStep, StopStep, RxStep;
    CallbackInPlace(s);
    run := LoopGoesOn(s);
    run := Then(s, run, Tx(TxFires(j)));
    run := Then(s, run, Tx(TxLeaves));
    InvRun(s, run);
  }

  /** What there is to wait for. */
  lemma SomethingOwed(s: State) returns (i: nat, j: nat)
    requires Inv(s) && s.rx + s.tx > 0 && s.callback.NoCallback?
    ensures (i < |s.ring| && s.ring[i].InFlight?) ||
            (j < |s.sends| && (s.sends[j].Counted? || s.sends[j].SubmitFailed? || s.sends[j].OnWire?))
  {
    i, j := 0, 0;
    OwnedZero(s.ring);
    OpenZero(s.sends);
    if s.rx > 0 {
      i :| 0 <= i < |s.ring| && IsOwned(s.ring[i]);
    } else {
      j :| 0 <= j < |s.sends| && IsOpen(s.sends[j]);
    }
  }

  lemma OneStepCloser(s: State, k: nat) returns (run: seq<Event>)
    requires Waiting(s, k) && s.rx + s.tx > 0
    ensures Possible(s, run) && OneLess(s, Run(s, run), k)
  {
    hide Possible, Run, OneLess;
    if !s.callback.NoCallback? {
      run := CallbackReturns(s, k);
    } else {
      var i, j := SomethingOwed(s);
      if i < |s.ring| && s.ring[i].InFlight? {
        run := TransferReturns(s, k, i);
      } else if s.sends[j].OnWire? {
        run := SendCompletes(s, k, j);
      } else {
        run := SendFails(s, k, j);
      }
    }
  }

  lemma CountsNonNegative(s: State)
    requires Inv(s)
    ensures s.rx >= 0 && s.tx >= 0
    ensures s.rx + s.tx == 0 ==> s.callback.NoCallback?
  {
    OwnedZero(s.ring);
    OpenZero(s.sends);
    if s.callback.TxDone? {
      assert IsOpen(s.sends[s.callback.send]);
    } else if !s.callback.NoCallback? {
      assert CallbackOn(s.callback, s.callback.slot) && IsOwned(s.ring[s.callback.slot]);
    }
  }

  /** Everything but send `k` comes to an end. */
  lemma {:induction false} AllTheRestEnds(s: State, k: nat) returns (run: seq<Event>)
    requires Waiting(s, k)
    ensures Possible(s, run) && Waiting(Run(s, run), k)
    ensures Run(s, run).rx == Run(s, run).tx == 0
    decreases s.rx + s.tx
  {
    hide Possible, Run, Inv;
    CountsNonNegative(s);
    run := [];
    Nothing(s);
    if s.rx + s.tx > 0 {
      var first := OneStepCloser(s, k);
      CountsNonNegative(Run(s, first));
      var rest := AllTheRestEnds(Run(s, first), k);
      run := first + rest;
      Append(s, first, rest);
    }
  }

  /** The loop sees both counters at zero and exits. */
  lemma LoopExits(s: State) returns (run: seq<Event>)
    requires !s.running && s.callback.NoCallback? && s.rx == s.tx == 0 && !s.loop.Exited?
    ensures Possible(s, run) && Run(s, run) == s.(loop := Exited)
  {
    hide Possible, Run, RxStep, TxStep, StopStep;
    run := [];
    Nothing(s);
    if s.loop.Handling? {
      run := Then(s, run, Loop(HandlingReturns));
    }
    if Run(s, run).loop.TestRunning? {
      run := Then(s, run, Loop(LoopTest));
    }
    if Run(s, run).loop.TestRx? {
      run := Then(s, run, Loop(LoopTest));
    }
    run := Then(s, run, Loop(LoopTest));
  }

  /** Only then is send `k` counted and handed to libusb, with no one left to complete it. */
  lemma TheSendIsStranded(s: State, k: nat) returns (run: seq<Event>)
    requires Waiting(s, k)
    ensures Possible(s, run)
    ensures var t := Run(s, run); t.loop.Exited? && k < |t.sends| && t.sends[k].OnWire?
  {
    hide Possible, Run, Inv, RxStep, LoopStep, StopStep, Owned, Open;
    run := AllTheRestEnds(s, k);
    var t := Run(s, run);
    CountsNonNegative(t);
    var exit := LoopExits(t);
    Append(s, run, exit);
    run := run + exit;
    CallbackInPlace(t);
    run := Then(s, run, Tx(SendCounts(k)));
    run := Then(s, run, Tx(SendSubmits(k, Accepted)));
  }

  lemma LoopIsRunning(s: State)
    requires Inv(s) && s.running
    ensures !s.loop.Exited?
  {
  }

  /** Whatever happens after stop() clears the flag, once the loop has exited every send is over
      and every buffer has been freed exactly once, if and only if no send is, when the flag is
      cleared, between its test of the flag and its count. */
  lemma DrainsIff(s: State)
    requires Inv(s) && s.running
    ensures s.stop.NotCalled?
    ensures (forall more :: Possible(Cleared(s), more) && Run(Cleared(s), more).loop.Exited? ==>
               Drained(Run(Cleared(s), more)))
       <==> NoneUncounted(s)
  {
    hide Inv, Possible, Run, Drained, StopStep;
    ClearedInv(s);
    LoopIsRunning(s);
    var c := Cleared(s);
    if NoneUncounted(s) {
      forall more | Possible(c, more) && Run(c, more).loop.Exited? ensures Drained(Run(c, more)) {
        WillDrainRun(c, more);
        OverIsDrained(Run(c, more));
      }
    } else {
      var k :| 0 <= k < |s.sends| && s.sends[k].Allocated?;
      var run := TheSendIsStranded(c, k);
      NotDrained(Run(c, run), k);
    }
  }

  lemma NotDrained(s: State, k: nat)
    requires k < |s.sends| && s.sends[k].OnWire?
    ensures !Drained(s)
  {
  }

  // ----- over whole runs -----------------------------------------------------------------------------

  /** Both conditions for every run from a successful start. */
  lemma StopDoesItsWork(n: nat, events: seq<Event>)
    requires Possible(Started(n), events) && Run(Started(n), events).running
    ensures var s := Run(Started(n), events);
      && s.stop.NotCalled?
      && ((exists more :: Possible(Cleared(s), more) && Escaped(Run(Cleared(s), more))) <==> s.callback.Resubmitting?)
      && ((forall more :: Possible(Cleared(s), more) && Run(Cleared(s), more).loop.Exited? ==>
             Drained(Run(Cleared(s), more)))
          <==> NoneUncounted(s))
  {
    hide Inv, Possible, Run, Drained, Escaped, StopStep, NoneUncounted;
    StartedInv(n);
    InvRun(Started(n), events);
    CancellationCanFailIff(Run(Started(n), events));
    DrainsIff(Run(Started(n), events));
  }
}
