/** The connection supervisor (src/dongle_manager.cpp): it polls for the dongle, claims it,
    watches the session, and paces its retries. What a poll finds is an input. */
module Supervisor {
  import opened Options

  const BACKOFF_MIN := 250
  const BACKOFF_MAX := 5000
  const RESET_AFTER := 3

  datatype Device = Absent | Unclaimable | Claimable

  /** One pass of the loop: what is on the bus, whether the session has died, and whether that
      was within the flap window. A pass looks only at what its state asks for. */
  datatype Poll = Poll(device: Device, dead: bool, flap: bool)

  datatype Callback = Connected | Disconnected

  datatype State = State(connected: bool, backoff: nat, fails: nat, resets: nat, log: seq<Callback>)

  function Start(): State {
    State(false, 0, 0, 0, [])
  }

  /** grow_backoff(). */
  function Grow(backoff: nat): nat {
    if backoff == 0 then BACKOFF_MIN else if backoff * 2 < BACKOFF_MAX then backoff * 2 else BACKOFF_MAX
  }

  function Step(s: State, p: Poll): State {
    if !s.connected then
      match p.device
      case Claimable => State(true, 0, 0, s.resets, s.log + [Connected])
      case Unclaimable =>
        var reset := s.fails + 1 >= RESET_AFTER;
        s.(fails := if reset then 0 else s.fails + 1, resets := if reset then s.resets + 1 else s.resets,
           backoff := Grow(s.backoff))
      case Absent => s.(backoff := 0, fails := 0)
    else if p.dead then
      s.(connected := false, backoff := if p.flap then Grow(s.backoff) else 0, log := s.log + [Disconnected])
    else s
  }

  function Run(s: State, polls: seq<Poll>): State
    decreases |polls|
  {
    if polls == [] then s else Run(Step(s, polls[0]), polls[1..])
  }

  // ----- what holds after any run -------------------------------------------------------------

  /** Callbacks come in turn, the first a connect, the last telling the current state. */
  ghost predicate Alternates(s: State) {
    && (forall i :: 0 <= i < |s.log| ==> s.log[i] == if i % 2 == 0 then Connected else Disconnected)
    && (s.connected <==> |s.log| % 2 == 1)
  }

  /** While connected the pacing is reset; otherwise the wait is none or within its bounds. */
  ghost predicate Paced(s: State) {
    && (s.connected ==> s.backoff == 0 && s.fails == 0)
    && (s.backoff == 0 || BACKOFF_MIN <= s.backoff <= BACKOFF_MAX)
    && s.fails < RESET_AFTER
  }

  lemma {:induction false} InvRun(s: State, polls: seq<Poll>)
    requires Alternates(s) && Paced(s)
    ensures Alternates(Run(s, polls)) && Paced(Run(s, polls))
    decreases |polls|
  {
    if polls != [] {
      InvRun(Step(s, polls[0]), polls[1..]);
    }
  }

  lemma CallbacksAlternate(polls: seq<Poll>)
    ensures Alternates(Run(Start(), polls)) && Paced(Run(Start(), polls))
  {
    InvRun(Start(), polls);
  }

  // ----- pacing ------------------------------------------------------------------------------------

  function Pow2(n: nat): nat {
    if n == 0 then 1 else 2 * Pow2(n - 1)
  }

  function Min(a: nat, b: nat): nat {
    if a < b then a else b
  }

  /** The wait after `n` polls in a row that find the dongle but cannot claim it. */
  function Wait(backoff: nat, n: nat): nat {
    if n == 0 then backoff
    else if backoff == 0 then Min(BACKOFF_MIN * Pow2(n - 1), BACKOFF_MAX)
    else Min(backoff * Pow2(n), BACKOFF_MAX)
  }

  ghost predicate AllUnclaimable(polls: seq<Poll>) {
    forall i :: 0 <= i < |polls| ==> polls[i].device.Unclaimable?
  }

  /** From any state between sessions, `n` such polls double the wait up to its bound, reset the
      device once in every three failures, and report nothing. */
  lemma {:induction false} StuckDevice(s: State, polls: seq<Poll>)
    requires !s.connected && Paced(s) && AllUnclaimable(polls)
    ensures var t, n := Run(s, polls), |polls|;
            && t.backoff == Wait(s.backoff, n)
            && t.resets == s.resets + (s.fails + n) / RESET_AFTER && t.fails == (s.fails + n) % RESET_AFTER
            && !t.connected && t.log == s.log
    decreases |polls|
  {
    if polls != [] {
      var u, n := Step(s, polls[0]), |polls|;
      StuckDevice(u, polls[1..]);
      GrowThenWait(s.backoff, n - 1);
      ResetArithmetic(s.fails, n);
    }
  }

  lemma ResetArithmetic(fails: nat, n: nat)
    requires fails < RESET_AFTER && n > 0
    ensures var reset := fails + 1 >= RESET_AFTER;
            var next := if reset then 0 else fails + 1;
            && (fails + n) % RESET_AFTER == (next + (n - 1)) % RESET_AFTER
            && (fails + n) / RESET_AFTER == (next + (n - 1)) / RESET_AFTER + if reset then 1 else 0
  {
  }

  lemma GrowThenWait(backoff: nat, n: nat)
    requires backoff == 0 || BACKOFF_MIN <= backoff <= BACKOFF_MAX
    ensures Wait(Grow(backoff), n) == Wait(backoff, n + 1)
  {
    Pow2Positive(n);
    if backoff > 0 {
      DoubleOnce(backoff, Pow2(n));
      if backoff * 2 >= BACKOFF_MAX {
        AtLeastOnce(backoff * 2, Pow2(n));
        AtLeastOnce(BACKOFF_MAX, Pow2(n));
      }
    }
  }

  lemma DoubleOnce(b: int, p: int)
    ensures b * (2 * p) == (b * 2) * p
  {
  }

  lemma AtLeastOnce(b: int, p: int)
    requires b >= 0 && p >= 1
    ensures b * p >= b
  {
  }

  lemma {:induction false} Pow2Positive(n: nat)
    ensures Pow2(n) >= 1
  {
    if n > 0 {
      Pow2Positive(n - 1);
    }
  }

  /** From a clean start: 250 ms, 500, 1000 and so on up to 5000, and a reset every third time. */
  lemma StuckFromTheStart(polls: seq<Poll>)
    requires AllUnclaimable(polls) && polls != []
    ensures var t, n := Run(Start(), polls), |polls|;
            && t.backoff == Min(BACKOFF_MIN * Pow2(n - 1), BACKOFF_MAX)
            && t.resets == n / RESET_AFTER && t.fails == n % RESET_AFTER
  {
    StuckDevice(Start(), polls);
  }

  ghost predicate AllAbsent(polls: seq<Poll>) {
    forall i :: 0 <= i < |polls| ==> polls[i].device.Absent?
  }

  /** Between sessions, any number of polls that find nothing clear the wait and the failure count,
      and do nothing else. */
  lemma {:induction false} AbsentClearsTheSlate(s: State, polls: seq<Poll>)
    requires !s.connected && AllAbsent(polls) && polls != []
    ensures var t := Run(s, polls);
            t.backoff == 0 && t.fails == 0 && !t.connected && t.resets == s.resets && t.log == s.log
    decreases |polls|
  {
    if |polls| > 1 {
      AbsentClearsTheSlate(Step(s, polls[0]), polls[1..]);
    }
  }

  lemma {:induction false} RunAppend(s: State, a: seq<Poll>, b: seq<Poll>)
    ensures Run(s, a + b) == Run(Run(s, a), b)
    decreases |a|
  {
    if a == [] {
      assert a + b == b;
    } else {
      RunAppend(Step(s, a[0]), a[1..], b);
      assert (a + b)[1..] == a[1..] + b;
    }
  }

  /** After any history that ends between sessions, an unplugged dongle that comes back stuck is paced
      like a new one: 250 ms doubling to 5000, and a reset every third time. */
  lemma StuckAfterAbsence(before: seq<Poll>, absent: seq<Poll>, stuck: seq<Poll>)
    requires !Run(Start(), before).connected && AllAbsent(absent) && absent != []
    requires AllUnclaimable(stuck) && stuck != []
    ensures var s, t, n := Run(Start(), before), Run(Start(), before + absent + stuck), |stuck|;
            && t.backoff == Min(BACKOFF_MIN * Pow2(n - 1), BACKOFF_MAX)
            && t.resets == s.resets + n / RESET_AFTER && t.fails == n % RESET_AFTER
            && !t.connected && t.log == s.log
  {
    hide Run, Step, AllAbsent, AllUnclaimable;
    CallbacksAlternate(before);
    RunAppend(Start(), before, absent);
    RunAppend(Start(), before + absent, stuck);
    AbsentClearsTheSlate(Run(Start(), before), absent);
    CallbacksAlternate(before + absent);
    StuckDevice(Run(Start(), before + absent), stuck);
  }

  /** Sessions that flap do not make the wait grow: connecting has cleared it, so every flap
      leaves the smallest wait, whatever came before. */
  lemma FlapsWaitTheSame(polls: seq<Poll>, p: Poll)
    requires var s := Run(Start(), polls); s.connected && p.dead
    ensures Step(Run(Start(), polls), p).backoff == if p.flap then BACKOFF_MIN else 0
  {
    CallbacksAlternate(polls);
  }

  /** A session that connects and dies within the flap window. */
  const FLAP: seq<Poll> := [Poll(Claimable, false, false), Poll(Absent, true, true)]

  function Flaps(n: nat): seq<Poll> {
    if n == 0 then [] else FLAP + Flaps(n - 1)
  }

  /** However many flaps in a row, each leaves the same wait. */
  lemma {:induction false} FlapsInARow(s: State, n: nat)
    requires !s.connected && n > 0
    ensures var t := Run(s, Flaps(n)); !t.connected && t.backoff == BACKOFF_MIN && |t.log| == |s.log| + 2 * n
    decreases n
  {
    var polls := Flaps(n);
    assert polls[0] == FLAP[0] && polls[1..][0] == FLAP[1] && polls[1..][1..] == Flaps(n - 1);
    var after := Step(Step(s, FLAP[0]), FLAP[1]);
    assert Run(s, polls) == Run(after, Flaps(n - 1));
    if n > 1 {
      FlapsInARow(after, n - 1);
    }
  }

  // ----- the manager itself --------------------------------------------------------------------------

  /** A session's device and dongle carry numbers; `liveUsb` and `references` say which devices
      exist and which device each existing dongle refers to. */
  class DongleManager {
    var connected: bool
    var backoff: nat
    var fails: nat
    var usb: Option<nat>
    var dongle: Option<nat>
    var next: nat
    ghost var resets: nat
    ghost var log: seq<Callback>
    ghost var liveUsb: set<nat>
    ghost var references: map<nat, nat>

    ghost function Now(): State
      reads this
    {
      State(connected, backoff, fails, resets, log)
    }

    /** Every existing dongle refers to an existing device. */
    ghost predicate NoneDangles()
      reads this
    {
      forall d :: d in references ==> references[d] in liveUsb
    }

    /** Between passes: exactly the members exist, and only during a session. */
    ghost predicate Valid()
      reads this
    {
      && NoneDangles()
      && (connected <==> dongle.Some?) && (connected <==> usb.Some?)
      && liveUsb == (if usb.Some? then {usb.value} else {})
      && references == (if usb.Some? && dongle.Some? then map[dongle.value := usb.value] else map[])
      && (forall u :: u in liveUsb ==> u < next)
    }

    constructor ()
      ensures Valid() && Now() == Start()
    {
      connected, backoff, fails, usb, dongle, next := false, 0, 0, None, None, 0;
      resets, log, liveUsb, references := 0, [], {}, map[];
    }

    /** A device goes away; no existing dongle may still refer to it. */
    ghost method DestroyUsb(u: nat)
      requires u in liveUsb && NoneDangles() && forall d :: d in references ==> references[d] != u
      modifies this`liveUsb
      ensures liveUsb == old(liveUsb) - {u} && NoneDangles()
    {
      liveUsb := liveUsb - {u};
    }

    /** A dongle goes away; stopping it uses its device, which must exist. */
    ghost method DestroyDongle(d: nat)
      requires d in references && references[d] in liveUsb && NoneDangles()
      modifies this`references
      ensures references == old(references) - {d} && NoneDangles()
    {
      references := references - {d};
    }

    /** A new session: both objects are built aside and then moved into the members, the
        device first. */
    method Connect(device: nat)
      requires !connected && usb.None? && dongle.None? && liveUsb == {device} && references == map[] && device < next
      modifies this
      ensures Valid() && Now() == State(true, 0, 0, old(resets), old(log) + [Connected])
      ensures usb == Some(device)
    {
      var d := device;
      references := references[d := device];
      usb := Some(device);
      dongle := Some(d);
      connected, fails, backoff := true, 0, 0;
      log := log + [Connected];
    }

    /** The end of a session: the dongle is destroyed first, then its device. */
    method TearDown()
      requires Valid()
      modifies this`usb, this`dongle, this`connected, this`liveUsb, this`references
      ensures Valid() && !connected && liveUsb == {} && references == map[]
    {
      if dongle.Some? {
        DestroyDongle(dongle.value);
        dongle := None;
      }
      if usb.Some? {
        DestroyUsb(usb.value);
        usb := None;
      }
      connected := false;
    }

    method GrowBackoff()
      modifies this`backoff
      ensures backoff == Grow(old(backoff))
    {
      backoff := if backoff == 0 then BACKOFF_MIN else if backoff * 2 < BACKOFF_MAX then backoff * 2 else BACKOFF_MAX;
    }

    /** The disconnected half of a pass. */
    method PollForDongle(device: Device)
      requires Valid() && !connected
      modifies this
      ensures Valid() && forall dead, flap :: Now() == Step(old(Now()), Poll(device, dead, flap))
    {
      if device.Absent? {
        backoff, fails := 0, 0;
        return;
      }
      var u := next;
      next := next + 1;
      liveUsb := liveUsb + {u};
      if device.Claimable? {
        Connect(u);
      } else {
        fails := fails + 1;
        if fails >= RESET_AFTER {
          resets := resets + 1;
          fails := 0;
        }
        GrowBackoff();
        DestroyUsb(u);
      }
    }

    /** The connected half of a pass. */
    method WatchSession(dead: bool, flap: bool)
      requires Valid() && connected
      modifies this
      ensures Valid() && forall device :: Now() == Step(old(Now()), Poll(device, dead, flap))
    {
      if dead {
        TearDown();
        if flap {
          GrowBackoff();
        } else {
          backoff := 0;
        }
        log := log + [Disconnected];
      }
    }

    /** supervise(), for as many passes as there are polls. */
    method Supervise(polls: seq<Poll>)
      requires Valid()
      modifies this
      ensures Valid() && Now() == Run(old(Now()), polls)
    {
      var i := 0;
      while i < |polls|
        invariant i <= |polls| && Valid() && Run(Now(), polls[i..]) == Run(old(Now()), polls)
      {
        ghost var was := Now();
        assert polls[i..][0] == polls[i] && polls[i..][1..] == polls[i + 1..];
        if !connected {
          PollForDongle(polls[i].device);
        } else {
          WatchSession(polls[i].dead, polls[i].flap);
        }
        assert polls[i] == Poll(polls[i].device, polls[i].dead, polls[i].flap);
        assert Now() == Step(was, polls[i]);
        i := i + 1;
      }
    }

    /** stop(), once the supervising thread has been joined: nothing is left. */
    method Stop()
      requires Valid()
      modifies this`usb, this`dongle, this`connected, this`liveUsb, this`references
      ensures Valid() && !connected && liveUsb == {} && references == map[]
    {
      TearDown();
    }
  }
}
