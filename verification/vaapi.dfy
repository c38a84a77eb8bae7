/** Who owns what in the VAAPI source (src/vaapi_decoder_source.cpp): the dma-buf descriptors
    duplicated for a decoded frame, the clones that pin its surface, and the framebuffers
    cached per surface. Descriptors and clones carry serial numbers, so a number the system
    hands out again is not mistaken for the old descriptor. */
module Vaapi {
  import opened Options

  /** kRetain, and the most planes a frame has. */
  const RETAIN := 4
  const MAX_PLANES := 4

  /** DRM_FORMAT_MOD_INVALID. */
  const MOD_INVALID := 0x00ff_ffff_ffff_ffff

  datatype Plane = Plane(offset: nat, pitch: nat)

  datatype DrmFrame = DrmFrame(surface: nat, w: nat, h: nat, fourcc: nat, modifier: nat, planes: seq<Plane>)

  /** A cloned AVFrame and the surface it pins. */
  datatype Clone = Clone(id: nat, surface: nat)

  datatype Pending = Pending(frame: DrmFrame, fds: seq<int>, held: Clone)

  datatype Native = Native(frame: DrmFrame, fds: seq<int>)

  datatype SourceFormat = SourceFormat(fourcc: nat, modifier: nat, w: nat, h: nat)

  /** Beside the source's fields: how often each descriptor has been closed and each clone
      freed, every clone ever promoted, whether the last promotion was a native one, and the
      size each surface's framebuffer was made with. */
  datatype State = State(
    pending: Option<Pending>, native: Option<Native>, retained: seq<Clone>,
    cache: map<nat, nat>, currentFb: nat, fmt: SourceFormat,
    closes: seq<nat>, frees: seq<nat>, promoted: seq<Clone>, nativeLast: bool,
    sizes: map<nat, (nat, nat)>)

  datatype Event =
    | Decoded(frame: DrmFrame, dupOk: seq<bool>, cloneOk: bool)
    | AcquireKms(added: Option<nat>)
    | AcquireNative

  /** A frame has a descriptor per plane; a framebuffer the kernel adds has an id. */
  ghost predicate Allowed(e: Event) {
    match e
    case Decoded(f, dupOk, _) => |dupOk| == |f.planes| <= MAX_PLANES
    case AcquireKms(added) => added.Some? ==> added.value > 0
    case AcquireNative => true
  }

  // ----- descriptors -------------------------------------------------------------------------

  /** dup() for each plane: the next serial, or -1. */
  function Dups(next: nat, ok: seq<bool>): (fds: seq<int>)
    ensures |fds| == |ok|
  {
    if ok == [] then []
    else
      var n := |ok| - 1;
      Dups(next, ok[..n]) + [if ok[n] then next + Successes(ok[..n]) else -1]
  }

  function Successes(ok: seq<bool>): nat {
    if ok == [] then 0 else Successes(ok[..|ok| - 1]) + if ok[|ok| - 1] then 1 else 0
  }

  /** One more close of each descriptor among `fds`; -1 is skipped. */
  function CloseAll(closes: seq<nat>, fds: seq<int>): (c: seq<nat>)
    ensures |c| == |closes|
    ensures forall k :: 0 <= k < |c| ==> c[k] == closes[k] + if k in fds then 1 else 0
  {
    seq(|closes|, k requires 0 <= k < |closes| => closes[k] + if k in fds then 1 else 0)
  }

  function Zeros(n: nat): seq<nat> {
    seq(n, _ => 0)
  }

  // ----- the operations -------------------------------------------------------------------------

  function AfterDecoded(s: State, f: DrmFrame, dupOk: seq<bool>, cloneOk: bool): State
    requires |dupOk| == |f.planes|
  {
    var fds := Dups(|s.closes|, dupOk);
    var opens := s.closes + Zeros(Successes(dupOk));
    if !cloneOk then s.(closes := CloseAll(opens, fds))
    else
      var newest := Pending(f, fds, Clone(|s.frees|, f.surface));
      if s.pending.Some? then Dropped(s.(closes := opens, frees := s.frees + [0])).(pending := Some(newest))
      else s.(closes := opens, frees := s.frees + [0], pending := Some(newest))
  }

  function Freed(frees: seq<nat>, c: nat): (f: seq<nat>)
    ensures |f| == |frees|
  {
    if c < |frees| then frees[c := frees[c] + 1] else frees
  }

  /** The pending frame is closed, freed and forgotten. */
  function Dropped(s: State): State
    requires s.pending.Some?
  {
    s.(closes := CloseAll(s.closes, s.pending.value.fds), frees := Freed(s.frees, s.pending.value.held.id),
       pending := None)
  }

  /** A frame of another size than the one the first import locked in is not presented. */
  predicate SizeOk(fmt: SourceFormat, f: DrmFrame) {
    fmt.modifier == MOD_INVALID || (f.w == fmt.w && f.h == fmt.h)
  }

  function Locked(fmt: SourceFormat, f: DrmFrame): SourceFormat {
    if fmt.modifier == MOD_INVALID then SourceFormat(f.fourcc, f.modifier, f.w, f.h) else fmt
  }

  /** The pending clone joins the retain ring; the oldest above RETAIN are freed. */
  function Retained(s: State): State
    requires s.pending.Some? && |s.retained| <= RETAIN
  {
    var p := s.pending.value;
    var ring := s.retained + [p.held];
    s.(pending := None, fmt := Locked(s.fmt, p.frame), promoted := s.promoted + [p.held],
       retained := if |ring| > RETAIN then ring[1..] else ring,
       frees := if |ring| > RETAIN then Freed(s.frees, ring[0].id) else s.frees)
  }

  function AfterImport(s: State, added: Option<nat>): State
    requires s.pending.Some? && |s.retained| <= RETAIN
  {
    var p := s.pending.value;
    if !SizeOk(s.fmt, p.frame) then Dropped(s)
    else if p.frame.surface !in s.cache && added.None? then Dropped(s)
    else Retained(Imported(s, added))
  }

  /** The pending frame's descriptors are closed, and its surface's framebuffer, cached or new, is
      the current one. */
  function Imported(s: State, added: Option<nat>): State
    requires s.pending.Some? && (s.pending.value.frame.surface in s.cache || added.Some?)
  {
    var p := s.pending.value;
    var k, known := p.frame.surface, p.frame.surface in s.cache;
    var cache := if known then s.cache else s.cache[k := added.value];
    s.(closes := CloseAll(s.closes, p.fds), cache := cache, currentFb := cache[k], nativeLast := false,
       sizes := if known then s.sizes else s.sizes[k := (p.frame.w, p.frame.h)])
  }

  function NativeFds(s: State): seq<int> {
    if s.native.Some? then s.native.value.fds else []
  }

  function PendingFds(s: State): seq<int> {
    if s.pending.Some? then s.pending.value.fds else []
  }

  function AfterPromotion(s: State): State
    requires s.pending.Some? && |s.retained| <= RETAIN
  {
    var p := s.pending.value;
    if !SizeOk(s.fmt, p.frame) then Dropped(s)
    else Retained(Lent(s))
  }

  /** The pending frame's descriptors become the native frame's; the last native frame's are
      closed. */
  function Lent(s: State): State
    requires s.pending.Some?
  {
    var p := s.pending.value;
    s.(closes := CloseAll(s.closes, NativeFds(s)), native := Some(Native(p.frame, p.fds)), nativeLast := true)
  }

  function Step(s: State, e: Event): State
    requires Allowed(e) && |s.retained| <= RETAIN
  {
    match e
    case Decoded(f, dupOk, cloneOk) => AfterDecoded(s, f, dupOk, cloneOk)
    case AcquireKms(added) => if s.pending.Some? then AfterImport(s, added) else s
    case AcquireNative => if s.pending.Some? then AfterPromotion(s) else s
  }

  /** The destructor. */
  function Destroyed(s: State): State {
    var closes := CloseAll(CloseAll(s.closes, NativeFds(s)), PendingFds(s));
    var frees := FreeAll(s.frees, s.retained);
    s.(native := None, retained := [], pending := None, cache := map[], sizes := map[], closes := closes,
       frees := if s.pending.Some? then Freed(frees, s.pending.value.held.id) else frees)
  }

  function FreeAll(frees: seq<nat>, clones: seq<Clone>): (f: seq<nat>)
    ensures |f| == |frees|
    decreases |clones|
  {
    if clones == [] then frees else FreeAll(Freed(frees, clones[0].id), clones[1..])
  }

  function Created(w: nat, h: nat, fourcc: nat): State {
    State(None, None, [], map[], 0, SourceFormat(fourcc, MOD_INVALID, w, h), [], [], [], false, map[])
  }

  // ----- conservation ------------------------------------------------------------------------------

  /** The real descriptors of one holder: each below the serial counter, none twice. */
  ghost predicate DistinctFds(fds: seq<int>, made: nat) {
    && (forall i :: 0 <= i < |fds| ==> -1 <= fds[i] < made)
    && (forall i, j :: 0 <= i < j < |fds| && fds[i] >= 0 ==> fds[i] != fds[j])
  }

  /** A descriptor is open, never closed yet, exactly while the pending or the native frame
      holds it; otherwise it has been closed exactly once. */
  ghost predicate FdsOwned(closes: seq<nat>, pending: seq<int>, native: seq<int>) {
    && DistinctFds(pending, |closes|) && DistinctFds(native, |closes|)
    && (forall k :: k in pending && k in native ==> k == -1)
    && (forall k :: 0 <= k < |closes| ==> closes[k] == if k in pending || k in native then 0 else 1)
  }

  ghost predicate FdsConserved(s: State) {
    FdsOwned(s.closes, PendingFds(s), NativeFds(s))
  }

  ghost predicate Pins(pending: Option<Clone>, retained: seq<Clone>, c: nat) {
    (pending.Some? && pending.value.id == c) || exists i :: 0 <= i < |retained| && retained[i].id == c
  }

  /** A clone is alive exactly while it is pending or among the last promoted; otherwise it has
      been freed exactly once. Clones are promoted in the order they were made. */
  ghost predicate ClonesOwned(frees: seq<nat>, pending: Option<Clone>, promoted: seq<Clone>) {
    && (forall c :: 0 <= c < |frees| ==> frees[c] == if Pins(pending, Latest(promoted), c) then 0 else 1)
    && (pending.Some? ==> pending.value.id < |frees|)
    && (forall i :: 0 <= i < |promoted| ==> promoted[i].id < |frees|)
    && (forall i, j :: 0 <= i < j < |promoted| ==> promoted[i].id < promoted[j].id)
    && (pending.Some? ==> forall i :: 0 <= i < |promoted| ==> promoted[i].id < pending.value.id)
  }

  function Held(s: State): Option<Clone> {
    if s.pending.Some? then Some(s.pending.value.held) else None
  }

  ghost predicate ClonesConserved(s: State) {
    ClonesOwned(s.frees, Held(s), s.promoted)
  }

  function Latest(clones: seq<Clone>): seq<Clone> {
    if |clones| <= RETAIN then clones else clones[|clones| - RETAIN..]
  }

  /** What is on screen stays pinned, and so do up to three frames before it. */
  ghost predicate RetainsLatest(s: State) {
    s.retained == Latest(s.promoted)
  }

  /** The pending frame's clone pins its own surface. */
  ghost predicate PendingPinned(s: State) {
    s.pending.Some? ==>
      s.pending.value.held.surface == s.pending.value.frame.surface &&
      |s.pending.value.fds| == |s.pending.value.frame.planes| <= MAX_PLANES
  }

  /** Unless the last promotion was native, a framebuffer is current exactly when a frame has been
      promoted, and it is the one cached for the newest retained surface. */
  ghost predicate Coherent(s: State) {
    && (forall k :: k in s.cache ==> s.cache[k] > 0) && s.sizes.Keys == s.cache.Keys
    && (!s.nativeLast ==>
          && (s.currentFb == 0 <==> s.retained == [])
          && (s.currentFb != 0 ==> NewestSurface(s) in s.cache && s.cache[NewestSurface(s)] == s.currentFb))
  }

  ghost function NewestSurface(s: State): nat {
    if s.retained == [] then 0 else s.retained[|s.retained| - 1].surface
  }

  ghost predicate Inv(s: State) {
    FdsConserved(s) && ClonesConserved(s) && RetainsLatest(s) && PendingPinned(s) && Coherent(s)
  }

  /** Exactly the serials from `next` on, each once. */
  ghost predicate Fresh(fds: seq<int>, next: nat, n: nat) {
    && DistinctFds(fds, next + n)
    && (forall k :: k in fds ==> k == -1 || next <= k)
    && (forall k :: next <= k < next + n ==> k in fds)
  }

  lemma {:induction false} DupsFresh(next: nat, ok: seq<bool>)
    ensures Fresh(Dups(next, ok), next, Successes(ok))
  {
    if ok != [] {
      var n := |ok| - 1;
      DupsFresh(next, ok[..n]);
      FreshMore(Dups(next, ok[..n]), next, Successes(ok[..n]), ok[n]);
    }
  }

  lemma FreshMore(fds: seq<int>, next: nat, n: nat, ok: bool)
    requires Fresh(fds, next, n)
    ensures Fresh(fds + [if ok then next + n else -1], next, n + if ok then 1 else 0)
  {
    var more := fds + [if ok then next + n else -1];
    assert forall k :: k in more <==> k in fds || k == more[|fds|];
    assert forall i :: 0 <= i < |fds| ==> more[i] == fds[i];
  }

  lemma DropPendingFds(closes: seq<nat>, pending: seq<int>, native: seq<int>)
    requires FdsOwned(closes, pending, native)
    ensures FdsOwned(CloseAll(closes, pending), [], native)
  {
  }

  lemma DropNativeFds(closes: seq<nat>, pending: seq<int>, native: seq<int>)
    requires FdsOwned(closes, pending, native)
    ensures FdsOwned(CloseAll(closes, native), pending, [])
  {
  }

  /** New descriptors replace the pending frame's. */
  lemma ReplacePendingFds(closes: seq<nat>, pending: seq<int>, native: seq<int>, fds: seq<int>, n: nat)
    requires FdsOwned(closes, pending, native) && Fresh(fds, |closes|, n)
    ensures FdsOwned(CloseAll(closes + Zeros(n), pending), fds, native)
  {
    var after := CloseAll(closes + Zeros(n), pending);
    forall k | 0 <= k < |after| ensures after[k] == if k in fds || k in native then 0 else 1 {
      if k < |closes| {
        assert k !in fds;
      } else {
        assert k in fds && k !in pending;
      }
    }
  }

  /** New descriptors closed again at once. */
  lemma UndoDups(closes: seq<nat>, pending: seq<int>, native: seq<int>, fds: seq<int>, n: nat)
    requires FdsOwned(closes, pending, native) && Fresh(fds, |closes|, n)
    ensures FdsOwned(CloseAll(closes + Zeros(n), fds), pending, native)
  {
    var after := CloseAll(closes + Zeros(n), fds);
    forall k | 0 <= k < |after| ensures after[k] == if k in pending || k in native then 0 else 1 {
      if k < |closes| {
        assert k !in fds;
      } else {
        assert k in fds && k !in pending && k !in native;
      }
    }
  }

  lemma ReplaceClone(frees: seq<nat>, pending: Option<Clone>, promoted: seq<Clone>, surface: nat)
    requires ClonesOwned(frees, pending, promoted)
    ensures var grown := frees + [0];
            ClonesOwned(if pending.Some? then Freed(grown, pending.value.id) else grown,
                        Some(Clone(|frees|, surface)), promoted)
  {
    assert forall i :: 0 <= i < |Latest(promoted)| ==> Latest(promoted)[i] in promoted;
    var grown := frees + [0];
    var after := if pending.Some? then Freed(grown, pending.value.id) else grown;
    forall c | 0 <= c < |after|
      ensures after[c] == if Pins(Some(Clone(|frees|, surface)), Latest(promoted), c) then 0 else 1
    {
      if c < |frees| {
        assert Pins(pending, Latest(promoted), c) <==>
               Pins(Some(Clone(|frees|, surface)), Latest(promoted), c) || (pending.Some? && pending.value.id == c);
      }
    }
  }

  lemma DropClone(frees: seq<nat>, pending: Option<Clone>, promoted: seq<Clone>)
    requires ClonesOwned(frees, pending, promoted) && pending.Some?
    ensures ClonesOwned(Freed(frees, pending.value.id), None, promoted)
  {
    assert forall i :: 0 <= i < |Latest(promoted)| ==> Latest(promoted)[i] in promoted;
    forall c | 0 <= c < |frees|
      ensures Freed(frees, pending.value.id)[c] == if Pins(None, Latest(promoted), c) then 0 else 1
    {
      assert Pins(pending, Latest(promoted), c) <==> Pins(None, Latest(promoted), c) || pending.value.id == c;
    }
  }

  /** The retain ring after a promotion, and what leaves it. */
  lemma LatestPush(promoted: seq<Clone>, c: Clone)
    ensures var ring := Latest(promoted) + [c];
            Latest(promoted + [c]) == if |ring| > RETAIN then ring[1..] else ring
  {
  }

  lemma PromoteClone(frees: seq<nat>, pending: Option<Clone>, promoted: seq<Clone>)
    requires ClonesOwned(frees, pending, promoted) && pending.Some?
    ensures var ring := Latest(promoted);
            ClonesOwned(if |ring| == RETAIN then Freed(frees, ring[0].id) else frees, None, promoted + [pending.value])
  {
    hide Pins;
    var ring, after := Latest(promoted), Latest(promoted + [pending.value]);
    LatestPush(promoted, pending.value);
    LatestOrdered(frees, pending, promoted);
    var freed := if |ring| == RETAIN then Freed(frees, ring[0].id) else frees;
    forall c | 0 <= c < |frees|
      ensures freed[c] == if Pins(None, after, c) then 0 else 1
    {
      PinsAfterPromotion(ring, pending.value, after, c);
      if |ring| == RETAIN {
        FirstIsPinned(pending, ring);
      }
    }
    hide Latest;
  }

  lemma FirstIsPinned(pending: Option<Clone>, ring: seq<Clone>)
    requires ring != []
    ensures Pins(pending, ring, ring[0].id)
  {
  }

  lemma LatestOrdered(frees: seq<nat>, pending: Option<Clone>, promoted: seq<Clone>)
    requires ClonesOwned(frees, pending, promoted)
    ensures var ring := Latest(promoted);
            && (forall i :: 0 <= i < |ring| ==> ring[i].id < |frees|)
            && (forall i, j :: 0 <= i < j < |ring| ==> ring[i].id < ring[j].id)
            && (pending.Some? ==> forall i :: 0 <= i < |ring| ==> ring[i].id < pending.value.id)
  {
    hide Pins;
    var drop := if |promoted| <= RETAIN then 0 else |promoted| - RETAIN;
    var ring := Latest(promoted);
    forall i | 0 <= i < |ring|
      ensures ring[i].id < |frees| && (pending.Some? ==> ring[i].id < pending.value.id)
    {
      assert ring[i] == promoted[drop + i];
    }
    forall i, j | 0 <= i < j < |ring| ensures ring[i].id < ring[j].id {
      assert ring[i] == promoted[drop + i] && ring[j] == promoted[drop + j];
    }
  }

  lemma PinsAfterPromotion(ring: seq<Clone>, next: Clone, after: seq<Clone>, c: nat)
    requires |ring| <= RETAIN && after == if |ring| == RETAIN then (ring + [next])[1..] else ring + [next]
    requires forall i, j :: 0 <= i < j < |ring| ==> ring[i].id < ring[j].id
    requires forall i :: 0 <= i < |ring| ==> ring[i].id < next.id
    ensures Pins(None, after, c) <==> Pins(Some(next), ring, c) && !(|ring| == RETAIN && c == ring[0].id)
  {
    var gone := if |ring| == RETAIN then 1 else 0;
    assert forall i :: gone <= i < |ring| ==> after[i - gone] == ring[i];
    assert after[|after| - 1] == next;
    if Pins(None, after, c) {
      var i :| 0 <= i < |after| && after[i].id == c;
      if i < |after| - 1 {
        assert ring[i + gone].id == c;
      }
    }
    if Pins(Some(next), ring, c) && c != next.id && !(|ring| == RETAIN && c == ring[0].id) {
      var i :| 0 <= i < |ring| && ring[i].id == c;
      assert after[i - gone].id == c;
    }
  }

  // ----- every run ----------------------------------------------------------------------------------

  lemma DecodedInv(s: State, f: DrmFrame, dupOk: seq<bool>, cloneOk: bool)
    requires Inv(s) && |dupOk| == |f.planes| <= MAX_PLANES
    ensures Inv(AfterDecoded(s, f, dupOk, cloneOk))
  {
    hide FdsOwned, ClonesOwned, CloseAll, Freed, Dups, Latest, Fresh;
    var n, fds := Successes(dupOk), Dups(|s.closes|, dupOk);
    DupsFresh(|s.closes|, dupOk);
    UndoDups(s.closes, PendingFds(s), NativeFds(s), fds, n);
    ReplacePendingFds(s.closes, PendingFds(s), NativeFds(s), fds, n);
    ReplaceClone(s.frees, Held(s), s.promoted, f.surface);
    NothingToClose(s.closes + Zeros(n));
  }

  lemma NothingToClose(closes: seq<nat>)
    ensures CloseAll(closes, []) == closes
  {
  }

  lemma DroppedInv(s: State)
    requires Inv(s) && s.pending.Some?
    ensures Inv(Dropped(s))
  {
    hide FdsOwned, ClonesOwned, CloseAll, Freed, Latest;
    DropPendingFds(s.closes, PendingFds(s), NativeFds(s));
    DropClone(s.frees, Held(s), s.promoted);
  }

  /** A promotion from a state whose descriptors have already been dealt with. */
  lemma RetainedKeeps(s: State, t: State)
    requires ClonesConserved(s) && RetainsLatest(s) && s.pending.Some?
    requires t.pending == s.pending && t.retained == s.retained && t.promoted == s.promoted && t.frees == s.frees
    ensures |t.retained| <= RETAIN && ClonesConserved(Retained(t)) && RetainsLatest(Retained(t))
    ensures Retained(t).retained != [] && NewestSurface(Retained(t)) == s.pending.value.held.surface
  {
    hide ClonesOwned, Freed;
    PromoteClone(s.frees, Held(s), s.promoted);
    LatestPush(s.promoted, s.pending.value.held);
  }

  lemma PromotedFds(closes: seq<nat>, pending: seq<int>)
    requires FdsOwned(closes, pending, [])
    ensures FdsOwned(closes, [], pending)
  {
  }

  lemma ImportInv(s: State, added: Option<nat>)
    requires Inv(s) && s.pending.Some? && (added.Some? ==> added.value > 0)
    ensures |s.retained| <= RETAIN && Inv(AfterImport(s, added))
  {
    hide FdsOwned, ClonesConserved, CloseAll, RetainsLatest, Latest;
    var p := s.pending.value;
    RetainedKeeps(s, s);
    if SizeOk(s.fmt, p.frame) && (p.frame.surface in s.cache || added.Some?) {
      DropPendingFds(s.closes, PendingFds(s), NativeFds(s));
      RetainedKeeps(s, Imported(s, added));
    } else {
      DroppedInv(s);
    }
  }

  lemma PromoteNativeInv(s: State)
    requires Inv(s) && s.pending.Some?
    ensures |s.retained| <= RETAIN && Inv(AfterPromotion(s))
  {
    hide FdsOwned, ClonesConserved, CloseAll, RetainsLatest, Latest;
    var p := s.pending.value;
    RetainedKeeps(s, s);
    if SizeOk(s.fmt, p.frame) {
      DropNativeFds(s.closes, PendingFds(s), NativeFds(s));
      PromotedFds(CloseAll(s.closes, NativeFds(s)), p.fds);
      RetainedKeeps(s, Lent(s));
    } else {
      DroppedInv(s);
    }
  }

  lemma RingFits(s: State)
    requires Inv(s)
    ensures |s.retained| <= RETAIN
  {
  }

  /** Each operation, whatever fails in it, keeps ownership and the cache in order. */
  lemma InvStep(s: State, e: Event)
    requires Inv(s) && Allowed(e)
    ensures |s.retained| <= RETAIN && Inv(Step(s, e))
  {
    hide Inv, AfterDecoded, AfterImport, AfterPromotion;
    RingFits(s);
    match e
    case Decoded(f, dupOk, cloneOk) => DecodedInv(s, f, dupOk, cloneOk);
    case AcquireKms(added) => if s.pending.Some? { ImportInv(s, added); }
    case AcquireNative => if s.pending.Some? { PromoteNativeInv(s); }
  }

  ghost predicate Possible(events: seq<Event>) {
    forall i :: 0 <= i < |events| ==> Allowed(events[i])
  }

  ghost function Run(s: State, events: seq<Event>): (t: State)
    requires Inv(s) && Possible(events)
    ensures Inv(t)
    decreases |events|
  {
    if events == [] then s
    else
      InvStep(s, events[0]);
      Run(Step(s, events[0]), events[1..])
  }

  lemma CreatedInv(w: nat, h: nat, fourcc: nat)
    ensures Inv(Created(w, h, fourcc))
  {
  }

  /** After any run the destructor has closed every descriptor ever duplicated and freed every
      clone ever made exactly once. */
  lemma EverythingReleasedOnce(w: nat, h: nat, fourcc: nat, events: seq<Event>)
    requires Possible(events)
    ensures Inv(Created(w, h, fourcc))
    ensures var t := Destroyed(Run(Created(w, h, fourcc), events));
            && (forall k :: 0 <= k < |t.closes| ==> t.closes[k] == 1)
            && (forall c :: 0 <= c < |t.frees| ==> t.frees[c] == 1)
  {
    CreatedInv(w, h, fourcc);
    DestroyedReleases(Run(Created(w, h, fourcc), events));
  }

  lemma DestroyedReleases(s: State)
    requires Inv(s)
    ensures forall k :: 0 <= k < |s.closes| ==> Destroyed(s).closes[k] == 1
    ensures forall c :: 0 <= c < |s.frees| ==> Destroyed(s).frees[c] == 1
    ensures |Destroyed(s).closes| == |s.closes| && |Destroyed(s).frees| == |s.frees|
  {
    hide FreeAll, Coherent, PendingPinned, Latest;
    LatestOrdered(s.frees, Held(s), s.promoted);
    forall c | 0 <= c < |s.frees| ensures Destroyed(s).frees[c] == 1 {
      FreeAllFrees(s.frees, s.retained, c);
    }
  }

  lemma {:induction false} FreeAllFrees(frees: seq<nat>, clones: seq<Clone>, c: nat)
    requires c < |frees|
    requires forall i :: 0 <= i < |clones| ==> clones[i].id < |frees|
    requires forall i, j :: 0 <= i < j < |clones| ==> clones[i].id < clones[j].id
    ensures FreeAll(frees, clones)[c] == frees[c] + if Pins(None, clones, c) then 1 else 0
    decreases |clones|
  {
    if clones != [] {
      FreeAllFrees(Freed(frees, clones[0].id), clones[1..], c);
      if Pins(None, clones, c) && clones[0].id != c {
        var i :| 0 <= i < |clones| && clones[i].id == c;
        assert clones[1..][i - 1].id == c;
      }
    }
  }

  /** Descriptors lent by acquire_native_frame() stay open through any decoding and any KMS
      acquire, until the next native acquire. */
  lemma LentFdsStayOpen(s: State, events: seq<Event>)
    requires Inv(s) && Possible(events) && forall i :: 0 <= i < |events| ==> !events[i].AcquireNative?
    ensures var t := Run(s, events);
            && t.native == s.native
            && (forall k :: k >= 0 && k in NativeFds(s) ==> k < |t.closes| && t.closes[k] == 0)
  {
    hide Run, Coherent, PendingPinned, RetainsLatest, ClonesConserved;
    NativeStays(s, events);
  }

  lemma {:induction false} NativeStays(s: State, events: seq<Event>)
    requires Inv(s) && Possible(events) && forall i :: 0 <= i < |events| ==> !events[i].AcquireNative?
    ensures Run(s, events).native == s.native
    decreases |events|
  {
    hide Inv, CloseAll, Dups, Freed;
    if events != [] {
      InvStep(s, events[0]);
      NativeStays(Step(s, events[0]), events[1..]);
    }
  }

  /** What is on screen through KMS, in any run whose last promotion was an import, and so in
      every run that never uses the native path: the framebuffer cached for the newest pinned
      surface, that surface pinned by a clone not yet freed, and up to three before it. */
  lemma ScreenIsPinned(w: nat, h: nat, fourcc: nat, events: seq<Event>)
    requires Possible(events)
    ensures Inv(Created(w, h, fourcc))
    ensures var t := Run(Created(w, h, fourcc), events);
            && ((forall i :: 0 <= i < |events| ==> !events[i].AcquireNative?) ==> !t.nativeLast)
            && t.retained == Latest(t.promoted)
            && (forall i :: 0 <= i < |t.retained| ==>
                  t.retained[i].id < |t.frees| && t.frees[t.retained[i].id] == 0)
            && (!t.nativeLast ==> (t.currentFb != 0 <==> t.promoted != []))
            && (!t.nativeLast && t.currentFb != 0 ==>
                  NewestSurface(t) in t.cache && t.cache[NewestSurface(t)] == t.currentFb)
  {
    CreatedInv(w, h, fourcc);
    var s := Created(w, h, fourcc);
    if forall i :: 0 <= i < |events| ==> !events[i].AcquireNative? {
      NeverNative(s, events);
    }
    RetainedAlive(Run(s, events));
  }

  lemma RetainedAlive(s: State)
    requires Inv(s)
    ensures forall i :: 0 <= i < |s.retained| ==> s.retained[i].id < |s.frees| && s.frees[s.retained[i].id] == 0
  {
    LatestOrdered(s.frees, Held(s), s.promoted);
    forall i | 0 <= i < |s.retained| ensures s.frees[s.retained[i].id] == 0 {
      assert Pins(Held(s), Latest(s.promoted), s.retained[i].id);
    }
  }

  lemma {:induction false} NeverNative(s: State, events: seq<Event>)
    requires Inv(s) && Possible(events) && forall i :: 0 <= i < |events| ==> !events[i].AcquireNative?
    ensures !s.nativeLast ==> !Run(s, events).nativeLast
    decreases |events|
  {
    hide Inv, CloseAll, Dups, Freed;
    if events != [] {
      InvStep(s, events[0]);
      NeverNative(Step(s, events[0]), events[1..]);
    }
  }

  /** The current framebuffer is that of the newest retained surface. */
  ghost predicate ScreenOk(s: State) {
    && (s.currentFb == 0 <==> s.retained == [])
    && (s.currentFb != 0 ==> NewestSurface(s) in s.cache && s.cache[NewestSurface(s)] == s.currentFb)
  }

  /** A native promotion leaves the screen's framebuffer that of the newest retained surface if and
      only if it promotes the very surface the framebuffer is cached for. */
  lemma NativePromotionKeepsScreenIff(s: State)
    requires Inv(s) && s.pending.Some? && SizeOk(s.fmt, s.pending.value.frame)
    ensures |s.retained| <= RETAIN
    ensures var k := s.pending.value.frame.surface;
            ScreenOk(AfterPromotion(s)) <==> s.currentFb != 0 && k in s.cache && s.cache[k] == s.currentFb
  {
    RetainedKeeps(s, Lent(s));
    hide ClonesConserved, FdsConserved, RetainsLatest;
  }

  /** Otherwise the retain ring moves on while the framebuffer stays behind, until the next import. */
  lemma MixingLosesTheScreen()
    ensures Inv(Created(2, 2, 0))
    ensures exists events ::
      Possible(events) &&
      var t := Run(Created(2, 2, 0), events);
      t.currentFb == 7 && NewestSurface(t) == 2 && 2 !in t.cache
  {
    hide Inv;
    CreatedInv(2, 2, 0);
    var f, g := DrmFrame(1, 2, 2, 0, 0, []), DrmFrame(2, 2, 2, 0, 0, []);
    var a, run := Created(2, 2, 0), [];
    assert Run(a, run) == a;
    hide Run, CloseAll, Freed, Dups, Successes, Zeros;
    run := Then(a, run, Decoded(f, [], true));
    run := Then(a, run, AcquireKms(Some(7)));
    run := Then(a, run, Decoded(g, [], true));
    run := Then(a, run, AcquireNative);
  }

  // ----- one framebuffer per surface ----------------------------------------------------------------

  lemma CacheStep(s: State, e: Event)
    requires Inv(s) && Allowed(e)
    ensures |s.retained| <= RETAIN
    ensures forall k :: k in s.cache ==> k in Step(s, e).cache && Step(s, e).cache[k] == s.cache[k]
    ensures forall k :: k in Step(s, e).cache && k !in s.cache ==>
              e.AcquireKms? && e.added.Some? && Step(s, e).cache[k] == e.added.value &&
              s.pending.Some? && k == s.pending.value.frame.surface
  {
    RingFits(s);
    hide Inv, CloseAll, Freed, Dups, Successes, Zeros;
  }

  /** A surface's framebuffer is made once and reused for the source's life: over any run no cached
      framebuffer is forgotten or replaced. */
  lemma {:induction false} FramebuffersAreReused(s: State, events: seq<Event>, k: nat)
    requires Inv(s) && Possible(events) && k in s.cache
    ensures k in Run(s, events).cache && Run(s, events).cache[k] == s.cache[k]
    decreases |events|
  {
    hide Inv, Step;
    if events != [] {
      CacheStep(s, events[0]);
      InvStep(s, events[0]);
      FramebuffersAreReused(Step(s, events[0]), events[1..], k);
    }
  }

  /** What an acquire does, by the cases of the pending frame: of another size than the one locked in,
      of a surface imported before, of a new surface that is imported, or of one that cannot be. */
  lemma ImportCases(s: State, added: Option<nat>)
    requires s.pending.Some? && |s.retained| <= RETAIN
    ensures var f, t := s.pending.value.frame, AfterImport(s, added);
      var sameSize := s.fmt.modifier == MOD_INVALID || (f.w == s.fmt.w && f.h == s.fmt.h);
      && (!sameSize || (f.surface !in s.cache && added.None?) ==>
            t.cache == s.cache && t.currentFb == s.currentFb && t.fmt == s.fmt && t.retained == s.retained)
      && (sameSize && f.surface in s.cache ==> t.cache == s.cache && t.currentFb == s.cache[f.surface])
      && (sameSize && f.surface !in s.cache && added.Some? ==>
            t.cache == s.cache[f.surface := added.value] && t.currentFb == added.value)
      && (sameSize && (f.surface in s.cache || added.Some?) ==>
            && t.fmt == (if s.fmt.modifier == MOD_INVALID then SourceFormat(f.fourcc, f.modifier, f.w, f.h) else s.fmt)
            && t.retained != [] && t.retained[|t.retained| - 1] == s.pending.value.held)
      && t.pending.None? && t.native == s.native
  {
    hide CloseAll, Freed;
  }

  /** And a native acquire: a frame of another size leaves the last one lent, any other is lent with
      its own descriptors, plane by plane. */
  lemma PromotionCases(s: State)
    requires s.pending.Some? && |s.retained| <= RETAIN
    ensures var p, t := s.pending.value, AfterPromotion(s);
      var sameSize := s.fmt.modifier == MOD_INVALID || (p.frame.w == s.fmt.w && p.frame.h == s.fmt.h);
      && t.native == (if sameSize then Some(Native(p.frame, p.fds)) else s.native)
      && (sameSize ==> t.retained != [] && t.retained[|t.retained| - 1] == p.held)
      && t.pending.None? && t.cache == s.cache && t.currentFb == s.currentFb
  {
    hide CloseAll, Freed;
  }

  // ----- one size ------------------------------------------------------------------------------------

  /** A frame of another size than the one locked in is let go without a trace. */
  lemma OtherSizesAreDropped(s: State, e: Event)
    requires Inv(s) && Allowed(e) && !e.Decoded? && s.pending.Some? && !SizeOk(s.fmt, s.pending.value.frame)
    ensures |s.retained| <= RETAIN
    ensures var t := Step(s, e);
            && t.pending.None? && t.fmt == s.fmt
            && t.currentFb == s.currentFb && t.cache == s.cache && t.native == s.native
            && t.retained == s.retained && t.promoted == s.promoted
  {
    RingFits(s);
  }

  /** The native frame has the size of the format. */
  ghost predicate NativeFits(s: State) {
    s.native.Some? ==> s.native.value.frame.w == s.fmt.w && s.native.value.frame.h == s.fmt.h
  }

  /** Every cached framebuffer was made with the size of the format. */
  ghost predicate CacheFits(s: State) {
    forall k :: k in s.sizes ==> s.sizes[k] == (s.fmt.w, s.fmt.h)
  }

  /** What a step does to all that has a size: a decoded frame may become the pending one; an
      acquire takes the pending frame, and shows it if its size is that of the format. */
  ghost predicate SizedStep(s: State, t: State, e: Event) {
    match e
    case Decoded(f, _, _) =>
      && t.fmt == s.fmt && t.native == s.native && t.sizes == s.sizes
      && (t.pending == s.pending || (t.pending.Some? && t.pending.value.frame == f))
    case _ =>
      && (t.pending.None? || t.pending == s.pending)
      && ((t.fmt == s.fmt && t.native == s.native && t.sizes == s.sizes) ||
          (s.pending.Some? && SizeOk(s.fmt, s.pending.value.frame) && Shows(s, t, s.pending.value.frame)))
  }

  ghost predicate Shows(s: State, t: State, f: DrmFrame) {
    && t.fmt == Locked(s.fmt, f)
    && if t.nativeLast then t.sizes == s.sizes && t.native.Some? && t.native.value.frame == f
       else
         && t.native == s.native
         && t.sizes == if f.surface in s.sizes then s.sizes else s.sizes[f.surface := (f.w, f.h)]
  }

  lemma DecodedSizes(s: State, f: DrmFrame, dupOk: seq<bool>, cloneOk: bool)
    requires |dupOk| == |f.planes|
    ensures SizedStep(s, AfterDecoded(s, f, dupOk, cloneOk), Decoded(f, dupOk, cloneOk))
  {
    hide CloseAll, Freed, Dups, Successes, Zeros;
  }

  lemma ImportSizes(s: State, added: Option<nat>)
    requires s.pending.Some? && |s.retained| <= RETAIN && s.sizes.Keys == s.cache.Keys
    ensures SizedStep(s, AfterImport(s, added), AcquireKms(added))
  {
    hide CloseAll, Freed;
  }

  lemma PromotionSizes(s: State)
    requires s.pending.Some? && |s.retained| <= RETAIN
    ensures SizedStep(s, AfterPromotion(s), AcquireNative)
  {
    hide CloseAll, Freed;
  }

  lemma StepSizes(s: State, e: Event)
    requires Inv(s) && Allowed(e)
    ensures |s.retained| <= RETAIN && SizedStep(s, Step(s, e), e)
  {
    RingFits(s);
    hide AfterDecoded, AfterImport, AfterPromotion;
    match e
    case Decoded(f, dupOk, cloneOk) => DecodedSizes(s, f, dupOk, cloneOk);
    case AcquireKms(added) =>
      if s.pending.Some? {
        ImportSizes(s, added);
      }
    case AcquireNative =>
      if s.pending.Some? {
        PromotionSizes(s);
      }
  }

  lemma LockedStep(s: State, e: Event)
    requires Inv(s) && Allowed(e) && s.fmt.modifier != MOD_INVALID
    ensures |s.retained| <= RETAIN && Step(s, e).fmt == s.fmt
    ensures NativeFits(s) ==> NativeFits(Step(s, e))
    ensures CacheFits(s) <==> CacheFits(Step(s, e))
  {
    hide Inv, Step;
    StepSizes(s, e);
    var t := Step(s, e);
    assert forall k :: k in s.sizes ==> k in t.sizes && t.sizes[k] == s.sizes[k];
  }

  /** Once a format is locked in it stays for the source's life. A native frame of its size gives
      way only to others of its size. All framebuffers ever cached have its size, at the end of any
      run, if and only if those cached when it was locked in have. */
  lemma {:induction false} FormatStaysLocked(s: State, events: seq<Event>)
    requires Inv(s) && Possible(events) && s.fmt.modifier != MOD_INVALID
    ensures Run(s, events).fmt == s.fmt
    ensures NativeFits(s) ==> NativeFits(Run(s, events))
    ensures CacheFits(s) <==> CacheFits(Run(s, events))
    decreases |events|
  {
    hide Inv, Step, NativeFits, CacheFits;
    if events != [] {
      LockedStep(s, events[0]);
      InvStep(s, events[0]);
      FormatStaysLocked(Step(s, events[0]), events[1..]);
    }
  }

  /** Every frame decoded carries a modifier. */
  ghost predicate WithModifiers(events: seq<Event>) {
    forall i :: 0 <= i < |events| && events[i].Decoded? ==> events[i].frame.modifier != MOD_INVALID
  }

  /** Nothing has been shown before the format was locked in, and all shown since has its size. */
  ghost predicate OneSize(s: State) {
    && (s.pending.Some? ==> s.pending.value.frame.modifier != MOD_INVALID)
    && (s.fmt.modifier == MOD_INVALID ==> s.sizes == map[] && s.native.None?)
    && CacheFits(s) && NativeFits(s)
  }

  lemma OneSizeStep(s: State, e: Event)
    requires Inv(s) && Allowed(e) && OneSize(s)
    requires e.Decoded? ==> e.frame.modifier != MOD_INVALID
    ensures |s.retained| <= RETAIN && OneSize(Step(s, e))
  {
    hide Inv, Step;
    StepSizes(s, e);
  }

  lemma {:induction false} OneSizeRun(s: State, events: seq<Event>)
    requires Inv(s) && Possible(events) && OneSize(s) && WithModifiers(events)
    ensures OneSize(Run(s, events))
    decreases |events|
  {
    hide Inv, Step, OneSize;
    if events != [] {
      OneSizeStep(s, events[0]);
      InvStep(s, events[0]);
      OneSizeRun(Step(s, events[0]), events[1..]);
    }
  }

  /** When every frame carries a modifier, a change of resolution never gets through: in any run, what
      is lent natively and what KMS shows have the size locked in. */
  lemma ResolutionNeverChanges(w: nat, h: nat, fourcc: nat, events: seq<Event>)
    requires Possible(events) && WithModifiers(events)
    ensures Inv(Created(w, h, fourcc))
    ensures var t := Run(Created(w, h, fourcc), events);
            && NativeFits(t) && CacheFits(t)
            && (t.currentFb != 0 && !t.nativeLast ==>
                  NewestSurface(t) in t.sizes && t.sizes[NewestSurface(t)] == (t.fmt.w, t.fmt.h))
  {
    CreatedInv(w, h, fourcc);
    OneSizeRun(Created(w, h, fourcc), events);
  }

  /** Without a modifier it can: the first frame locks nothing in, its surface keeps the framebuffer
      of its first size, and shows it again under a format of another. */
  lemma AFramebufferOfAnotherSize()
    ensures Inv(Created(2, 2, 0))
    ensures exists events ::
      Possible(events) &&
      var t := Run(Created(2, 2, 0), events);
      && t.fmt == SourceFormat(0, 0, 4, 4) && t.currentFb == 7
      && NewestSurface(t) == 1 && 1 in t.sizes && t.sizes[1] == (2, 2)
  {
    CreatedInv(2, 2, 0);
    var a, run := Created(2, 2, 0), [];
    assert Run(a, run) == a;
    hide Run, Inv, NewestSurface;
    run := DecodedAndShown(a, run, DrmFrame(1, 2, 2, 0, MOD_INVALID, []), Some(7));
    assert 1 in Run(a, run).cache && Run(a, run).cache[1] == 7 && Run(a, run).sizes[1] == (2, 2);
    run := DecodedAndShown(a, run, DrmFrame(2, 4, 4, 0, 0, []), Some(8));
    assert 1 in Run(a, run).cache && Run(a, run).cache[1] == 7 && Run(a, run).sizes[1] == (2, 2);
    run := DecodedAndShown(a, run, DrmFrame(1, 4, 4, 0, 0, []), None);
  }

  /** A frame is decoded and imported at the end of a run. */
  lemma DecodedAndShown(a: State, run: seq<Event>, f: DrmFrame, added: Option<nat>) returns (longer: seq<Event>)
    requires Inv(a) && Possible(run) && f.planes == [] && (added.Some? ==> added.value > 0)
    requires var s := Run(a, run); s.pending.None? && SizeOk(s.fmt, f) && (f.surface in s.cache || added.Some?)
    ensures Possible(longer)
    ensures var s, t := Run(a, run), Run(a, longer);
      && t.pending.None? && t.fmt == Locked(s.fmt, f) && NewestSurface(t) == f.surface
      && t.cache == (if f.surface in s.cache then s.cache else s.cache[f.surface := added.value])
      && t.sizes == (if f.surface in s.cache then s.sizes else s.sizes[f.surface := (f.w, f.h)])
      && t.currentFb == t.cache[f.surface]
  {
    hide Run, Inv, CloseAll, Freed, Dups, Successes, Zeros;
    longer := Then(a, run, Decoded(f, [], true));
    longer := Then(a, longer, AcquireKms(added));
  }

  /** One more event at the end of a run. */
  lemma {:induction false} Then(s: State, run: seq<Event>, e: Event) returns (longer: seq<Event>)
    requires Inv(s) && Possible(run) && Allowed(e)
    ensures Possible(longer) && |Run(s, run).retained| <= RETAIN
    ensures Run(s, longer) == Step(Run(s, run), e)
    decreases |run|
  {
    hide Inv, Step, Allowed;
    RingFits(Run(s, run));
    InvStep(Run(s, run), e);
    if run == [] {
      longer := [e];
      assert Run(Step(s, e), longer[1..]) == Step(s, e);
    } else {
      InvStep(s, run[0]);
      var rest := Then(Step(s, run[0]), run[1..], e);
      longer := [run[0]] + rest;
      assert longer[1..] == rest;
    }
  }

  // ----- the source itself ---------------------------------------------------------------------------

  /** The frame may be presented: no format is locked in yet, or it has the format's size. */
  predicate SameSize(fmt: SourceFormat, f: DrmFrame) {
    fmt.modifier != MOD_INVALID ==> (f.w, f.h) == (fmt.w, fmt.h)
  }

  lemma CachedIsNonzero(s: State)
    requires Inv(s)
    ensures forall k :: k in s.cache ==> s.cache[k] > 0
  {
  }

  ghost predicate PendingAlive(s: State)
    requires s.pending.Some?
  {
    && s.pending.value.held.id < |s.frees| && s.frees[s.pending.value.held.id] == 0
    && DistinctFds(s.pending.value.fds, |s.closes|)
    && (forall k :: k in s.pending.value.fds && k >= 0 ==> s.closes[k] == 0)
  }

  /** Each method takes the outcomes of the system calls it makes as parameters, and may close a
      descriptor or free a clone only while it is open or alive. */
  class VaapiDecoderSource {
    var pending: Option<Pending>
    var native: Option<Native>
    var retained: seq<Clone>
    var cache: map<nat, nat>
    var currentFb: nat
    var fmt: SourceFormat
    ghost var closes: seq<nat>
    ghost var frees: seq<nat>
    ghost var promoted: seq<Clone>
    ghost var nativeLast: bool
    ghost var sizes: map<nat, (nat, nat)>

    ghost function Now(): State
      reads this
    {
      State(pending, native, retained, cache, currentFb, fmt, closes, frees, promoted, nativeLast, sizes)
    }

    constructor (w: nat, h: nat, fourcc: nat)
      ensures Now() == Created(w, h, fourcc) && Inv(Now())
    {
      pending, native, retained, cache, currentFb := None, None, [], map[], 0;
      fmt := SourceFormat(fourcc, MOD_INVALID, w, h);
      closes, frees, promoted, nativeLast, sizes := [], [], [], false, map[];
      new;
      CreatedInv(w, h, fourcc);
    }

    /** close() of a descriptor that is open. */
    ghost method Close(fd: nat)
      requires fd < |closes| && closes[fd] == 0
      modifies this`closes
      ensures closes == old(closes)[fd := 1]
    {
      closes := closes[fd := 1];
    }

    /** av_frame_free() of a clone that is alive. */
    ghost method FreeFrame(c: Clone)
      requires c.id < |frees| && frees[c.id] == 0
      modifies this`frees
      ensures frees == Freed(old(frees), c.id)
    {
      frees := frees[c.id := 1];
    }

    method ClosePlanes(fds: seq<int>)
      requires DistinctFds(fds, |closes|)
      requires forall k :: k in fds && k >= 0 ==> closes[k] == 0
      modifies this`closes
      ensures closes == CloseAll(old(closes), fds)
    {
      var i := 0;
      while i < |fds|
        invariant i <= |fds| && |closes| == |old(closes)|
        invariant forall k :: 0 <= k < |closes| ==> closes[k] == old(closes)[k] + if k in fds[..i] then 1 else 0
      {
        assert fds[..i + 1] == fds[..i] + [fds[i]];
        if fds[i] >= 0 {
          assert fds[i] !in fds[..i];
          Close(fds[i]);
        }
        i := i + 1;
      }
      assert fds[..i] == fds;
    }

    /** The pending frame is closed, freed and forgotten. */
    method DropPending()
      requires pending.Some? && PendingAlive(Now())
      modifies this`pending, this`closes, this`frees
      ensures Now() == Dropped(old(Now()))
    {
      ClosePlanes(pending.value.fds);
      FreeFrame(pending.value.held);
      pending := None;
    }

    /** on_decoded(): duplicate the descriptors, pin the surface, replace the pending frame.
        `dups` is what dup() returns for each plane, `clone` what av_frame_clone() returns. */
    method OnDecoded(f: DrmFrame, dups: seq<int>, clone: Option<Clone>, ghost dupOk: seq<bool>)
      requires Inv(Now()) && |dupOk| == |f.planes| <= MAX_PLANES
      requires dups == Dups(|closes|, dupOk) && (clone.Some? ==> clone.value == Clone(|frees|, f.surface))
      modifies this`pending, this`closes, this`frees
      ensures Inv(Now()) && Now() == AfterDecoded(old(Now()), f, dupOk, clone.Some?)
      ensures pending == if clone.Some? then Some(Pending(f, dups, clone.value)) else old(pending)
    {
      hide Inv, FdsOwned, ClonesOwned, Latest, Dups;
      ghost var was := Now();
      if pending.Some? {
        PendingOwned(was);
      }
      DupsFresh(|was.closes|, dupOk);
      closes := closes + Zeros(Successes(dupOk));
      var fds := [];
      while |fds| < |f.planes|
        invariant |fds| <= |f.planes| && fds == dups[..|fds|]
      {
        fds := fds + [dups[|fds|]];
      }
      assert fds == dups;
      if clone.None? {
        ClosePlanes(fds);
      } else {
        frees := frees + [0];
        if pending.Some? {
          DropPending();
        }
        pending := Some(Pending(f, fds, clone.value));
      }
      DecodedInv(was, f, dupOk, clone.Some?);
    }

    /** pending_size_ok_locked(): what it refuses is dropped, by OtherSizesAreDropped. */
    method PendingSizeOk() returns (ok: bool)
      requires pending.Some?
      ensures ok == SizeOk(fmt, pending.value.frame)
    {
      ok := !(fmt.modifier != MOD_INVALID && (pending.value.frame.w != fmt.w || pending.value.frame.h != fmt.h));
    }

    /** Lock in the format, move the pending clone into the retain ring, free what falls out. */
    method RetainPending()
      requires pending.Some? && |retained| <= RETAIN && (|retained| == RETAIN ==> FirstAlive(Now()))
      modifies this`pending, this`fmt, this`retained, this`frees, this`promoted
      ensures Now() == Retained(old(Now()))
    {
      var p := pending.value;
      if fmt.modifier == MOD_INVALID {
        fmt := SourceFormat(p.frame.fourcc, p.frame.modifier, p.frame.w, p.frame.h);
      }
      ghost var ring, full := retained + [p.held], |retained| == RETAIN;
      retained, promoted := retained + [p.held], promoted + [p.held];
      while |retained| > RETAIN
        invariant pending == old(pending) && promoted == old(promoted) + [p.held] && fmt == Locked(old(fmt), p.frame)
        invariant |retained| <= RETAIN ==>
                    retained == (if full then ring[1..] else ring) &&
                    frees == (if full then Freed(old(frees), ring[0].id) else old(frees))
        invariant |retained| > RETAIN ==> retained == ring && frees == old(frees) && full
        decreases |retained|
      {
        FreeFrame(retained[0]);
        retained := retained[1..];
      }
      pending := None;
    }

    /** Close the descriptors, and make the surface's framebuffer, cached or added, the current one. */
    method MakeCurrent(added: Option<nat>)
      requires pending.Some? && (pending.value.frame.surface in cache || added.Some?) && PendingAlive(Now())
      modifies this`closes, this`cache, this`sizes, this`currentFb, this`nativeLast
      ensures Now() == Imported(old(Now()), added)
    {
      var f := pending.value.frame;
      ClosePlanes(pending.value.fds);
      if f.surface !in cache {
        cache, sizes := cache[f.surface := added.value], sizes[f.surface := (f.w, f.h)];
      }
      currentFb, nativeLast := cache[f.surface], false;
    }

    /** Close what was lent and lend the pending frame's descriptors. */
    method Lend()
      requires pending.Some? && DistinctFds(NativeFds(Now()), |closes|)
      requires forall k :: k in NativeFds(Now()) && k >= 0 ==> closes[k] == 0
      modifies this`closes, this`native, this`nativeLast
      ensures Now() == Lent(old(Now()))
    {
      if native.Some? {
        ClosePlanes(native.value.fds);
      } else {
        NothingToClose(closes);
      }
      native, nativeLast := Some(Native(pending.value.frame, pending.value.fds)), true;
    }

    /** acquire(): `added` is the framebuffer drmModeAddFB2WithModifiers() would make. */
    method Acquire(added: Option<nat>) returns (fb: Option<nat>)
      requires Inv(Now()) && (added.Some? ==> added.value > 0)
      modifies this
      ensures Inv(Now()) && Now() == (if old(pending).Some? then AfterImport(old(Now()), added) else old(Now()))
      ensures fb == if currentFb == 0 then None else Some(currentFb)
      ensures old(pending).Some? && SameSize(old(fmt), old(pending).value.frame) ==>
                var k := old(pending).value.frame.surface;
                if k in old(cache) then cache == old(cache) && fb == Some(old(cache)[k])
                else if added.Some? then cache == old(cache)[k := added.value] && fb == added
                else cache == old(cache) && currentFb == old(currentFb)
      ensures !(old(pending).Some? && SameSize(old(fmt), old(pending).value.frame)) ==>
                cache == old(cache) && currentFb == old(currentFb)
    {
      hide Inv, Dropped, Retained, CloseAll;
      RingFits(Now());
      if pending.Some? {
        ghost var was := Now();
        PendingOwned(was);
        if retained != [] {
          OldestAlive(was);
        }
        ImportInv(was, added);
        ImportCases(was, added);
        CachedIsNonzero(was);
        var p := pending.value;
        var ok := PendingSizeOk();
        if !ok || (p.frame.surface !in cache && added.None?) {
          DropPending();
        } else {
          MakeCurrent(added);
          RetainPending();
        }
      }
      fb := if currentFb == 0 then None else Some(currentFb);
    }

    /** acquire_native_frame(): the descriptors it returns are lent. */
    method AcquireNativeFrame() returns (out: Option<Native>)
      requires Inv(Now())
      modifies this
      ensures Inv(Now()) && Now() == (if old(pending).Some? then AfterPromotion(old(Now())) else old(Now()))
      ensures out == native
      ensures out == if old(pending).Some? && SameSize(old(fmt), old(pending).value.frame)
                     then Some(Native(old(pending).value.frame, old(pending).value.fds)) else old(native)
      ensures out.Some? ==> forall k :: k in out.value.fds && k >= 0 ==> k < |closes| && closes[k] == 0
    {
      hide Inv, Dropped, Retained, CloseAll, Lent, DistinctFds;
      RingFits(Now());
      if pending.Some? {
        ghost var was := Now();
        PendingOwned(was);
        NativeOwned(was);
        if retained != [] {
          OldestAlive(was);
        }
        PromoteNativeInv(was);
        PromotionCases(was);
        var ok := PendingSizeOk();
        if !ok {
          DropPending();
        } else {
          Lend();
          RetainPending();
        }
      }
      NativeOwned(Now());
      out := native;
    }

    method FreeRetained()
      requires forall i :: 0 <= i < |retained| ==> retained[i].id < |frees| && frees[retained[i].id] == 0
      requires forall i, j :: 0 <= i < j < |retained| ==> retained[i].id < retained[j].id
      modifies this`retained, this`frees
      ensures retained == [] && frees == FreeAll(old(frees), old(retained))
    {
      while retained != []
        invariant forall i :: 0 <= i < |retained| ==> retained[i].id < |frees| && frees[retained[i].id] == 0
        invariant forall i, j :: 0 <= i < j < |retained| ==> retained[i].id < retained[j].id
        invariant FreeAll(frees, retained) == FreeAll(old(frees), old(retained))
        decreases |retained|
      {
        FreeFrame(retained[0]);
        retained := retained[1..];
      }
    }

    /** The destructor: each release below is of something still open or alive. */
    method Destroy()
      requires Inv(Now())
      modifies this
      ensures Now() == Destroyed(old(Now()))
      ensures forall k :: 0 <= k < |closes| ==> closes[k] == 1
      ensures forall c :: 0 <= c < |frees| ==> frees[c] == 1
    {
      hide Inv, FreeAll;
      ghost var was := Now();
      DestroyedReleases(was);
      NativeOwned(was);
      RetainedFreeable(was);
      if native.Some? {
        ClosePlanes(native.value.fds);
      } else {
        NothingToClose(closes);
      }
      cache, sizes, native := map[], map[], None;
      FreeRetained();
      if pending.Some? {
        PendingOwned(was);
        DropPending();
      } else {
        NothingToClose(closes);
      }
    }

  }

  lemma PendingOwned(s: State)
    requires Inv(s) && s.pending.Some?
    ensures PendingAlive(s)
  {
    assert Pins(Held(s), Latest(s.promoted), s.pending.value.held.id);
  }

  ghost predicate FirstAlive(s: State) {
    s.retained != [] && s.retained[0].id < |s.frees| && s.frees[s.retained[0].id] == 0
  }

  lemma OldestAlive(s: State)
    requires Inv(s) && s.retained != []
    ensures FirstAlive(s)
  {
    RetainedAlive(s);
  }

  lemma NativeOwned(s: State)
    requires Inv(s)
    ensures DistinctFds(NativeFds(s), |s.closes|)
    ensures forall k :: k in NativeFds(s) && k >= 0 ==> s.closes[k] == 0 && k !in PendingFds(s)
  {
  }

  /** The ring can be freed clone by clone, and that leaves the pending clone alive. */
  lemma RetainedFreeable(s: State)
    requires Inv(s)
    ensures forall i :: 0 <= i < |s.retained| ==> s.retained[i].id < |s.frees| && s.frees[s.retained[i].id] == 0
    ensures forall i, j :: 0 <= i < j < |s.retained| ==> s.retained[i].id < s.retained[j].id
    ensures s.pending.Some? ==>
              && s.pending.value.held.id < |s.frees|
              && FreeAll(s.frees, s.retained)[s.pending.value.held.id] == s.frees[s.pending.value.held.id]
  {
    RetainedAlive(s);
    LatestOrdered(s.frees, Held(s), s.promoted);
    if s.pending.Some? {
      FreeAllFrees(s.frees, s.retained, s.pending.value.held.id);
    }
  }
}
