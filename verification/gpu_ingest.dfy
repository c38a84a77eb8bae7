/** The GPU lane: the decode thread keeps the newest raw frame under a sequence number
    (src/software_decoder_source.cpp), and the rotate stage borrows, uploads and draws it
    and asks whether anything newer has come (src/gl_rotate_source.cpp). Frames may arrive
    between any two sections of a draw: an event is one section, and a run any interleaving. */
module GpuIngest {
  import opened Options

  /** Stands for the picture in a frame. */
  type Picture = int

  datatype DecodedFrame = DecodedFrame(picture: Picture, number: nat)

  /** A decoded frame on its way in; `refOk` is whether a reference to it could be taken. */
  datatype Arrival = Arrival(picture: Picture, refOk: bool)

  /** Every arrival so far, oldest first; the frame kept, numbered by its arrival; the sequence
      number; the frame in the middle of a draw; and what has been drawn. */
  datatype State = State(
    arrived: seq<Arrival>, latest: Option<DecodedFrame>, frameSeq: nat,
    drawing: Option<DecodedFrame>, lastSeq: nat, drawn: seq<nat>, front: Option<Picture>)

  datatype Event =
    | Arrives(frame: Arrival)
    | Borrows(refOk: bool)
    | GivesUp
    | Swaps

  function Start(): State {
    State([], None, 0, None, 0, [], None)
  }

  ghost predicate Enabled(s: State, e: Event) {
    match e
    case Arrives(_) => true
    case Borrows(_) => s.drawing.None?
    case _ => s.drawing.Some?
  }

  ghost function Step(s: State, e: Event): State
    requires Enabled(s, e)
  {
    match e
    case Arrives(a) =>
      s.(arrived := s.arrived + [a], frameSeq := s.frameSeq + 1,
         latest := if a.refOk then Some(DecodedFrame(a.picture, |s.arrived| + 1)) else None)
    case Borrows(refOk) =>
      if s.latest.Some? && refOk then s.(drawing := Some(DecodedFrame(s.latest.value.picture, s.frameSeq))) else s
    case GivesUp => s.(drawing := None)
    case Swaps =>
      var f := s.drawing.value;
      s.(drawing := None, lastSeq := f.number, drawn := s.drawn + [f.number], front := Some(f.picture))
  }

  ghost predicate Possible(s: State, events: seq<Event>)
    decreases |events|
  {
    events == [] || (Enabled(s, events[0]) && Possible(Step(s, events[0]), events[1..]))
  }

  ghost function Run(s: State, events: seq<Event>): State
    requires Possible(s, events)
    decreases |events|
  {
    if events == [] then s else Run(Step(s, events[0]), events[1..])
  }

  // ----- what every interleaving keeps --------------------------------------------------------

  /** The newest arrival, if a reference to it was taken. */
  function Newest(arrived: seq<Arrival>): Option<DecodedFrame> {
    if arrived == [] || !arrived[|arrived| - 1].refOk then None
    else Some(DecodedFrame(arrived[|arrived| - 1].picture, |arrived|))
  }

  ghost predicate NeverGoesBack(s: seq<nat>) {
    forall i, j :: 0 <= i < j < |s| ==> s[i] <= s[j]
  }

  /** `number` is that of an arrival, and `picture` its picture. */
  ghost predicate Names(arrived: seq<Arrival>, f: DecodedFrame) {
    0 < f.number <= |arrived| && f.picture == arrived[f.number - 1].picture
  }

  ghost predicate Inv(s: State) {
    && s.frameSeq == |s.arrived| && s.latest == Newest(s.arrived)
    && (s.drawing.Some? ==> Names(s.arrived, s.drawing.value) && s.lastSeq <= s.drawing.value.number)
    && NeverGoesBack(s.drawn)
    && (if s.drawn == [] then s.lastSeq == 0 && s.front.None?
        else
          && s.lastSeq == s.drawn[|s.drawn| - 1] && s.front.Some?
          && Names(s.arrived, DecodedFrame(s.front.value, s.lastSeq)))
  }

  lemma InvStep(s: State, e: Event)
    requires Inv(s) && Enabled(s, e)
    ensures Inv(Step(s, e))
  {
    assert e.Arrives? ==> forall i :: 0 <= i < |s.arrived| ==> Step(s, e).arrived[i] == s.arrived[i];
  }

  lemma {:induction false} InvRun(s: State, events: seq<Event>)
    requires Inv(s) && Possible(s, events)
    ensures Inv(Run(s, events))
    decreases |events|
  {
    hide Inv, Step, Enabled;
    if events != [] {
      InvStep(s, events[0]);
      InvRun(Step(s, events[0]), events[1..]);
    }
  }

  /** In every interleaving: the number on a frame being drawn names exactly that frame, numbers
      drawn never go back, and the front buffer shows the picture its number names. */
  lemma DrawsNameTheirFrames(events: seq<Event>)
    requires Possible(Start(), events)
    ensures var s := Run(Start(), events);
            && (s.drawing.Some? ==> Names(s.arrived, s.drawing.value))
            && NeverGoesBack(s.drawn)
            && (s.front.Some? ==> Names(s.arrived, DecodedFrame(s.front.value, s.lastSeq)))
  {
    InvRun(Start(), events);
  }

  /** has_fresh_content(). */
  predicate Fresh(s: State) {
    s.frameSeq > s.lastSeq
  }

  /** A frame newer than the last one rendered has been kept. */
  predicate KeptNewer(s: State) {
    s.latest.Some? && s.latest.value.number > s.lastSeq
  }

  predicate NewestReferenced(arrived: seq<Arrival>) {
    arrived != [] && arrived[|arrived| - 1].refOk
  }

  /** In every interleaving the freshness report is right, true exactly when a newer frame has
      been kept, if and only if nothing has arrived since the frame rendered last or the
      reference to the newest arrival was taken. A fresh report has a frame to draw under
      exactly that condition. */
  lemma FreshnessIsRight(events: seq<Event>)
    requires Possible(Start(), events)
    ensures var s := Run(Start(), events);
            && ((Fresh(s) <==> KeptNewer(s)) <==> (|s.arrived| == s.lastSeq || NewestReferenced(s.arrived)))
            && (Fresh(s) ==> (s.latest.Some? <==> NewestReferenced(s.arrived)))
            && (Fresh(s) <==> |s.arrived| > s.lastSeq)
  {
    InvRun(Start(), events);
  }

  /** And it does go wrong: after any run, one arrival without a reference is enough. */
  lemma FreshWithoutAFrame(events: seq<Event>, p: Picture)
    requires Possible(Start(), events)
    ensures var s := Step(Run(Start(), events), Arrives(Arrival(p, false)));
            Fresh(s) && s.latest.None? && !KeptNewer(s)
  {
    InvRun(Start(), events);
    LastSeqArrived(Run(Start(), events));
  }

  lemma LastSeqArrived(s: State)
    requires Inv(s)
    ensures s.lastSeq <= |s.arrived|
  {
  }

  // ----- runs put together ---------------------------------------------------------------------

  lemma Nothing(s: State)
    ensures Possible(s, []) && Run(s, []) == s
  {
  }

  /** One more event at the end of a run. */
  lemma {:induction false} Then(s: State, run: seq<Event>, e: Event) returns (longer: seq<Event>)
    requires Possible(s, run) && Enabled(Run(s, run), e)
    ensures Possible(s, longer) && Run(s, longer) == Step(Run(s, run), e)
    decreases |run|
  {
    hide Enabled, Step;
    longer := [e];
    if run != [] {
      var rest := Then(Step(s, run[0]), run[1..], e);
      longer := [run[0]] + rest;
      assert longer[1..] == rest;
    }
  }

  /** A burst of arrivals at the end of a run. */
  lemma {:induction false} ThenArrivals(s: State, run: seq<Event>, arrivals: seq<Arrival>) returns (longer: seq<Event>)
    requires Possible(s, run) && Inv(Run(s, run))
    ensures Possible(s, longer) && Inv(Run(s, longer))
    ensures var t := Run(s, run);
            Run(s, longer) == t.(arrived := t.arrived + arrivals, frameSeq := |t.arrived| + |arrivals|,
                                 latest := Newest(t.arrived + arrivals))
    decreases |arrivals|
  {
    hide Possible, Run;
    var t := Run(s, run);
    if arrivals == [] {
      longer := run;
      assert t.arrived + arrivals == t.arrived;
    } else {
      var n := |arrivals| - 1;
      var shorter := ThenArrivals(s, run, arrivals[..n]);
      InvStep(Run(s, shorter), Arrives(arrivals[n]));
      longer := Then(s, shorter, Arrives(arrivals[n]));
      assert t.arrived + arrivals[..n] + [arrivals[n]] == t.arrived + arrivals;
    }
  }

  // ----- the decoder's side ----------------------------------------------------------------------

  class Ingest {
    var latest: Option<Picture>
    var borrowed: Option<Picture>
    var frameSeq: nat
    /** Every frame handed to on_frame, oldest first. */
    ghost var arrived: seq<Arrival>

    ghost predicate Valid()
      reads this
    {
      && frameSeq == |arrived|
      && latest == (if Newest(arrived).Some? then Some(Newest(arrived).value.picture) else None)
    }

    constructor ()
      ensures Valid() && arrived == [] && latest == None && borrowed == None
    {
      latest, borrowed, frameSeq, arrived := None, None, 0, [];
    }

    /** The result of taking the reference is not looked at: the number is bumped even when
        there is no frame behind it. */
    method OnFrame(a: Arrival)
      requires Valid()
      modifies this
      ensures Valid() && arrived == old(arrived) + [a]
      ensures latest == (if a.refOk then Some(a.picture) else None)
      ensures borrowed == old(borrowed)
    {
      latest := None;
      if a.refOk {
        latest := Some(a.picture);
      }
      frameSeq := frameSeq + 1;
      arrived := arrived + [a];
    }

    /** What the decode thread does while another thread is between two locked sections. */
    method OnFrames(arrivals: seq<Arrival>)
      requires Valid()
      modifies this
      ensures Valid() && arrived == old(arrived) + arrivals && borrowed == old(borrowed)
    {
      for i := 0 to |arrivals|
        invariant Valid() && arrived == old(arrived) + arrivals[..i] && borrowed == old(borrowed)
      {
        OnFrame(arrivals[i]);
      }
      assert arrivals[..|arrivals|] == arrivals;
    }

    /** The number on a borrowed frame names exactly that frame, and it is the newest. */
    method AcquireDecodedFrame(refOk: bool) returns (ok: bool, f: DecodedFrame)
      requires Valid()
      modifies this`borrowed
      ensures Valid()
      ensures ok <==> latest.Some? && refOk
      ensures ok ==> Newest(arrived) == Some(f) && borrowed == Some(f.picture)
    {
      f := DecodedFrame(0, 0);
      if latest == None {
        return false, f;
      }
      borrowed := None;
      if !refOk {
        return false, f;
      }
      borrowed := latest;
      return true, DecodedFrame(borrowed.value, frameSeq);
    }

    method ReleaseDecodedFrame()
      requires Valid()
      modifies this`borrowed
      ensures Valid() && borrowed == None
    {
      borrowed := None;
    }
  }

  // ----- the rotate stage ------------------------------------------------------------------------

  /** How the foreign calls of one draw turn out, and which frames arrive meanwhile. */
  datatype Draw = Draw(glReady: bool, refOk: bool, currentOk: bool, swapOk: bool,
                       whileUploading: seq<Arrival>, whileDrawing: seq<Arrival>)

  class GlRotateSource {
    const inner: Ingest
    var renderedOnce: bool
    var lastSeq: nat
    /** The numbers of the frames drawn, in order, and the picture on the front buffer. */
    ghost var drawn: seq<nat>
    ghost var front: Option<Picture>

    /** The lane between two draws. */
    ghost function Now(): State
      reads this, inner
    {
      State(inner.arrived, Newest(inner.arrived), inner.frameSeq, None, lastSeq, drawn, front)
    }

    ghost predicate Valid()
      reads this, inner
    {
      inner.Valid() && Inv(Now()) && (renderedOnce <==> drawn != [])
    }

    constructor (ingest: Ingest)
      requires ingest.Valid() && ingest.arrived == []
      ensures Valid() && inner == ingest && Now() == Start()
    {
      inner := ingest;
      renderedOnce, lastSeq, drawn, front := false, 0, [], None;
    }

    /** Draws the newest frame there is when the draw begins, whatever arrives during the upload
        and the draw: these are steps of the machine above. */
    method RenderFrame(d: Draw) returns (ok: bool, ghost run: seq<Event>)
      requires Valid()
      modifies this, inner
      ensures Valid() && Possible(old(Now()), run) && Now() == Run(old(Now()), run)
      ensures ok <==> d.glReady && NewestReferenced(old(inner.arrived)) && d.refOk && d.currentOk && d.swapOk
      ensures ok ==> lastSeq == |old(inner.arrived)| && drawn == old(drawn) + [lastSeq]
      ensures ok ==> front == Some(old(inner.arrived)[lastSeq - 1].picture)
      ensures !ok ==> lastSeq == old(lastSeq) && drawn == old(drawn) && front == old(front)
      ensures inner.arrived == old(inner.arrived) ||
              inner.arrived == old(inner.arrived) + d.whileUploading ||
              inner.arrived == old(inner.arrived) + d.whileUploading + d.whileDrawing
      ensures ok ==> inner.arrived == old(inner.arrived) + d.whileUploading + d.whileDrawing
    {
      hide Possible, Run, Inv, Newest;
      ghost var was := Now();
      run := [];
      Nothing(was);
      LatestIsNewest(inner.arrived);
      if !d.glReady {
        return false, run;
      }
      var got, f := inner.AcquireDecodedFrame(d.refOk);
      assert was.latest.Some? == inner.latest.Some?;
      InvStep(was, Borrows(d.refOk));
      run := Then(was, run, Borrows(d.refOk));
      if !got {
        return false, run;
      }
      inner.OnFrames(d.whileUploading);
      run := ThenArrivals(was, run, d.whileUploading);
      inner.ReleaseDecodedFrame();
      if !d.currentOk {
        run := Then(was, run, GivesUp);
        InvRun(was, run);
        return false, run;
      }
      inner.OnFrames(d.whileDrawing);
      run := ThenArrivals(was, run, d.whileDrawing);
      if !d.swapOk {
        run := Then(was, run, GivesUp);
        InvRun(was, run);
        return false, run;
      }
      run := Then(was, run, Swaps);
      InvRun(was, run);
      renderedOnce := true;
      lastSeq := f.number;
      drawn := drawn + [f.number];
      front := Some(f.picture);
      return true, run;
    }

    /** Right, in the sense of FreshnessIsRight, exactly when nothing has arrived since the last
        draw or the newest arrival could be referenced. */
    method HasFreshContent() returns (report: bool)
      requires Valid()
      ensures report == Fresh(Now())
      ensures (report <==> KeptNewer(Now())) <==>
              (|inner.arrived| == lastSeq || NewestReferenced(inner.arrived))
    {
      report := inner.frameSeq > lastSeq;
      LastSeqArrived(Now());
    }
  }

  lemma LatestIsNewest(arrived: seq<Arrival>)
    ensures Newest(arrived).Some? <==> NewestReferenced(arrived)
    ensures Newest(arrived).Some? ==> Newest(arrived).value == DecodedFrame(arrived[|arrived| - 1].picture, |arrived|)
  {
  }

  /** The commit loop: draw only when something is fresh, with more frames arriving before the
      test, between the test and the borrow, and during the draw. No frame is drawn twice. */
  method CommitLoop(g: GlRotateSource, before: seq<seq<Arrival>>, between: seq<seq<Arrival>>, draws: seq<Draw>)
    requires g.Valid() && g.drawn == [] && |before| == |between| == |draws|
    modifies g, g.inner
    ensures g.Valid()
    ensures forall i, j :: 0 <= i < j < |g.drawn| ==> g.drawn[i] < g.drawn[j]
  {
    hide Inv, Newest;
    for n := 0 to |draws|
      invariant g.Valid()
      invariant forall i, j :: 0 <= i < j < |g.drawn| ==> g.drawn[i] < g.drawn[j]
    {
      Arrive(g, before[n]);
      var isFresh := g.HasFreshContent();
      if isFresh {
        Arrive(g, between[n]);
        LastDrawn(g.Now());
        ghost var drawn, last := g.drawn, g.lastSeq;
        var ok, run := g.RenderFrame(draws[n]);
        assert ok ==> last < g.lastSeq;
      }
    }
  }

  /** Arrivals between two draws. */
  method Arrive(g: GlRotateSource, arrivals: seq<Arrival>)
    requires g.Valid()
    modifies g.inner
    ensures g.Valid() && g.inner.arrived == old(g.inner.arrived) + arrivals
  {
    hide Possible, Run, Inv, Newest;
    ghost var was := g.Now();
    Nothing(was);
    ghost var run := ThenArrivals(was, [], arrivals);
    g.inner.OnFrames(arrivals);
    assert g.Now() == Run(was, run);
  }

  lemma LastDrawn(s: State)
    requires Inv(s)
    ensures s.frameSeq == |s.arrived|
    ensures forall i :: 0 <= i < |s.drawn| ==> s.drawn[i] <= s.lastSeq
  {
  }

  /** One draw without failures catches up with the decoder. */
  method CatchUp(g: GlRotateSource)
    requires g.Valid() && NewestReferenced(g.inner.arrived)
    modifies g, g.inner
    ensures g.Valid() && |g.inner.arrived| == g.lastSeq > 0 && !Fresh(g.Now())
    ensures g.front == Some(g.inner.arrived[g.lastSeq - 1].picture)
  {
    var ok, run := g.RenderFrame(Draw(true, true, true, true, [], []));
  }
}
