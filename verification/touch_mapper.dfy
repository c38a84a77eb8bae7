/** The input thread's state machine (src/input_touch.h): what is sent to the dongle as
    touches come and go and the pointer moves. Times are in seconds. */
module TouchMapping {
  import opened Options
  import opened Rotation
  import opened Touch

  datatype Action = Down | Move | Up

  /** A touch message: where in the unrotated video, and what. */
  datatype Report = Report(at: Vec, action: Action)

  datatype TouchType = TouchDown | TouchMotion | TouchUp | TouchCancel | TouchFrame

  function Clamp(v: real, lo: real, hi: real): (r: real)
    requires lo <= hi
    ensures lo <= r <= hi
  {
    if v < lo then lo else if hi < v then hi else v
  }

  /** A cursor coordinate after a motion, kept on the display. */
  function Moved(c: real, d: real, g: real, extent: int): (r: real)
    requires extent > 0
    ensures 0.0 <= r <= extent as real
  {
    Clamp(c + d * g, 0.0, extent as real)
  }

  /** The place on the display nearest to where the motion, in display pixels times the gain, would
      take it. */
  lemma MovedIsNearest(c: real, d: real, g: real, extent: int, x: real)
    requires extent > 0 && 0.0 <= x <= extent as real
    ensures var r, aim := Moved(c, d, g, extent), c + g * d;
      && 0.0 <= r <= extent as real && (0.0 <= aim <= extent as real ==> r == aim)
      && (r - aim) * (r - aim) <= (x - aim) * (x - aim)
  {
    var r, aim := Moved(c, d, g, extent), c + g * d;
    if aim < 0.0 {
      SquaresCompare(r - aim, x - aim);
    } else if aim > extent as real {
      SquaresCompare(aim - r, aim - x);
    }
  }

  lemma SquaresCompare(a: real, b: real)
    requires 0.0 <= a <= b
    ensures a * a <= b * b
  {
    assert b * b - a * a == (b - a) * (b + a);
  }

  /** send_touch(): fixed point with four decimals. */
  function Encode(v: real): int {
    (Clamp(v, 0.0, 1.0) * 10000.0).Floor
  }

  /** Inside the unit square the clamp does nothing, the code stays in range and keeps the
      order, and it is off by less than one step. */
  lemma EncodeInside(v: real, u: real)
    requires 0.0 <= v <= u <= 1.0
    ensures 0 <= Encode(v) <= Encode(u) <= 10000
    ensures 0.0 <= v * 10000.0 - Encode(v) as real < 1.0
  {
  }

  function Times(motions: seq<(Vec, real)>): (times: seq<real>)
    ensures |times| == |motions| && forall i :: 0 <= i < |times| ==> times[i] == motions[i].1
  {
    seq(|motions|, i requires 0 <= i < |motions| => motions[i].1)
  }

  /** Outside the unit square it is the nearest end of the range. */
  lemma EncodeOutside(v: real)
    ensures v <= 0.0 ==> Encode(v) == 0
    ensures v >= 1.0 ==> Encode(v) == 10000
  {
  }

  // ----- the report rate of a drag ---------------------------------------------------------

  /** Which of the motions at `times` are reported, the last report having been at `last`. */
  function Reports(last: real, interval: real, times: seq<real>): seq<real>
    decreases |times|
  {
    if times == [] then []
    else if times[0] - last >= interval then [times[0]] + Reports(times[0], interval, times[1..])
    else Reports(last, interval, times[1..])
  }

  /** Each at least an interval after the one before. */
  ghost predicate Spaced(times: seq<real>, interval: real) {
    forall i, j :: 0 <= i && j == i + 1 && j < |times| ==> times[j] - times[i] >= interval
  }

  /** For any sequence of motions the reports are spaced, the first from the one before them. */
  lemma {:induction false} ReportsAreSpaced(last: real, interval: real, times: seq<real>)
    ensures Spaced([last] + Reports(last, interval, times), interval)
    decreases |times|
  {
    if times != [] {
      var rest := times[1..];
      if times[0] - last >= interval {
        ReportsAreSpaced(times[0], interval, rest);
        var r := [times[0]] + Reports(times[0], interval, rest);
        assert forall i :: 0 < i < |r| + 1 ==> ([last] + r)[i] == r[i - 1];
      } else {
        ReportsAreSpaced(last, interval, rest);
      }
    }
  }

  /** So n + 1 reports take at least n intervals. */
  lemma {:induction false} ReportRate(times: seq<real>, interval: real)
    requires Spaced(times, interval) && times != []
    ensures times[|times| - 1] - times[0] >= (|times| - 1) as real * interval
    decreases |times|
  {
    var n := |times| - 1;
    if n > 0 {
      ReportRate(times[..n], interval);
      assert times[n] - times[n - 1] >= interval;
      assert n as real * interval == (n - 1) as real * interval + interval;
    }
  }

  ghost predicate Ordered(last: real, times: seq<real>) {
    forall i, j :: 0 <= i < j < |times| + 1 ==> ([last] + times)[i] <= ([last] + times)[j]
  }

  /** At a report, or less than an interval after one. */
  ghost predicate Covered(t: real, reports: seq<real>, interval: real) {
    exists r :: r in reports && 0.0 <= t - r < interval
  }

  /** Nor is more held back than that: every motion, in time order, is reported itself or comes less
      than an interval after a report. */
  lemma {:induction false} EveryMotionIsCovered(last: real, interval: real, times: seq<real>, i: nat)
    requires interval > 0.0 && Ordered(last, times) && i < |times|
    ensures Covered(times[i], [last] + Reports(last, interval, times), interval)
    decreases |times|
  {
    var first, rest := times[0], times[1..];
    OrderedTail(last, times);
    if first - last >= interval {
      var more := [first] + Reports(first, interval, rest);
      assert Reports(last, interval, times) == more;
      if i == 0 {
        CoveredBy(first, first, [last] + more, interval);
      } else {
        EveryMotionIsCovered(first, interval, rest, i - 1);
        var r :| r in more && 0.0 <= rest[i - 1] - r < interval;
        CoveredBy(times[i], r, [last] + more, interval);
      }
    } else if i == 0 {
      CoveredBy(first, last, [last] + Reports(last, interval, times), interval);
    } else {
      EveryMotionIsCovered(last, interval, rest, i - 1);
      assert rest[i - 1] == times[i];
    }
  }

  lemma CoveredBy(t: real, r: real, reports: seq<real>, interval: real)
    requires r in reports && 0.0 <= t - r < interval
    ensures Covered(t, reports, interval)
  {
  }

  lemma OrderedTail(last: real, times: seq<real>)
    requires times != [] && Ordered(last, times)
    ensures last <= times[0] && Ordered(last, times[1..]) && Ordered(times[0], times[1..])
  {
    var all, fewer, tail := [last] + times, [last] + times[1..], [times[0]] + times[1..];
    assert all[0] == last && all[1] == times[0];
    assert forall k :: 0 <= k < |fewer| ==> fewer[k] == all[if k == 0 then 0 else k + 1];
    assert forall k :: 0 <= k < |tail| ==> tail[k] == all[k + 1];
  }

  // ----- the mapper -----------------------------------------------------------------------------

  class TouchMapper {
    const rot: Rotation
    const dw: int
    const dh: int
    const rect: Rect
    const gain: real
    const dragGain: real
    const interval: real
    var cx: real
    var cy: real
    var cursorDirty: bool
    var last: Vec
    var down: bool
    var lastMove: real
    /** Every message sent so far. */
    var sent: seq<Report>
    /** When a drag has reported since the button was last pressed. */
    ghost var reported: seq<real>

    ghost predicate Valid()
      reads this
    {
      && dw > 0 && dh > 0 && rect.w > 0 && rect.h > 0
      && 0.0 <= cx <= dw as real && 0.0 <= cy <= dh as real
      && InUnitSquare(last)
      && (forall i :: 0 <= i < |sent| ==> InUnitSquare(sent[i].at))
      && (sent != [] ==> last == sent[|sent| - 1].at)
      && Spaced(reported, interval) && (reported != [] ==> lastMove == reported[|reported| - 1])
    }

    constructor (rotation: Rotation, w: int, h: int, video: Rect, g: real, drag: real, every: real)
      requires w > 0 && h > 0 && video.w > 0 && video.h > 0
      ensures Valid() && sent == [] && !down && last == Vec(0.5, 0.5)
      ensures rot == rotation && dw == w && dh == h && rect == video
      ensures gain == g && dragGain == drag && interval == every && cx == w as real / 2.0 && cy == h as real / 2.0
    {
      rot, dw, dh, rect := rotation, w, h, video;
      gain, dragGain, interval := g, drag, every;
      cx, cy, cursorDirty := w as real / 2.0, h as real / 2.0, false;
      last, down, lastMove, sent, reported := Vec(0.5, 0.5), false, 0.0, [], [];
    }

    /** What one emit() adds: presses and moves outside the video are dropped, a release
        outside it is sent where the last message was. */
    ghost function EmittedAt(before: Vec, action: Action, n: Vec): seq<Report>
      requires rect.w > 0 && rect.h > 0
    {
      match ToVideo(rot, dw, dh, rect, n)
      case Some(v) => [Report(v, action)]
      case None => if action == Up then [Report(before, Up)] else []
    }

    /** What the program promises of one emit(): over the video one message goes out, for the point
        of the video shown under `n`; elsewhere only a release does, where the last message was. */
    ghost predicate Emitted(before: seq<Report>, at: Vec, action: Action, n: Vec, after: seq<Report>)
      requires dw > 0 && dh > 0
    {
      if OutsideVideo(dw, dh, rect, n) then
        after == before + if action == Up then [Report(at, Up)] else []
      else
        && |after| == |before| + 1 && after[..|before|] == before
        && after[|before|].action == action
        && InUnitSquare(after[|before|].at) && Shown(dw, dh, rect, OnScreen(rot, after[|before|].at)) == n
    }

    lemma EmittedIsPromised(before: seq<Report>, at: Vec, action: Action, n: Vec)
      requires dw > 0 && dh > 0 && rect.w > 0 && rect.h > 0
      ensures Emitted(before, at, action, n, before + EmittedAt(at, action, n))
    {
      ReportedIsUnderTheTouch(rot, dw, dh, rect, n);
      hide OutsideVideo, Shown, OnScreen, ToVideo;
      var added := EmittedAt(at, action, n);
      assert |added| == 1 ==> (before + added)[..|before|] == before && (before + added)[|before|] == added[0];
    }

    method Emit(action: Action, n: Vec)
      requires Valid()
      modifies this`last, this`sent
      ensures Valid() && sent == old(sent) + EmittedAt(old(last), action, n)
      ensures Emitted(old(sent), old(last), action, n, sent)
      ensures action == Up ==> sent[|sent| - 1].action == Up
      ensures action == Up && ToVideo(rot, dw, dh, rect, n) == None && old(sent) != [] ==>
                sent[|sent| - 1].at == old(sent[|sent| - 1].at)
    {
      hide Emitted;
      EmittedIsPromised(sent, last, action, n);
      var v := ToVideo(rot, dw, dh, rect, n);
      if v == None {
        if action != Up {
          assert sent + [] == sent;
          return;
        }
        sent := sent + [Report(last, action)];
      } else {
        VideoPointInUnit(rot, dw, dh, rect, n);
        last := v.value;
        sent := sent + [Report(last, action)];
      }
    }

    method HandleTouch(t: TouchType, n: Vec)
      requires Valid()
      modifies this`down, this`last, this`sent
      ensures Valid()
      ensures match t
              case TouchDown => down && sent == old(sent) + EmittedAt(old(last), Down, n)
              case TouchMotion =>
                down == old(down) && sent == old(sent) + if down then EmittedAt(old(last), Move, n) else []
              case TouchFrame => down == old(down) && sent == old(sent)
              case _ =>
                !down && sent == old(sent) + if old(down) then [Report(old(last), Up)] else []
      ensures t.TouchDown? ==> Emitted(old(sent), old(last), Down, n, sent)
      ensures t.TouchMotion? && down ==> Emitted(old(sent), old(last), Move, n, sent)
    {
      hide Emitted, EmittedAt;
      match t
      case TouchDown =>
        down := true;
        Emit(Down, n);
      case TouchMotion =>
        if down {
          Emit(Move, n);
        }
      case TouchFrame =>
      case _ =>
        if down {
          sent := sent + [Report(last, Up)];
        }
        down := false;
    }

    /** Moves the cursor by the motion turned into the display's frame, and while a button is
        held reports the new place at most once per interval. */
    method HandleMotion(d: Vec, now: real)
      requires Valid()
      modifies this`cx, this`cy, this`cursorDirty, this`lastMove, this`last, this`sent, this`reported
      ensures Valid() && cursorDirty
      ensures var g := if down then dragGain else gain;
        && cx == Moved(old(cx), RotateDelta(rot, d).x, g, dw)
        && cy == Moved(old(cy), RotateDelta(rot, d).y, g, dh)
      ensures if down && now - old(lastMove) >= interval
              then
                && lastMove == now && reported == old(reported) + [now]
                && sent == old(sent) + EmittedAt(old(last), Move, Vec(cx / dw as real, cy / dh as real))
              else lastMove == old(lastMove) && sent == old(sent) && reported == old(reported)
      ensures down && now - old(lastMove) >= interval ==>
                Emitted(old(sent), old(last), Move, Vec(cx / dw as real, cy / dh as real), sent)
    {
      hide Moved, RotateDelta, ToVideo, Emitted, EmittedAt;
      var m := RotateDelta(rot, d);
      var g := if down then dragGain else gain;
      cx := Moved(cx, m.x, g, dw);
      cy := Moved(cy, m.y, g, dh);
      cursorDirty := true;
      if down && now - lastMove >= interval {
        lastMove, reported := now, reported + [now];
        Emit(Move, Vec(cx / dw as real, cy / dh as real));
      }
    }

    /** A drag: motions one after the other with the button held. Whatever they are, the reports
        among them are the spaced ones. */
    method HandleMotions(motions: seq<(Vec, real)>)
      requires Valid() && down
      modifies this`cx, this`cy, this`cursorDirty, this`lastMove, this`last, this`sent, this`reported
      ensures Valid() && |sent| - |old(sent)| <= |reported| - |old(reported)|
      ensures reported == old(reported) + Reports(old(lastMove), interval, Times(motions))
    {
      hide Moved, RotateDelta, ToVideo, Spaced;
      var i := 0;
      assert Times(motions)[0..] == Times(motions);
      while i < |motions|
        invariant i <= |motions| && Valid() && down
        invariant |sent| - |old(sent)| <= |reported| - |old(reported)|
        invariant reported + Reports(lastMove, interval, Times(motions)[i..])
               == old(reported) + Reports(old(lastMove), interval, Times(motions))
      {
        ghost var left := Times(motions)[i..];
        assert left[0] == motions[i].1 && left[1..] == Times(motions)[i + 1..];
        ghost var was, at := reported, lastMove;
        HandleMotion(motions[i].0, motions[i].1);
        assert reported + Reports(lastMove, interval, left[1..]) == was + Reports(at, interval, left);
        i := i + 1;
      }
      assert reported + [] == reported;
    }

    /** The left button is a finger at the cursor; a press lets the first move through. */
    method HandleButton(left: bool, pressed: bool)
      requires Valid()
      modifies this`down, this`lastMove, this`last, this`sent, this`reported
      ensures Valid()
      ensures !left ==>
                down == old(down) && sent == old(sent) && lastMove == old(lastMove) && reported == old(reported)
      ensures left ==>
                && down == pressed && (pressed ==> lastMove == 0.0 && reported == [])
                && sent == old(sent) + EmittedAt(old(last), if pressed then Down else Up,
                                                    Vec(cx / dw as real, cy / dh as real))
      ensures left ==>
                Emitted(old(sent), old(last), if pressed then Down else Up, Vec(cx / dw as real, cy / dh as real), sent)
    {
      hide Emitted, EmittedAt;
      if !left {
        return;
      }
      down := pressed;
      if pressed {
        lastMove, reported := 0.0, [];
      }
      Emit(if pressed then Down else Up, Vec(cx / dw as real, cy / dh as real));
    }
  }

  /** A finger on the spot where an output pixel's centre is shown: exactly one message goes out, a
      press at the centre of the source pixel shown there. */
  method TouchPixel(m: TouchMapper, w: nat, h: nat, p: Point)
    requires m.Valid() && w > 0 && h > 0 && Within(p, OutW(m.rot, w, h), OutH(m.rot, w, h))
    modifies m
    ensures m.Valid() && m.down
    ensures m.sent == old(m.sent) + [Report(Centre(SourceOf(m.rot, w, h, p), w, h), Down)]
  {
    hide Centre, SourceOf, OutW, OutH, Shown, ToVideo, OnScreen, OutsideVideo;
    TouchHitsWhatIsShown(m.rot, w, h, p, m.dw, m.dh, m.rect);
    m.HandleTouch(TouchDown, Shown(m.dw, m.dh, m.rect, Centre(p, OutW(m.rot, w, h), OutH(m.rot, w, h))));
  }

  /** What to_video() returns is inside the video. */
  lemma VideoPointInUnit(rot: Rotation, dw: int, dh: int, r: Rect, n: Vec)
    requires r.w > 0 && r.h > 0 && ToVideo(rot, dw, dh, r, n).Some?
    ensures InUnitSquare(ToVideo(rot, dw, dh, r, n).value)
  {
    hide Local;
  }
}
