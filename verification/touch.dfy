/** Touch and pointer input (src/input_touch.h), the GPU's sampling matrix
    (src/gl_rotate_source.cpp) and the aspect-preserving fit (src/main_kms.cpp), in exact
    arithmetic. The display rotation is written three times in the program: here it is one
    rotation. */
module Touch {
  import opened Options
  import opened Rotation
  import opened Rounding

  datatype Vec = Vec(x: real, y: real)

  datatype Rect = Rect(x: int, y: int, w: int, h: int)

  ghost predicate InUnitSquare(v: Vec) {
    0.0 <= v.x <= 1.0 && 0.0 <= v.y <= 1.0
  }

  /** The switch in to_video(): from the shown picture's local coordinates, y down, to the
      unrotated video frame's. */
  function Unrotate(rot: Rotation, l: Vec): Vec {
    match rot
    case R0 => l
    case R90 => Vec(1.0 - l.y, l.x)
    case R180 => Vec(1.0 - l.x, 1.0 - l.y)
    case R270 => Vec(l.y, 1.0 - l.x)
  }

  /** A display-normalised point in the video rectangle's local coordinates. */
  function Local(dw: int, dh: int, r: Rect, n: Vec): Vec
    requires r.w > 0 && r.h > 0
  {
    Vec((n.x * dw as real - r.x as real) / r.w as real, (n.y * dh as real - r.y as real) / r.h as real)
  }

  function ToVideo(rot: Rotation, dw: int, dh: int, r: Rect, n: Vec): Option<Vec>
    requires r.w > 0 && r.h > 0
  {
    var l := Local(dw, dh, r, n);
    if l.x < 0.0 || l.x > 1.0 || l.y < 0.0 || l.y > 1.0 then None else Some(Unrotate(rot, l))
  }

  // ----- the three encodings of a rotation ------------------------------------------

  /** The centre of a pixel in a w by h picture, in [0, 1] coordinates. */
  function Centre(p: Point, w: nat, h: nat): Vec
    requires w > 0 && h > 0
  {
    Vec((p.x as real + 0.5) / w as real, (p.y as real + 0.5) / h as real)
  }

  /** rot_matrix(): a column-major two by two matrix. */
  function RotMatrix(rot: Rotation): (int, int, int, int) {
    match rot
    case R0 => (1, 0, 0, -1)
    case R90 => (0, 1, 1, 0)
    case R180 => (-1, 0, 0, 1)
    case R270 => (0, -1, -1, 0)
  }

  /** The vertex shader: where in the texture the screen point (y up) is sampled. */
  function Sampled(m: (int, int, int, int), uv: Vec): Vec {
    var a, b := uv.x - 0.5, uv.y - 0.5;
    Vec(m.0 as real * a + m.2 as real * b + 0.5, m.1 as real * a + m.3 as real * b + 0.5)
  }

  lemma QuotientIs(a: real, d: real, q: real)
    requires d > 0.0 && q * d == a
    ensures a / d == q
  {
    assert (a / d) * d == a;
  }

  lemma OneMinusCentre(n: int, w: nat)
    requires w > 0
    ensures 1.0 - (n as real + 0.5) / w as real == ((w - 1 - n) as real + 0.5) / w as real
  {
    var d, a := w as real, n as real + 0.5;
    var q := a / d;
    assert q * d == a && (1.0 - q) * d == d - a;
    assert (w - 1 - n) as real + 0.5 == d - a;
    QuotientIs(d - a, d, 1.0 - q);
  }

  /** For each output pixel, the CPU kernel, the touch mapping and the GPU's sampling agree on
      which source pixel is shown there: the centre of the one is the centre of the other.
      GL's screen has y up and its texture rows run top-down. */
  lemma EncodingsAgree(rot: Rotation, w: nat, h: nat, p: Point)
    requires w > 0 && h > 0 && Within(p, OutW(rot, w, h), OutH(rot, w, h))
    ensures var l := Centre(p, OutW(rot, w, h), OutH(rot, w, h));
      && Unrotate(rot, l) == Centre(SourceOf(rot, w, h, p), w, h)
      && Sampled(RotMatrix(rot), Vec(l.x, 1.0 - l.y)) == Centre(SourceOf(rot, w, h, p), w, h)
  {
    OneMinusCentre(p.x, OutW(rot, w, h));
    OneMinusCentre(p.y, OutH(rot, w, h));
    SamplingIsUnrotation(rot, Centre(p, OutW(rot, w, h), OutH(rot, w, h)));
  }

  lemma SamplingIsUnrotation(rot: Rotation, l: Vec)
    ensures Sampled(RotMatrix(rot), Vec(l.x, 1.0 - l.y)) == Unrotate(rot, l)
  {
  }

  /** Where on the display, normalised, the point `c` of the video rectangle is. */
  function Shown(dw: int, dh: int, r: Rect, c: Vec): Vec
    requires dw > 0 && dh > 0
  {
    Vec((r.x as real + c.x * r.w as real) / dw as real, (r.y as real + c.y * r.h as real) / dh as real)
  }

  /** A touch on the spot of the display where an output pixel's centre is shown is reported
      at the centre of the video pixel shown there. */
  lemma TouchHitsWhatIsShown(rot: Rotation, w: nat, h: nat, p: Point, dw: int, dh: int, r: Rect)
    requires w > 0 && h > 0 && Within(p, OutW(rot, w, h), OutH(rot, w, h))
    requires dw > 0 && dh > 0 && r.w > 0 && r.h > 0
    ensures var shown := Shown(dw, dh, r, Centre(p, OutW(rot, w, h), OutH(rot, w, h)));
            ToVideo(rot, dw, dh, r, shown) == Some(Centre(SourceOf(rot, w, h, p), w, h))
  {
    hide Centre, SourceOf, Unrotate, OutW, OutH, Local, Shown, ToVideo;
    EncodingsAgree(rot, w, h, p);
    var c := Centre(p, OutW(rot, w, h), OutH(rot, w, h));
    CentreInUnit(p, OutW(rot, w, h), OutH(rot, w, h));
    LocalOfShown(dw, dh, r, c);
    var n := Shown(dw, dh, r, c);
    InsideIsReported(rot, dw, dh, r, n, c);
  }

  lemma InsideIsReported(rot: Rotation, dw: int, dh: int, r: Rect, n: Vec, l: Vec)
    requires r.w > 0 && r.h > 0 && Local(dw, dh, r, n) == l && InUnitSquare(l)
    ensures ToVideo(rot, dw, dh, r, n) == Some(Unrotate(rot, l))
  {
    hide Local, Unrotate;
  }

  lemma LocalOfShown(dw: int, dh: int, r: Rect, c: Vec)
    requires dw > 0 && dh > 0 && r.w > 0 && r.h > 0
    ensures Local(dw, dh, r, Shown(dw, dh, r, c)) == c
  {
    ScaleThenLocal(r.x as real, r.w as real, dw as real, c.x);
    ScaleThenLocal(r.y as real, r.h as real, dh as real, c.y);
  }

  lemma CentreInUnit(p: Point, w: nat, h: nat)
    requires w > 0 && h > 0 && Within(p, w, h)
    ensures InUnitSquare(Centre(p, w, h))
  {
    FractionInUnit(p.x as real + 0.5, w as real);
    FractionInUnit(p.y as real + 0.5, h as real);
  }

  lemma FractionInUnit(a: real, d: real)
    requires 0.0 <= a <= d && d > 0.0
    ensures 0.0 <= a / d <= 1.0
  {
  }

  lemma ScaleThenLocal(origin: real, extent: real, display: real, c: real)
    requires extent > 0.0 && display > 0.0
    ensures ((origin + c * extent) / display * display - origin) / extent == c
  {
    var n := origin + c * extent;
    assert n / display * display == n;
    QuotientIs(n - origin, extent, c);
  }

  /** Where a point of the video frame is shown in the upright picture, y down. */
  function OnScreen(rot: Rotation, v: Vec): Vec {
    match rot
    case R0 => v
    case R90 => Vec(v.y, 1.0 - v.x)
    case R180 => Vec(1.0 - v.x, 1.0 - v.y)
    case R270 => Vec(1.0 - v.y, v.x)
  }

  /** The kernel shows a source pixel's centre there. */
  lemma PixelsAreOnScreen(rot: Rotation, w: nat, h: nat, p: Point)
    requires w > 0 && h > 0 && Within(p, OutW(rot, w, h), OutH(rot, w, h))
    ensures OnScreen(rot, Centre(SourceOf(rot, w, h, p), w, h)) == Centre(p, OutW(rot, w, h), OutH(rot, w, h))
  {
    EncodingsAgree(rot, w, h, p);
    hide Centre, SourceOf, OutW, OutH;
  }

  /** Not over the video rectangle, in display pixels. */
  predicate OutsideVideo(dw: int, dh: int, r: Rect, n: Vec) {
    || n.x * dw as real < r.x as real || n.x * dw as real > (r.x + r.w) as real
    || n.y * dh as real < r.y as real || n.y * dh as real > (r.y + r.h) as real
  }

  /** One axis: `x` over a display of `display` pixels, the rectangle from `origin` on. */
  lemma LocalAxis(x: real, display: real, origin: real, extent: real)
    requires display > 0.0 && extent > 0.0
    ensures var l := (x * display - origin) / extent;
      && (l < 0.0 <==> x * display < origin) && (l > 1.0 <==> x * display > origin + extent)
      && (origin + l * extent) / display == x
  {
    var p := x * display;
    var l := (p - origin) / extent;
    assert l * extent == p - origin;
    CompareScaled(l, 0.0, extent);
    CompareScaled(1.0, l, extent);
    QuotientIs(p, display, x);
  }

  lemma LocalIsUnderTheTouch(dw: int, dh: int, r: Rect, n: Vec)
    requires dw > 0 && dh > 0 && r.w > 0 && r.h > 0
    ensures var l := Local(dw, dh, r, n);
      (InUnitSquare(l) <==> !OutsideVideo(dw, dh, r, n)) && Shown(dw, dh, r, l) == n
  {
    LocalAxis(n.x, dw as real, r.x as real, r.w as real);
    LocalAxis(n.y, dh as real, r.y as real, r.h as real);
  }

  lemma CompareScaled(a: real, b: real, d: real)
    requires d > 0.0
    ensures a < b <==> a * d < b * d
  {
    if a < b {
      TimesPositive(b - a, 1.0, d);
      PositiveProduct(b - a, d);
    } else {
      NonNegativeProduct(a - b, d);
    }
  }

  lemma PositiveProduct(x: real, d: real)
    requires x > 0.0 && d > 0.0
    ensures x * d > 0.0
  {
  }

  lemma NonNegativeProduct(x: real, d: real)
    requires x >= 0.0 && d > 0.0
    ensures x * d >= 0.0
  {
  }

  /** A touch is reported if and only if it is over the video, edges included, and what is reported
      is the point of the video frame shown under it. */
  lemma ReportedIsUnderTheTouch(rot: Rotation, dw: int, dh: int, r: Rect, n: Vec)
    requires dw > 0 && dh > 0 && r.w > 0 && r.h > 0
    ensures var v := ToVideo(rot, dw, dh, r, n);
      && (v.None? <==> OutsideVideo(dw, dh, r, n))
      && (v.Some? ==> InUnitSquare(v.value) && Shown(dw, dh, r, OnScreen(rot, v.value)) == n)
  {
    hide Local, Shown, OutsideVideo, Unrotate, OnScreen;
    LocalIsUnderTheTouch(dw, dh, r, n);
    BackOnScreen(rot, Local(dw, dh, r, n));
  }

  lemma BackOnScreen(rot: Rotation, l: Vec)
    ensures OnScreen(rot, Unrotate(rot, l)) == l
    ensures InUnitSquare(l) ==> InUnitSquare(Unrotate(rot, l))
  {
  }

  // ----- pointer motion ---------------------------------------------------------------

  /** rotate_delta(): a motion along the content's axes as a motion on the display. */
  function RotateDelta(rot: Rotation, d: Vec): Vec {
    match rot
    case R0 => d
    case R90 => Vec(d.y, -d.x)
    case R180 => Vec(-d.x, -d.y)
    case R270 => Vec(-d.y, d.x)
  }

  /** Moving the cursor by a rotated delta moves the reported point by the delta itself,
      measured in pixels of the upright content: rotate_delta is the inverse of to_video's
      linear part, whatever the rotation and the scaling. */
  lemma DragFollowsContent(rot: Rotation, r: Rect, px: Vec, d: Vec)
    requires r.w > 0 && r.h > 0
    ensures var moved := RotateDelta(rot, d);
      var before := Unrotate(rot, Local(1, 1, r, px));
      var after := Unrotate(rot, Local(1, 1, r, Vec(px.x + moved.x, px.y + moved.y)));
      && (after.x - before.x) * OutW(rot, r.w, r.h) as real == d.x
      && (after.y - before.y) * OutH(rot, r.w, r.h) as real == d.y
  {
    hide RotateDelta, Unrotate, Local, OutW, OutH;
    var moved := RotateDelta(rot, d);
    var before, after := Local(1, 1, r, px), Local(1, 1, r, Vec(px.x + moved.x, px.y + moved.y));
    LocalDelta(r, px, moved);
    UnrotatedDelta(rot, before, after, r.w, r.h, d);
  }

  /** On the display the point moves by the motion, in pixels of the rectangle. */
  lemma LocalDelta(r: Rect, px: Vec, m: Vec)
    requires r.w > 0 && r.h > 0
    ensures var before, after := Local(1, 1, r, px), Local(1, 1, r, Vec(px.x + m.x, px.y + m.y));
            (after.x - before.x) * r.w as real == m.x && (after.y - before.y) * r.h as real == m.y
  {
    LocalMoves(px.x, m.x, r.x as real, r.w as real);
    LocalMoves(px.y, m.y, r.y as real, r.h as real);
  }

  /** Undoing the rotation turns that back into the original motion. */
  lemma UnrotatedDelta(rot: Rotation, a: Vec, b: Vec, w: nat, h: nat, d: Vec)
    requires (b.x - a.x) * w as real == RotateDelta(rot, d).x
    requires (b.y - a.y) * h as real == RotateDelta(rot, d).y
    ensures (Unrotate(rot, b).x - Unrotate(rot, a).x) * OutW(rot, w, h) as real == d.x
    ensures (Unrotate(rot, b).y - Unrotate(rot, a).y) * OutH(rot, w, h) as real == d.y
  {
    Opposite(a.x, b.x, w as real);
    Opposite(a.y, b.y, h as real);
  }

  lemma Opposite(a: real, b: real, n: real)
    ensures ((1.0 - b) - (1.0 - a)) * n == -((b - a) * n)
  {
  }

  lemma LocalMoves(a: real, d: real, origin: real, extent: real)
    requires extent > 0.0
    ensures ((a + d - origin) / extent - (a - origin) / extent) * extent == d
  {
    assert (a + d - origin) / extent * extent == a + d - origin;
    assert (a - origin) / extent * extent == a - origin;
  }

  // ----- where the video is on the panel ------------------------------------------------

  function Scaled(n: int, scale: real): int {
    LRound(n as real * scale)
  }

  /** The aspect-preserving fit of an ew by eh picture into a W by H panel. */
  function Fit(panelW: nat, panelH: nat, ew: nat, eh: nat): Rect
    requires ew > 0 && eh > 0
  {
    var byW, byH := panelW as real / ew as real, panelH as real / eh as real;
    var scale := if byH < byW then byH else byW;
    var w, h := Scaled(ew, scale), Scaled(eh, scale);
    Rect((panelW - w) / 2, (panelH - h) / 2, w, h)
  }

  /** The fitted rectangle lies inside the panel, fills it in one direction, is centred to
      the pixel, and keeps the picture's shape to within half a pixel. */
  lemma FitInsidePanel(panelW: int, panelH: int, ew: int, eh: int)
    requires panelW >= 0 && panelH >= 0 && ew > 0 && eh > 0
    ensures var r := Fit(panelW, panelH, ew, eh);
      && 0 <= r.x && 0 <= r.w && r.x + r.w <= panelW
      && 0 <= r.y && 0 <= r.h && r.y + r.h <= panelH
      && (r.w == panelW || r.h == panelH)
      && 0 <= panelW - (r.x + r.w) - r.x <= 1 && 0 <= panelH - (r.y + r.h) - r.y <= 1
    ensures var r := Fit(panelW, panelH, ew, eh);
      if panelW * eh <= panelH * ew
      then r.w == panelW && -ew <= 2 * (r.h * ew - panelW * eh) <= ew
      else r.h == panelH && -eh <= 2 * (r.w * eh - panelH * ew) <= eh
  {
    hide Scaled;
    Proportion(panelW, ew, eh, panelH);
    if panelW * eh <= panelH * ew {
      FitOneWay(panelW, ew, eh, panelH);
    } else {
      FitOneWay(panelH, eh, ew, panelW);
    }
  }

  lemma QuotientTimes(a: real, d: real)
    requires d > 0.0
    ensures a / d * d == a
  {
  }

  lemma TimesPositive(x: real, y: real, d: real)
    requires d > 0.0
    ensures x <= y <==> x * d <= y * d
  {
    if x <= y { assert (y - x) * d >= 0.0; } else { assert (x - y) * d > 0.0; }
  }

  lemma RealProduct(m: int, n: int)
    ensures (m * n) as real == m as real * n as real
  {
  }

  /** Scaling an a by b picture so that a becomes `limit`. */
  lemma FitOneWay(limit: int, a: int, b: int, other: int)
    requires a > 0 && b > 0 && limit >= 0 && other >= 0 && limit * b <= other * a
    ensures var s := limit as real / a as real;
      && Scaled(a, s) == limit && 0 <= Scaled(b, s) <= other
      && -a <= 2 * (Scaled(b, s) * a - limit * b) <= a
  {
    hide Scaled;
    var s := limit as real / a as real;
    SideInRange(limit, a, b, other);
    ScaledFull(a, limit, s);
    RoundedSide(b, s, a, limit * b, other);
  }

  lemma ScaledFull(a: int, limit: int, s: real)
    requires a > 0 && s == limit as real / a as real
    ensures Scaled(a, s) == limit
  {
    QuotientTimes(limit as real, a as real);
    var x := a as real * s;
    assert x == limit as real;
    assert Scaled(a, s) == LRound(x);
    LRoundOfInt(limit);
  }

  lemma SideInRange(limit: int, a: int, b: int, other: int)
    requires a > 0 && b > 0 && limit >= 0 && other >= 0 && limit * b <= other * a
    ensures var x := b as real * (limit as real / a as real);
            0.0 <= x <= other as real && x * a as real == (limit * b) as real
  {
    var s, d := limit as real / a as real, a as real;
    QuotientTimes(limit as real, d);
    RealProduct(limit, b);
    RealProduct(other, a);
    ScaledSide(s, d, b as real, limit as real);
    TimesPositive(b as real * s, other as real, d);
    QuotientNonNegative(limit as real, d, b as real);
  }

  lemma RoundedSide(b: int, s: real, a: int, p: int, other: int)
    requires a > 0 && b as real * s * a as real == p as real && 0.0 <= b as real * s <= other as real
    ensures -a <= 2 * (Scaled(b, s) * a - p) <= a && 0 <= Scaled(b, s) <= other
  {
    hide LRound;
    var x := b as real * s;
    LRoundNearest(x);
    LRoundBounds(x, 0, other);
    var n := Scaled(b, s);
    RealProduct(n, a);
    HalfPixel(n as real, x, a as real, (n * a) as real, p as real);
    WholeBounds(n * a, p, a);
  }

  lemma WholeBounds(q: int, p: int, a: int)
    requires -(a as real) <= 2.0 * (q as real - p as real) <= a as real
    ensures -a <= 2 * (q - p) <= a
  {
  }

  lemma QuotientNonNegative(a: real, d: real, b: real)
    requires a >= 0.0 && d > 0.0 && b >= 0.0
    ensures b * (a / d) >= 0.0
  {
    assert a / d >= 0.0;
  }

  lemma ScaledSide(s: real, d: real, b: real, limit: real)
    requires s * d == limit
    ensures b * s * d == limit * b
  {
  }

  lemma HalfPixel(n: real, x: real, d: real, nd: real, xd: real)
    requires d > 0.0 && -0.5 <= n - x <= 0.5 && nd == n * d && xd == x * d
    ensures -d <= 2.0 * (nd - xd) <= d
  {
    var off := n - x;
    assert off * d == nd - xd;
    TimesPositive(off, 0.5, d);
    assert off * d <= 0.5 * d;
    TimesPositive(-0.5, off, d);
    assert -0.5 * d <= off * d;
  }

  /** The smaller ratio is the one of the tighter direction. */
  lemma Proportion(w: int, a: int, b: int, h: int)
    requires a > 0 && b > 0
    ensures w as real / a as real <= h as real / b as real <==> w * b <= h * a
  {
    var s, t := w as real / a as real, h as real / b as real;
    QuotientTimes(w as real, a as real);
    QuotientTimes(h as real, b as real);
    RealProduct(w, b);
    RealProduct(h, a);
    CrossMultiply(s, t, a as real, b as real);
  }

  lemma CrossMultiply(s: real, t: real, a: real, b: real)
    requires a > 0.0 && b > 0.0
    ensures s <= t <==> s * a * b <= t * b * a
  {
    assert a * b > 0.0;
    TimesPositive(s, t, a * b);
    assert s * a * b == s * (a * b) && t * b * a == t * (a * b);
  }
}
