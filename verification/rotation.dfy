/** The CPU rotation of a decoded NV12 frame (src/software_decoder_source.cpp, rotate_nv12):
    which source pixel each output pixel shows, the laws of the four rotations, and the
    strided in-place kernel. */
module Rotation {
  import opened Bytes

  /** Counter-clockwise display rotation. */
  datatype Rotation = R0 | R90 | R180 | R270

  datatype Point = Point(x: int, y: int)

  predicate Within(p: Point, w: nat, h: nat) {
    0 <= p.x < w && 0 <= p.y < h
  }

  function OutW(rot: Rotation, w: nat, h: nat): nat {
    if rot == R90 || rot == R270 then h else w
  }

  function OutH(rot: Rotation, w: nat, h: nat): nat {
    if rot == R90 || rot == R270 then w else h
  }

  /** The source cell, on a w by h grid, that the output cell `p` shows. */
  function SourceOf(rot: Rotation, w: nat, h: nat, p: Point): Point {
    match rot
    case R0 => p
    case R90 => Point(w - 1 - p.y, p.x)
    case R180 => Point(w - 1 - p.x, h - 1 - p.y)
    case R270 => Point(p.y, h - 1 - p.x)
  }

  function Then(first: Rotation, second: Rotation): Rotation {
    match first
    case R0 => second
    case R90 => (match second case R0 => R90 case R90 => R180 case R180 => R270 case R270 => R0)
    case R180 => (match second case R0 => R180 case R90 => R270 case R180 => R0 case R270 => R90)
    case R270 => (match second case R0 => R270 case R90 => R0 case R180 => R90 case R270 => R180)
  }

  // ----- grids -------------------------------------------------------------------

  /** Every output cell shows a source cell, and every source cell is shown once. */
  lemma SourceIsBijective(rot: Rotation, w: nat, h: nat)
    ensures forall p :: Within(p, OutW(rot, w, h), OutH(rot, w, h)) ==> Within(SourceOf(rot, w, h, p), w, h)
    ensures forall p, q :: SourceOf(rot, w, h, p) == SourceOf(rot, w, h, q) ==> p == q
    ensures forall s :: Within(s, w, h) ==>
              exists p :: Within(p, OutW(rot, w, h), OutH(rot, w, h)) && SourceOf(rot, w, h, p) == s
  {
    forall s | Within(s, w, h)
      ensures exists p :: Within(p, OutW(rot, w, h), OutH(rot, w, h)) && SourceOf(rot, w, h, p) == s
    {
      var p := match rot
        case R0 => s
        case R90 => Point(s.y, w - 1 - s.x)
        case R180 => Point(w - 1 - s.x, h - 1 - s.y)
        case R270 => Point(h - 1 - s.y, s.x);
      assert SourceOf(rot, w, h, p) == s;
    }
  }

  /** Rotating twice is rotating by the sum. */
  lemma SourceComposes(first: Rotation, second: Rotation, w: nat, h: nat, p: Point)
    ensures SourceOf(first, w, h, SourceOf(second, OutW(first, w, h), OutH(first, w, h), p))
         == SourceOf(Then(first, second), w, h, p)
    ensures OutW(second, OutW(first, w, h), OutH(first, w, h)) == OutW(Then(first, second), w, h)
    ensures OutH(second, OutW(first, w, h), OutH(first, w, h)) == OutH(Then(first, second), w, h)
  {
  }

  /** Which dimensions a rotation mirrors: those must be even for chroma to follow luma. */
  predicate EvenWhereMirrored(rot: Rotation, w: nat, h: nat) {
    && (rot == R90 || rot == R180 ==> w % 2 == 0)
    && (rot == R270 || rot == R180 ==> h % 2 == 0)
  }

  function Halved(p: Point): Point {
    Point(p.x / 2, p.y / 2)
  }

  /** Every luma pixel keeps its own chroma pair, exactly when the mirrored dimensions are
      even; the guard in on_frame() drops every frame with an odd side. */
  lemma ChromaFollowsLuma(rot: Rotation, w: nat, h: nat)
    requires w > 0 && h > 0
    ensures EvenWhereMirrored(rot, w, h)
       <==> forall p :: Within(p, OutW(rot, w, h), OutH(rot, w, h)) ==>
              SourceOf(rot, w / 2, h / 2, Halved(p)) == Halved(SourceOf(rot, w, h, p))
  {
    var origin := Point(0, 0);
    assert Within(origin, OutW(rot, w, h), OutH(rot, w, h));
    if !EvenWhereMirrored(rot, w, h) {
      assert SourceOf(rot, w / 2, h / 2, Halved(origin)) != Halved(SourceOf(rot, w, h, origin));
    }
  }

  // ----- images ----------------------------------------------------------------------

  /** Rows of an NV12 frame: h of luma, then h/2 of interleaved chroma pairs. */
  function Rows(h: nat): nat {
    h + h / 2
  }

  /** The visible bytes of an NV12 frame, row by row. */
  type Image = seq<seq<Byte>>

  predicate IsImage(img: Image, w: nat, h: nat) {
    |img| == Rows(h) && forall r :: 0 <= r < |img| ==> |img[r]| == w
  }

  /** Even, non-empty sides: what on_frame() lets through. */
  predicate Even(w: nat, h: nat) {
    w > 0 && h > 0 && w % 2 == 0 && h % 2 == 0
  }

  /** Where byte `p.x` of output row `p.y` comes from: a luma row shows the source pixel, a
      chroma row the same half of the source pair. */
  function SourceByte(rot: Rotation, w: nat, h: nat, p: Point): (s: Point)
    requires Even(w, h) && Within(p, OutW(rot, w, h), Rows(OutH(rot, w, h)))
    ensures Within(s, w, Rows(h))
  {
    var oh := OutH(rot, w, h);
    if p.y < oh then SourceOf(rot, w, h, p)
    else
      var s := SourceOf(rot, w / 2, h / 2, Point(p.x / 2, p.y - oh));
      Point(2 * s.x + p.x % 2, h + s.y)
  }

  function Rotated(rot: Rotation, w: nat, h: nat, img: Image): (out: Image)
    requires Even(w, h) && IsImage(img, w, h)
    ensures IsImage(out, OutW(rot, w, h), OutH(rot, w, h))
  {
    seq(Rows(OutH(rot, w, h)), r requires 0 <= r < Rows(OutH(rot, w, h)) =>
      seq(OutW(rot, w, h), c requires 0 <= c < OutW(rot, w, h) =>
        var s := SourceByte(rot, w, h, Point(c, r));
        img[s.y][s.x]))
  }

  /** In a frame of 2a by 2b pixels, half of the chroma pair (x, y) comes from the same half
      of the source pair. */
  lemma ChromaByte(rot: Rotation, a: nat, b: nat, x: nat, half: nat, y: nat)
    requires a > 0 && b > 0 && half < 2 && Within(Point(x, y), OutW(rot, a, b), OutH(rot, a, b))
    ensures Within(Point(2 * x + half, OutH(rot, 2 * a, 2 * b) + y),
                   OutW(rot, 2 * a, 2 * b), Rows(OutH(rot, 2 * a, 2 * b)))
    ensures var s := SourceOf(rot, a, b, Point(x, y));
            SourceByte(rot, 2 * a, 2 * b, Point(2 * x + half, OutH(rot, 2 * a, 2 * b) + y))
            == Point(2 * s.x + half, 2 * b + s.y)
  {
    HalfOfPair(x, half);
  }

  lemma LumaByte(rot: Rotation, a: nat, b: nat, p: Point)
    requires a > 0 && b > 0 && Within(p, OutW(rot, 2 * a, 2 * b), OutH(rot, 2 * a, 2 * b))
    ensures SourceByte(rot, 2 * a, 2 * b, p) == SourceOf(rot, 2 * a, 2 * b, p)
    ensures Within(SourceOf(rot, 2 * a, 2 * b, p), 2 * a, 2 * b)
  {
  }

  lemma Doubled(rot: Rotation, a: nat, b: nat)
    ensures OutW(rot, 2 * a, 2 * b) == 2 * OutW(rot, a, b)
    ensures OutH(rot, 2 * a, 2 * b) == 2 * OutH(rot, a, b)
    ensures a > 0 && b > 0 ==> OutW(rot, a, b) > 0 && OutH(rot, a, b) > 0
  {
  }

  /** Following a luma byte back through two rotations, on a frame of 2a by 2b pixels. */
  lemma LumaComposes(first: Rotation, second: Rotation, a: nat, b: nat, p: Point)
    requires a > 0 && b > 0
    requires var a', b' := OutW(first, a, b), OutH(first, a, b);
      a' > 0 && b' > 0 && Within(p, OutW(second, 2 * a', 2 * b'), OutH(second, 2 * a', 2 * b'))
    ensures var a', b' := OutW(first, a, b), OutH(first, a, b);
      && Within(p, OutW(Then(first, second), 2 * a, 2 * b), OutH(Then(first, second), 2 * a, 2 * b))
      && (var s := SourceByte(second, 2 * a', 2 * b', p);
          && Within(s, OutW(first, 2 * a, 2 * b), OutH(first, 2 * a, 2 * b))
          && SourceByte(first, 2 * a, 2 * b, s) == SourceByte(Then(first, second), 2 * a, 2 * b, p))
  {
    hide SourceByte, Then, OutW, OutH, SourceOf;
    Doubled(first, a, b);
    var a', b' := OutW(first, a, b), OutH(first, a, b);
    SourceComposes(first, second, 2 * a, 2 * b, p);
    LumaByte(second, a', b', p);
    LumaByte(first, a, b, SourceOf(second, 2 * a', 2 * b', p));
    LumaByte(Then(first, second), a, b, p);
  }

  /** The same for half of a chroma pair. */
  lemma ChromaComposes(first: Rotation, second: Rotation, a: nat, b: nat, x: nat, half: nat, y: nat)
    requires a > 0 && b > 0 && half < 2
    requires var a', b' := OutW(first, a, b), OutH(first, a, b);
      a' > 0 && b' > 0 && Within(Point(x, y), OutW(second, a', b'), OutH(second, a', b'))
    ensures var a', b' := OutW(first, a, b), OutH(first, a, b);
      var p := Point(2 * x + half, OutH(second, 2 * a', 2 * b') + y);
      && Within(p, OutW(second, 2 * a', 2 * b'), Rows(OutH(second, 2 * a', 2 * b')))
      && Within(p, OutW(Then(first, second), 2 * a, 2 * b), Rows(OutH(Then(first, second), 2 * a, 2 * b)))
      && (var s := SourceByte(second, 2 * a', 2 * b', p);
          && Within(s, OutW(first, 2 * a, 2 * b), Rows(OutH(first, 2 * a, 2 * b)))
          && SourceByte(first, 2 * a, 2 * b, s) == SourceByte(Then(first, second), 2 * a, 2 * b, p))
  {
    hide SourceByte, Then, OutW, OutH, SourceOf;
    Doubled(first, a, b);
    var a', b' := OutW(first, a, b), OutH(first, a, b);
    var both := Then(first, second);
    SourceComposes(first, second, a, b, Point(x, y));
    Doubled(second, a', b');
    Doubled(both, a, b);
    ChromaByte(second, a', b', x, half, y);
    var s := SourceOf(second, a', b', Point(x, y));
    SourceIsWithin(second, a', b', Point(x, y));
    ChromaByte(first, a, b, s.x, half, s.y);
    ChromaByte(both, a, b, x, half, y);
  }

  lemma SourceIsWithin(rot: Rotation, w: nat, h: nat, p: Point)
    requires Within(p, OutW(rot, w, h), OutH(rot, w, h))
    ensures Within(SourceOf(rot, w, h, p), w, h)
  {
  }

  /** Following any byte back through two rotations. */
  lemma SourceByteComposes(first: Rotation, second: Rotation, w: nat, h: nat, p: Point)
    requires Even(w, h)
    requires var w', h' := OutW(first, w, h), OutH(first, w, h);
      Even(w', h') && Within(p, OutW(second, w', h'), Rows(OutH(second, w', h')))
    ensures Within(p, OutW(Then(first, second), w, h), Rows(OutH(Then(first, second), w, h)))
    ensures var w', h' := OutW(first, w, h), OutH(first, w, h);
            SourceByte(first, w, h, SourceByte(second, w', h', p)) == SourceByte(Then(first, second), w, h, p)
  {
    hide SourceByte, Then, OutW, OutH, SourceOf;
    var a, b := w / 2, h / 2;
    assert w == 2 * a && h == 2 * b;
    Doubled(first, a, b);
    var a', b' := OutW(first, a, b), OutH(first, a, b);
    Doubled(second, a', b');
    SourceComposes(first, second, w, h, p);
    var oh := OutH(second, 2 * a', 2 * b');
    if p.y < oh {
      LumaComposes(first, second, a, b, p);
    } else {
      var x, half, y := p.x / 2, p.x % 2, p.y - oh;
      assert p == Point(2 * x + half, oh + y);
      ChromaComposes(first, second, a, b, x, half, y);
    }
  }

  lemma HalfOfPair(x: int, half: nat)
    requires half < 2
    ensures (2 * x + half) / 2 == x && (2 * x + half) % 2 == half
  {
  }

  /** The rotations of a frame add up: 90 then 90 is 180, 90 then 270 and 180 twice are the
      identity, and so on for all sixteen pairs. */
  lemma RotationsAddUp(first: Rotation, second: Rotation, w: nat, h: nat, img: Image)
    requires Even(w, h) && IsImage(img, w, h)
    ensures var w', h' := OutW(first, w, h), OutH(first, w, h);
      && Even(w', h')
      && Rotated(second, w', h', Rotated(first, w, h, img)) == Rotated(Then(first, second), w, h, img)
  {
    var w', h' := OutW(first, w, h), OutH(first, w, h);
    var both := Then(first, second);
    SourceComposes(first, second, w, h, Point(0, 0));
    assert Even(w', h');
    hide Then, Rotated, SourceByte, OutW, OutH;
    var once := Rotated(first, w, h, img);
    var twice, direct := Rotated(second, w', h', once), Rotated(both, w, h, img);
    forall r | 0 <= r < |twice| ensures twice[r] == direct[r] {
      forall c | 0 <= c < |twice[r]| ensures twice[r][c] == direct[r][c] {
        var p := Point(c, r);
        SourceByteComposes(first, second, w, h, p);
        RotatedAt(first, w, h, img, SourceByte(second, w', h', p));
        RotatedAt(second, w', h', once, p);
        RotatedAt(both, w, h, img, p);
      }
    }
  }

  lemma RotatedAt(rot: Rotation, w: nat, h: nat, img: Image, p: Point)
    requires Even(w, h) && IsImage(img, w, h)
    requires Within(p, OutW(rot, w, h), Rows(OutH(rot, w, h)))
    ensures IsImage(Rotated(rot, w, h, img), OutW(rot, w, h), OutH(rot, w, h))
    ensures var s := SourceByte(rot, w, h, p);
            Rotated(rot, w, h, img)[p.y][p.x] == img[s.y][s.x]
  {
    hide SourceByte;
  }

  // ----- pixels ------------------------------------------------------------------------

  /** A pixel of an NV12 frame: its luma, and the two halves of the chroma pair it shares. */
  datatype Pixel = Pixel(y: Byte, u: Byte, v: Byte)

  function PixelAt(img: Image, w: nat, h: nat, p: Point): Pixel
    requires Even(w, h) && IsImage(img, w, h) && Within(p, w, h)
  {
    Pixel(ByteAt(img, p), ByteAt(img, ChromaCell(h, p, 0)), ByteAt(img, ChromaCell(h, p, 1)))
  }

  function ByteAt(img: Image, c: Point): Byte
    requires 0 <= c.y < |img| && 0 <= c.x < |img[c.y]|
  {
    img[c.y][c.x]
  }

  /** Where half of the pair that pixel `p` shares is, in a frame of height `h`. */
  function ChromaCell(h: nat, p: Point, half: nat): Point {
    Point(2 * (p.x / 2) + half, h + p.y / 2)
  }

  /** The chroma pair an output pixel shares comes from the pair its source pixel shares. */
  lemma PairOfSource(rot: Rotation, a: nat, b: nat, p: Point, half: nat)
    requires a > 0 && b > 0 && half < 2 && Within(p, OutW(rot, 2 * a, 2 * b), OutH(rot, 2 * a, 2 * b))
    ensures var c := ChromaCell(OutH(rot, 2 * a, 2 * b), p, half);
      && Within(c, OutW(rot, 2 * a, 2 * b), Rows(OutH(rot, 2 * a, 2 * b)))
      && SourceByte(rot, 2 * a, 2 * b, c) == ChromaCell(2 * b, SourceOf(rot, 2 * a, 2 * b, p), half)
  {
    HalvedSource(rot, a, b, p);
    Doubled(rot, a, b);
    hide SourceByte, OutW, OutH, SourceOf;
    ChromaByte(rot, a, b, p.x / 2, half, p.y / 2);
  }

  lemma HalvedSource(rot: Rotation, a: nat, b: nat, p: Point)
    requires a > 0 && b > 0 && Within(p, OutW(rot, 2 * a, 2 * b), OutH(rot, 2 * a, 2 * b))
    ensures SourceOf(rot, a, b, Point(p.x / 2, p.y / 2)) == Halved(SourceOf(rot, 2 * a, 2 * b, p))
  {
    ChromaFollowsLuma(rot, 2 * a, 2 * b);
    hide OutW, OutH, SourceOf;
    assert (2 * a) / 2 == a && (2 * b) / 2 == b && Halved(p) == Point(p.x / 2, p.y / 2);
  }

  /** Rotating a frame moves whole pixels: each output pixel has the luma and the chroma of the
      source pixel it shows. */
  lemma PixelsMove(rot: Rotation, w: nat, h: nat, img: Image, p: Point)
    requires Even(w, h) && IsImage(img, w, h) && Within(p, OutW(rot, w, h), OutH(rot, w, h))
    ensures Even(OutW(rot, w, h), OutH(rot, w, h)) && Within(SourceOf(rot, w, h, p), w, h)
    ensures PixelAt(Rotated(rot, w, h, img), OutW(rot, w, h), OutH(rot, w, h), p)
         == PixelAt(img, w, h, SourceOf(rot, w, h, p))
  {
    var a, b := w / 2, h / 2;
    assert w == 2 * a && h == 2 * b;
    Doubled(rot, a, b);
    hide Rotated, SourceByte, SourceOf, OutW, OutH, ChromaCell;
    SourceIsWithin(rot, w, h, p);
    LumaByte(rot, a, b, p);
    PairOfSource(rot, a, b, p, 0);
    PairOfSource(rot, a, b, p, 1);
    RotatedAt(rot, w, h, img, p);
    RotatedAt(rot, w, h, img, ChromaCell(OutH(rot, w, h), p, 0));
    RotatedAt(rot, w, h, img, ChromaCell(OutH(rot, w, h), p, 1));
  }

  lemma NoRotation(w: nat, h: nat, img: Image)
    requires Even(w, h) && IsImage(img, w, h)
    ensures Rotated(R0, w, h, img) == img
  {
    var same := Rotated(R0, w, h, img);
    forall r, c | 0 <= r < |img| && 0 <= c < w ensures same[r][c] == img[r][c] {
      RotatedAt(R0, w, h, img, Point(c, r));
      NoRotationByte(w, h, Point(c, r));
    }
    hide Rotated;
    assert forall r | 0 <= r < |img| :: same[r] == img[r];
  }

  lemma NoRotationByte(w: nat, h: nat, p: Point)
    requires Even(w, h) && Within(p, w, Rows(h))
    ensures SourceByte(R0, w, h, p) == p
  {
    Halves(p.x);
  }

  lemma Halves(x: int)
    ensures 2 * (x / 2) + x % 2 == x
  {
  }

  /** Any rotation four times is the identity. */
  lemma FourTimesIsIdentity(rot: Rotation, w: nat, h: nat, img: Image)
    requires Even(w, h) && IsImage(img, w, h)
    ensures var w', h' := OutW(rot, w, h), OutH(rot, w, h);
      && Even(w', h')
      && Rotated(rot, w', h', Rotated(rot, w, h, Rotated(rot, w', h', Rotated(rot, w, h, img)))) == img
  {
    hide Rotated;
    var half := Then(rot, rot);
    SourceComposes(rot, rot, w, h, Point(0, 0));
    RotationsAddUp(rot, rot, w, h, img);
    RotationsAddUp(rot, rot, w, h, Rotated(half, w, h, img));
    RotationsAddUp(half, half, w, h, img);
    NoRotation(w, h, img);
  }

  function Inverse(rot: Rotation): Rotation {
    match rot
    case R90 => R270
    case R270 => R90
    case _ => rot
  }

  /** 90 and 270 undo each other, and 180 undoes itself. */
  lemma InverseUndoes(rot: Rotation, w: nat, h: nat, img: Image)
    requires Even(w, h) && IsImage(img, w, h)
    ensures var w', h' := OutW(rot, w, h), OutH(rot, w, h);
      Even(w', h') && Rotated(Inverse(rot), w', h', Rotated(rot, w, h, img)) == img
  {
    hide Rotated;
    RotationsAddUp(rot, Inverse(rot), w, h, img);
    NoRotation(w, h, img);
  }

  // ----- buffers with a stride ---------------------------------------------------------

  /** Byte `col` of row `row` in a buffer with rows of `stride` bytes. */
  function Cell(stride: nat, row: nat, col: nat): nat {
    row * stride + col
  }

  lemma NextRow(stride: nat, row: nat, col: nat)
    ensures Cell(stride, row + 1, col) == Cell(stride, row, col) + stride
  {
  }

  lemma CellColumns(stride: nat, row: nat, col: nat)
    ensures Cell(stride, row, col) == Cell(stride, row, 0) + col
  {
  }

  /** The bytes of a row come before the rows below it. */
  lemma {:induction false} RowsAreApart(stride: nat, row: nat, col: nat, later: nat)
    requires row < later && col < stride
    ensures Cell(stride, row, col) < Cell(stride, later, 0)
  {
    hide Cell;
    CellColumns(stride, row, col);
    NextRow(stride, later - 1, 0);
    if row + 1 < later {
      RowsAreApart(stride, row, col, later - 1);
    }
  }

  lemma CellInjective(stride: nat, r: nat, c: nat, r': nat, c': nat)
    requires c < stride && c' < stride && Cell(stride, r, c) == Cell(stride, r', c')
    ensures r == r' && c == c'
  {
    hide Cell;
    CellColumns(stride, r, c);
    CellColumns(stride, r', c');
    if r < r' { RowsAreApart(stride, r, c, r'); }
    if r' < r { RowsAreApart(stride, r', c', r); }
  }

  /** A w by h frame fits in the buffer. */
  ghost predicate Fits(buf: seq<Byte>, stride: nat, w: nat, h: nat) {
    w <= stride && Cell(stride, Rows(h), 0) <= |buf|
  }

  lemma CellInRange(buf: seq<Byte>, stride: nat, w: nat, h: nat, r: nat, c: nat)
    requires Fits(buf, stride, w, h) && r < Rows(h) && c < w
    ensures Cell(stride, r, c) < |buf|
  {
    hide Cell;
    RowsAreApart(stride, r, c, Rows(h));
  }

  ghost function ImageOf(buf: seq<Byte>, stride: nat, w: nat, h: nat): (img: Image)
    requires Fits(buf, stride, w, h)
    ensures IsImage(img, w, h)
  {
    seq(Rows(h), r requires 0 <= r < Rows(h) =>
      seq(w, c requires 0 <= c < w =>
        CellInRange(buf, stride, w, h, r, c);
        buf[Cell(stride, r, c)]))
  }

  ghost predicate Visible(stride: nat, w: nat, h: nat, i: nat) {
    exists r: nat, c: nat :: r < Rows(h) && c < w && Cell(stride, r, c) == i
  }

  /** A buffer without padding is its image: two packed frames with the same visible bytes
      are the same. */
  lemma PackedImageInjective(a: seq<Byte>, b: seq<Byte>, w: nat, h: nat)
    requires w > 0 && |a| == |b| == Cell(w, Rows(h), 0)
    requires ImageOf(a, w, w, h) == ImageOf(b, w, w, h)
    ensures a == b
  {
    assert Rows(h) > 0 || |a| == 0;
    hide Cell;
    forall i | 0 <= i < |a| ensures a[i] == b[i] {
      var r, c := PackedPlace(w, Rows(h), i);
      assert ImageOf(a, w, w, h)[r][c] == ImageOf(b, w, w, h)[r][c];
    }
  }

  lemma {:induction false} PackedPlace(w: nat, rows: nat, i: nat) returns (r: nat, c: nat)
    requires w > 0 && rows > 0 && i < Cell(w, rows, 0)
    ensures r < rows && c < w && Cell(w, r, c) == i
  {
    if i >= Cell(w, rows - 1, 0) {
      NextRow(w, rows - 1, 0);
      r, c := rows - 1, i - Cell(w, rows - 1, 0);
    } else {
      r, c := PackedPlace(w, rows - 1, i);
    }
  }

  // ----- the kernel --------------------------------------------------------------------

  /** The cells in `done` show the target, the others and the padding are as before. */
  ghost predicate Painted(cur: seq<Byte>, before: seq<Byte>, stride: nat, w: nat, h: nat,
                          target: Image, done: (int, int) -> bool)
  {
    && Fits(before, stride, w, h) && |cur| == |before| && IsImage(target, w, h)
    && (forall r: nat, c: nat :: r < Rows(h) && c < w ==>
          && Cell(stride, r, c) < |cur|
          && cur[Cell(stride, r, c)] == if done(r, c) then target[r][c] else before[Cell(stride, r, c)])
    && (forall i :: 0 <= i < |cur| && !Visible(stride, w, h, i) ==> cur[i] == before[i])
  }

  lemma PaintNothing(buf: seq<Byte>, stride: nat, w: nat, h: nat, target: Image)
    requires Fits(buf, stride, w, h) && IsImage(target, w, h)
    ensures Painted(buf, buf, stride, w, h, target, (_, _) => false)
  {
    hide Cell;
    forall r: nat, c: nat | r < Rows(h) && c < w ensures Cell(stride, r, c) < |buf| {
      CellInRange(buf, stride, w, h, r, c);
    }
  }

  /** One more cell. */
  lemma PaintCell(cur: seq<Byte>, before: seq<Byte>, stride: nat, w: nat, h: nat, target: Image,
                  done: (int, int) -> bool, done': (int, int) -> bool, row: nat, col: nat)
    requires Painted(cur, before, stride, w, h, target, done)
    requires row < Rows(h) && col < w
    requires forall r: nat, c: nat :: r < Rows(h) && c < w ==>
               (done'(r, c) <==> done(r, c) || (r == row && c == col))
    ensures Cell(stride, row, col) < |cur|
    ensures Painted(cur[Cell(stride, row, col) := target[row][col]], before, stride, w, h, target, done')
  {
    hide Cell;
    var next := cur[Cell(stride, row, col) := target[row][col]];
    forall r: nat, c: nat | r < Rows(h) && c < w
      ensures next[Cell(stride, r, c)] == if done'(r, c) then target[r][c] else before[Cell(stride, r, c)]
    {
      if Cell(stride, r, c) == Cell(stride, row, col) {
        CellInjective(stride, r, c, row, col);
      }
    }
    forall i | 0 <= i < |next| && !Visible(stride, w, h, i) ensures next[i] == before[i] {
      assert i != Cell(stride, row, col);
    }
  }

  lemma PaintedSame(cur: seq<Byte>, before: seq<Byte>, stride: nat, w: nat, h: nat, target: Image,
                    done: (int, int) -> bool, done': (int, int) -> bool)
    requires Painted(cur, before, stride, w, h, target, done)
    requires forall r: nat, c: nat :: r < Rows(h) && c < w ==> (done'(r, c) <==> done(r, c))
    ensures Painted(cur, before, stride, w, h, target, done')
  {
    hide Cell;
  }

  lemma PaintedAll(cur: seq<Byte>, before: seq<Byte>, stride: nat, w: nat, h: nat, target: Image,
                   done: (int, int) -> bool)
    requires Painted(cur, before, stride, w, h, target, done)
    requires forall r: nat, c: nat :: r < Rows(h) && c < w ==> done(r, c)
    ensures ImageOf(cur, stride, w, h) == target
  {
    hide Cell;
    var img := ImageOf(cur, stride, w, h);
    forall r | 0 <= r < Rows(h) ensures img[r] == target[r] {
      assert forall c | 0 <= c < w :: img[r][c] == target[r][c];
    }
  }

  /** What a luma cell of the target shows, as an index into the packed source. */
  lemma LumaTarget(rot: Rotation, sw: nat, sh: nat, src: seq<Byte>, r: nat, c: nat)
    requires Even(sw, sh) && Fits(src, sw, sw, sh)
    requires Within(Point(c, r), OutW(rot, sw, sh), OutH(rot, sw, sh))
    ensures var s := SourceOf(rot, sw, sh, Point(c, r));
      && Within(s, sw, sh) && Cell(sw, s.y, s.x) < |src|
      && Rotated(rot, sw, sh, ImageOf(src, sw, sw, sh))[r][c] == src[Cell(sw, s.y, s.x)]
  {
    var img, s := ImageOf(src, sw, sw, sh), SourceOf(rot, sw, sh, Point(c, r));
    LumaByte(rot, sw / 2, sh / 2, Point(c, r));
    RotatedAt(rot, sw, sh, img, Point(c, r));
    hide Rotated, Cell, SourceByte, SourceOf;
    CellInRange(src, sw, sw, sh, s.y, s.x);
  }

  /** The same for half of a chroma pair; the chroma plane starts after the luma rows. */
  lemma ChromaTarget(rot: Rotation, sw: nat, sh: nat, src: seq<Byte>, y: nat, x: nat, half: nat)
    requires Even(sw, sh) && Fits(src, sw, sw, sh) && half < 2
    requires Within(Point(x, y), OutW(rot, sw / 2, sh / 2), OutH(rot, sw / 2, sh / 2))
    ensures Within(Point(2 * x + half, OutH(rot, sw, sh) + y), OutW(rot, sw, sh), Rows(OutH(rot, sw, sh)))
    ensures var s := SourceOf(rot, sw / 2, sh / 2, Point(x, y));
      && Within(s, sw / 2, sh / 2) && Cell(sw, sh + s.y, 2 * s.x + half) < |src|
      && Rotated(rot, sw, sh, ImageOf(src, sw, sw, sh))[OutH(rot, sw, sh) + y][2 * x + half]
         == src[Cell(sw, sh + s.y, 2 * s.x + half)]
  {
    hide Rotated, Cell, SourceByte, SourceOf, OutW, OutH;
    var a, b := sw / 2, sh / 2;
    assert sw == 2 * a && sh == 2 * b;
    var img, s := ImageOf(src, sw, sw, sh), SourceOf(rot, a, b, Point(x, y));
    SourceIsWithin(rot, a, b, Point(x, y));
    ChromaByte(rot, a, b, x, half, y);
    RotatedAt(rot, sw, sh, img, Point(2 * x + half, OutH(rot, sw, sh) + y));
    CellInRange(src, sw, sw, sh, sh + s.y, 2 * s.x + half);
  }

  /** The base of a plane plus the offset of a pair in it is a cell of the whole buffer, and
      the pair's other half is the next one. */
  lemma PairOffset(stride: nat, base: nat, row: nat, pair: nat)
    ensures stride * base + row * stride + pair * 2 == Cell(stride, base + row, 2 * pair)
    ensures stride * base + row * stride + pair * 2 + 1 == Cell(stride, base + row, 2 * pair + 1)
  {
    assert stride * base + row * stride == (base + row) * stride;
  }

  /** The two assignments through the pointers `s` and `d`. */
  method CopyPair(src: seq<Byte>, s: nat, dst: array<Byte>, d: nat)
    requires s + 1 < |src| && d + 1 < dst.Length
    modifies dst
    ensures dst[..] == old(dst[..])[d := src[s]][d + 1 := src[s + 1]]
  {
    ghost var first: seq<Byte> := dst[..][d := src[s]];
    dst[d] := src[s];
    dst[d + 1] := src[s + 1];
    assert dst[..] == first[d + 1 := src[s + 1]];
  }

  /** Rotates a packed NV12 frame into a buffer with rows of `dstride` bytes: every visible
      byte of both planes is written, with the byte the rotation shows there, and the
      padding is left alone. */
  method RotateNv12(rot: Rotation, src: seq<Byte>, sw: nat, sh: nat, dst: array<Byte>, dstride: nat)
    requires rot != R0 && Even(sw, sh) && Fits(src, sw, sw, sh)
    requires Fits(dst[..], dstride, OutW(rot, sw, sh), OutH(rot, sw, sh))
    modifies dst
    ensures ImageOf(dst[..], dstride, OutW(rot, sw, sh), OutH(rot, sw, sh))
         == Rotated(rot, sw, sh, ImageOf(src, sw, sw, sh))
    ensures forall i :: 0 <= i < dst.Length && !Visible(dstride, OutW(rot, sw, sh), OutH(rot, sw, sh), i) ==>
              dst[i] == old(dst[i])
  {
    hide Cell, Rotated, SourceOf, SourceByte;
    ghost var before := dst[..];
    var ow, oh := OutW(rot, sw, sh), OutH(rot, sw, sh);
    ghost var target := Rotated(rot, sw, sh, ImageOf(src, sw, sw, sh));
    PaintNothing(before, dstride, ow, oh, target);
    if rot == R180 {
      TurnLuma(src, sw, sh, dst, dstride, before, target);
      TurnChroma(src, sw, sh, dst, dstride, before, target);
    } else {
      QuarterLuma(rot, src, sw, sh, dst, dstride, before, target);
      QuarterChroma(rot, src, sw, sh, dst, dstride, before, target);
    }
    PaintedAll(dst[..], before, dstride, ow, oh, target, (r, c) => r < oh + oh / 2);
  }

  /** Luma of a half turn. */
  method TurnLuma(src: seq<Byte>, sw: nat, sh: nat, dst: array<Byte>, dstride: nat,
                  ghost before: seq<Byte>, ghost target: Image)
    requires Even(sw, sh) && Fits(src, sw, sw, sh)
    requires target == Rotated(R180, sw, sh, ImageOf(src, sw, sw, sh))
    requires Painted(dst[..], before, dstride, sw, sh, target, (_, _) => false)
    modifies dst
    ensures Painted(dst[..], before, dstride, sw, sh, target, (r, c) => r < sh)
  {
    hide Rotated;
    PaintedSame(dst[..], before, dstride, sw, sh, target, (_, _) => false, (r, c) => r < 0);
    for y := 0 to sh
      invariant Painted(dst[..], before, dstride, sw, sh, target, (r, c) => r < y)
    {
      PaintedSame(dst[..], before, dstride, sw, sh, target,
                  (r, c) => r < y, (r, c) => r < y || (r == y && c < 0));
      for x := 0 to sw
        invariant Painted(dst[..], before, dstride, sw, sh, target,
                          (r, c) => r < y || (r == y && c < x))
      {
        ghost var cur := dst[..];
        LumaTarget(R180, sw, sh, src, y, x);
        PaintCell(cur, before, dstride, sw, sh, target, (r, c) => r < y || (r == y && c < x),
                  (r, c) => r < y || (r == y && c < x + 1), y, x);
        dst[y * dstride + x] := src[(sh - 1 - y) * sw + (sw - 1 - x)];
        assert dst[..] == cur[Cell(dstride, y, x) := target[y][x]];
      }
      PaintedSame(dst[..], before, dstride, sw, sh, target,
                  (r, c) => r < y || (r == y && c < sw), (r, c) => r < y + 1);
    }
  }

  /** Chroma of a half turn. */
  method TurnChroma(src: seq<Byte>, sw: nat, sh: nat, dst: array<Byte>, dstride: nat,
                    ghost before: seq<Byte>, ghost target: Image)
    requires Even(sw, sh) && Fits(src, sw, sw, sh)
    requires target == Rotated(R180, sw, sh, ImageOf(src, sw, sw, sh))
    requires Painted(dst[..], before, dstride, sw, sh, target, (r, c) => r < sh)
    modifies dst
    ensures Painted(dst[..], before, dstride, sw, sh, target, (r, c) => r < sh + sh / 2)
  {
    hide Rotated, Cell, Painted;
    var cw, ch := sw / 2, sh / 2;
    var suv, duv := sw * sh, dstride * sh;
    PaintedSame(dst[..], before, dstride, sw, sh, target, (r, c) => r < sh, (r, c) => r < sh + 0);
    for y := 0 to ch
      invariant Painted(dst[..], before, dstride, sw, sh, target, (r, c) => r < sh + y)
    {
      PaintedSame(dst[..], before, dstride, sw, sh, target, (r, c) => r < sh + y,
                  (r, c) => r < sh + y || (r == sh + y && c < 2 * 0));
      for x := 0 to cw
        invariant Painted(dst[..], before, dstride, sw, sh, target,
                          (r, c) => r < sh + y || (r == sh + y && c < 2 * x))
      {
        ghost var cur := dst[..];
        var s := suv + (ch - 1 - y) * sw + (cw - 1 - x) * 2;
        var d := duv + y * dstride + x * 2;
        PairOffset(sw, sh, ch - 1 - y, cw - 1 - x);
        PairOffset(dstride, sh, y, x);
        ChromaTarget(R180, sw, sh, src, y, x, 0);
        ChromaTarget(R180, sw, sh, src, y, x, 1);
        PaintPair(cur, before, dstride, sw, sh, target,
                  (r, c) => r < sh + y || (r == sh + y && c < 2 * x),
                  (r, c) => r < sh + y || (r == sh + y && c < 2 * (x + 1)), sh + y, x);
        CopyPair(src, s, dst, d);
      }
      PaintedSame(dst[..], before, dstride, sw, sh, target,
                  (r, c) => r < sh + y || (r == sh + y && c < 2 * cw), (r, c) => r < sh + (y + 1));
    }
  }

  /** The two bytes of a chroma pair. */
  lemma PaintPair(cur: seq<Byte>, before: seq<Byte>, stride: nat, w: nat, h: nat, target: Image,
                  done: (int, int) -> bool, done': (int, int) -> bool, row: nat, pair: nat)
    requires Painted(cur, before, stride, w, h, target, done)
    requires row < Rows(h) && 2 * pair + 1 < w
    requires forall r: nat, c: nat :: r < Rows(h) && c < w ==>
               (done'(r, c) <==> done(r, c) || (r == row && (c == 2 * pair || c == 2 * pair + 1)))
    ensures Cell(stride, row, 2 * pair) < |cur| && Cell(stride, row, 2 * pair + 1) < |cur|
    ensures Painted(cur[Cell(stride, row, 2 * pair) := target[row][2 * pair]]
                       [Cell(stride, row, 2 * pair + 1) := target[row][2 * pair + 1]],
                    before, stride, w, h, target, done')
  {
    hide Cell, Painted;
    var middle: (int, int) -> bool := (r, c) => done(r, c) || (r == row && c == 2 * pair);
    assert forall r: nat, c: nat :: r < Rows(h) && c < w ==>
             (middle(r, c) <==> done(r, c) || (r == row && c == 2 * pair));
    PaintedIsImage(cur, before, stride, w, h, target, done);
    PaintCell(cur, before, stride, w, h, target, done, middle, row, 2 * pair);
    PaintCell(cur[Cell(stride, row, 2 * pair) := target[row][2 * pair]],
              before, stride, w, h, target, middle, done', row, 2 * pair + 1);
  }

  lemma PaintedIsImage(cur: seq<Byte>, before: seq<Byte>, stride: nat, w: nat, h: nat, target: Image,
                       done: (int, int) -> bool)
    requires Painted(cur, before, stride, w, h, target, done)
    ensures IsImage(target, w, h)
  {
  }

  /** Luma of a quarter turn, column by column of the output. */
  method QuarterLuma(rot: Rotation, src: seq<Byte>, sw: nat, sh: nat, dst: array<Byte>, dstride: nat,
                     ghost before: seq<Byte>, ghost target: Image)
    requires (rot == R90 || rot == R270) && Even(sw, sh) && Fits(src, sw, sw, sh)
    requires target == Rotated(rot, sw, sh, ImageOf(src, sw, sw, sh))
    requires Painted(dst[..], before, dstride, sh, sw, target, (_, _) => false)
    modifies dst
    ensures Painted(dst[..], before, dstride, sh, sw, target, (r, c) => r < sw)
  {
    hide Rotated, Painted;
    var ow, oh := sh, sw;
    var r90 := rot == R90;
    PaintedSame(dst[..], before, dstride, ow, oh, target, (_, _) => false, (r, c) => r < oh && c < 0);
    for dc := 0 to ow
      invariant Painted(dst[..], before, dstride, ow, oh, target, (r, c) => r < oh && c < dc)
    {
      PaintedSame(dst[..], before, dstride, ow, oh, target, (r, c) => r < oh && c < dc,
                  (r, c) => r < oh && (c < dc || (c == dc && r < 0)));
      for dr := 0 to oh
        invariant Painted(dst[..], before, dstride, ow, oh, target,
                          (r, c) => r < oh && (c < dc || (c == dc && r < dr)))
      {
        ghost var cur := dst[..];
        var sx := if r90 then sw - 1 - dr else dr;
        var syi := if r90 then dc else sh - 1 - dc;
        LumaTarget(rot, sw, sh, src, dr, dc);
        PaintCell(cur, before, dstride, ow, oh, target,
                  (r, c) => r < oh && (c < dc || (c == dc && r < dr)),
                  (r, c) => r < oh && (c < dc || (c == dc && r < dr + 1)), dr, dc);
        dst[dr * dstride + dc] := src[syi * sw + sx];
        assert dst[..] == cur[Cell(dstride, dr, dc) := target[dr][dc]];
      }
      PaintedSame(dst[..], before, dstride, ow, oh, target,
                  (r, c) => r < oh && (c < dc || (c == dc && r < oh)), (r, c) => r < oh && c < dc + 1);
    }
    PaintedSame(dst[..], before, dstride, ow, oh, target, (r, c) => r < oh && c < ow, (r, c) => r < oh);
  }

  /** Chroma of a quarter turn. */
  method QuarterChroma(rot: Rotation, src: seq<Byte>, sw: nat, sh: nat, dst: array<Byte>, dstride: nat,
                       ghost before: seq<Byte>, ghost target: Image)
    requires (rot == R90 || rot == R270) && Even(sw, sh) && Fits(src, sw, sw, sh)
    requires target == Rotated(rot, sw, sh, ImageOf(src, sw, sw, sh))
    requires Painted(dst[..], before, dstride, sh, sw, target, (r, c) => r < sw)
    modifies dst
    ensures Painted(dst[..], before, dstride, sh, sw, target, (r, c) => r < sw + sw / 2)
  {
    hide Rotated, Cell, Painted;
    var ow, oh := sh, sw;
    var cw, ch, dcw, dch := sw / 2, sh / 2, ow / 2, oh / 2;
    var suv, duv := sw * sh, dstride * oh;
    var r90 := rot == R90;
    PaintedSame(dst[..], before, dstride, ow, oh, target, (r, c) => r < oh,
                (r, c) => r < oh || (r < oh + dch && c < 2 * 0));
    for dc := 0 to dcw
      invariant Painted(dst[..], before, dstride, ow, oh, target,
                        (r, c) => r < oh || (r < oh + dch && c < 2 * dc))
    {
      PaintedSame(dst[..], before, dstride, ow, oh, target,
                  (r, c) => r < oh || (r < oh + dch && c < 2 * dc),
                  (r, c) => r < oh || c < 2 * dc || (c < 2 * (dc + 1) && r < oh + 0));
      for dr := 0 to dch
        invariant Painted(dst[..], before, dstride, ow, oh, target,
                          (r, c) => r < oh || c < 2 * dc || (c < 2 * (dc + 1) && r < oh + dr))
      {
        ghost var cur := dst[..];
        var scx := if r90 then cw - 1 - dr else dr;
        var scy := if r90 then dc else ch - 1 - dc;
        var s := suv + scy * sw + scx * 2;
        var d := duv + dr * dstride + dc * 2;
        PairOffset(sw, sh, scy, scx);
        PairOffset(dstride, oh, dr, dc);
        ChromaTarget(rot, sw, sh, src, dr, dc, 0);
        ChromaTarget(rot, sw, sh, src, dr, dc, 1);
        PaintPair(cur, before, dstride, ow, oh, target,
                  (r, c) => r < oh || c < 2 * dc || (c < 2 * (dc + 1) && r < oh + dr),
                  (r, c) => r < oh || c < 2 * dc || (c < 2 * (dc + 1) && r < oh + (dr + 1)), oh + dr, dc);
        CopyPair(src, s, dst, d);
      }
      PaintedSame(dst[..], before, dstride, ow, oh, target,
                  (r, c) => r < oh || c < 2 * dc || (c < 2 * (dc + 1) && r < oh + dch),
                  (r, c) => r < oh || (r < oh + dch && c < 2 * (dc + 1)));
    }
    PaintedSame(dst[..], before, dstride, ow, oh, target,
                (r, c) => r < oh || (r < oh + dch && c < 2 * dcw), (r, c) => r < oh + dch);
  }

  /** A frame and its rotation take as many bytes. */
  lemma SamePackedSize(rot: Rotation, w: nat, h: nat)
    requires Even(w, h)
    ensures Cell(OutW(rot, w, h), Rows(OutH(rot, w, h)), 0) == Cell(w, Rows(h), 0)
    ensures OutW(Inverse(rot), OutW(rot, w, h), OutH(rot, w, h)) == w
    ensures OutH(Inverse(rot), OutW(rot, w, h), OutH(rot, w, h)) == h
    ensures Even(OutW(rot, w, h), OutH(rot, w, h))
  {
    var a, b := w / 2, h / 2;
    assert Rows(h) == 3 * b && Rows(w) == 3 * a;
    assert (3 * b) * (2 * a) == (3 * a) * (2 * b);
  }

  /** The kernel undoes itself: a packed frame rotated and rotated back is the same bytes. */
  method RotateThereAndBack(rot: Rotation, src: seq<Byte>, sw: nat, sh: nat) returns (back: array<Byte>)
    requires rot != R0 && Even(sw, sh) && |src| == Cell(sw, Rows(sh), 0)
    ensures back[..] == src
  {
    hide Cell, Rotated;
    SamePackedSize(rot, sw, sh);
    var ow, oh := OutW(rot, sw, sh), OutH(rot, sw, sh);
    var there := new Byte[|src|](_ => 0);
    RotateNv12(rot, src, sw, sh, there, ow);
    back := new Byte[|src|](_ => 0);
    RotateNv12(Inverse(rot), there[..], ow, oh, back, sw);
    InverseUndoes(rot, sw, sh, ImageOf(src, sw, sw, sh));
    PackedImageInjective(back[..], src, sw, sh);
  }
}
