/** What the framing promises end to end: frames that were encoded are decoded, under any
    chunking, and a parser that joins the stream in the middle of garbage finds the frames
    again (src/stream_parser.h with the encoder of src/protocol.h). */
module Resync {
  import opened Bytes
  import opened Options
  import opened Sequences
  import opened Wire
  import opened StreamParsing

  /** Messages the parser is willing to take. */
  ghost predicate AllSendable(ms: seq<Message>) {
    forall i :: 0 <= i < |ms| ==> |ms[i].payload| <= MAX_MESSAGE
  }

  // ----- round trip ----------------------------------------------------------

  lemma FrameIsDecoded(m: Message, tail: seq<Byte>)
    requires |m.payload| <= MAX_MESSAGE
    ensures Decode(FrameBytes(m) + tail)
         == Decoded([m] + Decode(tail).messages, Decode(tail).rest)
  {
    hide Decode, HeaderBytes;
    var h := Header(|m.payload|, m.mtype);
    assert [] + (FrameBytes(m) + tail) == HeaderBytes(h) + m.payload + tail;
    OutcomeOfFrame([], [], FrameBytes(m) + tail, h, m.payload, tail);
    assert [] + tail == tail;
    var d, e := Decode(FrameBytes(m) + tail), Decode(tail);
    assert [] + d.messages == d.messages && [] + [m] + e.messages == [m] + e.messages;
  }

  lemma {:induction false} StreamIsDecoded(ms: seq<Message>)
    requires AllSendable(ms)
    ensures Decode(StreamOf(ms)) == Decoded(ms, [])
  {
    hide FrameBytes, HeaderBytes, Accept;
    if ms != [] {
      StreamIsDecoded(ms[1..]);
      FrameIsDecoded(ms[0], StreamOf(ms[1..]));
    }
  }

  /** No message above the limit is ever dispatched. */
  lemma {:induction false} DispatchedAreSendable(s: seq<Byte>)
    ensures AllSendable(Decode(s).messages)
    decreases |s|
  {
    hide ParseHeader;
    if |s| >= HEADER_LEN {
      match Accept(s)
      case None => DispatchedAreSendable(s[1..]);
      case Some(h) =>
        if |s| - HEADER_LEN >= h.length { DispatchedAreSendable(s[HEADER_LEN + h.length..]); }
    }
  }

  /** Encoding any list of messages and feeding the bytes in any chunks dispatches exactly
      that list and retains nothing, if and only if every payload is within the limit. */
  lemma RoundTrip(ms: seq<Message>, chunks: seq<seq<Byte>>)
    requires Flatten(chunks) == StreamOf(ms)
    ensures FeedAll([], chunks) == Decoded(ms, []) <==> AllSendable(ms)
  {
    hide Decode;
    EmptyUndecided();
    ChunkInvariance([], chunks);
    assert [] + Flatten(chunks) == StreamOf(ms);
    DispatchedAreSendable(StreamOf(ms));
    if AllSendable(ms) {
      StreamIsDecoded(ms);
    }
  }

  lemma EmptyUndecided()
    ensures Undecided([])
  {
  }

  // ----- self-synchronisation ----------------------------------------------------

  ghost predicate MagicAt(s: seq<Byte>, i: nat) {
    i + 4 <= |s| && s[i] == 0xaa && s[i + 1] == 0x55 && s[i + 2] == 0xaa && s[i + 3] == 0x55
  }

  ghost predicate MagicFree(s: seq<Byte>) {
    forall i: nat :: !MagicAt(s, i)
  }

  /** The last two bytes are the first half of the magic. */
  ghost predicate EndsInHalfMagic(s: seq<Byte>) {
    |s| >= 2 && s[|s| - 2] == 0xaa && s[|s| - 1] == 0x55
  }

  /** The frame of `m`, read two bytes early behind `aa 55`, looks like a frame itself: its
      type's high half complements its length's high half, and the length that appears
      there (0x55aa, then the two low bytes of the real one) is within the limit. */
  ghost predicate Shadowed(m: Message) {
    && m.mtype / 65536 + |m.payload| / 65536 == 0xffff
    && |m.payload| / 256 % 256 == 0
  }

  /** A word is the magic exactly when its four bytes are. */
  lemma MagicWord(s: seq<Byte>)
    requires |s| >= 4
    ensures GetU32(s) == MAGIC <==> MagicAt(s, 0)
  {
    hide U32;
    U32OfGet(s);
    U32RoundTrip(MAGIC);
    MagicBytes();
    if GetU32(s) == MAGIC {
      assert s[..4] == [0xaa, 0x55, 0xaa, 0x55];
    }
  }

  lemma NoMagicNoHeader(s: seq<Byte>)
    requires |s| >= HEADER_LEN && !MagicAt(s, 0)
    ensures Accept(s) == None
  {
    MagicWord(s);
  }

  lemma MagicBytes()
    ensures U32(MAGIC) == [0xaa, 0x55, 0xaa, 0x55]
  {
    hide GetU32;
    assert Low(0x55aa55aa) == 0xaa && Low(0x55aa55aa / 256) == 0x55;
    assert Low(0x55aa55aa / 65536) == 0xaa && Low(0x55aa55aa / 16777216) == 0x55;
  }

  /** The first sixteen bytes of a frame. */
  lemma FrameStart(m: Message)
    requires |m.payload| <= MAX_MESSAGE
    ensures var f, n := FrameBytes(m), |m.payload|;
      && f[..4] == [0xaa, 0x55, 0xaa, 0x55]
      && f[4..8] == U32(n) && f[8..12] == U32(m.mtype) && f[12..16] == U32(Complement(m.mtype))
  {
    hide U32, GetU32;
    MagicBytes();
    var n: Word := |m.payload|;
    FourWords(U32(MAGIC), U32(n), U32(m.mtype), U32(Complement(m.mtype)), m.payload);
  }

  lemma FourWords(a: seq<Byte>, b: seq<Byte>, c: seq<Byte>, d: seq<Byte>, tail: seq<Byte>)
    requires |a| == |b| == |c| == |d| == 4
    ensures var f := a + b + c + d + tail;
            f[..4] == a && f[4..8] == b && f[8..12] == c && f[12..16] == d
  {
  }

  lemma StreamStart(ms: seq<Message>)
    requires ms != [] && |ms[0].payload| <= MAX_MESSAGE
    ensures |StreamOf(ms)| >= HEADER_LEN && StreamOf(ms)[..16] == FrameBytes(ms[0])[..16]
    ensures StreamOf(ms)[..4] == [0xaa, 0x55, 0xaa, 0x55]
  {
    hide HeaderBytes;
    FrameStart(ms[0]);
    var s, f := StreamOf(ms), FrameBytes(ms[0]);
    assert s[..16] == f[..16];
    assert s[..4] == s[..16][..4] == f[..16][..4] == f[..4];
  }

  /** With `aa 55` in front of it, a frame is taken for another one exactly when it is
      shadowed; and the false message never has the length of the true one. */
  lemma ShadowHeader(s: seq<Byte>, m: Message)
    requires |m.payload| <= MAX_MESSAGE
    requires |s| >= HEADER_LEN + 2 && s[..2] == [0xaa, 0x55] && s[2..18] == FrameBytes(m)[..16]
    ensures Accept(s).Some? <==> Shadowed(m)
    ensures Accept(s).Some? ==> Accept(s).value.length != |m.payload| && Accept(s).value.length >= 0x55aa
  {
    hide FrameBytes, U32, GetU32;
    var f := FrameBytes(m);
    FrameStart(m);
    Slices(f, s);
    assert s[0] == s[..2][0] && s[1] == s[..2][1];
    assert s[2] == s[2..6][0] && s[3] == s[2..6][1] && s[4] == s[2..6][2] && s[5] == s[2..6][3];
    MagicWord(s);
    ShadowWords(s, |m.payload|, m.mtype);
  }

  lemma Slices(f: seq<Byte>, s: seq<Byte>)
    requires |f| >= 16 && |s| >= 18 && s[2..18] == f[..16]
    ensures f[..4] == s[2..6] && f[4..8] == s[6..10] && f[8..12] == s[10..14] && f[12..16] == s[14..18]
  {
    assert forall i | 0 <= i < 16 :: s[2 + i] == s[2..18][i] == f[..16][i] == f[i];
  }

  /** The three words behind the false magic. */
  lemma ShadowWords(s: seq<Byte>, n: Word, t: Word)
    requires |s| >= HEADER_LEN + 2 && n <= MAX_MESSAGE && s[4] == 0xaa && s[5] == 0x55
    requires s[6..10] == U32(n) && s[10..14] == U32(t) && s[14..18] == U32(Complement(t))
    ensures GetU32(s[4..]) <= MAX_MESSAGE && GetU32(s[12..]) == Complement(GetU32(s[8..]))
       <==> t / 65536 + n / 65536 == 0xffff && n / 256 % 256 == 0
    ensures n / 256 % 256 == 0 ==> GetU32(s[4..]) != n
    ensures GetU32(s[4..]) >= 0x55aa
  {
    hide U32;
    WordBytes(n, s[6..10]);
    WordBytes(t, s[10..14]);
    ComplementBytes(t, s[10..14], s[14..18]);
    ShadowArithmetic(n, t, s[6], s[7], s[8], s[9], s[10], s[11], s[12], s[13]);
  }

  lemma ShadowArithmetic(n: nat, t: nat, n0: Byte, n1: Byte, n2: Byte, n3: Byte,
                         t0: Byte, t1: Byte, t2: Byte, t3: Byte)
    requires n <= MAX_MESSAGE
    requires n == n0 as int + 256 * n1 as int + 65536 * n2 as int + 16777216 * n3 as int
    requires n / 65536 == n2 as int + 256 * n3 as int && n / 256 % 256 == n1
    requires t / 65536 == t2 as int + 256 * t3 as int
    ensures var length := 0xaa + 256 * 0x55 + 65536 * n0 as int + 16777216 * n1 as int;
            var mtype := n2 as int + 256 * n3 as int + 65536 * t0 as int + 16777216 * t1 as int;
            var check := t2 as int + 256 * t3 as int + 65536 * (255 - t0 as int) + 16777216 * (255 - t1 as int);
            && (length <= MAX_MESSAGE && check == 0xffffffff - mtype
                <==> t / 65536 + n / 65536 == 0xffff && n / 256 % 256 == 0)
            && (n1 == 0 ==> length != n) && length >= 0x55aa
  {
  }

  /** A word in its four bytes. */
  lemma WordBytes(v: Word, b: seq<Byte>)
    requires b == U32(v)
    ensures v == b[0] as int + 256 * b[1] as int + 65536 * b[2] as int + 16777216 * b[3] as int
    ensures v / 65536 == b[2] as int + 256 * b[3] as int
    ensures v / 256 % 256 == b[1]
  {
    U32RoundTrip(v);
    var b0: int, b1: int, b2: int, b3: int := b[0], b[1], b[2], b[3];
    assert v / 65536 == b2 + 256 * b3;
  }

  lemma ComplementBytes(t: Word, b: seq<Byte>, c: seq<Byte>)
    requires b == U32(t) && c == U32(Complement(t))
    ensures c[0] as int == 255 - b[0] as int && c[1] as int == 255 - b[1] as int
  {
    LowComplement(0xffffff, t);
    LowComplement(0xffff, t / 256);
    assert Complement(t) / 256 == 0xffffff - t / 256;
  }

  lemma LowComplement(m: nat, t: nat)
    requires t <= 256 * m + 255
    ensures (256 * m + 255 - t) % 256 == 255 - t % 256
    ensures (256 * m + 255 - t) / 256 == m - t / 256
  {
    var q, r := t / 256, t % 256;
    assert 256 * m + 255 - t == 256 * (m - q) + (255 - r);
  }

  /** Dropping the first byte of garbage leaves garbage. */
  lemma MagicFreeTail(g: seq<Byte>)
    requires g != [] && MagicFree(g)
    ensures MagicFree(g[1..])
  {
    forall i: nat ensures !MagicAt(g[1..], i) {
      assert !MagicAt(g, i + 1);
    }
  }

  /** In front of a frame, no header is found in garbage that has no magic of its own,
      except two bytes before the frame. */
  lemma NoHeaderInGarbage(g: seq<Byte>, stream: seq<Byte>)
    requires g != [] && MagicFree(g) && !(|g| == 2 && EndsInHalfMagic(g))
    requires |stream| >= HEADER_LEN && stream[..4] == [0xaa, 0x55, 0xaa, 0x55]
    ensures Accept(g + stream) == None
  {
    var s := g + stream;
    assert stream[0] == stream[..4][0] && stream[1] == stream[..4][1] && stream[2] == stream[..4][2];
    assert !MagicAt(g, 0);
    assert !MagicAt(s, 0);
    NoMagicNoHeader(s);
  }

  /** After garbage without a magic, the frames are found again and nothing else is
      dispatched, if and only if the garbage does not end in half a magic in front of a
      shadowed frame. */
  lemma {:induction false} Synchronises(g: seq<Byte>, ms: seq<Message>)
    requires MagicFree(g) && AllSendable(ms) && ms != []
    ensures Decode(g + StreamOf(ms)) == Decoded(ms, [])
       <==> !(EndsInHalfMagic(g) && Shadowed(ms[0]))
    ensures EndsInHalfMagic(g) && Shadowed(ms[0]) ==>
              var out := Decode(g + StreamOf(ms)).messages;
              out == [] || out[0] != ms[0]
    decreases |g|
  {
    hide Decode, Accept, FrameBytes, StreamOf, Shadowed;
    var stream := StreamOf(ms);
    var s := g + stream;
    StreamStart(ms);
    StreamIsDecoded(ms);
    if g == [] {
      assert s == stream;
    } else if |g| == 2 && EndsInHalfMagic(g) {
      assert s[..2] == g == [0xaa, 0x55] && s[2..18] == stream[..16];
      ShadowHeader(s, ms[0]);
      DecodeStep(s);
      if !Shadowed(ms[0]) {
        MagicFreeTail(g);
        DropConcat(g, stream, 1);
        Synchronises(g[1..], ms);
      }
    } else {
      MagicFreeTail(g);
      NoHeaderInGarbage(g, stream);
      DecodeStep(s);
      DropConcat(g, stream, 1);
      Synchronises(g[1..], ms);
    }
  }

  /** The same under any chunking. All types the protocol uses are below 2^24, and for those
      no frame is shadowed: the limit on the length is what rules the overlap out. */
  lemma SynchronisesInChunks(g: seq<Byte>, ms: seq<Message>, chunks: seq<seq<Byte>>)
    requires MagicFree(g) && AllSendable(ms) && ms != []
    requires ms[0].mtype < 0x100_0000
    requires Flatten(chunks) == g + StreamOf(ms)
    ensures FeedAll([], chunks) == Decoded(ms, [])
  {
    hide Decode;
    EmptyUndecided();
    ChunkInvariance([], chunks);
    assert [] + Flatten(chunks) == g + StreamOf(ms);
    Synchronises(g, ms);
  }

  /** Above 2^24 the overlap is real: behind garbage that ends in half a magic, a shadowed frame
      with less payload than the length read there is not dispatched, nor is anything else, and
      all of it stays undecided. */
  lemma {:induction false} ShadowedFrameIsLost(g: seq<Byte>, m: Message)
    requires MagicFree(g) && EndsInHalfMagic(g) && Shadowed(m) && |m.payload| < 0x55a8
    ensures Decode(g + StreamOf([m])) == Decoded([], g[|g| - 2..] + StreamOf([m]))
    decreases |g|
  {
    hide Decode, Accept, FrameBytes, StreamOf, Shadowed;
    var stream := StreamOf([m]);
    var s := g + stream;
    StreamStart([m]);
    if |g| == 2 {
      StreamLength(m);
      assert s[..2] == g == [0xaa, 0x55] && s[2..18] == stream[..16];
      ShadowHeader(s, m);
      DecodeStep(s);
      assert g[0..] == g;
    } else {
      MagicFreeTail(g);
      NoHeaderInGarbage(g, stream);
      DecodeStep(s);
      DropConcat(g, stream, 1);
      DropTwice(g, 1, |g| - 3);
      ShadowedFrameIsLost(g[1..], m);
    }
  }

  lemma StreamLength(m: Message)
    ensures |StreamOf([m])| == HEADER_LEN + |m.payload|
  {
    assert StreamOf([m]) == FrameBytes(m) + StreamOf([]);
  }

  /** There are such frames. */
  lemma AShadowedFrame()
    ensures Shadowed(Message(0xffff0000, [])) && MagicFree([0xaa, 0x55]) && EndsInHalfMagic([0xaa, 0x55])
  {
  }
}
