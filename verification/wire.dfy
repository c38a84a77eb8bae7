/** The dongle's wire format (src/protocol.h): little-endian words, the 16-byte header
    with its type check, and the builders that turn a message into a frame. */
module Wire {
  import opened Bytes
  import opened Options

  type Word = w: int | 0 <= w < 0x1_0000_0000

  const MAGIC: Word := 0x55aa55aa
  const HEADER_LEN := 16
  const WORD_SIZE := 0x1_0000_0000
  const SEND_FILE: Word := 0x99

  datatype Header = Header(length: Word, mtype: Word)

  /** What the parser hands to its handler: the type word and the payload bytes. */
  datatype Message = Message(mtype: Word, payload: seq<Byte>)

  // ----- words -------------------------------------------------------------

  /** The low eight bits. */
  function Low(v: nat): Byte {
    v % 256
  }

  function U32(v: Word): (b: seq<Byte>)
    ensures |b| == 4
  {
    [Low(v), Low(v / 256), Low(v / 65536), Low(v / 16777216)]
  }

  function GetU32(p: seq<Byte>): Word
    requires |p| >= 4
  {
    p[0] as int + 256 * p[1] as int + 65536 * p[2] as int + 16777216 * p[3] as int
  }

  function Complement(t: Word): Word {
    0xffffffff - t
  }

  lemma U32RoundTrip(v: Word)
    ensures GetU32(U32(v)) == v
  {
    var q := v / 256;
    var r := q / 256;
    assert v / 65536 == r && v / 16777216 == r / 256;
    assert v == 256 * q + v % 256 && q == 256 * r + q % 256 && r == 256 * (r / 256) + r % 256;
  }

  /** Reading four bytes and writing them back gives the same four bytes. */
  lemma U32OfGet(p: seq<Byte>)
    requires |p| >= 4
    ensures U32(GetU32(p)) == p[..4]
  {
    var v := GetU32(p);
    var a, b, c, e: int := p[0], p[1], p[2], p[3];
    assert v == 256 * (b + 256 * (c + 256 * e)) + a;
    assert v / 256 == b + 256 * (c + 256 * e);
    assert v / 65536 == (v / 256) / 256 == c + 256 * e;
    assert v / 16777216 == (v / 65536) / 256 == e;
  }

  // ----- header --------------------------------------------------------------

  function HeaderBytes(h: Header): (b: seq<Byte>)
    ensures |b| == HEADER_LEN
  {
    U32(MAGIC) + U32(h.length) + U32(h.mtype) + U32(Complement(h.mtype))
  }

  function ParseHeader(d: seq<Byte>): Option<Header>
    requires |d| >= HEADER_LEN
  {
    if GetU32(d) != MAGIC then None
    else if GetU32(d[12..]) != Complement(GetU32(d[8..])) then None
    else Some(Header(GetU32(d[4..]), GetU32(d[8..])))
  }

  /** Sixteen bytes parse to `h` exactly when they are the encoding of `h`. */
  lemma ParseIffEncoding(d: seq<Byte>, h: Header)
    requires |d| >= HEADER_LEN
    ensures ParseHeader(d) == Some(h) <==> d[..16] == HeaderBytes(h)
  {
    U32OfGet(d);
    U32OfGet(d[4..]);
    U32OfGet(d[8..]);
    U32OfGet(d[12..]);
    assert d[..16] == d[..4] + d[4..][..4] + d[8..][..4] + d[12..][..4];
    if d[..16] == HeaderBytes(h) {
      var e := HeaderBytes(h);
      assert d[..4] == e[..4] == U32(MAGIC);
      assert d[4..][..4] == d[..16][4..8] == e[4..8] == U32(h.length);
      assert d[8..][..4] == d[..16][8..12] == e[8..12] == U32(h.mtype);
      assert d[12..][..4] == d[..16][12..16] == e[12..16] == U32(Complement(h.mtype));
      GetDependsOnFour(d, U32(MAGIC));
      GetDependsOnFour(d[4..], U32(h.length));
      GetDependsOnFour(d[8..], U32(h.mtype));
      GetDependsOnFour(d[12..], U32(Complement(h.mtype)));
      U32RoundTrip(MAGIC);
      U32RoundTrip(h.length);
      U32RoundTrip(h.mtype);
      U32RoundTrip(Complement(h.mtype));
    }
  }

  lemma GetDependsOnFour(p: seq<Byte>, q: seq<Byte>)
    requires |p| >= 4 && |q| == 4 && p[..4] == q
    ensures GetU32(p) == GetU32(q)
  {
    assert forall i | 0 <= i < 4 :: p[i] == p[..4][i] == q[i];
  }

  // ----- frames ----------------------------------------------------------------

  /** frame(): the length word is the payload size truncated to 32 bits. */
  function FrameBytes(m: Message): (b: seq<Byte>)
    ensures |b| == HEADER_LEN + |m.payload|
  {
    HeaderBytes(Header(|m.payload| % WORD_SIZE, m.mtype)) + m.payload
  }

  /** The bytes of several frames sent one after the other. */
  function StreamOf(ms: seq<Message>): seq<Byte> {
    if ms == [] then [] else FrameBytes(ms[0]) + StreamOf(ms[1..])
  }

  /** send_file(): a name length that counts the final NUL, the name with its NUL, the
      content length and the content, all inside one SendFile frame. */
  function SendFilePayload(path: seq<Byte>, content: seq<Byte>): seq<Byte> {
    U32((|path| + 1) % WORD_SIZE) + (path + [0]) + U32(|content| % WORD_SIZE) + content
  }

  /** A C string: no NUL before its end. */
  ghost predicate CString(path: seq<Byte>) {
    forall i :: 0 <= i < |path| ==> path[i] != 0
  }

  /** Two different files never make the same frame, at any length: even where the
      length words wrap, the first NUL still marks the end of the path. */
  lemma SendFileInjective(p: seq<Byte>, c: seq<Byte>, q: seq<Byte>, d: seq<Byte>)
    requires CString(p) && CString(q)
    requires FrameBytes(Message(SEND_FILE, SendFilePayload(p, c)))
          == FrameBytes(Message(SEND_FILE, SendFilePayload(q, d)))
    ensures p == q && c == d
  {
    var x, y := SendFilePayload(p, c), SendFilePayload(q, d);
    assert x == FrameBytes(Message(SEND_FILE, x))[16..];
    assert y == FrameBytes(Message(SEND_FILE, y))[16..];
    SendFileAt(p, c);
    SendFileAt(q, d);
    assert |p| == |q|;
    assert p == x[4..4 + |p|] == y[4..4 + |q|] == q;
    assert c == x[9 + |p|..] == y[9 + |q|..] == d;
  }

  lemma SendFileAt(p: seq<Byte>, c: seq<Byte>)
    requires CString(p)
    ensures |SendFilePayload(p, c)| == 9 + |p| + |c|
    ensures forall i :: 4 <= i < 4 + |p| ==> SendFilePayload(p, c)[i] != 0
    ensures SendFilePayload(p, c)[4 + |p|] == 0
    ensures SendFilePayload(p, c)[4..4 + |p|] == p
    ensures SendFilePayload(p, c)[9 + |p|..] == c
  {
  }

  /** Where everything is in a SendFile frame, and what its two length words hold. */
  ghost predicate IsSendFile(b: seq<Byte>, path: seq<Byte>, content: seq<Byte>) {
    && |b| == 25 + |path| + |content|
    && GetU32(b) == 0x55aa55aa && GetU32(b[4..]) == (9 + |path| + |content|) % 0x1_0000_0000
    && GetU32(b[8..]) == 0x99 && GetU32(b[12..]) == 0xffff_ff66
    && GetU32(b[16..]) == (|path| + 1) % 0x1_0000_0000
    && b[20..20 + |path|] == path && b[20 + |path|] == 0
    && GetU32(b[21 + |path|..]) == |content| % 0x1_0000_0000 && b[25 + |path|..] == content
  }

  lemma WordAt(b: seq<Byte>, at: nat, w: Word)
    requires at + 4 <= |b| && b[at..at + 4] == U32(w)
    ensures GetU32(b[at..]) == w
  {
    assert b[at..][..4] == b[at..at + 4];
    GetDependsOnFour(b[at..], U32(w));
    U32RoundTrip(w);
  }

  lemma HeaderFields(m: Message)
    ensures var b := FrameBytes(m);
      && |b| == 16 + |m.payload| && b[16..] == m.payload
      && GetU32(b) == MAGIC && GetU32(b[4..]) == |m.payload| % WORD_SIZE
      && GetU32(b[8..]) == m.mtype && GetU32(b[12..]) == Complement(m.mtype)
  {
    var b, h := FrameBytes(m), Header(|m.payload| % WORD_SIZE, m.mtype);
    assert b[0..4] == U32(MAGIC) && b[4..8] == U32(h.length);
    assert b[8..12] == U32(h.mtype) && b[12..16] == U32(Complement(h.mtype));
    assert b[0..] == b;
    hide U32, GetU32;
    WordAt(b, 0, MAGIC);
    WordAt(b, 4, h.length);
    WordAt(b, 8, h.mtype);
    WordAt(b, 12, Complement(h.mtype));
  }

  lemma PayloadFields(path: seq<Byte>, content: seq<Byte>)
    ensures var p := SendFilePayload(path, content);
      && |p| == 9 + |path| + |content|
      && GetU32(p) == (|path| + 1) % WORD_SIZE && p[4..4 + |path|] == path && p[4 + |path|] == 0
      && GetU32(p[5 + |path|..]) == |content| % WORD_SIZE && p[9 + |path|..] == content
  {
    var p := SendFilePayload(path, content);
    hide U32, GetU32;
    assert p[0..4] == U32((|path| + 1) % WORD_SIZE) && p[0..] == p;
    assert p[5 + |path|..9 + |path|] == U32(|content| % WORD_SIZE);
    WordAt(p, 0, (|path| + 1) % WORD_SIZE);
    WordAt(p, 5 + |path|, |content| % WORD_SIZE);
  }

  lemma SendFileFields(path: seq<Byte>, content: seq<Byte>)
    ensures IsSendFile(FrameBytes(Message(SEND_FILE, SendFilePayload(path, content))), path, content)
  {
    hide GetU32, FrameBytes, SendFilePayload;
    var p := SendFilePayload(path, content);
    var b := FrameBytes(Message(SEND_FILE, p));
    HeaderFields(Message(SEND_FILE, p));
    PayloadFields(path, content);
    assert b[16..][4..4 + |path|] == b[20..20 + |path|] && b[16..][5 + |path|..] == b[21 + |path|..];
    assert b[16..][9 + |path|..] == b[25 + |path|..];
  }

  // ----- the builders as the code writes them ------------------------------------

  /** The byte vector the builders append to. */
  class ByteVector {
    var bytes: seq<Byte>

    constructor ()
      ensures bytes == []
    {
      bytes := [];
    }

    method PutU32(v: Word)
      modifies this
      ensures bytes == old(bytes) + U32(v)
    {
      bytes := bytes + [Low(v)];
      bytes := bytes + [Low(v / 256)];
      bytes := bytes + [Low(v / 65536)];
      bytes := bytes + [Low(v / 16777216)];
    }

    method Insert(more: seq<Byte>)
      modifies this
      ensures bytes == old(bytes) + more
    {
      bytes := bytes + more;
    }

    method AppendHeader(mtype: Word, payloadLen: Word)
      modifies this
      ensures bytes == old(bytes) + HeaderBytes(Header(payloadLen, mtype))
    {
      PutU32(MAGIC);
      PutU32(payloadLen);
      PutU32(mtype);
      PutU32(Complement(mtype));
    }
  }

  method Frame(mtype: Word, payload: seq<Byte>) returns (b: seq<Byte>)
    ensures b == FrameBytes(Message(mtype, payload))
  {
    var v := new ByteVector();
    v.AppendHeader(mtype, |payload| % WORD_SIZE);
    v.Insert(payload);
    b := v.bytes;
  }

  method SendFile(path: seq<Byte>, content: seq<Byte>) returns (b: seq<Byte>)
    ensures b == FrameBytes(Message(SEND_FILE, SendFilePayload(path, content)))
    ensures IsSendFile(b, path, content)
  {
    SendFileFields(path, content);
    hide IsSendFile;
    var p := new ByteVector();
    var name := path + [0];
    p.PutU32(|name| % WORD_SIZE);
    p.Insert(name);
    p.PutU32(|content| % WORD_SIZE);
    p.Insert(content);
    b := Frame(SEND_FILE, p.bytes);
  }
}
