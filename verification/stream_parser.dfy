/** Reassembly of the framed message stream from bulk-transfer chunks (src/stream_parser.h):
    a one-shot recursive decoder as the reference, and the incremental parser as a class
    that is proved to dispatch exactly what the reference dispatches. */
module StreamParsing {
  import opened Bytes
  import opened Options
  import opened Sequences
  import opened Wire

  const MAX_MESSAGE := 16 * 1024 * 1024

  // ----- the reference: decode a whole byte string at once ---------------------

  /** The messages found, and the bytes at the end that are not yet decided. */
  datatype Decoded = Decoded(messages: seq<Message>, rest: seq<Byte>)

  /** A header the parser takes: well formed and not oversized. */
  function Accept(d: seq<Byte>): Option<Header>
    requires |d| >= HEADER_LEN
  {
    match ParseHeader(d)
    case None => None
    case Some(h) => if h.length > MAX_MESSAGE then None else Some(h)
  }

  function Decode(s: seq<Byte>): Decoded
    decreases |s|
  {
    if |s| < HEADER_LEN then Decoded([], s)
    else match Accept(s)
      case None => Decode(s[1..])
      case Some(h) =>
        if |s| - HEADER_LEN < h.length then Decoded([], s)
        else
          var d := Decode(s[HEADER_LEN + h.length..]);
          Decoded([Message(h.mtype, s[HEADER_LEN..][..h.length])] + d.messages, d.rest)
  }

  /** No message can be taken from the front of `s` before more bytes arrive. */
  ghost predicate Undecided(s: seq<Byte>) {
    Decode(s) == Decoded([], s)
  }

  lemma {:induction false} RestIsUndecided(s: seq<Byte>)
    ensures Undecided(Decode(s).rest)
    decreases |s|
  {
    if |s| >= HEADER_LEN {
      match Accept(s)
      case None => RestIsUndecided(s[1..]);
      case Some(h) =>
        if |s| - HEADER_LEN >= h.length { RestIsUndecided(s[HEADER_LEN + h.length..]); }
    }
  }

  /** Acceptance looks at sixteen bytes only. */
  lemma AcceptPrefix(s: seq<Byte>, t: seq<Byte>)
    requires |s| >= HEADER_LEN && |t| >= HEADER_LEN && s[..16] == t[..16]
    ensures Accept(s) == Accept(t)
  {
    var p, q := ParseHeader(s), ParseHeader(t);
    if p.Some? { ParseIffEncoding(s, p.value); ParseIffEncoding(t, p.value); }
    if q.Some? { ParseIffEncoding(s, q.value); ParseIffEncoding(t, q.value); }
  }

  /** An accepted header is not oversized, and its sixteen bytes are its encoding. */
  lemma AcceptedEncoding(s: seq<Byte>, h: Header)
    requires |s| >= HEADER_LEN && Accept(s) == Some(h)
    ensures h.length <= MAX_MESSAGE && s[..16] == HeaderBytes(h)
  {
    ParseIffEncoding(s, h);
  }

  /** One step of the reference decoder. */
  lemma DecodeStep(s: seq<Byte>)
    requires |s| >= HEADER_LEN
    ensures match Accept(s)
            case None => Decode(s) == Decode(s[1..])
            case Some(h) =>
              if |s| - HEADER_LEN < h.length then Undecided(s)
              else
                var d := Decode(s[HEADER_LEN + h.length..]);
                Decode(s) == Decoded([Message(h.mtype, s[HEADER_LEN..][..h.length])] + d.messages, d.rest)
  {
    hide Accept;
  }

  lemma DecodeShort(s: seq<Byte>)
    requires |s| < HEADER_LEN
    ensures Decode(s) == Decoded([], s)
  {
  }

  /** Decoding may stop anywhere, keep the undecided rest, and go on with more bytes. */
  lemma {:induction false} DecodeAppend(s: seq<Byte>, t: seq<Byte>)
    ensures Decode(s + t) == Decoded(Decode(s).messages + Decode(Decode(s).rest + t).messages,
                                     Decode(Decode(s).rest + t).rest)
    decreases |s|
  {
    hide Accept, Decode;
    if |s| < HEADER_LEN {
      DecodeShort(s);
    } else {
      TakeConcat(s, t, HEADER_LEN);
      AcceptPrefix(s, s + t);
      DecodeStep(s);
      DecodeStep(s + t);
      match Accept(s)
      case None =>
        DropConcat(s, t, 1);
        DecodeAppend(s[1..], t);
      case Some(h) =>
        var n := HEADER_LEN + h.length;
        if |s| >= n {
          DropConcat(s, t, n);
          MiddleOfConcat(s, t, HEADER_LEN, h.length);
          DecodeAppend(s[n..], t);
        }
    }
  }

  // ----- runs of chunks ----------------------------------------------------------

  function Flatten(chunks: seq<seq<Byte>>): seq<Byte> {
    if chunks == [] then [] else chunks[0] + Flatten(chunks[1..])
  }

  /** What successive feeds dispatch, and what they retain, from `retained` on. */
  function FeedAll(retained: seq<Byte>, chunks: seq<seq<Byte>>): Decoded
    decreases |chunks|
  {
    if chunks == [] then Decoded([], retained)
    else
      var d := Decode(retained + chunks[0]);
      var e := FeedAll(d.rest, chunks[1..]);
      Decoded(d.messages + e.messages, e.rest)
  }

  /** Chunk boundaries do not matter: any split of a byte string dispatches what the
      one-shot decoder dispatches and retains what it leaves undecided. */
  lemma {:induction false} ChunkInvariance(retained: seq<Byte>, chunks: seq<seq<Byte>>)
    requires Undecided(retained)
    ensures FeedAll(retained, chunks) == Decode(retained + Flatten(chunks))
    decreases |chunks|
  {
    if chunks == [] {
      assert retained + Flatten(chunks) == retained;
    } else {
      var s := retained + chunks[0];
      RestIsUndecided(s);
      ChunkInvariance(Decode(s).rest, chunks[1..]);
      DecodeAppend(s, Flatten(chunks[1..]));
      assert retained + Flatten(chunks) == s + Flatten(chunks[1..]);
    }
  }

  /** Where decoding ends up: the messages already out followed by those still in the
      retained bytes and the input, and what is then left undecided. */
  ghost function Outcome(out: seq<Message>, retained: seq<Byte>, input: seq<Byte>): Decoded {
    var d := Decode(retained + input);
    Decoded(out + d.messages, d.rest)
  }

  lemma OutcomeOfSplit(out: seq<Message>, held: seq<Byte>, input: seq<Byte>, held': seq<Byte>, input': seq<Byte>)
    requires held + input == held' + input'
    ensures Outcome(out, held, input) == Outcome(out, held', input')
  {
  }

  lemma OutcomeAtEnd(out: seq<Message>, retained: seq<Byte>)
    requires Undecided(retained)
    ensures Outcome(out, retained, []) == Decoded(out, retained)
  {
    hide Decode;
    assert retained + [] == retained;
  }

  /** A bad header costs one byte. */
  lemma OutcomeOfSkip(out: seq<Message>, held: seq<Byte>, input: seq<Byte>, held': seq<Byte>, input': seq<Byte>)
    requires |held + input| >= HEADER_LEN && Accept(held + input) == None
    requires (held + input)[1..] == held' + input'
    ensures Outcome(out, held, input) == Outcome(out, held', input')
  {
    hide Accept, Decode;
    DecodeStep(held + input);
  }

  /** A whole frame at the front is dispatched, and decoding goes on after it. */
  lemma OutcomeOfFrame(out: seq<Message>, held: seq<Byte>, input: seq<Byte>,
                       h: Header, payload: seq<Byte>, tail: seq<Byte>)
    requires h.length == |payload| <= MAX_MESSAGE
    requires held + input == HeaderBytes(h) + payload + tail
    ensures Outcome(out, held, input) == Outcome(out + [Message(h.mtype, payload)], [], tail)
  {
    hide Decode, HeaderBytes;
    var s := held + input;
    assert s[..16] == HeaderBytes(h);
    ParseIffEncoding(s, h);
    DecodeStep(s);
    assert s[HEADER_LEN..][..h.length] == payload;
    assert s[HEADER_LEN + h.length..] == tail;
    assert [] + tail == tail;
  }

  /** The parts of a byte string that starts with an accepted header. */
  lemma FrameInFront(s: seq<Byte>, h: Header)
    requires |s| >= HEADER_LEN && Accept(s) == Some(h)
    ensures h.length <= MAX_MESSAGE
    ensures [] + s == s == HeaderBytes(h) + s[HEADER_LEN..]
    ensures |s| >= HEADER_LEN + h.length ==>
              s == HeaderBytes(h) + s[HEADER_LEN..HEADER_LEN + h.length] + s[HEADER_LEN + h.length..]
  {
    AcceptedEncoding(s, h);
    hide HeaderBytes, Accept;
    assert s == s[..HEADER_LEN] + s[HEADER_LEN..];
  }

  /** An accepted header whose payload is not all there decides nothing. */
  lemma PartialFrameUndecided(h: Header, part: seq<Byte>)
    requires |part| < h.length <= MAX_MESSAGE
    ensures Undecided(HeaderBytes(h) + part)
  {
    hide Decode, HeaderBytes;
    var s := HeaderBytes(h) + part;
    assert s[..16] == HeaderBytes(h);
    ParseIffEncoding(s, h);
    DecodeStep(s);
  }

  // ----- the incremental parser ----------------------------------------------------

  /** vector::resize: keep what fits, fill the rest with zeros. */
  function Resize(v: seq<Byte>, n: nat): (r: seq<Byte>)
    ensures |r| == n
  {
    if n <= |v| then v[..n] else v + seq(n - |v|, _ => 0)
  }

  /** memcpy of `src` into `v` at `at`. */
  function CopyInto(v: seq<Byte>, at: nat, src: seq<Byte>): (r: seq<Byte>)
    requires at + |src| <= |v|
    ensures |r| == |v| && r[..at + |src|] == v[..at] + src
  {
    v[..at] + src + v[at + |src|..]
  }

  class StreamParser {
    var assembling: bool
    var haveHeader: bool
    const hdr: array<Byte>
    var hdrHave: nat
    var cur: Header
    var payload: seq<Byte>
    var payloadHave: nat
    var payloadNeed: nat
    /** Every call of the handler so far. */
    var dispatched: seq<Message>

    ghost predicate Valid()
      reads this, hdr
    {
      && hdr.Length == HEADER_LEN
      && hdrHave <= HEADER_LEN
      && (!assembling ==> !haveHeader)
      && (assembling && !haveHeader ==> hdrHave < HEADER_LEN)
      && (haveHeader ==> payloadHave < payloadNeed && PayloadReady())
    }

    ghost predicate PayloadReady()
      reads this
    {
      payloadHave <= payloadNeed == |payload| == cur.length <= MAX_MESSAGE
    }

    /** The bytes the parser holds back: nothing, a partial header, or an accepted
        header with a partial payload. */
    ghost function Retained(): seq<Byte>
      requires Valid()
      reads this, hdr
    {
      if !assembling then []
      else if !haveHeader then hdr[..hdrHave]
      else HeaderBytes(cur) + payload[..payloadHave]
    }

    constructor ()
      ensures Valid() && fresh(hdr)
      ensures Retained() == [] && dispatched == []
    {
      assembling, haveHeader := false, false;
      hdr := new Byte[HEADER_LEN](_ => 0);
      hdrHave := 0;
      cur := Header(0, 0);
      payload, payloadHave, payloadNeed := [], 0, 0;
      dispatched := [];
    }

    /** Leaves `assembling` as it is: a parser reset while assembling goes on through the
        carried-header path with no bytes carried. */
    method Reset()
      requires Valid()
      modifies this
      ensures Valid() && Retained() == [] && dispatched == old(dispatched)
      ensures assembling == old(assembling)
    {
      haveHeader := false;
      hdrHave := 0;
      payloadHave := 0;
      payloadNeed := 0;
    }

    method FinishMessage()
      requires hdr.Length == HEADER_LEN
      modifies this
      ensures Valid() && Retained() == [] && dispatched == old(dispatched)
      ensures !assembling
    {
      assembling := false;
      haveHeader := false;
      hdrHave := 0;
      payloadHave := 0;
      payloadNeed := 0;
    }

    /** What is retained can never be decided by itself. */
    lemma RetainedUndecided()
      requires Valid()
      ensures Undecided(Retained())
    {
      if assembling && haveHeader {
        PartialFrameUndecided(cur, payload[..payloadHave]);
      }
    }

    /** Dispatches exactly what the one-shot decoder finds in the retained bytes followed
        by the chunk, and retains exactly what it leaves undecided. */
    method Feed(buf: seq<Byte>)
      requires Valid()
      modifies this, hdr
      ensures Valid()
      ensures Decoded(dispatched, Retained()) == Outcome(old(dispatched), old(Retained()), buf)
    {
      hide Accept, Decode, HeaderBytes, Outcome;
      ghost var goal := Outcome(dispatched, Retained(), buf);
      var pos := 0;
      while pos < |buf|
        invariant Valid() && 0 <= pos <= |buf|
        invariant Outcome(dispatched, Retained(), buf[pos..]) == goal
      {
        var n;
        if assembling {
          n := Assemble(buf[pos..]);
        } else {
          n := TakeFront(buf[pos..]);
        }
        DropTwice(buf, pos, n);
        pos := pos + n;
      }
      assert buf[pos..] == [];
      RetainedUndecided();
      OutcomeAtEnd(dispatched, Retained());
    }

    /** The fast path: the bytes in front are skipped by one, dispatched as a whole message, or
        carried over to the end of the chunk. */
    method TakeFront(input: seq<Byte>) returns (n: nat)
      requires Valid() && !assembling && input != []
      modifies this, hdr
      ensures Valid()
      ensures 0 < n <= |input|
      ensures Outcome(dispatched, Retained(), input[n..])
           == Outcome(old(dispatched), old(Retained()), input)
    {
      hide Accept, Decode, HeaderBytes, Outcome;
      if |input| < HEADER_LEN {
        CarryHeader(input);
        RetainedUndecided();
        OutcomeAtEnd(dispatched, Retained());
        assert input[|input|..] == [];
        return |input|;
      }
      var parsed := Accept(input);
      if parsed == None {
        EmptyInFront(input);
        EmptyInFront(input[1..]);
        OutcomeOfSkip(dispatched, [], input, [], input[1..]);
        return 1;
      }
      var h := parsed.value;
      FrameInFront(input, h);
      if |input| - HEADER_LEN >= h.length {
        n := HEADER_LEN + h.length;
        OutcomeOfFrame(dispatched, [], input, h, input[HEADER_LEN..n], input[n..]);
        dispatched := dispatched + [Message(h.mtype, input[HEADER_LEN..n])];
      } else {
        n := |input|;
        CarryPayload(h, input[HEADER_LEN..]);
        RetainedUndecided();
        OutcomeAtEnd(dispatched, Retained());
        assert input[n..] == [];
      }
    }

    /** The end of a chunk that is too short for a header. */
    method CarryHeader(tail: seq<Byte>)
      requires Valid() && !assembling && |tail| < HEADER_LEN
      modifies this, hdr
      ensures Valid() && Decoded(dispatched, Retained()) == Outcome(old(dispatched), [], tail)
    {
      CopyToHeader(0, tail);
      hdrHave := |tail|;
      haveHeader := false;
      assembling := true;
      assert [] + tail == tail;
    }

    /** The end of a chunk that holds a header and less than its payload. */
    method CarryPayload(h: Header, part: seq<Byte>)
      requires Valid() && !assembling && |part| < h.length <= MAX_MESSAGE
      modifies this
      ensures Valid() && dispatched == old(dispatched) && Retained() == HeaderBytes(h) + part
      ensures Decoded(dispatched, Retained()) == Outcome(dispatched, [], HeaderBytes(h) + part)
    {
      hide HeaderBytes, Decode;
      cur := h;
      payload := Resize(payload, h.length);
      payload := CopyInto(payload, 0, part);
      payloadHave := |part|;
      payloadNeed := h.length;
      haveHeader := true;
      assembling := true;
      RetainedUndecided();
      assert [] + (HeaderBytes(h) + part) == HeaderBytes(h) + part;
    }

    /** memcpy into the header buffer. */
    method CopyToHeader(at: nat, src: seq<Byte>)
      requires at + |src| <= hdr.Length
      modifies hdr
      ensures hdr[..at + |src|] == old(hdr[..at]) + src
    {
      for i := 0 to |src|
        invariant hdr[..at + i] == old(hdr[..at]) + src[..i]
      {
        hdr[at + i] := src[i];
      }
      assert src[..|src|] == src;
    }

    /** Takes at least one byte, and does not change where decoding ends up. */
    method Assemble(input: seq<Byte>) returns (pos: nat)
      requires Valid() && assembling && input != []
      modifies this, hdr
      ensures Valid()
      ensures 0 < pos <= |input|
      ensures Outcome(dispatched, Retained(), input[pos..])
           == Outcome(old(dispatched), old(Retained()), input)
    {
      hide Accept, Decode, HeaderBytes, Outcome;
      pos := 0;
      if !haveHeader {
        var done;
        pos, done := FillHeader(input);
        if done {
          return;
        }
      }
      var n := FillPayload(input[pos..]);
      assert input[pos..][n..] == input[pos + n..];
      assert input[0..] == input;
      pos := pos + n;
    }

    /** The first half of assemble(): complete a carried header. `done` when the call
        returns early: still short, bad, or a message without payload. */
    method FillHeader(input: seq<Byte>) returns (pos: nat, done: bool)
      requires Valid() && assembling && !haveHeader && input != []
      modifies this, hdr
      ensures 0 < pos <= |input|
      ensures if done then Valid()
              else assembling && haveHeader && PayloadReady() && 0 == payloadHave < payloadNeed && Valid()
      ensures Outcome(dispatched, Retained(), input[pos..])
           == Outcome(old(dispatched), old(Retained()), input)
    {
      hide Accept, Decode, HeaderBytes, Outcome;
      ghost var before := Retained();
      var need := HEADER_LEN - hdrHave;
      var n := if need < |input| then need else |input|;
      CopyToHeader(hdrHave, input[..n]);
      hdrHave := hdrHave + n;
      pos := n;
      assert before + input == hdr[..hdrHave] + input[pos..];
      if hdrHave < HEADER_LEN {
        OutcomeOfSplit(dispatched, before, input, Retained(), input[pos..]);
        return pos, true;
      }
      AcceptPrefix(hdr[..], before + input);
      var parsed := Accept(hdr[..]);
      if parsed == None {
        ShiftHeader();
        hdrHave := HEADER_LEN - 1;
        OutcomeOfSkip(dispatched, before, input, Retained(), input[pos..]);
        return pos, true;
      }
      AcceptedEncoding(hdr[..], parsed.value);
      cur := parsed.value;
      haveHeader := true;
      payloadNeed := cur.length;
      payloadHave := 0;
      payload := Resize(payload, payloadNeed);
      assert before + input == HeaderBytes(cur) + [] + input[pos..];
      if payloadNeed == 0 {
        OutcomeOfFrame(dispatched, before, input, cur, [], input[pos..]);
        dispatched := dispatched + [Message(cur.mtype, [])];
        FinishMessage();
        return pos, true;
      }
      OutcomeOfSplit(dispatched, before, input, Retained(), input[pos..]);
      return pos, false;
    }

    /** The second half of assemble(): add to the payload, and dispatch it when full. */
    method FillPayload(input: seq<Byte>) returns (n: nat)
      requires Valid() && assembling && haveHeader
      modifies this
      ensures Valid() && n <= |input| && (input != [] ==> 0 < n)
      ensures Outcome(dispatched, Retained(), input[n..])
           == Outcome(old(dispatched), old(Retained()), input)
    {
      hide Decode, HeaderBytes, Outcome;
      ghost var before := Retained();
      var need := payloadNeed - payloadHave;
      n := if need < |input| then need else |input|;
      payload := CopyInto(payload, payloadHave, input[..n]);
      payloadHave := payloadHave + n;
      assert before + input == HeaderBytes(cur) + payload[..payloadHave] + input[n..] by {
        assert input == input[..n] + input[n..];
      }
      if payloadHave == payloadNeed {
        OutcomeOfFrame(dispatched, before, input, cur, payload, input[n..]);
        dispatched := dispatched + [Message(cur.mtype, payload)];
        FinishMessage();
      } else {
        OutcomeOfSplit(dispatched, before, input, Retained(), input[n..]);
      }
    }

    /** memmove of the last fifteen header bytes to the front. */
    method ShiftHeader()
      requires hdr.Length == HEADER_LEN
      modifies hdr
      ensures hdr[..15] == old(hdr[1..])
    {
      for i := 0 to HEADER_LEN - 1
        invariant hdr[..i] == old(hdr[1..])[..i]
        invariant forall j :: i <= j < HEADER_LEN ==> hdr[j] == old(hdr[j])
      {
        hdr[i] := hdr[i + 1];
      }
    }
  }

  /** What is out in the end, from a state with `out` dispatched. */
  ghost function RunFrom(out: seq<Message>, retained: seq<Byte>, chunks: seq<seq<Byte>>): Decoded {
    var d := FeedAll(retained, chunks);
    Decoded(out + d.messages, d.rest)
  }

  lemma RunStep(out: seq<Message>, retained: seq<Byte>, chunks: seq<seq<Byte>>)
    requires chunks != []
    ensures var d := Outcome(out, retained, chunks[0]);
            RunFrom(out, retained, chunks) == RunFrom(d.messages, d.rest, chunks[1..])
  {
    hide Decode;
  }

  /** Successive feeds, as the receive callback makes them. */
  method FeedChunks(p: StreamParser, chunks: seq<seq<Byte>>)
    requires p.Valid()
    modifies p, p.hdr
    ensures p.Valid()
    ensures Decoded(p.dispatched, p.Retained())
         == RunFrom(old(p.dispatched), old(p.Retained()), chunks)
  {
    hide Decode, Outcome;
    var i := 0;
    while i < |chunks|
      invariant p.Valid() && 0 <= i <= |chunks|
      invariant RunFrom(p.dispatched, p.Retained(), chunks[i..])
             == RunFrom(old(p.dispatched), old(p.Retained()), chunks)
    {
      RunStep(p.dispatched, p.Retained(), chunks[i..]);
      assert chunks[i..][1..] == chunks[i + 1..];
      p.Feed(chunks[i]);
      i := i + 1;
    }
  }

  /** A parser that was reset, whatever it was in the middle of, cannot be told from a new
      one: fed the same chunks, both dispatch what the one-shot decoder finds in those
      chunks alone, and retain the same bytes. */
  method ResetIsFresh(p: StreamParser, chunks: seq<seq<Byte>>) returns (q: StreamParser)
    requires p.Valid()
    modifies p, p.hdr
    ensures p.Valid() && q.Valid() && fresh(q)
    ensures p.dispatched == old(p.dispatched) + q.dispatched
    ensures p.Retained() == q.Retained()
    ensures Decoded(q.dispatched, q.Retained()) == Decode(Flatten(chunks))
  {
    hide Decode;
    p.Reset();
    q := new StreamParser();
    q.RetainedUndecided();
    ChunkInvariance([], chunks);
    assert [] + Flatten(chunks) == Flatten(chunks);
    FeedChunks(p, chunks);
    FeedChunks(q, chunks);
  }
}
