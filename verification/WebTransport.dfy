/** The length-prefixed frame loop of a WebTransport session, and the message format inside a frame. */
module WebTransport {
  import opened Bytes

  const LIMIT := 0x1_0000_0000

  // ---------------------------------------------------------------------------
  // Four bytes, little-endian
  // ---------------------------------------------------------------------------

  function Word(n: nat): (b: bytes)
    requires n < LIMIT
    ensures |b| == 4
  {
    [(n % 256) as byte, (n / 256 % 256) as byte, (n / 65536 % 256) as byte, (n / 16777216) as byte]
  }

  /** `b0 | b1 << 8 | b2 << 16 | b3 << 24`; the shifted bytes do not overlap. */
  function Number(b: bytes): (n: nat)
    requires |b| >= 4
    ensures n < LIMIT
  {
    b[0] as int + 256 * b[1] as int + 65536 * b[2] as int + 16777216 * b[3] as int
  }

  lemma WordRoundTrip(n: nat, rest: bytes)
    requires n < LIMIT
    ensures Number(Word(n) + rest) == n
  {
    ByteDigits(n);
  }

  lemma ByteDigits(n: nat)
    ensures n == n % 256 + 256 * (n / 256 % 256) + 65536 * (n / 65536 % 256) + 16777216 * (n / 16777216)
  {
    TwoBytes(n);
    TwoBytes(n / 256);
    assert n / 256 / 65536 == n / 16777216;
  }

  lemma TwoBytes(n: nat)
    ensures n / 256 / 256 == n / 65536 && n == n % 256 + 256 * (n / 256)
  {
  }

  lemma NumberRoundTrip(b: bytes)
    requires |b| >= 4
    ensures Word(Number(b)) == b[..4]
  {
    var n := Number(b);
    var b0, b1, b2, b3 := b[0] as int, b[1] as int, b[2] as int, b[3] as int;
    assert n / 256 == b1 + 256 * b2 + 65536 * b3;
    assert n / 65536 == b2 + 256 * b3;
    assert n / 16777216 == b3;
  }

  // ---------------------------------------------------------------------------
  // Messages
  // ---------------------------------------------------------------------------

  datatype Message = Message(kind: nat, body: bytes)

  datatype Decoded = TooShort | Decoded(message: Message)

  ghost predicate Marshalable(m: Message) {
    m.kind < LIMIT
  }

  /** The bytes that decode to the message, and no other bytes do. */
  method Marshal(m: Message) returns (buf: bytes)
    requires Marshalable(m)
    ensures |buf| == 4 + |m.body| && Decode(buf) == Decoded(m)
    ensures forall other :: Decode(other) == Decoded(m) ==> other == buf
  {
    buf := [];
    buf := buf + Word(m.kind);
    buf := buf + m.body;
    forall other | Decode(other) == Decoded(m) ensures other == buf {
      MessageRoundTrip(m, other);
    }
    MessageRoundTrip(m, buf);
  }

  function Encoded(m: Message): bytes
    requires m.kind < LIMIT
  {
    Word(m.kind) + m.body
  }

  /** The one message whose encoding the bytes are; only fewer than four bytes encode none. */
  method Unmarshal(buf: bytes) returns (r: Decoded)
    ensures r.TooShort? <==> |buf| < 4
    ensures r.Decoded? ==> Marshalable(r.message) && Encoded(r.message) == buf
    ensures forall m :: Marshalable(m) && Encoded(m) == buf ==> r == Decoded(m)
    ensures r.Decoded? ==>
              r.message.kind == buf[0] as int + 256 * buf[1] as int + 65536 * buf[2] as int + 16777216 * buf[3] as int
  {
    var network := buf;
    forall m | Marshalable(m) && Encoded(m) == buf ensures Decode(buf) == Decoded(m) {
      MessageRoundTrip(m, buf);
    }
    if |network| < 4 {
      return TooShort;
    }
    NumberRoundTrip(buf);
    var kind := Number(network[..4]);
    network := network[4..];
    r := Decoded(Message(kind, network));
  }

  function Decode(buf: bytes): Decoded {
    if |buf| < 4 then TooShort else Decoded(Message(Number(buf), buf[4..]))
  }

  /** Decoding inverts encoding on all messages, and encoding inverts decoding on all byte strings
      that decode, which are those of at least four bytes. */
  lemma MessageRoundTrip(m: Message, buf: bytes)
    requires Marshalable(m)
    ensures Decode(Encoded(m)) == Decoded(m)
    ensures Decode(buf).Decoded? <==> |buf| >= 4
    ensures Decode(buf).Decoded? ==>
              Marshalable(Decode(buf).message) && Encoded(Decode(buf).message) == buf
  {
    WordRoundTrip(m.kind, m.body);
    assert Encoded(m)[4..] == m.body;
    if |buf| >= 4 {
      NumberRoundTrip(buf);
    }
  }

  // ---------------------------------------------------------------------------
  // Frames
  // ---------------------------------------------------------------------------

  ghost predicate AreFrames(fs: seq<bytes>) {
    forall i :: 0 <= i < |fs| ==> |fs[i]| < LIMIT
  }

  function Framed(f: bytes): bytes
    requires |f| < LIMIT
  {
    Word(|f|) + f
  }

  ghost function Stream(fs: seq<bytes>): bytes
    requires AreFrames(fs)
  {
    if fs == [] then [] else Framed(fs[0]) + Stream(fs[1..])
  }

  /** Too short for a length, or for the body the length announces. */
  ghost predicate Incomplete(s: bytes) {
    |s| < 4 || |s| - 4 < Number(s)
  }

  /** The bodies of the complete frames at the front of a stream, the empty ones included. */
  ghost function Frames(s: bytes): seq<bytes>
    decreases |s|
  {
    if Incomplete(s) then [] else [s[4..4 + Number(s)]] + Frames(s[4 + Number(s)..])
  }

  ghost function Tail(s: bytes): bytes
    decreases |s|
  {
    if Incomplete(s) then s else Tail(s[4 + Number(s)..])
  }

  ghost function NonEmpty(fs: seq<bytes>): seq<bytes> {
    if fs == [] then [] else (if fs[0] == [] then [] else [fs[0]]) + NonEmpty(fs[1..])
  }

  lemma FramedFront(f: bytes, rest: bytes)
    requires |f| < LIMIT
    ensures var s := Framed(f) + rest;
            !Incomplete(s) && Number(s) == |f| && s[4..4 + |f|] == f && s[4 + |f|..] == rest
  {
    var s := Framed(f) + rest;
    assert s == Word(|f|) + (f + rest);
    WordRoundTrip(|f|, f + rest);
  }

  /** Reading inverts writing, with any unfinished frame left at the end. */
  lemma {:induction false} StreamReads(fs: seq<bytes>, tail: bytes)
    requires AreFrames(fs) && Incomplete(tail)
    ensures Frames(Stream(fs) + tail) == fs && Tail(Stream(fs) + tail) == tail
  {
    if fs == [] {
      assert [] + tail == tail;
    } else {
      var rest := Stream(fs[1..]) + tail;
      assert Stream(fs) + tail == Framed(fs[0]) + rest;
      FramedFront(fs[0], rest);
      StreamReads(fs[1..], tail);
    }
  }

  /** The first byte of a length is the least significant one. */
  lemma Announces(b0: byte, b1: byte, b2: byte, b3: byte, body: bytes)
    requires |body| == b0 as int + 256 * b1 as int + 65536 * b2 as int + 16777216 * b3 as int
    ensures Frames([b0, b1, b2, b3] + body) == [body] && Tail([b0, b1, b2, b3] + body) == []
    ensures NonEmpty(Frames([b0, b1, b2, b3] + body)) == if body == [] then [] else [body]
  {
    var s := [b0, b1, b2, b3] + body;
    assert s[4..] == body;
    OneFrame(s);
  }

  lemma OneFrame(s: bytes)
    requires |s| >= 4 && Number(s) == |s| - 4
    ensures Frames(s) == [s[4..]] && Tail(s) == []
    ensures NonEmpty(Frames(s)) == if s[4..] == [] then [] else [s[4..]]
  {
    assert s[4..4 + Number(s)] == s[4..] && s[4 + Number(s)..] == [];
    assert Frames([]) == [] && Tail([]) == [];
    assert [s[4..]][1..] == [];
  }

  /** Writing inverts reading: every byte string is, in one way only, a list of frames followed by an
      unfinished one. */
  lemma {:induction false} ReadStreams(s: bytes)
    ensures AreFrames(Frames(s)) && Incomplete(Tail(s))
    ensures Stream(Frames(s)) + Tail(s) == s
    decreases |s|
  {
    if Incomplete(s) {
      assert [] + s == s;
    } else {
      var f, rest := s[4..4 + Number(s)], s[4 + Number(s)..];
      ReadStreams(rest);
      NumberRoundTrip(s);
      assert Framed(f) + rest == s;
      var fs := Frames(rest);
      assert Frames(s) == [f] + fs && ([f] + fs)[1..] == fs;
      Reassociate(Framed(f), Stream(fs), Tail(s));
    }
  }

  lemma Reassociate(a: bytes, b: bytes, c: bytes)
    ensures a + b + c == a + (b + c)
  {
  }

  lemma {:induction false} NonEmptySnoc(fs: seq<bytes>, f: bytes)
    ensures NonEmpty(fs + [f]) == NonEmpty(fs) + if f == [] then [] else [f]
  {
    if fs == [] {
      assert fs + [f] == [f] && [f][1..] == [];
    } else {
      assert (fs + [f])[1..] == fs[1..] + [f];
      NonEmptySnoc(fs[1..], f);
    }
  }

  // ---------------------------------------------------------------------------
  // The session loop
  // ---------------------------------------------------------------------------

  /** Reads `n` bytes of the stream into the front of the buffer. */
  method ReadFull(stream: bytes, pos: nat, buf: array<byte>, n: nat)
    requires pos + n <= |stream| && n <= buf.Length
    modifies buf
    ensures buf[..n] == stream[pos..pos + n]
  {
    for i := 0 to n
      invariant buf[..i] == stream[pos..pos + i]
    {
      buf[i] := stream[pos + i];
      assert buf[..i + 1] == buf[..i] + [stream[pos + i]];
    }
  }

  lemma FramesAt(stream: bytes, pos: nat)
    requires pos <= |stream|
    ensures |stream| - pos < 4 ==> Frames(stream[pos..]) == []
    ensures |stream| - pos >= 4 ==>
              var n := Number(stream[pos..pos + 4]);
              Frames(stream[pos..]) ==
              if |stream| - pos - 4 < n then []
              else [stream[pos + 4..pos + 4 + n]] + Frames(stream[pos + 4 + n..])
  {
    var s := stream[pos..];
    if |s| >= 4 {
      var n := Number(s);
      assert n == Number(stream[pos..pos + 4]);
      if |s| - 4 >= n {
        assert s[4..4 + n] == stream[pos + 4..pos + 4 + n];
        assert s[4 + n..] == stream[pos + 4 + n..];
      }
    }
  }

  /** Frames read so far and frames to come make up the stream's; the handler was given the non-empty
      ones. */
  ghost predicate Progress(stream: bytes, coming: seq<bytes>, done: seq<bytes>, dispatched: seq<bytes>) {
    done + coming == Frames(stream) && dispatched == NonEmpty(done)
  }

  lemma Advance(stream: bytes, f: bytes, coming: seq<bytes>, done: seq<bytes>, dispatched: seq<bytes>)
    requires Progress(stream, [f] + coming, done, dispatched)
    ensures Progress(stream, coming, done + [f], dispatched + if f == [] then [] else [f])
  {
    NonEmptySnoc(done, f);
    assert done + ([f] + coming) == done + [f] + coming;
  }

  lemma Stop(stream: bytes, done: seq<bytes>, dispatched: seq<bytes>)
    requires Progress(stream, [], done, dispatched)
    ensures dispatched == NonEmpty(Frames(stream))
  {
    assert done + [] == done;
  }

  /** One pass of the loop: a length, and its body read into the buffer, which grows when it has to. */
  method ReadFrame(stream: bytes, pos: nat, buf: array<byte>) returns (ok: bool, data: bytes, buf': array<byte>)
    requires pos <= |stream|
    modifies buf
    ensures buf' == buf || fresh(buf')
    ensures !ok ==> Frames(stream[pos..]) == []
    ensures ok ==> pos + 4 + |data| <= |stream|
    ensures ok ==> Frames(stream[pos..]) == [data] + Frames(stream[pos + 4 + |data|..])
  {
    FramesAt(stream, pos);
    buf' := buf;
    if |stream| - pos < 4 {
      return false, [], buf';
    }
    var msgLen := Number(stream[pos..pos + 4]);
    if msgLen == 0 {
      assert stream[pos + 4..pos + 4] == [];
      return true, [], buf';
    }
    if buf'.Length < msgLen {
      buf' := new byte[msgLen];
    }
    if |stream| - (pos + 4) < msgLen {
      return false, [], buf';
    }
    ReadFull(stream, pos + 4, buf', msgLen);
    return true, buf'[..msgLen], buf';
  }

  /** The loop over a session's bytes, with its reused buffer; `dispatched` is what the message handler
      is given. */
  method ServeSession(stream: bytes, buffer: array<byte>) returns (dispatched: seq<bytes>)
    modifies buffer
    ensures dispatched == NonEmpty(Frames(stream))
  {
    dispatched := [];
    var buf := buffer;
    var pos := 0;
    ghost var done: seq<bytes> := [];
    assert stream[0..] == stream;
    while true
      invariant pos <= |stream|
      invariant buf == buffer || fresh(buf)
      invariant Progress(stream, Frames(stream[pos..]), done, dispatched)
      decreases |stream| - pos
    {
      var ok, data, grown := ReadFrame(stream, pos, buf);
      buf := grown;
      if !ok {
        Stop(stream, done, dispatched);
        return;
      }
      Advance(stream, data, Frames(stream[pos + 4 + |data|..]), done, dispatched);
      if |data| > 0 {
        dispatched := dispatched + [data];
      }
      done, pos := done + [data], pos + 4 + |data|;
    }
  }

  // ---------------------------------------------------------------------------
  // End to end
  // ---------------------------------------------------------------------------

  ghost predicate Sendable(ms: seq<Message>) {
    forall i :: 0 <= i < |ms| ==> ms[i].kind < LIMIT && |ms[i].body| + 4 < LIMIT
  }

  ghost function EncodedAll(ms: seq<Message>): (fs: seq<bytes>)
    requires Sendable(ms)
    ensures AreFrames(fs)
  {
    if ms == [] then [] else [Encoded(ms[0])] + EncodedAll(ms[1..])
  }

  ghost function DecodeAll(fs: seq<bytes>): seq<Decoded> {
    if fs == [] then [] else [Decode(fs[0])] + DecodeAll(fs[1..])
  }

  ghost function AllDecoded(ms: seq<Message>): seq<Decoded> {
    if ms == [] then [] else [Decoded(ms[0])] + AllDecoded(ms[1..])
  }

  lemma {:induction false} FramesDecode(ms: seq<Message>)
    requires Sendable(ms)
    ensures DecodeAll(NonEmpty(EncodedAll(ms))) == AllDecoded(ms)
  {
    if ms != [] {
      var f, rest := Encoded(ms[0]), NonEmpty(EncodedAll(ms[1..]));
      assert NonEmpty(EncodedAll(ms)) == [f] + rest;
      assert ([f] + rest)[1..] == rest;
      MessageRoundTrip(ms[0], []);
      FramesDecode(ms[1..]);
    }
  }

  /** What a peer sends as framed messages, even cut off in the middle of one, is dispatched and
      decoded as exactly those messages, in order. */
  lemma EndToEnd(ms: seq<Message>, tail: bytes)
    requires Sendable(ms) && Incomplete(tail)
    ensures DecodeAll(NonEmpty(Frames(Stream(EncodedAll(ms)) + tail))) == AllDecoded(ms)
  {
    StreamReads(EncodedAll(ms), tail);
    FramesDecode(ms);
  }
}
