/** A conforming client: section 9.2.5 (parsing an event stream) and section 9.2.6 (interpreting an
    event stream) of the WHATWG HTML Living Standard, against what the server prints. */
module SseClient {
  import opened Bytes
  import opened SseEvent
  import opened SseSplitter
  import opened SseWire

  datatype Message = Message(kind: bytes, data: bytes, lastId: bytes)

  /** The buffers of the client and the messages it has dispatched. */
  datatype Client = Client(data: bytes, kind: bytes, lastId: bytes, out: seq<Message>)

  const START := Client([], [], [], [])

  /** A client that connects with this last identifier. */
  function Connecting(lastId: bytes): Client {
    START.(lastId := lastId)
  }

  // ---------------------------------------------------------------------------
  // Parsing and interpreting
  // ---------------------------------------------------------------------------

  predicate IsBreak(b: byte) {
    b == CR || b == LF
  }

  /** Index of the first byte of a kind, or the length. */
  function LineEnd(s: bytes): (i: nat)
    ensures i <= |s|
    ensures i < |s| ==> IsBreak(s[i])
  {
    if s == [] || IsBreak(s[0]) then 0 else 1 + LineEnd(s[1..])
  }

  /** Lines end in CRLF, LF or CR; an unfinished last line is discarded. */
  function ParseLines(s: bytes): seq<bytes>
    decreases |s|
  {
    var i := LineEnd(s);
    if i == |s| then []
    else [s[..i]] + ParseLines(if s[i] == CR && i + 1 < |s| && s[i + 1] == LF then s[i + 2..] else s[i + 1..])
  }

  function IndexOf(l: bytes, b: byte): (i: nat)
    ensures i <= |l|
  {
    if l == [] || l[0] == b then 0 else 1 + IndexOf(l[1..], b)
  }

  function FieldName(l: bytes): bytes {
    l[..IndexOf(l, COLON)]
  }

  function FieldValue(l: bytes): bytes {
    var i := IndexOf(l, COLON);
    if i == |l| then []
    else if i + 1 < |l| && l[i + 1] == SPACE then l[i + 2..]
    else l[i + 1..]
  }

  function SetField(c: Client, name: bytes, value: bytes): Client {
    if name == DATA then c.(data := c.data + value + [LF])
    else if name == EVENT then c.(kind := value)
    else if name == ID && NUL !in value then c.(lastId := value)
    else c
  }

  function Dispatch(c: Client): Client {
    if c.data == [] then c.(kind := [])
    else
      var m := Message(if c.kind == [] then MESSAGE else c.kind, c.data[..|c.data| - 1], c.lastId);
      Client([], [], c.lastId, c.out + [m])
  }

  function ProcessLine(c: Client, l: bytes): Client {
    if l == [] then Dispatch(c)
    else if l[0] == COLON then c
    else SetField(c, FieldName(l), FieldValue(l))
  }

  function Interpret(c: Client, ls: seq<bytes>): Client
    decreases |ls|
  {
    if ls == [] then c else Interpret(ProcessLine(c, ls[0]), ls[1..])
  }

  lemma {:induction false} InterpretAppend(c: Client, xs: seq<bytes>, ys: seq<bytes>)
    ensures Interpret(c, xs + ys) == Interpret(Interpret(c, xs), ys)
    decreases |xs|
  {
    if xs == [] {
      assert xs + ys == ys;
    } else {
      assert (xs + ys)[1..] == xs[1..] + ys;
      InterpretAppend(ProcessLine(c, xs[0]), xs[1..], ys);
    }
  }

  lemma InterpretCons(c: Client, l: bytes, ls: seq<bytes>)
    ensures Interpret(c, [l] + ls) == Interpret(ProcessLine(c, l), ls)
  {
    assert ([l] + ls)[1..] == ls;
  }

  lemma InterpretOne(c: Client, l: bytes)
    ensures Interpret(c, [l]) == ProcessLine(c, l)
  {
    assert [l][1..] == [];
  }

  // ---------------------------------------------------------------------------
  // Lines survive printing
  // ---------------------------------------------------------------------------

  ghost predicate Unbroken(l: bytes) {
    CR !in l && LF !in l
  }

  lemma {:induction false} LineEndOf(l: bytes, rest: bytes)
    requires Unbroken(l)
    ensures LineEnd(l + [LF] + rest) == |l|
  {
    var s := l + [LF] + rest;
    if l != [] {
      assert s[0] == l[0];
      assert s[1..] == l[1..] + [LF] + rest;
      LineEndOf(l[1..], rest);
    }
  }

  lemma {:induction false} ParseUnlines(ls: seq<bytes>)
    requires forall i :: 0 <= i < |ls| ==> Unbroken(ls[i])
    ensures ParseLines(Unlines(ls)) == ls
  {
    if ls != [] {
      var l, rest := ls[0], Unlines(ls[1..]);
      var s := l + [LF] + rest;
      LineEndOf(l, rest);
      assert s[..|l|] == l && s[|l|] == LF && s[|l| + 1..] == rest;
      ParseUnlines(ls[1..]);
    }
  }

  lemma {:induction false} IndexOfColon(name: bytes, rest: bytes)
    requires COLON !in name
    ensures IndexOf(name + [COLON] + rest, COLON) == |name|
  {
    var l := name + [COLON] + rest;
    if name != [] {
      assert l[0] == name[0];
      assert l[1..] == name[1..] + [COLON] + rest;
      IndexOfColon(name[1..], rest);
    }
  }

  lemma FieldParts(name: bytes, value: bytes)
    requires COLON !in name && value != []
    ensures FieldName(FieldLine(name, value)) == name && FieldValue(FieldLine(name, value)) == value
  {
    var l := FieldLine(name, value);
    assert l == name + [COLON] + ([SPACE] + value);
    IndexOfColon(name, [SPACE] + value);
    assert l[..|name|] == name && l[|name| + 1] == SPACE && l[|name| + 2..] == value;
  }

  lemma FieldIs(name: bytes, value: bytes)
    requires COLON !in name
    ensures FieldName(FieldLine(name, value)) == name && FieldValue(FieldLine(name, value)) == value
  {
    if value != [] {
      FieldParts(name, value);
    } else {
      IndexOfColon(name, []);
      assert FieldLine(name, []) == name + [COLON] + [];
      assert FieldLine(name, [])[..|name|] == name;
    }
  }

  /** A line that is not blank sets the field it names; no field has the empty name of a comment. */
  lemma LineSets(c: Client, l: bytes)
    requires l != []
    ensures ProcessLine(c, l) == SetField(c, FieldName(l), FieldValue(l))
  {
  }

  /** A printed field line is read back as its field. */
  lemma FieldRoundTrip(c: Client, name: bytes, value: bytes)
    requires COLON !in name && name != []
    ensures ProcessLine(c, FieldLine(name, value)) == SetField(c, name, value)
  {
    FieldIs(name, value);
    LineSets(c, FieldLine(name, value));
  }

  // ---------------------------------------------------------------------------
  // One event
  // ---------------------------------------------------------------------------

  function Kind(name: bytes): bytes {
    if name == [] then MESSAGE else name
  }

  ghost function Delivered(e: Event): Message {
    Message(Kind(e.name), e.data, e.id)
  }

  /** What a client can read back. A comment is written without a colon, so it is read as a field: it is
      harmless when the field is none that counts, or when it repeats the event's own kind or
      identifier; data is not. An identifier with a NUL is not taken. */
  ghost predicate Intact(e: Event) {
    var field, value := FieldName(e.comment), FieldValue(e.comment);
    && field != DATA
    && (e.data != [] ==>
          && NUL !in e.id
          && (field == EVENT ==> Kind(value) == Kind(e.name))
          && (field == ID ==> value == e.id || NUL in value))
  }

  /** The last identifier after the identifier line of an event. */
  ghost function OwnId(lastId: bytes, e: Event): bytes {
    if e.data == [] || NUL in e.id then lastId else e.id
  }

  /** The last identifier after the event. */
  ghost function NextId(lastId: bytes, e: Event): bytes {
    var value := FieldValue(e.comment);
    if FieldName(e.comment) == ID && NUL !in value then value else OwnId(lastId, e)
  }

  /** What a client with this last identifier dispatches for an event. */
  ghost function Dispatches(lastId: bytes, e: Event): seq<Message> {
    var field, value, id := FieldName(e.comment), FieldValue(e.comment), NextId(lastId, e);
    if e.data == [] then if field == DATA then [Message(MESSAGE, value, id)] else []
    else if field == DATA then [Message(Kind(e.name), e.data + [LF] + value, id)]
    else [Message(Kind(if field == EVENT then value else e.name), e.data, id)]
  }

  lemma {:induction false} DataLinesFill(c: Client, ps: seq<bytes>)
    ensures Interpret(c, DataLines(ps)) == c.(data := c.data + Unlines(ps))
    decreases |ps|
  {
    if ps == [] {
      assert c.data + [] == c.data;
    } else {
      var c' := c.(data := c.data + ps[0] + [LF]);
      assert ProcessLine(c, FieldLine(DATA, ps[0])) == c' by { FieldRoundTrip(c, DATA, ps[0]); }
      InterpretCons(c, FieldLine(DATA, ps[0]), DataLines(ps[1..]));
      DataLinesFill(c', ps[1..]);
      GatherLines(c.data, ps);
    }
  }

  lemma GatherLines(d: bytes, ps: seq<bytes>)
    requires ps != []
    ensures d + ps[0] + [LF] + Unlines(ps[1..]) == d + Unlines(ps)
  {
    Gathered(d, ps[0], [LF], Unlines(ps[1..]));
  }

  lemma Gathered(a: bytes, b: bytes, c: bytes, d: bytes)
    ensures a + b + c + d == a + (b + c + d)
  {
  }

  ghost function CommentLines(e: Event): seq<bytes> {
    if e.comment == [] then [] else [e.comment]
  }

  /** The event and retry lines. */
  ghost function Middle(e: Event): seq<bytes> {
    Optional(EVENT, e.name) + Optional(RETRY, e.retry)
  }

  lemma MiddleSetsKind(c: Client, e: Event)
    ensures Interpret(c, Middle(e)) == if e.name == [] then c else c.(kind := e.name)
  {
    var c1 := if e.name == [] then c else c.(kind := e.name);
    FieldRoundTrip(c, EVENT, e.name);
    FieldRoundTrip(c1, RETRY, e.retry);
    InterpretOptional(c, EVENT, e.name);
    InterpretOptional(c1, RETRY, e.retry);
    InterpretAppend(c, Optional(EVENT, e.name), Optional(RETRY, e.retry));
  }

  lemma InterpretOptional(c: Client, name: bytes, value: bytes)
    ensures Interpret(c, Optional(name, value)) == if value == [] then c else ProcessLine(c, FieldLine(name, value))
  {
    InterpretOne(c, FieldLine(name, value));
  }

  /** The comment line and the blank line after it. */
  ghost function Closing(c: Client, comment: bytes): Client {
    Dispatch(SetField(c, FieldName(comment), FieldValue(comment)))
  }

  lemma CommentCloses(c: Client, e: Event)
    ensures Interpret(c, CommentLines(e) + [[]]) == Closing(c, e.comment)
  {
    if e.comment == [] {
      assert CommentLines(e) + [[]] == [[]];
      InterpretOne(c, []);
    } else {
      LineSets(c, e.comment);
      InterpretCons(c, e.comment, [[]]);
      InterpretOne(ProcessLine(c, e.comment), []);
    }
  }

  lemma TrailerCloses(c: Client, e: Event)
    ensures Interpret(c, Middle(e) + CommentLines(e) + [[]])
         == Closing(if e.name == [] then c else c.(kind := e.name), e.comment)
  {
    MiddleSetsKind(c, e);
    assert Middle(e) + CommentLines(e) + [[]] == Middle(e) + (CommentLines(e) + [[]]);
    InterpretAppend(c, Middle(e), CommentLines(e) + [[]]);
    CommentCloses(Interpret(c, Middle(e)), e);
  }

  lemma SplitLines(e: Event)
    requires e.data != []
    ensures EventLines(e, true) == [FieldLine(ID, e.id)] + DataLines(SplitLf(e.data)) + (Middle(e) + CommentLines(e))
  {
  }

  /** The data lines of an event with data, from any client with empty buffers. */
  lemma PayloadFills(c: Client, e: Event)
    requires e.data != [] && c.data == []
    ensures Interpret(c, [FieldLine(ID, e.id)] + DataLines(SplitLf(e.data)))
         == c.(lastId := OwnId(c.lastId, e), data := e.data + [LF])
  {
    var c1 := c.(lastId := OwnId(c.lastId, e));
    FieldRoundTrip(c, ID, e.id);
    InterpretCons(c, FieldLine(ID, e.id), DataLines(SplitLf(e.data)));
    DataLinesFill(c1, SplitLf(e.data));
    SplitPieces(e.data);
    assert [] + (e.data + [LF]) == e.data + [LF];
  }

  lemma DataCloses(lastId: bytes, c: Client, e: Event)
    requires e.data != [] && c.data == e.data + [LF] && c.lastId == OwnId(lastId, e) && c.kind == e.name
    ensures Closing(c, e.comment) == Client([], [], NextId(lastId, e), c.out + Dispatches(lastId, e))
  {
    var value := FieldValue(e.comment);
    assert (e.data + [LF] + value + [LF])[..|e.data| + 1 + |value|] == e.data + [LF] + value;
    assert (e.data + [LF])[..|e.data|] == e.data;
  }

  lemma CommentOnlyCloses(c: Client, e: Event)
    requires e.data == [] && c.data == [] && c.kind == []
    ensures Closing(c, e.comment) == Client([], [], NextId(c.lastId, e), c.out + Dispatches(c.lastId, e))
  {
    var value := FieldValue(e.comment);
    assert ([] + value + [LF])[..|value|] == value;
    assert c.out + [] == c.out;
  }

  /** What the lines of one event make a client with empty buffers dispatch. */
  lemma EventDispatches(c: Client, e: Event)
    requires c.data == [] && c.kind == []
    ensures Interpret(c, EventLines(e, true) + [[]])
         == Client([], [], NextId(c.lastId, e), c.out + Dispatches(c.lastId, e))
  {
    if e.data == [] {
      assert EventLines(e, true) == CommentLines(e);
      CommentCloses(c, e);
      CommentOnlyCloses(c, e);
    } else {
      var head, tail := [FieldLine(ID, e.id)] + DataLines(SplitLf(e.data)), Middle(e) + CommentLines(e);
      SplitLines(e);
      assert EventLines(e, true) + [[]] == head + (tail + [[]]);
      InterpretAppend(c, head, tail + [[]]);
      PayloadFills(c, e);
      var c' := c.(lastId := OwnId(c.lastId, e), data := e.data + [LF]);
      TrailerCloses(c', e);
      DataCloses(c.lastId, if e.name == [] then c' else c'.(kind := e.name), e);
    }
  }

  // ---------------------------------------------------------------------------
  // Streams of events
  // ---------------------------------------------------------------------------

  /** No line break outside the data, and no carriage return in it. */
  ghost predicate Printable(e: Event) {
    Unbroken(e.id) && Unbroken(e.name) && Unbroken(e.retry) && Unbroken(e.comment) && CR !in e.data
  }

  /** What the published events, as far as they carry data, should make a client dispatch. */
  ghost function Published(es: seq<Event>): seq<Message> {
    if es == [] then [] else (if es[0].data == [] then [] else [Delivered(es[0])]) + Published(es[1..])
  }

  /** What a client with this last identifier dispatches for a list of events. */
  ghost function Received(lastId: bytes, es: seq<Event>): seq<Message>
    decreases |es|
  {
    if es == [] then [] else Dispatches(lastId, es[0]) + Received(NextId(lastId, es[0]), es[1..])
  }

  ghost predicate AllIntact(es: seq<Event>) {
    forall e :: e in es ==> Intact(e)
  }

  lemma OneIntact(lastId: bytes, e: Event)
    requires NUL !in lastId
    ensures var want, have := if e.data == [] then [] else [Delivered(e)], Dispatches(lastId, e);
            |have| >= |want| && (have == want <==> Intact(e))
  {
    assert |e.data + [LF] + FieldValue(e.comment)| > |e.data|;
  }

  /** Messages are dispatched as published exactly when every event is intact. */
  lemma {:induction false} ReceivedIff(lastId: bytes, es: seq<Event>)
    requires NUL !in lastId
    ensures |Received(lastId, es)| >= |Published(es)|
    ensures Received(lastId, es) == Published(es) <==> AllIntact(es)
    decreases |es|
  {
    if es != [] {
      var e, rest := es[0], es[1..];
      var want, have := if e.data == [] then [] else [Delivered(e)], Dispatches(lastId, e);
      OneIntact(lastId, e);
      ReceivedIff(NextId(lastId, e), rest);
      assert AllIntact(es) <==> Intact(e) && AllIntact(rest) by { assert es == [e] + rest; }
      SameHeads(have, Received(NextId(lastId, e), rest), want, Published(rest));
    }
  }

  lemma SameHeads(have: seq<Message>, coming: seq<Message>, want: seq<Message>, wanted: seq<Message>)
    requires |have| >= |want| && |coming| >= |wanted|
    ensures have + coming == want + wanted <==> have == want && coming == wanted
  {
    if have + coming == want + wanted {
      assert have == (have + coming)[..|have|] == (want + wanted)[..|want|] == want;
      assert coming == (have + coming)[|have|..] == (want + wanted)[|want|..] == wanted;
    }
  }

  lemma UnbrokenAppend(xs: seq<bytes>, ys: seq<bytes>)
    requires forall i :: 0 <= i < |xs| ==> Unbroken(xs[i])
    requires forall i :: 0 <= i < |ys| ==> Unbroken(ys[i])
    ensures forall i :: 0 <= i < |xs + ys| ==> Unbroken((xs + ys)[i])
  {
  }

  lemma {:induction false} NoCrInPieces(s: bytes)
    requires CR !in s
    ensures forall i :: 0 <= i < |SplitLf(s)| ==> Unbroken(SplitLf(s)[i])
  {
    if s != [] {
      NoCrInPieces(s[1..]);
    }
  }

  lemma UnbrokenField(name: bytes, value: bytes)
    requires Unbroken(name) && Unbroken(value)
    ensures Unbroken(FieldLine(name, value))
  {
  }

  lemma UnbrokenData(ps: seq<bytes>)
    requires forall i :: 0 <= i < |ps| ==> Unbroken(ps[i])
    ensures forall i :: 0 <= i < |DataLines(ps)| ==> Unbroken(DataLines(ps)[i])
  {
    forall i | 0 <= i < |ps| ensures Unbroken(DataLines(ps)[i]) {
      DataLinesAt(ps, i);
      UnbrokenField(DATA, ps[i]);
    }
  }

  lemma UnbrokenTrailer(e: Event)
    requires Printable(e)
    ensures var ls := Middle(e) + CommentLines(e); forall i :: 0 <= i < |ls| ==> Unbroken(ls[i])
  {
    UnbrokenField(EVENT, e.name);
    UnbrokenField(RETRY, e.retry);
    UnbrokenAppend(Optional(EVENT, e.name), Optional(RETRY, e.retry));
    UnbrokenAppend(Middle(e), CommentLines(e));
  }

  lemma UnbrokenEvent(e: Event)
    requires Printable(e)
    ensures forall i :: 0 <= i < |EventLines(e, true)| ==> Unbroken(EventLines(e, true)[i])
  {
    if e.data != [] {
      NoCrInPieces(e.data);
      UnbrokenData(SplitLf(e.data));
      UnbrokenField(ID, e.id);
      UnbrokenTrailer(e);
      SplitLines(e);
      UnbrokenAppend([FieldLine(ID, e.id)], DataLines(SplitLf(e.data)));
      UnbrokenAppend([FieldLine(ID, e.id)] + DataLines(SplitLf(e.data)), Middle(e) + CommentLines(e));
    }
  }

  lemma {:induction false} UnbrokenAll(es: seq<Event>)
    requires forall e :: e in es ==> Printable(e)
    ensures forall i :: 0 <= i < |AllLines(Groups(es, true))| ==> Unbroken(AllLines(Groups(es, true))[i])
  {
    if es != [] {
      UnbrokenEvent(es[0]);
      UnbrokenAll(es[1..]);
      var ls, rest := EventLines(es[0], true), Groups(es[1..], true);
      UnbrokenAppend(ls, [[]]);
      UnbrokenAppend(ls + [[]], AllLines(rest));
      AllLinesCons(ls, rest);
    }
  }

  lemma AllLinesCons(g: seq<bytes>, gs: seq<seq<bytes>>)
    ensures AllLines([g] + gs) == g + [[]] + AllLines(gs)
  {
    assert ([g] + gs)[1..] == gs;
  }

  lemma {:induction false} AllDispatch(c: Client, es: seq<Event>)
    requires c.data == [] && c.kind == []
    ensures Interpret(c, AllLines(Groups(es, true))).out == c.out + Received(c.lastId, es)
    decreases |es|
  {
    if es == [] {
      assert c.out + [] == c.out;
    } else {
      var ls, rest := EventLines(es[0], true), Groups(es[1..], true);
      var c' := Client([], [], NextId(c.lastId, es[0]), c.out + Dispatches(c.lastId, es[0]));
      assert Interpret(c, ls + [[]]) == c' by { EventDispatches(c, es[0]); }
      InterpretAppend(c, ls + [[]], AllLines(rest));
      AllLinesCons(ls, rest);
      AllDispatch(c', es[1..]);
      Regrouped(c.out, Dispatches(c.lastId, es[0]), Received(NextId(c.lastId, es[0]), es[1..]));
    }
  }

  lemma Regrouped(xs: seq<Message>, ys: seq<Message>, zs: seq<Message>)
    ensures xs + ys + zs == xs + (ys + zs)
  {
  }

  /** The messages that a client dispatches on reading bytes. */
  ghost function ClientReads(lastId: bytes, s: bytes): seq<Message> {
    Interpret(Connecting(lastId), ParseLines(s)).out
  }

  lemma PrintedReads(lastId: bytes, es: seq<Event>)
    requires forall e :: e in es ==> Printable(e)
    ensures ClientReads(lastId, PrintAll(es, true)) == Received(lastId, es)
  {
    PrintAllLines(Groups(es, true));
    UnbrokenAll(es);
    ParseUnlines(AllLines(Groups(es, true)));
    AllDispatch(Connecting(lastId), es);
    assert [] + Received(lastId, es) == Received(lastId, es);
  }

  /** The round trip in split-data mode: a conforming client that reads the printed stream dispatches
      exactly the published events that carry data, in order, with their data, kind and identifier, if
      and only if every event is intact. */
  lemma RoundTripIff(lastId: bytes, es: seq<Event>)
    requires NUL !in lastId && forall e :: e in es ==> Printable(e)
    ensures ClientReads(lastId, PrintAll(es, true)) == Published(es) <==> AllIntact(es)
  {
    PrintedReads(lastId, es);
    ReceivedIff(lastId, es);
  }

  // ---------------------------------------------------------------------------
  // The reconnection time
  // ---------------------------------------------------------------------------

  /** The values of the retry fields among lines, from which a client takes its reconnection time. */
  ghost function Retries(ls: seq<bytes>): seq<bytes> {
    if ls == [] then []
    else (if FieldName(ls[0]) == RETRY then [FieldValue(ls[0])] else []) + Retries(ls[1..])
  }

  /** What events should make of it: their own retry value, where they carry data, and a comment that reads
      as a retry field. */
  ghost function RetriesOf(es: seq<Event>): seq<bytes> {
    if es == [] then [] else RetriesIn(es[0]) + RetriesOf(es[1..])
  }

  ghost function RetriesIn(e: Event): seq<bytes> {
    (if e.data == [] || e.retry == [] then [] else [e.retry])
    + (if FieldName(e.comment) == RETRY then [FieldValue(e.comment)] else [])
  }

  lemma {:induction false} RetriesAppend(xs: seq<bytes>, ys: seq<bytes>)
    ensures Retries(xs + ys) == Retries(xs) + Retries(ys)
  {
    if xs == [] {
      assert xs + ys == ys;
    } else {
      assert (xs + ys)[1..] == xs[1..] + ys;
      RetriesAppend(xs[1..], ys);
    }
  }

  lemma RetriesOne(l: bytes)
    ensures Retries([l]) == if FieldName(l) == RETRY then [FieldValue(l)] else []
  {
    assert [l][1..] == [];
  }

  lemma {:induction false} RetriesInData(ps: seq<bytes>)
    ensures Retries(DataLines(ps)) == []
  {
    if ps != [] {
      FieldIs(DATA, ps[0]);
      RetriesInData(ps[1..]);
    }
  }

  lemma RetriesInMiddle(e: Event)
    ensures Retries(Middle(e)) == if e.retry == [] then [] else [e.retry]
  {
    FieldIs(EVENT, e.name);
    FieldIs(RETRY, e.retry);
    RetriesOne(FieldLine(EVENT, e.name));
    RetriesOne(FieldLine(RETRY, e.retry));
    RetriesAppend(Optional(EVENT, e.name), Optional(RETRY, e.retry));
  }

  lemma RetriesInHead(id: bytes, ps: seq<bytes>)
    ensures Retries([FieldLine(ID, id)] + DataLines(ps)) == []
  {
    FieldIs(ID, id);
    RetriesOne(FieldLine(ID, id));
    RetriesInData(ps);
    RetriesAppend([FieldLine(ID, id)], DataLines(ps));
  }

  lemma RetriesInComment(e: Event)
    ensures Retries(CommentLines(e)) == if FieldName(e.comment) == RETRY then [FieldValue(e.comment)] else []
  {
    RetriesOne(e.comment);
  }

  lemma RetriesInLines(e: Event)
    ensures Retries(EventLines(e, true)) == RetriesIn(e)
  {
    RetriesInComment(e);
    if e.data == [] {
      assert EventLines(e, true) == CommentLines(e);
    } else {
      SplitLines(e);
      RetriesInHead(e.id, SplitLf(e.data));
      RetriesInMiddle(e);
      RetriesAppend(Middle(e), CommentLines(e));
      RetriesAppend([FieldLine(ID, e.id)] + DataLines(SplitLf(e.data)), Middle(e) + CommentLines(e));
    }
  }

  lemma RetriesInEvent(e: Event)
    ensures Retries(EventLines(e, true) + [[]]) == RetriesIn(e)
  {
    RetriesInLines(e);
    RetriesAppend(EventLines(e, true), [[]]);
    RetriesOne([]);
  }

  lemma {:induction false} RetriesInAll(es: seq<Event>)
    ensures Retries(AllLines(Groups(es, true))) == RetriesOf(es)
  {
    if es != [] {
      var ls, rest := EventLines(es[0], true), Groups(es[1..], true);
      RetriesInAll(es[1..]);
      RetriesInEvent(es[0]);
      AllLinesCons(ls, rest);
      RetriesAppend(ls + [[]], AllLines(rest));
    }
  }

  /** A client finds on the wire exactly the retry values of the events with data, in order, besides comments
      that read as such. */
  lemma RetriesArrive(es: seq<Event>)
    requires forall e :: e in es ==> Printable(e)
    ensures Retries(ParseLines(PrintAll(es, true))) == RetriesOf(es)
  {
    PrintAllLines(Groups(es, true));
    UnbrokenAll(es);
    ParseUnlines(AllLines(Groups(es, true)));
    RetriesInAll(es);
  }

  // ---------------------------------------------------------------------------
  // More published than printed
  // ---------------------------------------------------------------------------

  /** No comment is read as an identifier. */
  ghost predicate NoIdComment(es: seq<Event>) {
    forall e :: e in es ==> FieldName(e.comment) != ID
  }

  ghost predicate DistinctIds(ms: seq<Message>) {
    forall i, j :: 0 <= i < j < |ms| ==> ms[i].lastId != ms[j].lastId
  }

  ghost predicate Unused(lastId: bytes, ms: seq<Message>) {
    forall i :: 0 <= i < |ms| ==> ms[i].lastId != lastId
  }

  lemma Heads(xs: seq<Message>, ys: seq<Message>)
    ensures if xs == [] then xs + ys == ys else (xs + ys)[0] == xs[0]
  {
    assert xs == [] ==> xs + ys == ys;
  }

  /** An event without data, where no message may carry the last identifier. */
  lemma SilentStep(lastId: bytes, e: Event, coming: seq<Message>, all: seq<Message>)
    requires NUL !in lastId && FieldName(e.comment) != ID && e.data == []
    requires Unused(lastId, all) && Dispatches(lastId, e) + coming == all
    ensures Intact(e) && NextId(lastId, e) == lastId && coming == all
  {
    var have := Dispatches(lastId, e);
    OneIntact(lastId, e);
    Heads(have, coming);
  }

  lemma PayloadStep(lastId: bytes, e: Event, coming: seq<Message>, tail: seq<Message>)
    requires NUL !in lastId && FieldName(e.comment) != ID && e.data != []
    requires DistinctIds([Delivered(e)] + tail) && Dispatches(lastId, e) + coming == [Delivered(e)] + tail
    ensures Intact(e) && NextId(lastId, e) == e.id && NUL !in e.id && coming == tail
    ensures DistinctIds(tail) && Unused(e.id, tail)
  {
    var all := [Delivered(e)] + tail;
    OneIntact(lastId, e);
    assert Dispatches(lastId, e)[0] == (Dispatches(lastId, e) + coming)[0] == Delivered(e);
    assert coming == (Dispatches(lastId, e) + coming)[1..] == tail;
    assert forall i :: 0 <= i < |tail| ==> tail[i] == all[i + 1];
    assert all[0].lastId == e.id;
  }

  /** Comments that make up messages cannot stand in for published events: a client that has dispatched the
      published events and some further ones has dispatched no further ones, and read every event intact. */
  lemma {:induction false} Unshifted(lastId: bytes, es: seq<Event>, more: seq<Message>)
    requires NUL !in lastId && NoIdComment(es) && DistinctIds(Published(es) + more)
    requires es == [] || es[0].data != [] || Unused(lastId, Published(es) + more)
    requires Received(lastId, es) == Published(es) + more
    ensures AllIntact(es) && more == []
    decreases |es|
  {
    if es != [] {
      var e, rest := es[0], es[1..];
      var tail, next := Published(rest) + more, NextId(lastId, e);
      assert es == [e] + rest && e in es;
      if e.data == [] {
        assert Published(es) + more == tail;
        SilentStep(lastId, e, Received(next, rest), tail);
      } else {
        assert Published(es) + more == [Delivered(e)] + tail;
        PayloadStep(lastId, e, Received(next, rest), tail);
      }
      Unshifted(next, rest, more);
    }
  }

  lemma OnePrinted(e: Event)
    ensures PrintAll([e], true) == Print(e, true)
    ensures Published([e]) == if e.data == [] then [] else [Delivered(e)]
  {
    assert [e][1..] == [];
    assert [] + [e] == [e];
    PrintAllSnoc([], e, true);
  }

  /** One event with data arrives as published if and only if its identifier has no NUL and its comment
      is not data, and repeats the event's own kind or identifier where it is a kind or an identifier
      the client takes. */
  lemma CommentIff(e: Event)
    requires Printable(e) && e.data != []
    ensures var field, value := FieldName(e.comment), FieldValue(e.comment);
            ClientReads([], Print(e, true)) == [Delivered(e)] <==>
            && NUL !in e.id
            && field != DATA
            && (field == EVENT ==> Kind(value) == Kind(e.name))
            && (field == ID ==> value == e.id || NUL in value)
  {
    OnePrinted(e);
    RoundTripIff([], [e]);
    assert AllIntact([e]) <==> Intact(e);
  }

  /** An event with nothing but a comment dispatches nothing if and only if the comment is not data, and
      leaves a client with empty buffers as it was if and only if it is not an identifier either, unless
      one the client has or does not take. */
  lemma CommentOnlyIff(c: Client, e: Event)
    requires Printable(e) && e.data == [] && c.data == [] && c.kind == []
    ensures ClientReads([], Print(e, true)) == [] <==> FieldName(e.comment) != DATA
    ensures var field, value := FieldName(e.comment), FieldValue(e.comment);
            Interpret(c, EventLines(e, true) + [[]]) == c <==>
            field != DATA && (field == ID ==> value == c.lastId || NUL in value)
  {
    OnePrinted(e);
    RoundTripIff([], [e]);
    assert AllIntact([e]) <==> Intact(e);
    EventDispatches(c, e);
    assert c.out + [] == c.out;
  }

  /** The comment `data: x` alone makes a client dispatch a message nobody published, and with the data
      `a` it makes it dispatch two lines of data. */
  lemma CommentExamples()
    ensures var comment := FieldLine(DATA, [120]);
            && ClientReads([], Print(Event([], [], [], [], comment), true)) == [Message(MESSAGE, [120], [])]
            && ClientReads([], Print(Event([], [97], [], [], comment), true)) == [Message(MESSAGE, [97, LF, 120], [])]
  {
    var comment := FieldLine(DATA, [120]);
    assert FieldName(comment) == DATA && FieldValue(comment) == [120] by { FieldParts(DATA, [120]); }
    ExampleReads(Event([], [], [], [], comment));
    ExampleReads(Event([], [97], [], [], comment));
    assert [97] + [LF] + [120] == [97, LF, 120];
  }

  lemma ExampleReads(e: Event)
    requires Printable(e)
    ensures ClientReads([], Print(e, true)) == Dispatches([], e)
  {
    OnePrinted(e);
    PrintedReads([], [e]);
    assert [e][1..] == [];
    assert Dispatches([], e) + [] == Dispatches([], e);
  }
}
