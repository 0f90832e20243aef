/** What a conforming client makes of an event whose data is written in one piece, without split-data
    mode: the lines of the data after the first are lines of their own to the client. */
module SseWholeData {
  import opened Bytes
  import opened SseEvent
  import opened SseSplitter
  import opened SseWire
  import opened SseClient

  // ---------------------------------------------------------------------------
  // The lines a client sees
  // ---------------------------------------------------------------------------

  /** The first line of the data is written as data, unless it starts with a colon. */
  ghost function Lead(data: bytes): seq<bytes> {
    if data != [] && data[0] == COLON then [] else [SplitLf(data)[0]]
  }

  /** The lines of the data that are written as they are. */
  ghost function Later(data: bytes): seq<bytes> {
    if data != [] && data[0] == COLON then SplitLf(data) else SplitLf(data)[1..]
  }

  ghost function LeadLines(data: bytes): seq<bytes> {
    if data != [] && data[0] == COLON then [] else [DATA + [COLON, SPACE] + SplitLf(data)[0]]
  }

  ghost function RawData(data: bytes): seq<bytes> {
    LeadLines(data) + Later(data)
  }

  ghost function Trailer(e: Event): seq<bytes> {
    Middle(e) + CommentLines(e)
  }

  ghost function RawLines(e: Event): seq<bytes> {
    [FieldLine(ID, e.id)] + RawData(e.data) + Trailer(e) + [[]]
  }

  ghost function Body(data: bytes): bytes
    requires data != []
  {
    if data[0] == COLON then data else FieldLine(DATA, data)
  }

  lemma RawDataText(data: bytes)
    requires data != []
    ensures Unlines(RawData(data)) == Body(data) + [LF]
  {
    var ps := SplitLf(data);
    SplitPieces(data);
    if data[0] == COLON {
      assert [] + ps == ps;
    } else {
      var first := DATA + [COLON, SPACE] + ps[0];
      assert ([first] + ps[1..])[1..] == ps[1..];
      assert first + [LF] + Unlines(ps[1..]) == DATA + [COLON, SPACE] + (ps[0] + [LF] + Unlines(ps[1..]));
      assert DATA + [COLON, SPACE] + (data + [LF]) == FieldLine(DATA, data) + [LF];
    }
  }

  lemma RawText(e: Event)
    requires e.data != []
    ensures Print(e, false) == Unlines(RawLines(e))
  {
    var id, body, tail := FieldLine(ID, e.id), Body(e.data), Trailer(e);
    assert EventLines(e, false) == [id] + [body] + tail;
    UnlinesAppend([id] + [body], tail);
    UnlinesOne([id], body);
    RawDataText(e.data);
    UnlinesAppend([id], RawData(e.data));
    assert Unlines([id] + [body]) == Unlines([id] + RawData(e.data));
    UnlinesAppend([id] + RawData(e.data), tail);
    UnlinesOne([id] + RawData(e.data) + tail, []);
  }

  lemma UnbrokenRaw(e: Event)
    requires Printable(e)
    ensures forall i :: 0 <= i < |RawLines(e)| ==> Unbroken(RawLines(e)[i])
  {
    NoCrInPieces(e.data);
    UnbrokenField(ID, e.id);
    UnbrokenTrailer(e);
    UnbrokenAppend([FieldLine(ID, e.id)], RawData(e.data));
    UnbrokenAppend([FieldLine(ID, e.id)] + RawData(e.data), Trailer(e));
    UnbrokenAppend([FieldLine(ID, e.id)] + RawData(e.data) + Trailer(e), [[]]);
  }

  ghost predicate Arrives(e: Event) {
    ClientReads([], Print(e, false)) == [Delivered(e)]
  }

  lemma RawReads(e: Event)
    requires Printable(e) && e.data != []
    ensures ClientReads([], Print(e, false)) == Interpret(START, RawLines(e)).out
  {
    RawText(e);
    UnbrokenRaw(e);
    ParseUnlines(RawLines(e));
  }

  lemma FirstRaw(p: bytes)
    ensures var l := DATA + [COLON, SPACE] + p; FieldName(l) == DATA && FieldValue(l) == p
  {
    var l := DATA + [COLON, SPACE] + p;
    assert l == DATA + [COLON] + ([SPACE] + p);
    IndexOfColon(DATA, [SPACE] + p);
    assert l[..4] == DATA && l[6..] == p;
  }

  lemma NamedField(name: bytes, value: bytes)
    requires COLON !in name
    ensures FieldName(FieldLine(name, value)) == name
  {
    var l, rest := FieldLine(name, value), if value == [] then [] else [SPACE] + value;
    assert l == name + [COLON] + rest;
    IndexOfColon(name, rest);
    assert l[..|name|] == name;
  }

  // ---------------------------------------------------------------------------
  // Comments that are not data
  // ---------------------------------------------------------------------------

  /** What a line adds to the data buffer. */
  ghost function Adds(l: bytes): nat {
    if FieldName(l) == DATA then |FieldValue(l)| + 1 else 0
  }

  ghost function AddsAll(ls: seq<bytes>): nat {
    if ls == [] then 0 else Adds(ls[0]) + AddsAll(ls[1..])
  }

  ghost predicate AllShort(out: seq<Message>, n: nat) {
    forall i :: 0 <= i < |out| ==> |out[i].data| < n
  }

  lemma {:induction false} StaysShort(c: Client, ls: seq<bytes>, n: nat)
    requires |c.data| + AddsAll(ls) <= n && AllShort(c.out, n)
    ensures AllShort(Interpret(c, ls).out, n)
    decreases |ls|
  {
    if ls != [] {
      StaysShort(ProcessLine(c, ls[0]), ls[1..], n);
    }
  }

  lemma {:induction false} AddsAppend(xs: seq<bytes>, ys: seq<bytes>)
    ensures AddsAll(xs + ys) == AddsAll(xs) + AddsAll(ys)
  {
    if xs == [] {
      assert xs + ys == ys;
    } else {
      assert (xs + ys)[1..] == xs[1..] + ys;
      AddsAppend(xs[1..], ys);
    }
  }

  lemma ShorterValue(l: bytes)
    requires FieldName(l) == DATA
    ensures |FieldValue(l)| < |l|
  {
  }

  lemma AddsOne(l: bytes)
    ensures AddsAll([l]) == Adds(l)
  {
    assert [l][1..] == [];
  }

  lemma TrailerAddsNothing(e: Event)
    requires FieldName(e.comment) != DATA
    ensures AddsAll(Trailer(e) + [[]]) == 0
  {
    NamedField(EVENT, e.name);
    NamedField(RETRY, e.retry);
    AddsOne(FieldLine(EVENT, e.name));
    AddsOne(FieldLine(RETRY, e.retry));
    AddsOne(e.comment);
    AddsOne([]);
    AddsAppend(Optional(EVENT, e.name), Optional(RETRY, e.retry));
    AddsAppend(Middle(e), CommentLines(e));
    AddsAppend(Trailer(e), [[]]);
  }

  /** Pieces read as lines of their own add less than the bytes they were cut from. */
  lemma {:induction false} PiecesAdd(s: bytes)
    ensures AddsAll(SplitLf(s)) + |SplitLf(s)| - 1 <= |s|
    ensures AddsAll(SplitLf(s)[1..]) + |SplitLf(s)| - 1 + |SplitLf(s)[0]| <= |s|
  {
    if s == [] {
      assert SplitLf(s)[1..] == [];
      AddsOne([]);
    } else {
      var r := SplitLf(s[1..]);
      PiecesAdd(s[1..]);
      if s[0] == LF {
        assert ([[]] + r)[1..] == r;
      } else {
        var head := [s[0]] + r[0];
        assert ([head] + r[1..])[1..] == r[1..];
        if FieldName(head) == DATA {
          ShorterValue(head);
        }
      }
    }
  }

  lemma {:induction false} PiecesOfLf(s: bytes)
    ensures |SplitLf(s)| == 1 <==> LF !in s
    ensures LF !in s ==> SplitLf(s) == [s]
  {
    if s != [] {
      PiecesOfLf(s[1..]);
      assert s == [s[0]] + s[1..];
    }
  }

  lemma RawDataAdds(data: bytes)
    requires data != [] && (data[0] == COLON || LF in data)
    ensures AddsAll(RawData(data)) <= |data|
  {
    var ps := SplitLf(data);
    PiecesAdd(data);
    PiecesOfLf(data);
    if data[0] == COLON {
      assert [] + ps == ps;
    } else {
      FirstRaw(ps[0]);
      AddsOne(DATA + [COLON, SPACE] + ps[0]);
      AddsAppend(LeadLines(data), ps[1..]);
    }
  }

  lemma RawLinesAdd(e: Event)
    requires FieldName(e.comment) != DATA && e.data != [] && (e.data[0] == COLON || LF in e.data)
    ensures AddsAll(RawLines(e)) <= |e.data|
  {
    var id := FieldLine(ID, e.id);
    NamedField(ID, e.id);
    AddsOne(id);
    RawDataAdds(e.data);
    TrailerAddsNothing(e);
    AddsAppend([id], RawData(e.data));
    AddsAppend([id] + RawData(e.data), Trailer(e) + [[]]);
    assert RawLines(e) == [id] + RawData(e.data) + (Trailer(e) + [[]]);
  }

  lemma WholeLinesAgree(e: Event)
    requires e.data != [] && LF !in e.data && e.data[0] != COLON
    ensures Print(e, false) == Print(e, true)
  {
    PiecesOfLf(e.data);
    assert [e.data][1..] == [];
    assert DataLines([e.data]) == [FieldLine(DATA, e.data)];
  }

  lemma PlainCommentIff(e: Event)
    requires Printable(e) && e.data != [] && FieldName(e.comment) != DATA
    ensures Arrives(e) <==> LF !in e.data && e.data[0] != COLON && Intact(e)
  {
    if LF !in e.data && e.data[0] != COLON {
      WholeLinesAgree(e);
      CommentIff(e);
    } else {
      RawReads(e);
      RawLinesAdd(e);
      StaysShort(START, RawLines(e), |e.data|);
      assert |[Delivered(e)][0].data| == |e.data|;
    }
  }

  // ---------------------------------------------------------------------------
  // Comments that are data
  // ---------------------------------------------------------------------------

  /** The values of the data lines among these lines. */
  ghost function Values(ls: seq<bytes>): seq<bytes> {
    if ls == [] then []
    else (if FieldName(ls[0]) == DATA then [FieldValue(ls[0])] else []) + Values(ls[1..])
  }

  lemma {:induction false} ValuesAppend(xs: seq<bytes>, ys: seq<bytes>)
    ensures Values(xs + ys) == Values(xs) + Values(ys)
  {
    if xs == [] {
      assert xs + ys == ys;
    } else {
      assert (xs + ys)[1..] == xs[1..] + ys;
      ValuesAppend(xs[1..], ys);
    }
  }

  lemma ValuesOne(l: bytes)
    ensures Values([l]) == if FieldName(l) == DATA then [FieldValue(l)] else []
  {
    assert [l][1..] == [];
  }

  lemma GatherValue(d: bytes, v: bytes, vs: seq<bytes>)
    ensures d + v + [LF] + Unlines(vs) == d + Unlines([v] + vs)
  {
    assert ([v] + vs)[1..] == vs;
  }

  /** A line either makes the client dispatch, or adds its value to the data buffer if it is data. */
  lemma QuietLine(c: Client, l: bytes)
    ensures |ProcessLine(c, l).out| >= |c.out|
    ensures |ProcessLine(c, l).out| == |c.out| ==> ProcessLine(c, l).out == c.out
    ensures |ProcessLine(c, l).out| == |c.out| ==>
              ProcessLine(c, l).data == if FieldName(l) == DATA then c.data + FieldValue(l) + [LF] else c.data
  {
    if l != [] {
      LineSets(c, l);
    }
  }

  lemma ValuesCons(d: bytes, ls: seq<bytes>)
    requires ls != []
    ensures (if FieldName(ls[0]) == DATA then d + FieldValue(ls[0]) + [LF] else d) + Unlines(Values(ls[1..]))
         == d + Unlines(Values(ls))
  {
    if FieldName(ls[0]) == DATA {
      GatherValue(d, FieldValue(ls[0]), Values(ls[1..]));
    } else {
      assert Values(ls) == Values(ls[1..]);
    }
  }

  /** Lines during which nothing is dispatched fill the data buffer with the values of the data lines. */
  lemma {:induction false} Quiet(c: Client, ls: seq<bytes>)
    ensures |Interpret(c, ls).out| >= |c.out|
    ensures |Interpret(c, ls).out| == |c.out| ==>
              Interpret(c, ls).out == c.out && Interpret(c, ls).data == c.data + Unlines(Values(ls))
    decreases |ls|
  {
    if ls == [] {
      assert c.data + [] == c.data;
    } else {
      QuietLine(c, ls[0]);
      Quiet(ProcessLine(c, ls[0]), ls[1..]);
      ValuesCons(c.data, ls);
    }
  }

  /** The lines of the event up to the comment. */
  ghost function Before(e: Event): seq<bytes> {
    [FieldLine(ID, e.id)] + RawData(e.data) + Middle(e)
  }

  ghost function FinalMessage(c: Client): Message
    requires c.data != []
  {
    Message(Kind(c.kind), c.data[..|c.data| - 1], c.lastId)
  }

  /** The comment ends the lines, and as data it makes the blank line dispatch a message. */
  lemma CommentDispatches(e: Event)
    requires FieldName(e.comment) == DATA
    ensures var u := Interpret(START, Before(e));
            var t := u.(data := u.data + FieldValue(e.comment) + [LF]);
            Interpret(START, RawLines(e)).out == u.out + [FinalMessage(t)]
  {
    assert e.comment != [];
    assert RawLines(e) == Before(e) + (CommentLines(e) + [[]]);
    InterpretAppend(START, Before(e), CommentLines(e) + [[]]);
    CommentCloses(Interpret(START, Before(e)), e);
  }

  lemma MiddleValues(e: Event)
    ensures Values(Middle(e)) == []
  {
    NamedField(EVENT, e.name);
    NamedField(RETRY, e.retry);
    ValuesOne(FieldLine(EVENT, e.name));
    ValuesOne(FieldLine(RETRY, e.retry));
    ValuesAppend(Optional(EVENT, e.name), Optional(RETRY, e.retry));
  }

  lemma LeadValues(data: bytes)
    ensures Values(LeadLines(data)) == Lead(data)
  {
    FirstRaw(SplitLf(data)[0]);
    ValuesOne(DATA + [COLON, SPACE] + SplitLf(data)[0]);
  }

  lemma BeforeValues(e: Event)
    ensures Values(Before(e)) == Lead(e.data) + Values(Later(e.data))
  {
    NamedField(ID, e.id);
    ValuesOne(FieldLine(ID, e.id));
    MiddleValues(e);
    LeadValues(e.data);
    ValuesAppend([FieldLine(ID, e.id)] + RawData(e.data), Middle(e));
    ValuesAppend([FieldLine(ID, e.id)], RawData(e.data));
    ValuesAppend(LeadLines(e.data), Later(e.data));
  }

  /** Each line is the one before it, written as data once more, and `v` is the last. */
  ghost predicate Follows(line: bytes, next: seq<bytes>, v: bytes)
    decreases |next|
  {
    if next == [] then v == line
    else FieldName(next[0]) == DATA && FieldValue(next[0]) == line && Follows(next[0], next[1..], v)
  }

  /** A line that is not data, and the lines that follow it. */
  ghost predicate Chain(qs: seq<bytes>, v: bytes) {
    qs != [] && FieldName(qs[0]) != DATA && Follows(qs[0], qs[1..], v)
  }

  lemma {:induction false} FewerValues(xs: seq<bytes>)
    ensures |Values(xs)| <= |xs|
  {
    if xs != [] {
      FewerValues(xs[1..]);
    }
  }

  lemma {:induction false} FollowsIff(line: bytes, next: seq<bytes>, v: bytes)
    ensures Follows(line, next, v) <==> Values(next) + [v] == [line] + next
    decreases |next|
  {
    if next == [] {
      assert [] + [v] == [v] && [line] + [] == [line];
    } else {
      var x, xs := next[0], next[1..];
      FollowsIff(x, xs, v);
      assert next == [x] + xs;
      if FieldName(x) == DATA {
        var vs := Values(xs) + [v];
        assert Values(next) + [v] == [FieldValue(x)] + vs;
        assert ([FieldValue(x)] + vs)[1..] == vs && ([line] + next)[1..] == next;
      } else {
        FewerValues(xs);
        assert |Values(next) + [v]| < |[line] + next|;
      }
    }
  }

  lemma ChainIff(qs: seq<bytes>, v: bytes)
    ensures Chain(qs, v) <==> Values(qs) + [v] == qs
  {
    if qs != [] {
      FollowsIff(qs[0], qs[1..], v);
      assert [qs[0]] + qs[1..] == qs;
      if FieldName(qs[0]) == DATA {
        ShorterValue(qs[0]);
        assert (Values(qs) + [v])[0] == FieldValue(qs[0]);
      } else {
        assert Values(qs) == Values(qs[1..]);
      }
    }
  }

  /** The first line that is written as it is does not change the event's kind or identifier. */
  ghost predicate FirstKept(e: Event, l: bytes) {
    && l != []
    && (FieldName(l) == EVENT && e.name == [] ==> Kind(FieldValue(l)) == MESSAGE)
    && (FieldName(l) == ID ==> FieldValue(l) == e.id || NUL in FieldValue(l))
  }

  /** The comment, read as data, puts back exactly what the client lost of the data. */
  ghost predicate Echoes(e: Event) {
    NUL !in e.id && Chain(Later(e.data), FieldValue(e.comment)) && FirstKept(e, Later(e.data)[0])
  }

  lemma {:induction false} DataOnly(c: Client, line: bytes, next: seq<bytes>, v: bytes)
    requires Follows(line, next, v)
    ensures var r := Interpret(c, next); r.kind == c.kind && r.lastId == c.lastId && r.out == c.out
    decreases |next|
  {
    if next != [] {
      LineSets(c, next[0]);
      DataOnly(ProcessLine(c, next[0]), next[0], next[1..], v);
    }
  }

  /** The client after the identifier line and the first line of the data. */
  ghost function Led(e: Event): Client {
    START.(lastId := OwnId([], e), data := Unlines(Lead(e.data)))
  }

  lemma LeadReads(e: Event)
    requires e.data != []
    ensures Interpret(START, [FieldLine(ID, e.id)] + LeadLines(e.data)) == Led(e)
  {
    var c := START.(lastId := OwnId([], e));
    FieldRoundTrip(START, ID, e.id);
    InterpretCons(START, FieldLine(ID, e.id), LeadLines(e.data));
    if e.data[0] != COLON {
      LeadLineReads(c, SplitLf(e.data)[0]);
    }
  }

  lemma LeadLineReads(c: Client, p: bytes)
    requires c.data == []
    ensures Interpret(c, [DATA + [COLON, SPACE] + p]) == c.(data := Unlines([p]))
  {
    var l := DATA + [COLON, SPACE] + p;
    FirstRaw(p);
    LineSets(c, l);
    InterpretOne(c, l);
    assert [p][1..] == [];
    assert [] + p + [LF] == Unlines([p]);
  }

  lemma BeforeReads(e: Event)
    requires e.data != []
    ensures Interpret(START, Before(e)) ==
            (var c := Interpret(Led(e), Later(e.data)); if e.name == [] then c else c.(kind := e.name))
  {
    var head := [FieldLine(ID, e.id)] + LeadLines(e.data);
    assert Before(e) == head + Later(e.data) + Middle(e);
    LeadReads(e);
    InterpretAppend(START, head, Later(e.data));
    InterpretAppend(START, head + Later(e.data), Middle(e));
    MiddleSetsKind(Interpret(Led(e), Later(e.data)), e);
  }

  lemma LaterReads(c: Client, qs: seq<bytes>, v: bytes)
    requires Chain(qs, v) && qs[0] != []
    ensures var c', r := SetField(c, FieldName(qs[0]), FieldValue(qs[0])), Interpret(c, qs);
            r.kind == c'.kind && r.lastId == c'.lastId && r.out == c.out
  {
    LineSets(c, qs[0]);
    DataOnly(ProcessLine(c, qs[0]), qs[0], qs[1..], v);
  }

  /** A blank first line dispatches what came before it. */
  lemma BlankDispatches(e: Event)
    requires e.data != [] && Later(e.data) != [] && Later(e.data)[0] == []
    ensures |Interpret(START, Before(e)).out| > 0
  {
    var c, qs := Led(e), Later(e.data);
    if e.data[0] == COLON {
      SplitFirst(e.data);
    }
    BeforeReads(e);
    Quiet(ProcessLine(c, []), qs[1..]);
  }

  lemma SplitFirst(s: bytes)
    requires s != [] && s[0] != LF
    ensures SplitLf(s)[0] != []
  {
  }

  lemma UnlinesApart(xs: seq<bytes>, ys: seq<bytes>)
    requires forall i :: 0 <= i < |xs| ==> Unbroken(xs[i])
    requires forall i :: 0 <= i < |ys| ==> Unbroken(ys[i])
    requires Unlines(xs) == Unlines(ys)
    ensures xs == ys
  {
    ParseUnlines(xs);
    ParseUnlines(ys);
  }

  lemma {:induction false} UnbrokenValues(ls: seq<bytes>)
    requires forall i :: 0 <= i < |ls| ==> Unbroken(ls[i])
    ensures forall i :: 0 <= i < |Values(ls)| ==> Unbroken(Values(ls)[i])
  {
    if ls != [] {
      UnbrokenValues(ls[1..]);
      UnbrokenValue(ls[0]);
    }
  }

  lemma UnbrokenValue(l: bytes)
    requires Unbroken(l)
    ensures Unbroken(FieldValue(l))
  {
  }

  lemma LeadAndLater(data: bytes)
    ensures Lead(data) + Later(data) == SplitLf(data)
  {
  }

  /** With nothing dispatched before the comment, the data arrives exactly when the comment's value after
      the values of the later lines makes those lines. */
  lemma DataArrives(e: Event)
    requires Printable(e) && e.data != [] && FieldName(e.comment) == DATA
    requires Interpret(START, Before(e)).out == []
    ensures Interpret(START, Before(e)).data + FieldValue(e.comment) + [LF] == e.data + [LF] <==>
            Values(Later(e.data)) + [FieldValue(e.comment)] == Later(e.data)
  {
    var v, lead, qs := FieldValue(e.comment), Lead(e.data), Later(e.data);
    Quiet(START, Before(e));
    BeforeValues(e);
    assert [] + Unlines(lead + Values(qs)) == Unlines(lead + Values(qs));
    UnlinesOne(lead + Values(qs), v);
    SplitPieces(e.data);
    LeadAndLater(e.data);
    SameText(e);
  }

  lemma SameText(e: Event)
    requires Printable(e)
    ensures var v, lead, qs := FieldValue(e.comment), Lead(e.data), Later(e.data);
            Unlines(lead + Values(qs) + [v]) == Unlines(lead + qs) <==> Values(qs) + [v] == qs
  {
    var v, lead, qs := FieldValue(e.comment), Lead(e.data), Later(e.data);
    assert lead + Values(qs) + [v] == lead + (Values(qs) + [v]);
    NoCrInPieces(e.data);
    UnbrokenValue(e.comment);
    UnbrokenValues(qs);
    UnbrokenAppend(lead, Values(qs));
    UnbrokenAppend(lead + Values(qs), [v]);
    if Unlines(lead + Values(qs) + [v]) == Unlines(lead + qs) {
      UnlinesApart(lead + Values(qs) + [v], lead + qs);
      assert (lead + (Values(qs) + [v]))[|lead|..] == (lead + qs)[|lead|..];
    }
  }

  lemma OneMessage(out: seq<Message>, m: Message, d: Message)
    ensures out + [m] == [d] <==> out == [] && m == d
  {
    if out + [m] == [d] {
      assert |out + [m]| == 1;
      assert (out + [m])[0] == d;
    }
  }

  /** The parts of an arrival, at the client before the comment. */
  lemma ArrivesParts(e: Event)
    requires Printable(e) && e.data != [] && FieldName(e.comment) == DATA
    ensures var u := Interpret(START, Before(e));
            Arrives(e) <==>
            && u.out == []
            && u.data + FieldValue(e.comment) + [LF] == e.data + [LF]
            && Kind(u.kind) == Kind(e.name)
            && u.lastId == e.id
  {
    var u := Interpret(START, Before(e));
    var t := u.(data := u.data + FieldValue(e.comment) + [LF]);
    RawReads(e);
    CommentDispatches(e);
    OneMessage(u.out, FinalMessage(t), Delivered(e));
    assert t.data == t.data[..|t.data| - 1] + [LF];
    assert (e.data + [LF])[..|e.data|] == e.data;
  }

  lemma DataCommentIff(e: Event)
    requires Printable(e) && e.data != [] && FieldName(e.comment) == DATA
    ensures Arrives(e) <==> Echoes(e)
  {
    var u, v, qs := Interpret(START, Before(e)), FieldValue(e.comment), Later(e.data);
    ArrivesParts(e);
    ChainIff(qs, v);
    if u.out == [] {
      DataArrives(e);
    }
    if Chain(qs, v) {
      if qs[0] == [] {
        BlankDispatches(e);
      } else {
        BeforeReads(e);
        LaterReads(Led(e), qs, v);
      }
    }
  }

  /** Without split-data mode an event arrives as published if and only if it is intact and its data is a
      single line that does not start with a colon, or its comment reads as data and puts back exactly
      what is lost of the other lines. */
  lemma WholeDataIff(e: Event)
    requires Printable(e) && e.data != []
    ensures Arrives(e) <==>
            if FieldName(e.comment) == DATA then Echoes(e) else LF !in e.data && e.data[0] != COLON && Intact(e)
  {
    if FieldName(e.comment) == DATA {
      DataCommentIff(e);
    } else {
      PlainCommentIff(e);
    }
  }

  /** The data `:x` does not arrive, except with the comment `data: :x`. */
  lemma WholeDataExamples()
    ensures !Arrives(Event([], [COLON, 120], [], [], []))
    ensures Arrives(Event([], [COLON, 120], [], [], FieldLine(DATA, [COLON, 120])))
  {
    var data: bytes := [COLON, 120];
    WholeDataIff(Event([], data, [], [], []));
    FieldParts(DATA, data);
    var e := Event([], data, [], [], FieldLine(DATA, data));
    OneLineEchoes(e);
    WholeDataIff(e);
  }

  lemma OneLineEchoes(e: Event)
    requires e.data != [] && e.data[0] == COLON && LF !in e.data && FieldValue(e.comment) == e.data && NUL !in e.id
    ensures Echoes(e)
  {
    PiecesOfLf(e.data);
    assert [e.data][1..] == [];
  }
}
