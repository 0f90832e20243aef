/** From the stream to the client: what a subscriber is sent, what the response prints of it, and what a
    conforming client reads. No event expires here. */
module SseResponse {
  import opened Bytes
  import opened SseEvent
  import opened SseWire
  import opened SseClient
  import SseHistory
  import SseStream

  /** The response ends at an event with neither data nor comment. */
  ghost predicate Blank(e: Event) {
    e.data == [] && e.comment == []
  }

  ghost function UpToBlank(es: seq<Event>): seq<Event> {
    if es == [] || Blank(es[0]) then [] else [es[0]] + UpToBlank(es[1..])
  }

  ghost function NoneExpired(n: nat): seq<bool> {
    seq(n, _ => false)
  }

  /** The events that the response to a subscriber prints. */
  ghost function Printed(sent: seq<Event>): seq<Event> {
    Served(sent, NoneExpired(|sent|), 0)
  }

  lemma {:induction false} ServedUpToBlank(es: seq<Event>, from: nat)
    requires from <= |es|
    ensures Served(es, NoneExpired(|es|), from) == UpToBlank(es[from..])
    decreases |es| - from
  {
    if from < |es| {
      ServedUpToBlank(es, from + 1);
      assert es[from..][1..] == es[from + 1..];
    }
  }

  lemma PrintedUpToBlank(sent: seq<Event>)
    ensures Printed(sent) == UpToBlank(sent)
  {
    ServedUpToBlank(sent, 0);
    assert sent[0..] == sent;
  }

  /** The printed events are the sent ones up to the first blank one, hence all of them if and only if
      none is blank. */
  lemma {:induction false} UpToBlankIff(es: seq<Event>)
    ensures UpToBlank(es) <= es
    ensures UpToBlank(es) == es <==> forall e :: e in es ==> !Blank(e)
    ensures |UpToBlank(es)| < |es| ==> Blank(es[|UpToBlank(es)|])
  {
    if es != [] {
      UpToBlankIff(es[1..]);
      assert es == [es[0]] + es[1..];
    }
  }

  // ---------------------------------------------------------------------------
  // Reconnecting
  // ---------------------------------------------------------------------------

  /** A client that reconnects with the identifier of entry k is printed the log from entry k on, up to
      the first entry with neither data nor comment: the whole of it if and only if there is none. Such
      an entry, logged for its name or retry field alone, ends every response that comes to it. */
  lemma ReplayPrinted(before: seq<SseStream.Move>, sub: SseStream.Sub, k: nat)
    requires SseStream.Runs(before) && SseStream.Enabled(SseStream.After(before), SseStream.Register(sub))
    requires var s := SseStream.After(before); k < |s.log| && s.conns[sub].lastId == s.log[k].id
    ensures var s, ms := SseStream.After(before), before + [SseStream.Register(sub)];
            && SseStream.Runs(ms) && sub in SseStream.After(ms).conns
            && (var printed := Printed(SseStream.After(ms).conns[sub].sent);
                && printed == UpToBlank(s.log[k..])
                && (printed == s.log[k..] <==> forall e :: e in s.log[k..] ==> !Blank(e)))
  {
    var s, ms, m := SseStream.After(before), before + [SseStream.Register(sub)], SseStream.Register(sub);
    assert ms[..|ms| - 1] == before;
    assert SseStream.Sorted(s.log) && s.conns[sub].sent == [] by { SseStream.NoGap(before); }
    SseStream.RegisterSends(s, m);
    SseStream.ReplayIsSuffix(s.log, s.log[k].id);
    SseStream.PositionOfEntry(s.log, k);
    PrintedUpToBlank(s.log[k..]);
    UpToBlankIff(s.log[k..]);
  }

  lemma LogOf(a: Event, b: Event, c: Event, sub: SseStream.Sub) returns (ms: seq<SseStream.Move>)
    requires a.HasContent() && b.HasContent() && c.HasContent()
    ensures SseStream.Runs(ms)
    ensures var s := SseStream.After(ms);
            && s.log == [a.(id := [1]), b.(id := [2]), c.(id := [3])]
            && SseStream.Enabled(s, SseStream.Register(sub)) && s.conns[sub].lastId == [1]
  {
    ms := [];
    SseStream.RunsOn(ms, SseStream.Publish(a, [1]));
    ms := ms + [SseStream.Publish(a, [1])];
    SseStream.RunsOn(ms, SseStream.Publish(b, [2]));
    ms := ms + [SseStream.Publish(b, [2])];
    SseStream.RunsOn(ms, SseStream.Publish(c, [3]));
    ms := ms + [SseStream.Publish(c, [3])];
    SseStream.RunsOn(ms, SseStream.Join(sub, [1]));
    ms := ms + [SseStream.Join(sub, [1])];
  }

  /** Data, an event with nothing but a name, and data: a client that comes back with the identifier of the
      first is printed that one only, and loses the last. */
  lemma BlankExample(x: Event, name: bytes, y: Event, sub: SseStream.Sub) returns (ms: seq<SseStream.Move>)
    requires x.data != [] && y.data != [] && name != []
    ensures SseStream.Runs(ms) && sub in SseStream.After(ms).conns
    ensures var s := SseStream.After(ms);
            && s.log == [x.(id := [1]), Event([2], [], name, [], []), y.(id := [3])]
            && s.conns[sub].sent == s.log && s.conns[sub].lastId == [1]
            && Printed(s.conns[sub].sent) == [x.(id := [1])]
  {
    var before := LogOf(x, Event([], [], name, [], []), y, sub);
    var s, m := SseStream.After(before), SseStream.Register(sub);
    assert s.conns[sub].sent == [] by { SseStream.NoGap(before); }
    assert SseStream.Sorted(s.log) by { SseStream.NoGap(before); }
    ms := before + [m];
    SseStream.RunsOn(before, m);
    SseStream.RegisterSends(s, m);
    SseStream.ReplayIsSuffix(s.log, s.log[0].id);
    SseStream.PositionOfEntry(s.log, 0);
    assert s.log[0..] == s.log;
    PrintedUpToBlank(s.log);
    FirstOnly(s.log);
  }

  lemma FirstOnly(es: seq<Event>)
    requires |es| > 1 && !Blank(es[0]) && Blank(es[1])
    ensures UpToBlank(es) == [es[0]]
  {
    assert es[1..][0] == es[1];
    assert UpToBlank(es[1..]) == [];
  }

  // ---------------------------------------------------------------------------
  // To the client
  // ---------------------------------------------------------------------------

  lemma {:induction false} PublishedAppend(xs: seq<Event>, ys: seq<Event>)
    ensures Published(xs + ys) == Published(xs) + Published(ys)
  {
    if xs == [] {
      assert xs + ys == ys;
    } else {
      assert (xs + ys)[1..] == xs[1..] + ys;
      PublishedAppend(xs[1..], ys);
    }
  }

  lemma PublishedOne(e: Event)
    ensures Published([e]) == if e.data == [] then [] else [Delivered(e)]
  {
    assert [e][1..] == [];
  }

  /** Events with data have content, so they are among the logged ones. */
  lemma {:induction false} PublishedContent(es: seq<Event>)
    ensures Published(SseStream.Content(es)) == Published(es)
  {
    if es != [] {
      var init, e := es[..|es| - 1], es[|es| - 1];
      PublishedContent(init);
      assert es == init + [e];
      PublishedOne(e);
      PublishedAppend(init, [e]);
      PublishedAppend(SseStream.Content(init), if e.HasContent() then [e] else []);
    }
  }

  lemma {:induction false} NothingPublishedIff(es: seq<Event>)
    ensures Published(es) == [] <==> forall e :: e in es ==> e.data == []
  {
    if es != [] {
      NothingPublishedIff(es[1..]);
      assert es == [es[0]] + es[1..];
    }
  }

  /** What the response leaves out. */
  ghost function Unprinted(sent: seq<Event>): seq<Event> {
    UpToBlankIff(sent);
    sent[|UpToBlank(sent)|..]
  }

  /** No event with data was sent after the response ended. */
  ghost predicate Lossless(sent: seq<Event>) {
    forall e :: e in Unprinted(sent) ==> e.data == []
  }

  lemma LossIff(sent: seq<Event>)
    ensures Published(UpToBlank(sent)) == Published(sent) <==> Lossless(sent)
  {
    var printed, rest := UpToBlank(sent), Unprinted(sent);
    UpToBlankIff(sent);
    assert sent == printed + rest;
    PublishedAppend(printed, rest);
    NothingPublishedIff(rest);
    assert Published(printed) == Published(printed) + Published(rest) <==> Published(rest) == [] by {
      assert |Published(printed) + Published(rest)| == |Published(printed)| + |Published(rest)|;
      assert Published(printed) + [] == Published(printed);
    }
  }

  lemma {:induction false} PublishedFrom(es: seq<Event>, i: nat)
    requires i < |Published(es)|
    ensures exists e :: e in es && e.data != [] && Published(es)[i] == Delivered(e)
  {
    var rest := es[1..];
    assert es == [es[0]] + rest;
    if es[0].data == [] {
      PublishedFrom(rest, i);
    } else if i == 0 {
      assert es[0] in es;
    } else {
      PublishedFrom(rest, i - 1);
    }
  }

  lemma UnusedId(lastId: bytes, es: seq<Event>)
    requires forall e :: e in es && e.data != [] ==> e.id != lastId
    ensures Unused(lastId, Published(es))
  {
    forall i | 0 <= i < |Published(es)| ensures Published(es)[i].lastId != lastId {
      PublishedFrom(es, i);
    }
  }

  lemma LaterIds(log: seq<Event>)
    requires SseStream.Sorted(log) && log != []
    ensures forall e :: e in log[1..] ==> e.id != log[0].id
  {
    forall e | e in log[1..] ensures e.id != log[0].id {
      var k :| 0 < k < |log| && log[k] == e;
      LessIrreflexive(e.id);
    }
  }

  lemma {:induction false} PublishedDistinct(log: seq<Event>)
    requires SseStream.Sorted(log)
    ensures DistinctIds(Published(log))
  {
    if log != [] {
      PublishedDistinct(log[1..]);
      LaterIds(log);
      UnusedId(log[0].id, log[1..]);
    }
  }

  /** The first event sent carries data, or no event with data has the client's last identifier. */
  ghost predicate Placed(lastId: bytes, sent: seq<Event>) {
    sent == [] || sent[0].data != [] || forall e :: e in sent && e.data != [] ==> e.id != lastId
  }

  lemma PrintedToClient(lastId: bytes, sent: seq<Event>)
    requires forall e :: e in sent ==> Printable(e)
    ensures ClientReads(lastId, PrintAll(Printed(sent), true)) == Received(lastId, UpToBlank(sent))
  {
    PrintedUpToBlank(sent);
    UpToBlankIff(sent);
    PrintedReads(lastId, UpToBlank(sent));
  }

  lemma SentToClient(lastId: bytes, sent: seq<Event>)
    requires NUL !in lastId && forall e :: e in sent ==> Printable(e)
    ensures var read := ClientReads(lastId, PrintAll(Printed(sent), true));
            && (Lossless(sent) ==> (read == Published(sent) <==> AllIntact(UpToBlank(sent))))
            && (AllIntact(UpToBlank(sent)) ==> (read == Published(sent) <==> Lossless(sent)))
  {
    LossIff(sent);
    PrintedToClient(lastId, sent);
    ReceivedIff(lastId, UpToBlank(sent));
  }

  lemma NothingMore(lastId: bytes, printed: seq<Event>, rest: seq<Event>)
    requires NUL !in lastId && NoIdComment(printed) && DistinctIds(Published(printed + rest))
    requires Placed(lastId, printed + rest) && Received(lastId, printed) == Published(printed + rest)
    ensures AllIntact(printed) && Published(rest) == []
  {
    PublishedAppend(printed, rest);
    if printed != [] && printed[0].data == [] {
      UnusedId(lastId, printed + rest);
    }
    Unshifted(lastId, printed, Published(rest));
  }

  lemma NothingMoreIff(lastId: bytes, printed: seq<Event>, rest: seq<Event>)
    requires NUL !in lastId && NoIdComment(printed) && DistinctIds(Published(printed + rest))
    requires Placed(lastId, printed + rest)
    ensures Received(lastId, printed) == Published(printed + rest) <==> AllIntact(printed) && Published(rest) == []
  {
    if Received(lastId, printed) == Published(printed + rest) {
      NothingMore(lastId, printed, rest);
    } else {
      PublishedAppend(printed, rest);
      ReceivedIff(lastId, printed);
      assert Published(printed) + [] == Published(printed);
    }
  }

  lemma Parts(sent: seq<Event>)
    ensures sent == UpToBlank(sent) + Unprinted(sent)
  {
    UpToBlankIff(sent);
  }

  lemma ReceivedAllIff(lastId: bytes, sent: seq<Event>)
    requires NUL !in lastId && NoIdComment(UpToBlank(sent)) && DistinctIds(Published(sent)) && Placed(lastId, sent)
    ensures Received(lastId, UpToBlank(sent)) == Published(sent) <==> AllIntact(UpToBlank(sent)) && Lossless(sent)
  {
    Parts(sent);
    NothingMoreIff(lastId, UpToBlank(sent), Unprinted(sent));
    NothingPublishedIff(Unprinted(sent));
  }

  /** Where no comment is read as an identifier, nothing makes up for what the response leaves out. */
  lemma SentToClientIff(lastId: bytes, sent: seq<Event>)
    requires NUL !in lastId && forall e :: e in sent ==> Printable(e)
    requires NoIdComment(UpToBlank(sent)) && DistinctIds(Published(sent)) && Placed(lastId, sent)
    ensures var read := ClientReads(lastId, PrintAll(Printed(sent), true));
            read == Published(sent) <==> AllIntact(UpToBlank(sent)) && Lossless(sent)
  {
    PrintedToClient(lastId, sent);
    ReceivedAllIff(lastId, sent);
  }

  ghost function CommentOnly(field: bytes, value: bytes): Event {
    Event([], [], [], [], FieldLine(field, value))
  }

  lemma PrintableComment(field: bytes, value: bytes)
    requires Unbroken(field) && Unbroken(value)
    ensures Printable(CommentOnly(field, value)) && !Blank(CommentOnly(field, value))
  {
    UnbrokenField(field, value);
  }

  lemma TwoComments(a: Event, b: Event, blank: Event, e: Event)
    requires !Blank(a) && !Blank(b) && Blank(blank)
    ensures UpToBlank([a, b, blank, e]) == [a, b] && Unprinted([a, b, blank, e]) == [blank, e]
    ensures Published([a, b, blank, e]) == Published([a, b]) + Published([e])
  {
    assert [a, b, blank, e][1..] == [b, blank, e] && [b, blank, e][1..] == [blank, e];
    assert UpToBlank([blank, e]) == [];
    assert UpToBlank([b, blank, e]) == [b];
    assert [a, b, blank, e] == [a, b] + [blank, e] && [blank, e] == [blank] + [e];
    PublishedAppend([a, b], [blank, e]);
    PublishedAppend([blank], [e]);
    PublishedOne(blank);
  }

  lemma ReadComments(x: bytes, y: bytes)
    requires x != [] && y != [] && NUL !in x
    ensures var a, b := CommentOnly(ID, x), CommentOnly(DATA, y);
            Received([], [a, b]) == [Message(MESSAGE, y, x)] && Published([a, b]) == [] && !Intact(b)
  {
    var a, b := CommentOnly(ID, x), CommentOnly(DATA, y);
    FieldParts(ID, x);
    FieldParts(DATA, y);
    assert [a, b][1..] == [b] && [b][1..] == [];
    assert Received(x, [b]) == [Message(MESSAGE, y, x)];
    NothingPublishedIff([a, b]);
    assert Dispatches([], a) == [];
  }

  /** A comment that is read as an identifier can: after the comments `id: x` and `data: y` and an event that
      ends the response, the client has dispatched just what is logged after it, data `y` under the
      identifier `x`. */
  lemma IdCommentExample(x: bytes, y: bytes, blank: Event)
    requires x != [] && y != [] && NUL !in x && Unbroken(x) && Unbroken(y) && Blank(blank)
    ensures var sent := [CommentOnly(ID, x), CommentOnly(DATA, y), blank, Event(x, y, [], [], [])];
            && ClientReads([], PrintAll(Printed(sent), true)) == Published(sent)
            && !AllIntact(UpToBlank(sent)) && !Lossless(sent)
  {
    var a, b, e := CommentOnly(ID, x), CommentOnly(DATA, y), Event(x, y, [], [], []);
    var sent := [a, b, blank, e];
    PrintableComment(ID, x);
    PrintableComment(DATA, y);
    TwoComments(a, b, blank, e);
    ReadComments(x, y);
    PublishedOne(e);
    MadeUp(sent, [a, b], b, e);
  }

  lemma MadeUp(sent: seq<Event>, printed: seq<Event>, bad: Event, lost: Event)
    requires UpToBlank(sent) == printed && Received([], printed) == Published(sent)
    requires forall e :: e in printed ==> Printable(e)
    requires bad in printed && !Intact(bad) && lost in Unprinted(sent) && lost.data != []
    ensures ClientReads([], PrintAll(Printed(sent), true)) == Published(sent)
    ensures !AllIntact(UpToBlank(sent)) && !Lossless(sent)
  {
    PrintedUpToBlank(sent);
    PrintedReads([], printed);
  }

  /** From the publisher to the client, in split-data mode: over every run, a client that reads the response
      to a registered subscriber dispatches exactly the events with data that were published from where its
      Last-Event-ID placed it, under their new identifiers and in order, when every printed event is intact
      and no event with data was sent after the response ended. Where one of the two holds, the other is
      also necessary; and both are where no printed comment is read as an identifier and nothing published
      since has the client's own. */
  lemma EndToEnd(before: seq<SseStream.Move>, sub: SseStream.Sub, ms: seq<SseStream.Move>)
    requires SseStream.Runs(ms) && before + [SseStream.Register(sub)] <= ms && sub in SseStream.After(ms).subs
    requires SseStream.Runs(before) && sub in SseStream.After(before).conns && sub in SseStream.After(ms).conns
    requires NUL !in SseStream.After(before).conns[sub].lastId
    requires forall e :: e in SseStream.After(ms).conns[sub].sent ==> Printable(e)
    ensures var sent, lastId := SseStream.After(ms).conns[sub].sent, SseStream.After(before).conns[sub].lastId;
            var past, log := SseHistory.Issued(before), SseHistory.Issued(ms);
            var p := SseStream.Position(past, lastId);
            var read := ClientReads(lastId, PrintAll(Printed(sent), true));
            && p <= |log|
            && (Lossless(sent) ==> (read == Published(log[p..]) <==> AllIntact(UpToBlank(sent))))
            && (AllIntact(UpToBlank(sent)) ==> (read == Published(log[p..]) <==> Lossless(sent)))
            && (NoIdComment(UpToBlank(sent)) && (lastId == [] || NotSince(past, log, lastId)) ==>
                  (read == Published(log[p..]) <==> AllIntact(UpToBlank(sent)) && Lossless(sent)))
  {
    var s, sent := SseStream.After(before), SseStream.After(ms).conns[sub].sent;
    var log, lastId := SseStream.After(ms).log, s.conns[sub].lastId;
    SseHistory.LogIsIssued(before);
    SseHistory.LogIsIssued(ms);
    SseStream.SentFromPosition(before, sub, ms);
    PublishedContent(sent);
    SentToClient(lastId, sent);
    if NoIdComment(UpToBlank(sent)) && (lastId == [] || NotSince(s.log, log, lastId)) {
      SentDistinct(ms, sub, SseStream.Position(s.log, lastId));
      SentPlaced(before, sub, ms);
      SentToClientIff(lastId, sent);
    }
  }

  /** No entry that the log has gained carries this identifier. */
  ghost predicate NotSince(past: seq<Event>, log: seq<Event>, lastId: bytes) {
    forall i :: |past| <= i < |log| ==> log[i].id != lastId
  }

  lemma SentDistinct(ms: seq<SseStream.Move>, sub: SseStream.Sub, p: nat)
    requires SseStream.Runs(ms) && sub in SseStream.After(ms).conns
    requires var s := SseStream.After(ms); p <= |s.log| && SseStream.Content(s.conns[sub].sent) == s.log[p..]
    ensures DistinctIds(Published(SseStream.After(ms).conns[sub].sent))
  {
    var s := SseStream.After(ms);
    SseStream.NoGap(ms);
    PublishedContent(s.conns[sub].sent);
    assert SseStream.Sorted(s.log[p..]);
    PublishedDistinct(s.log[p..]);
  }

  lemma {:induction false} InContent(es: seq<Event>, e: Event)
    requires e in es && e.data != []
    ensures e in SseStream.Content(es)
  {
    var init, last := es[..|es| - 1], es[|es| - 1];
    assert es == init + [last];
    if e in init {
      InContent(init, e);
    }
  }

  /** An entry with the client's identifier is the first of its replay. */
  lemma ReplayBegins(log: seq<Event>, k: nat)
    requires SseStream.Sorted(log) && k < |log|
    ensures var r := SseStream.Replay(log, log[k].id); r != [] && r[0] == log[k]
  {
    SseStream.ReplayIsSuffix(log, log[k].id);
    SseStream.PositionOfEntry(log, k);
  }

  lemma SentPlaced(before: seq<SseStream.Move>, sub: SseStream.Sub, ms: seq<SseStream.Move>)
    requires SseStream.Runs(ms) && before + [SseStream.Register(sub)] <= ms && sub in SseStream.After(ms).subs
    requires SseStream.Runs(before) && sub in SseStream.After(before).conns && sub in SseStream.After(ms).conns
    requires var s, lastId := SseStream.After(before), SseStream.After(before).conns[sub].lastId;
             lastId == [] || NotSince(s.log, SseStream.After(ms).log, lastId)
    ensures Placed(SseStream.After(before).conns[sub].lastId, SseStream.After(ms).conns[sub].sent)
  {
    var s, sent := SseStream.After(before), SseStream.After(ms).conns[sub].sent;
    var log, lastId := SseStream.After(ms).log, s.conns[sub].lastId;
    SseStream.SentFromPosition(before, sub, ms);
    SseStream.SentBegins(before, sub, ms);
    assert SseStream.Sorted(s.log) by { SseStream.NoGap(before); }
    assert SseStream.Sorted(log) by { SseStream.NoGap(ms); }
    if e :| e in sent && e.data != [] && e.id == lastId {
      InContent(sent, e);
      assert lastId != [] by { SseStream.IdsGiven(ms); }
      var k :| 0 <= k < |log| && log[k] == e;
      assert k < |s.log| && s.log[k] == e;
      ReplayBegins(s.log, k);
      assert sent[0] == e;
    }
  }
}
