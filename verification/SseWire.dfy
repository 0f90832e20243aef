/** Writing events to a client, and what a client makes of them by section 9.2 of the WHATWG HTML
    Living Standard. */
module SseWire {
  import opened Bytes
  import opened SseEvent
  import opened SseSplitter

  const NUL: byte := 0
  const SPACE: byte := 32
  const COLON: byte := 58

  const ID: bytes := [105, 100]
  const DATA: bytes := [100, 97, 116, 97]
  const EVENT: bytes := [101, 118, 101, 110, 116]
  const RETRY: bytes := [114, 101, 116, 114, 121]
  const MESSAGE: bytes := [109, 101, 115, 115, 97, 103, 101]

  // ---------------------------------------------------------------------------
  // Writing
  // ---------------------------------------------------------------------------

  /** One field line, without its line end. */
  function FieldLine(name: bytes, value: bytes): bytes {
    name + [COLON] + (if value == [] then [] else [SPACE] + value)
  }

  /** The pieces of a byte string between line feeds; always at least one. */
  function SplitLf(s: bytes): (r: seq<bytes>)
    ensures |r| > 0
  {
    if s == [] then [[]]
    else
      var r := SplitLf(s[1..]);
      if s[0] == LF then [[]] + r else [[s[0]] + r[0]] + r[1..]
  }

  /** Lines, each with its line feed. */
  function Unlines(ls: seq<bytes>): bytes {
    if ls == [] then [] else ls[0] + [LF] + Unlines(ls[1..])
  }

  function DataLines(pieces: seq<bytes>): (ls: seq<bytes>)
    ensures |ls| == |pieces|
  {
    if pieces == [] then [] else [FieldLine(DATA, pieces[0])] + DataLines(pieces[1..])
  }

  function Optional(name: bytes, value: bytes): seq<bytes> {
    if value == [] then [] else [FieldLine(name, value)]
  }

  /** The field lines of an event that carries data. */
  function PayloadLines(e: Event, split: bool): seq<bytes>
    requires e.data != []
  {
    [FieldLine(ID, e.id)]
    + (if split then DataLines(SplitLf(e.data))
       else if e.data[0] == COLON then [e.data]
       else [FieldLine(DATA, e.data)])
    + Optional(EVENT, e.name)
    + Optional(RETRY, e.retry)
  }

  /** The lines of one event, before the blank line. The comment is written as it is, without a colon. */
  function EventLines(e: Event, split: bool): seq<bytes> {
    (if e.data == [] then [] else PayloadLines(e, split)) + (if e.comment == [] then [] else [e.comment])
  }

  function Print(e: Event, split: bool): bytes {
    Unlines(EventLines(e, split)) + [LF]
  }

  /** The line groups of a list of events, one group an event. */
  function Groups(es: seq<Event>, split: bool): (gs: seq<seq<bytes>>)
    ensures |gs| == |es|
  {
    if es == [] then [] else [EventLines(es[0], split)] + Groups(es[1..], split)
  }

  /** Groups of lines, each followed by a blank line. */
  function PrintGroups(gs: seq<seq<bytes>>): bytes {
    if gs == [] then [] else Unlines(gs[0]) + [LF] + PrintGroups(gs[1..])
  }

  function PrintAll(es: seq<Event>, split: bool): bytes {
    PrintGroups(Groups(es, split))
  }

  /** The events that reach the client: expired ones are skipped, and the first event with neither
      data nor comment ends the response. */
  function Served(es: seq<Event>, expired: seq<bool>, from: nat): seq<Event>
    requires from <= |es| == |expired|
    decreases |es| - from
  {
    if from == |es| || (es[from].data == [] && es[from].comment == []) then []
    else (if expired[from] then [] else [es[from]]) + Served(es, expired, from + 1)
  }

  /** How many of the events before a place reach the client. */
  ghost function Kept(expired: seq<bool>, from: nat, i: nat): nat
    requires from <= i <= |expired|
  {
    if i == from then 0 else Kept(expired, from, i - 1) + if expired[i - 1] then 0 else 1
  }

  /** The response is over before this place. */
  ghost predicate Over(es: seq<Event>, from: nat, i: nat)
    requires from <= i < |es|
  {
    exists j :: from <= j <= i && es[j].data == [] && es[j].comment == []
  }

  lemma {:induction false} KeptFrom(expired: seq<bool>, from: nat, i: nat)
    requires from < i <= |expired|
    ensures Kept(expired, from, i) == Kept(expired, from + 1, i) + if expired[from] then 0 else 1
  {
    if i > from + 1 {
      KeptFrom(expired, from, i - 1);
    }
  }

  /** An event reaches the client, at the place that the unexpired events before it leave it, exactly when it
      has not expired and no event up to it has neither data nor comment. */
  lemma {:induction false} ServedAt(es: seq<Event>, expired: seq<bool>, from: nat, i: nat)
    requires from <= i < |es| == |expired|
    ensures !expired[i] && !Over(es, from, i) ==>
              var k := Kept(expired, from, i); k < |Served(es, expired, from)| && Served(es, expired, from)[k] == es[i]
    ensures Over(es, from, i) ==> |Served(es, expired, from)| <= Kept(expired, from, i)
    decreases i - from
  {
    if es[from].data != [] || es[from].comment != [] {
      if from < i {
        ServedAt(es, expired, from + 1, i);
        KeptFrom(expired, from, i);
        assert Over(es, from, i) <==> Over(es, from + 1, i);
      } else {
        assert Kept(expired, i, i) == 0;
      }
    } else {
      assert Over(es, from, i);
    }
  }

  lemma {:induction false} ServedSize(es: seq<Event>, expired: seq<bool>, from: nat)
    requires from <= |es| == |expired|
    ensures |Served(es, expired, from)| <= Kept(expired, from, |es|)
    decreases |es| - from
  {
    if from < |es| {
      ServedSize(es, expired, from + 1);
      KeptFrom(expired, from, |es|);
    }
  }

  method WriteData(out: bytes, field: bytes, data: bytes) returns (r: bytes)
    ensures field == [] ==> r == out + data + [LF]
    ensures field != [] && field[|field| - 1] != SPACE ==>
              r == out + field + (if data == [] then [] else [SPACE] + data) + [LF]
    ensures field != [] && field[|field| - 1] == SPACE ==> r == out + field + data + [LF]
  {
    r := out;
    if |field| > 0 {
      r := r + field;
      if |data| > 0 && field[|field| - 1] != SPACE {
        r := r + [SPACE];
      }
    }
    r := r + data;
    r := r + [LF];
  }

  lemma {:induction false} UnlinesAppend(xs: seq<bytes>, ys: seq<bytes>)
    ensures Unlines(xs + ys) == Unlines(xs) + Unlines(ys)
  {
    if xs == [] {
      assert xs + ys == ys;
    } else {
      assert (xs + ys)[1..] == xs[1..] + ys;
      UnlinesAppend(xs[1..], ys);
    }
  }

  lemma UnlinesOne(xs: seq<bytes>, l: bytes)
    ensures Unlines(xs + [l]) == Unlines(xs) + l + [LF]
  {
    UnlinesAppend(xs, [l]);
    assert [l][1..] == [];
    assert Unlines([l]) == l + [LF];
  }

  lemma {:induction false} PrintGroupsSnoc(gs: seq<seq<bytes>>, g: seq<bytes>)
    ensures PrintGroups(gs + [g]) == PrintGroups(gs) + Unlines(g) + [LF]
  {
    if gs == [] {
      assert gs + [g] == [g] && [g][1..] == [];
    } else {
      assert (gs + [g])[1..] == gs[1..] + [g];
      PrintGroupsSnoc(gs[1..], g);
    }
  }

  lemma {:induction false} GroupsSnoc(es: seq<Event>, e: Event, split: bool)
    ensures Groups(es + [e], split) == Groups(es, split) + [EventLines(e, split)]
  {
    if es == [] {
      assert es + [e] == [e] && [e][1..] == [];
    } else {
      assert (es + [e])[1..] == es[1..] + [e];
      GroupsSnoc(es[1..], e, split);
    }
  }

  lemma PrintAllSnoc(es: seq<Event>, e: Event, split: bool)
    ensures PrintAll(es + [e], split) == PrintAll(es, split) + Print(e, split)
  {
    GroupsSnoc(es, e, split);
    PrintGroupsSnoc(Groups(es, split), EventLines(e, split));
  }

  /** The response loop, over the events received from the connection. */
  method ServeEvents(es: seq<Event>, expired: seq<bool>, split: bool) returns (out: bytes)
    requires |es| == |expired|
    ensures out == PrintAll(Served(es, expired, 0), split)
  {
    out := [];
    ghost var done: seq<Event> := [];
    var i := 0;
    while i < |es|
      invariant 0 <= i <= |es|
      invariant out == PrintAll(done, split)
      invariant done + Served(es, expired, i) == Served(es, expired, 0)
    {
      var ev := es[i];
      if |ev.data| == 0 && |ev.comment| == 0 {
        assert done + [] == done;
        return;
      }
      if !expired[i] {
        MoveOne(done, ev, Served(es, expired, i + 1));
        out := AppendEvent(out, done, ev, split);
        done := done + [ev];
      }
      i := i + 1;
    }
    assert done + [] == done;
  }

  lemma MoveOne(done: seq<Event>, e: Event, rest: seq<Event>)
    ensures done + ([e] + rest) == done + [e] + rest
    ensures done + ([] + rest) == done + rest
  {
  }

  method AppendEvent(out: bytes, ghost done: seq<Event>, ev: Event, split: bool) returns (r: bytes)
    requires out == PrintAll(done, split)
    ensures r == PrintAll(done + [ev], split)
  {
    PrintAllSnoc(done, ev, split);
    r := WriteEvent(out, ev, split);
  }

  method WriteEvent(out: bytes, ev: Event, split: bool) returns (r: bytes)
    ensures r == out + Print(ev, split)
  {
    r := out;
    ghost var ls: seq<bytes> := [];
    if |ev.data| > 0 {
      r, ls := WritePayload(out, ev, split);
    }
    if |ev.comment| > 0 {
      UnlinesOne(ls, ev.comment);
      r := WriteData(r, [], ev.comment);
      ls := ls + [ev.comment];
    }
    assert ls == EventLines(ev, split);
    r := r + [LF];
  }

  method WritePayload(out: bytes, ev: Event, split: bool) returns (r: bytes, ghost ls: seq<bytes>)
    requires ev.data != []
    ensures ls == PayloadLines(ev, split) && r == out + Unlines(ls)
  {
    r, ls := out, [];
    r := WriteLine(r, out, ls, ID, ev.id);
    ls := [FieldLine(ID, ev.id)];
    if split {
      r, ls := WritePieces(r, out, ls, SplitLf(ev.data));
    } else if ev.data[0] == COLON {
      UnlinesOne(ls, ev.data);
      r := WriteData(r, [], ev.data);
      ls := ls + [ev.data];
    } else {
      r := WriteLine(r, out, ls, DATA, ev.data);
      ls := ls + [FieldLine(DATA, ev.data)];
    }
    r, ls := WriteOptional(r, out, ls, EVENT, ev.name);
    r, ls := WriteOptional(r, out, ls, RETRY, ev.retry);
  }

  method WritePieces(was: bytes, ghost out: bytes, ghost ls: seq<bytes>, pieces: seq<bytes>)
    returns (r: bytes, ghost ls': seq<bytes>)
    requires was == out + Unlines(ls)
    ensures ls' == ls + DataLines(pieces) && r == out + Unlines(ls')
  {
    r, ls' := was, ls;
    for i := 0 to |pieces|
      invariant ls' == ls + DataLines(pieces[..i])
      invariant r == out + Unlines(ls')
    {
      r := WriteLine(r, out, ls', DATA, pieces[i]);
      ls' := ls' + [FieldLine(DATA, pieces[i])];
      DataLinesSnoc(pieces[..i], pieces[i]);
      assert pieces[..i + 1] == pieces[..i] + [pieces[i]];
    }
    assert pieces[..|pieces|] == pieces;
  }

  lemma {:induction false} DataLinesSnoc(ps: seq<bytes>, p: bytes)
    ensures DataLines(ps + [p]) == DataLines(ps) + [FieldLine(DATA, p)]
  {
    if ps == [] {
      assert [] + [p] == [p];
    } else {
      assert (ps + [p])[1..] == ps[1..] + [p];
      DataLinesSnoc(ps[1..], p);
    }
  }

  method WriteLine(was: bytes, ghost out: bytes, ghost ls: seq<bytes>, name: bytes, value: bytes) returns (r: bytes)
    requires was == out + Unlines(ls)
    ensures r == out + Unlines(ls + [FieldLine(name, value)])
  {
    UnlinesOne(ls, FieldLine(name, value));
    r := WriteData(was, name + [COLON], value);
  }

  method WriteOptional(was: bytes, ghost out: bytes, ghost ls: seq<bytes>, name: bytes, value: bytes)
    returns (r: bytes, ghost ls': seq<bytes>)
    requires was == out + Unlines(ls)
    ensures ls' == ls + Optional(name, value) && r == out + Unlines(ls')
  {
    if |value| > 0 {
      r := WriteLine(was, out, ls, name, value);
    } else {
      r := was;
      assert ls + [] == ls;
    }
    ls' := ls + Optional(name, value);
  }

  // ---------------------------------------------------------------------------
  // One block per event
  // ---------------------------------------------------------------------------

  /** An event that is printed and whose lines are lines: no line feed in the comment, which may not be a
      lone carriage return either, nor, where they are printed, in identifier, name or retry. */
  ghost predicate Framed(e: Event) {
    && (e.data != [] || e.comment != [])
    && LF !in e.comment && e.comment != [CR]
    && (e.data != [] ==> LF !in e.id && LF !in e.name && LF !in e.retry)
  }

  ghost predicate IsLine(l: bytes) {
    l != [] && LF !in l && l != [CR]
  }

  ghost predicate AreLines(ls: seq<bytes>) {
    forall i :: 0 <= i < |ls| ==> IsLine(ls[i])
  }

  lemma {:induction false} SplitPieces(s: bytes)
    ensures forall i :: 0 <= i < |SplitLf(s)| ==> LF !in SplitLf(s)[i]
    ensures Unlines(SplitLf(s)) == s + [LF]
  {
    if s != [] {
      SplitPieces(s[1..]);
      var r := SplitLf(s[1..]);
      if s[0] == LF {
        assert ([[]] + r)[1..] == r;
        assert [] + [LF] + Unlines(r) == s + [LF];
      } else {
        var head := [s[0]] + r[0];
        assert ([head] + r[1..])[1..] == r[1..];
        assert head + [LF] + Unlines(r[1..]) == [s[0]] + (r[0] + [LF] + Unlines(r[1..]));
      }
    }
  }

  lemma FieldLineIsLine(name: bytes, value: bytes)
    requires LF !in name && LF !in value && name != []
    ensures IsLine(FieldLine(name, value))
  {
    assert FieldLine(name, value)[|name|] == COLON;
  }

  lemma {:induction false} DataLinesAt(ps: seq<bytes>, i: nat)
    requires i < |ps|
    ensures DataLines(ps)[i] == FieldLine(DATA, ps[i])
  {
    if i > 0 {
      DataLinesAt(ps[1..], i - 1);
    }
  }

  lemma DataLinesAreLines(ps: seq<bytes>)
    requires forall i :: 0 <= i < |ps| ==> LF !in ps[i]
    ensures AreLines(DataLines(ps))
  {
    forall i | 0 <= i < |ps| ensures IsLine(DataLines(ps)[i]) {
      DataLinesAt(ps, i);
      FieldLineIsLine(DATA, ps[i]);
    }
  }

  lemma LinesAppend(xs: seq<bytes>, ys: seq<bytes>)
    requires AreLines(xs) && AreLines(ys)
    ensures AreLines(xs + ys)
  {
  }

  lemma PayloadAreLines(e: Event)
    requires Framed(e) && e.data != []
    ensures AreLines(PayloadLines(e, true))
  {
    var pieces := SplitLf(e.data);
    SplitPieces(e.data);
    DataLinesAreLines(pieces);
    FieldLineIsLine(ID, e.id);
    FieldLineIsLine(EVENT, e.name);
    FieldLineIsLine(RETRY, e.retry);
    var a := [FieldLine(ID, e.id)] + DataLines(pieces);
    LinesAppend([FieldLine(ID, e.id)], DataLines(pieces));
    LinesAppend(a, Optional(EVENT, e.name));
    LinesAppend(a + Optional(EVENT, e.name), Optional(RETRY, e.retry));
  }

  lemma EventLinesAreLines(e: Event)
    requires Framed(e)
    ensures AreLines(EventLines(e, true))
    ensures EventLines(e, true) != []
  {
    if e.data != [] {
      PayloadAreLines(e);
      LinesAppend(PayloadLines(e, true), if e.comment == [] then [] else [e.comment]);
    }
  }

  lemma LfLfAfterLine(l: bytes, more: bytes, j: int)
    requires LF !in l
    ensures Occurs(l + [LF] + more, LFLF, j) <==>
            (j == |l| && more != [] && more[0] == LF) || (j > |l| && Occurs(more, LFLF, j - |l| - 1))
  {
    var s := l + [LF] + more;
    TwoBytes(s, j);
    TwoBytes(more, j - |l| - 1);
    if 0 <= j < |l| {
      assert s[j] == l[j];
    }
  }

  ghost predicate FirstOccurs(s: bytes, pat: bytes, k: int) {
    Occurs(s, pat, k) && forall j :: 0 <= j < k ==> !Occurs(s, pat, j)
  }

  lemma LfLfStep(l: bytes, more: bytes, k: int)
    requires LF !in l
    requires if k == |l| then more != [] && more[0] == LF
             else k > |l| && more != [] && more[0] != LF && FirstOccurs(more, LFLF, k - |l| - 1)
    ensures FirstOccurs(l + [LF] + more, LFLF, k)
  {
    forall j | 0 <= j <= k ensures Occurs(l + [LF] + more, LFLF, j) <==> j == k {
      LfLfAfterLine(l, more, j);
    }
  }

  /** After non-empty lines and a blank one, the first LFLF is where the blank line starts. */
  lemma {:induction false} LfLfAtEnd(ls: seq<bytes>, rest: bytes)
    requires AreLines(ls) && ls != []
    ensures |Unlines(ls)| > 0 && FirstOccurs(Unlines(ls) + [LF] + rest, LFLF, |Unlines(ls)| - 1)
  {
    var l, tail := ls[0], ls[1..];
    var more := Unlines(tail) + [LF] + rest;
    assert Unlines(ls) + [LF] + rest == l + [LF] + more;
    assert IsLine(l);
    if tail != [] {
      LfLfAtEnd(tail, rest);
      assert IsLine(ls[1]) && tail[0] == ls[1];
      assert more[0] == ls[1][0];
    }
    LfLfStep(l, more, |Unlines(ls)| - 1);
  }

  /** The bytes LF CR LF, which every CRLFCRLF contains. */
  ghost predicate LoneCr(s: bytes, i: int) {
    0 <= i && i + 3 <= |s| && s[i] == LF && s[i + 1] == CR && s[i + 2] == LF
  }

  ghost predicate StartsCrLf(s: bytes) {
    |s| >= 2 && s[0] == CR && s[1] == LF
  }

  lemma LoneCrAfterLine(l: bytes, more: bytes, i: int)
    requires LF !in l
    ensures LoneCr(l + [LF] + more, i) <==> (i == |l| && StartsCrLf(more)) || (i > |l| && LoneCr(more, i - |l| - 1))
  {
    var s := l + [LF] + more;
    if 0 <= i < |l| {
      assert s[i] == l[i];
    }
  }

  lemma StartsWithLine(m: bytes, rest: bytes)
    requires LF !in m && m != [CR]
    ensures !StartsCrLf(m + [LF] + rest)
  {
    var s := m + [LF] + rest;
    if |m| > 1 {
      assert s[1] == m[1];
    } else if |m| == 1 {
      assert s[0] == m[0];
    }
  }

  lemma {:induction false} NoLoneCr(ls: seq<bytes>, i: int)
    requires forall j :: 0 <= j < |ls| ==> LF !in ls[j] && ls[j] != [CR]
    ensures !LoneCr(Unlines(ls), i) && !StartsCrLf(Unlines(ls))
  {
    if ls != [] {
      var l, more := ls[0], Unlines(ls[1..]);
      NoLoneCr(ls[1..], i - |l| - 1);
      LoneCrAfterLine(l, more, i);
      StartsWithLine(l, more);
    }
  }

  /** A group of lines that a blank line can end. */
  ghost predicate IsGroup(g: seq<bytes>) {
    g != [] && AreLines(g)
  }

  ghost predicate AreGroups(gs: seq<seq<bytes>>) {
    forall i :: 0 <= i < |gs| ==> IsGroup(gs[i])
  }

  /** All lines of the groups, blank ones included. */
  ghost function AllLines(gs: seq<seq<bytes>>): seq<bytes> {
    if gs == [] then [] else gs[0] + [[]] + AllLines(gs[1..])
  }

  lemma {:induction false} PrintAllLines(gs: seq<seq<bytes>>)
    ensures PrintGroups(gs) == Unlines(AllLines(gs))
  {
    if gs != [] {
      PrintAllLines(gs[1..]);
      UnlinesOne(gs[0], []);
      UnlinesAppend(gs[0] + [[]], AllLines(gs[1..]));
    }
  }

  lemma {:induction false} GroupLines(gs: seq<seq<bytes>>)
    requires AreGroups(gs)
    ensures forall j :: 0 <= j < |AllLines(gs)| ==> LF !in AllLines(gs)[j] && AllLines(gs)[j] != [CR]
  {
    if gs != [] {
      GroupLines(gs[1..]);
      assert IsGroup(gs[0]);
    }
  }

  lemma NoCrlfCrlf(gs: seq<seq<bytes>>, i: int)
    requires AreGroups(gs)
    ensures !Occurs(PrintGroups(gs), CRLFCRLF, i)
  {
    PrintAllLines(gs);
    GroupLines(gs);
    FourBytes(PrintGroups(gs), i);
    NoLoneCr(AllLines(gs), i + 1);
  }

  /** A group's lines, joined by line feeds. */
  ghost function Block(g: seq<bytes>): bytes {
    var text := Unlines(g);
    if text == [] then [] else text[..|text| - 1]
  }

  ghost function BlocksOf(gs: seq<seq<bytes>>): seq<bytes> {
    if gs == [] then [] else [Block(gs[0])] + BlocksOf(gs[1..])
  }

  lemma FindBlock(gs: seq<seq<bytes>>)
    requires gs != [] && AreGroups(gs)
    ensures |Unlines(gs[0])| > 0 && Find(PrintGroups(gs)) == Separator(|Unlines(gs[0])| - 1, 2)
  {
    var s := PrintGroups(gs);
    assert IsGroup(gs[0]);
    LfLfAtEnd(gs[0], PrintGroups(gs[1..]));
    FirstUnique(s, LFLF, |Unlines(gs[0])| - 1);
    forall i | 0 <= i ensures !Occurs(s, CRLFCRLF, i) {
      NoCrlfCrlf(gs, i);
    }
    FirstNone(s, CRLFCRLF);
  }

  lemma CutBlock(text: bytes, rest: bytes)
    requires |text| > 0 && Find(text + [LF] + rest) == Separator(|text| - 1, 2)
    ensures Blocks(text + [LF] + rest) == [text[..|text| - 1]] + Blocks(rest)
  {
    var s := text + [LF] + rest;
    BlocksFound(s);
    assert s[..|text| - 1] == text[..|text| - 1] && s[|text| + 1..] == rest;
  }

  lemma {:induction false} BlocksOfPrinted(gs: seq<seq<bytes>>)
    requires AreGroups(gs)
    ensures Blocks(PrintGroups(gs)) == BlocksOf(gs)
  {
    if gs != [] {
      FindBlock(gs);
      CutBlock(Unlines(gs[0]), PrintGroups(gs[1..]));
      BlocksOfPrinted(gs[1..]);
    }
  }

  lemma {:induction false} EventsAreGroups(es: seq<Event>)
    requires forall i :: 0 <= i < |es| ==> Framed(es[i])
    ensures AreGroups(Groups(es, true))
  {
    if es != [] {
      EventLinesAreLines(es[0]);
      EventsAreGroups(es[1..]);
    }
  }

  /** However the printed stream is cut on its way, the reader yields exactly one block per event, in
      order: the event's lines, joined by line feeds. */
  lemma OneBlockPerEvent(es: seq<Event>, chunks: seq<bytes>)
    requires forall i :: 0 <= i < |es| ==> Framed(es[i])
    requires Concat(chunks) == PrintAll(es, true)
    ensures Scan([], chunks) == BlocksOf(Groups(es, true))
    ensures |BlocksOf(Groups(es, true))| == |es|
  {
    var gs := Groups(es, true);
    var s := PrintGroups(gs);
    EventsAreGroups(es);
    forall i ensures !Occurs(s, CRLFCRLF, i) {
      NoCrlfCrlf(gs, i);
    }
    OneKindUnambiguous(s);
    ChunkIndependentIff(s);
    BlocksOfPrinted(gs);
    BlockCount(gs);
  }

  lemma {:induction false} BlockCount(gs: seq<seq<bytes>>)
    ensures |BlocksOf(gs)| == |gs|
  {
    if gs != [] {
      BlockCount(gs[1..]);
    }
  }
}
