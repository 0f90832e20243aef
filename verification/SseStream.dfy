/** The event loop of one stream with replay: subscribers register and deregister, events are logged
    and broadcast, and the stream is closed. A subscriber is named by a number that stands for its
    pointer; a connection is the sequence of events sent to it so far, how often it was closed, and how
    often its `removed` channel was signalled and closed. */
module SseStream {
  import opened Bytes
  import opened SseEvent

  type Sub = nat

  /** The replay filter: what a subscriber with this Last-Event-ID is sent of the log. */
  function Replay(log: seq<Event>, lastId: bytes): seq<Event> {
    if log == [] then []
    else
      var rest := Replay(log[..|log| - 1], lastId);
      if Less(log[|log| - 1].id, lastId) then rest else rest + [log[|log| - 1]]
  }

  datatype Conn = Conn(lastId: bytes, sent: seq<Event>, closes: nat, signals: nat)

  datatype Stream = Stream(
    subs: seq<Sub>,          // registered, in order
    conns: map<Sub, Conn>,   // every subscriber ever created
    pending: set<Sub>,       // created, not yet taken from the register channel
    log: seq<Event>,
    count: int,
    quit: bool,
    panicked: bool)          // a send on, or a second close of, a closed channel

  datatype Move =
    | Join(sub: Sub, lastId: bytes)
    | Register(sub: Sub)
    | Deregister(sub: Sub)
    | Publish(event: Event, newId: bytes)
    | Quit

  const EMPTY := Stream([], map[], {}, [], 0, false, false)

  // ---------------------------------------------------------------------------
  // Specification of one step
  // ---------------------------------------------------------------------------

  /** What the environment can do: new subscribers are new, the loop takes only pending
      registrations, identifiers are generated in increasing order, and a finished loop is finished. */
  ghost predicate Enabled(s: Stream, m: Move) {
    match m
    case Join(sub, _) => sub !in s.conns
    case Register(sub) => !s.quit && sub in s.pending && sub in s.conns
    case Deregister(sub) => !s.quit
    case Publish(_, newId) => !s.quit && newId != [] && forall e :: e in s.log ==> Less(e.id, newId)
    case Quit => !s.quit
  }

  ghost function SendAll(conns: map<Sub, Conn>, subs: seq<Sub>, es: seq<Event>): (r: map<Sub, Conn>)
    ensures r.Keys == conns.Keys
  {
    map x | x in conns :: if x in subs then conns[x].(sent := conns[x].sent + es) else conns[x]
  }

  /** Closing the connection, and signalling and closing the `removed` channel. */
  function Closed(c: Conn): Conn {
    c.(closes := c.closes + 1, signals := c.signals + 1)
  }

  ghost function CloseAll(conns: map<Sub, Conn>, subs: seq<Sub>): (r: map<Sub, Conn>)
    ensures r.Keys == conns.Keys
  {
    map x | x in conns :: if x in subs then Closed(conns[x]) else conns[x]
  }

  /** Some of these connections are closed, so sending to all of them panics. */
  ghost predicate SomeClosed(conns: map<Sub, Conn>, subs: seq<Sub>) {
    exists x :: x in subs && x in conns && conns[x].closes > 0
  }

  /** Some of these subscribers have been removed, so removing all of them panics. */
  ghost predicate SomeRemoved(conns: map<Sub, Conn>, subs: seq<Sub>) {
    exists x :: x in subs && x in conns && (conns[x].closes > 0 || conns[x].signals > 0)
  }

  ghost function Without(subs: seq<Sub>, sub: Sub): (r: seq<Sub>)
  {
    if subs == [] then [] else if subs[0] == sub then subs[1..] else [subs[0]] + Without(subs[1..], sub)
  }

  ghost function Logged(s: Stream, e: Event, newId: bytes): Event {
    if e.HasContent() then e.(id := newId) else e
  }

  ghost function Apply(s: Stream, m: Move): Stream
    requires Enabled(s, m)
  {
    match m
    case Join(sub, lastId) =>
      s.(conns := s.conns[sub := Conn(lastId, [], 0, 0)], pending := s.pending + {sub}, count := s.count + 1)
    case Register(sub) =>
      var replay := Replay(s.log, s.conns[sub].lastId);
      s.(subs := s.subs + [sub], pending := s.pending - {sub},
         conns := SendAll(s.conns, [sub], replay),
         panicked := s.panicked || (replay != [] && SomeClosed(s.conns, [sub])))
    case Deregister(sub) =>
      if sub !in s.subs then s
      else s.(subs := Without(s.subs, sub), count := s.count - 1, conns := CloseAll(s.conns, [sub]),
              panicked := s.panicked || SomeRemoved(s.conns, [sub]))
    case Publish(e, newId) =>
      var e' := Logged(s, e, newId);
      s.(log := if e.HasContent() then s.log + [e'] else s.log,
         conns := SendAll(s.conns, s.subs, [e']),
         panicked := s.panicked || SomeClosed(s.conns, s.subs))
    case Quit =>
      s.(subs := [], count := 0, quit := true, conns := CloseAll(s.conns, s.subs),
         panicked := s.panicked || SomeRemoved(s.conns, s.subs))
  }

  // ---------------------------------------------------------------------------
  // Runs
  // ---------------------------------------------------------------------------

  ghost predicate Runs(ms: seq<Move>)
    decreases |ms|, 0
  {
    ms == [] || (Runs(ms[..|ms| - 1]) && Enabled(After(ms[..|ms| - 1]), ms[|ms| - 1]))
  }

  ghost function After(ms: seq<Move>): Stream
    requires Runs(ms)
    decreases |ms|, 1
  {
    if ms == [] then EMPTY else Apply(After(ms[..|ms| - 1]), ms[|ms| - 1])
  }

  lemma RunsOn(ms: seq<Move>, m: Move)
    requires Runs(ms) && Enabled(After(ms), m)
    ensures Runs(ms + [m]) && After(ms + [m]) == Apply(After(ms), m)
  {
    assert (ms + [m])[..|ms|] == ms;
  }

  // ---------------------------------------------------------------------------
  // Subscriber lifecycle
  // ---------------------------------------------------------------------------

  ghost predicate Distinct(subs: seq<Sub>) {
    forall i, j :: 0 <= i < j < |subs| ==> subs[i] != subs[j]
  }

  /** A connection is open exactly while its subscriber is pending or registered; when it is closed its
      subscriber has been signalled. */
  ghost predicate Live(s: Stream) {
    && (forall x :: x in s.subs ==> x in s.conns)
    && (forall x :: x in s.pending ==> x in s.conns)
    && (forall x :: x in s.pending ==> x !in s.subs)
    && (forall x :: x in s.conns ==>
          s.conns[x].signals == s.conns[x].closes == if x in s.subs || x in s.pending then 0 else 1)
  }

  ghost predicate Counted(s: Stream) {
    if s.quit then s.subs == [] else s.count == |s.subs| + |s.pending|
  }

  ghost predicate Lifecycle(s: Stream) {
    Distinct(s.subs) && Live(s) && Counted(s) && !s.panicked
  }

  lemma {:induction false} WithoutMembers(subs: seq<Sub>, sub: Sub)
    requires Distinct(subs)
    ensures Distinct(Without(subs, sub))
    ensures forall x :: x in Without(subs, sub) <==> x in subs && x != sub
    ensures |Without(subs, sub)| == |subs| - (if sub in subs then 1 else 0)
  {
    if subs != [] {
      assert Distinct(subs[1..]);
      WithoutMembers(subs[1..], sub);
      assert subs == [subs[0]] + subs[1..];
      assert subs[0] !in subs[1..];
    }
  }

  lemma JoinKeeps(s: Stream, m: Move)
    requires Lifecycle(s) && m.Join? && Enabled(s, m)
    ensures Lifecycle(Apply(s, m))
  {
    assert m.sub !in s.pending && m.sub !in s.subs;
  }

  lemma RegisterKeeps(s: Stream, m: Move)
    requires Lifecycle(s) && m.Register? && Enabled(s, m)
    ensures Lifecycle(Apply(s, m))
  {
    var s' := Apply(s, m);
    assert forall x :: x in s'.subs <==> x in s.subs || x == m.sub;
    assert |s.pending - {m.sub}| == |s.pending| - 1;
  }

  lemma DeregisterKeeps(s: Stream, m: Move)
    requires Lifecycle(s) && m.Deregister? && Enabled(s, m)
    ensures Lifecycle(Apply(s, m))
  {
    WithoutMembers(s.subs, m.sub);
  }

  /** Every step keeps the lifecycle invariant; in particular no step panics. */
  lemma StepKeepsLifecycle(s: Stream, m: Move)
    requires Lifecycle(s) && Enabled(s, m)
    ensures Lifecycle(Apply(s, m))
  {
    match m
    case Join(_, _) => JoinKeeps(s, m);
    case Register(_) => RegisterKeeps(s, m);
    case Deregister(_) => DeregisterKeeps(s, m);
    case Publish(_, _) =>
    case Quit =>
  }

  /** In every reachable state the registered subscribers are distinct with open connections, every
      connection has been closed at most once, nothing was sent to a closed one, and until the stream
      quits the count is the registered plus the pending subscribers. */
  lemma {:induction false} LifecycleHolds(ms: seq<Move>)
    requires Runs(ms)
    ensures Lifecycle(After(ms))
    decreases |ms|
  {
    if ms != [] {
      LifecycleHolds(ms[..|ms| - 1]);
      StepKeepsLifecycle(After(ms[..|ms| - 1]), ms[|ms| - 1]);
    }
  }

  // ---------------------------------------------------------------------------
  // Replay
  // ---------------------------------------------------------------------------

  ghost predicate Sorted(log: seq<Event>) {
    forall i, j :: 0 <= i < j < |log| ==> Less(log[i].id, log[j].id)
  }

  /** How many log entries come before an identifier. */
  ghost function Position(log: seq<Event>, id: bytes): nat {
    if log == [] then 0
    else Position(log[..|log| - 1], id) + if Less(log[|log| - 1].id, id) then 1 else 0
  }

  /** On a sorted log the filter is a suffix. */
  lemma {:induction false} ReplayIsSuffix(log: seq<Event>, id: bytes)
    requires Sorted(log)
    ensures Position(log, id) <= |log|
    ensures Replay(log, id) == log[Position(log, id)..]
    ensures Position(log, id) < |log| ==> !Less(log[|log| - 1].id, id)
  {
    if log != [] {
      var init, last := log[..|log| - 1], log[|log| - 1];
      var p := Position(init, id);
      assert Sorted(init);
      ReplayIsSuffix(init, id);
      if Less(last.id, id) {
        if p < |init| {
          LessTransitive(init[|init| - 1].id, last.id, id);
        }
        assert p == |init|;
      } else {
        assert log[p..] == init[p..] + [last];
      }
    }
  }

  lemma {:induction false} PositionOfEntry(log: seq<Event>, k: nat)
    requires Sorted(log) && k < |log|
    ensures Position(log, log[k].id) == k
  {
    var init, last := log[..|log| - 1], log[|log| - 1];
    if k == |log| - 1 {
      LessIrreflexive(last.id);
      PositionOfAll(init, last.id);
    } else {
      PositionOfEntry(init, k);
      if Less(last.id, log[k].id) {
        LessTransitive(log[k].id, last.id, log[k].id);
        LessIrreflexive(log[k].id);
      }
    }
  }

  lemma {:induction false} PositionOfAll(log: seq<Event>, id: bytes)
    requires forall i :: 0 <= i < |log| ==> Less(log[i].id, id)
    ensures Position(log, id) == |log|
  {
    if log != [] {
      PositionOfAll(log[..|log| - 1], id);
    }
  }

  lemma {:induction false} PositionOfEmptyId(log: seq<Event>)
    ensures Position(log, []) == 0
  {
    if log != [] {
      PositionOfEmptyId(log[..|log| - 1]);
    }
  }

  /** The events that carry content, which are those that get logged. */
  ghost function Content(es: seq<Event>): seq<Event> {
    if es == [] then []
    else Content(es[..|es| - 1]) + if es[|es| - 1].HasContent() then [es[|es| - 1]] else []
  }

  lemma {:induction false} ContentOfAll(es: seq<Event>)
    requires forall i :: 0 <= i < |es| ==> es[i].HasContent()
    ensures Content(es) == es
  {
    if es != [] {
      ContentOfAll(es[..|es| - 1]);
    }
  }

  lemma ContentSnoc(es: seq<Event>, e: Event)
    ensures Content(es + [e]) == Content(es) + if e.HasContent() then [e] else []
  {
    assert (es + [e])[..|es|] == es;
  }

  /** Where in the log each subscriber of a run was started. */
  ghost function Starts(ms: seq<Move>): map<Sub, nat>
    requires Runs(ms)
    decreases |ms|
  {
    if ms == [] then map[]
    else
      var s, m := After(ms[..|ms| - 1]), ms[|ms| - 1];
      var starts := Starts(ms[..|ms| - 1]);
      if m.Register? then starts[m.sub := Position(s.log, s.conns[m.sub].lastId)] else starts
  }

  ghost predicate LogOrdered(s: Stream) {
    Sorted(s.log) && forall i :: 0 <= i < |s.log| ==> s.log[i].HasContent()
  }

  /** Every registered subscriber has been sent the log from its start, and a pending one nothing. */
  ghost predicate Served(s: Stream, starts: map<Sub, nat>) {
    && (forall x :: x in s.subs ==>
          x in s.conns && x in starts && starts[x] <= |s.log| && Content(s.conns[x].sent) == s.log[starts[x]..])
    && (forall x :: x in s.pending ==> x in s.conns && s.conns[x].sent == [])
  }

  lemma PublishKeepsServed(s: Stream, m: Move, starts: map<Sub, nat>)
    requires Served(s, starts) && m.Publish? && Enabled(s, m) && Live(s)
    ensures Served(Apply(s, m), starts)
  {
    var s' := Apply(s, m);
    var e' := Logged(s, m.event, m.newId);
    forall x | x in s'.subs
      ensures starts[x] <= |s'.log| && Content(s'.conns[x].sent) == s'.log[starts[x]..]
    {
      ContentSnoc(s.conns[x].sent, e');
    }
  }

  lemma ReplayedContent(log: seq<Event>, id: bytes)
    requires Sorted(log) && forall i :: 0 <= i < |log| ==> log[i].HasContent()
    ensures Position(log, id) <= |log| && Content(Replay(log, id)) == log[Position(log, id)..]
  {
    ReplayIsSuffix(log, id);
    ContentOfAll(Replay(log, id));
  }

  lemma RegisterSends(s: Stream, m: Move)
    requires m.Register? && Enabled(s, m) && s.conns[m.sub].sent == []
    ensures Apply(s, m).conns.Keys == s.conns.Keys
    ensures Apply(s, m).conns[m.sub].sent == Replay(s.log, s.conns[m.sub].lastId)
    ensures forall x :: x in s.conns && x != m.sub ==> Apply(s, m).conns[x] == s.conns[x]
  {
    var replay := Replay(s.log, s.conns[m.sub].lastId);
    assert [] + replay == replay;
  }

  lemma RegisterKeepsServed(s: Stream, m: Move, starts: map<Sub, nat>)
    requires Served(s, starts) && m.Register? && Enabled(s, m) && LogOrdered(s)
    ensures Served(Apply(s, m), starts[m.sub := Position(s.log, s.conns[m.sub].lastId)])
  {
    ReplayedContent(s.log, s.conns[m.sub].lastId);
    RegisterSends(s, m);
  }

  lemma DeregisterKeepsServed(s: Stream, m: Move, starts: map<Sub, nat>)
    requires Served(s, starts) && m.Deregister? && Enabled(s, m) && Lifecycle(s)
    ensures Served(Apply(s, m), starts)
  {
    WithoutMembers(s.subs, m.sub);
  }

  lemma StepKeepsOrder(s: Stream, m: Move)
    requires LogOrdered(s) && Enabled(s, m)
    ensures LogOrdered(Apply(s, m))
  {
  }

  /** No gap: over every run, every registered subscriber has been sent, in order and once each, the
      logged events from where its Last-Event-ID places it to the end of the log as it is now. */
  lemma {:induction false} NoGap(ms: seq<Move>)
    requires Runs(ms)
    ensures LogOrdered(After(ms)) && Served(After(ms), Starts(ms))
    decreases |ms|
  {
    if ms != [] {
      var init, m := ms[..|ms| - 1], ms[|ms| - 1];
      var s, starts := After(init), Starts(init);
      NoGap(init);
      LifecycleHolds(init);
      StepKeepsOrder(s, m);
      match m
      case Join(_, _) =>
      case Register(_) => RegisterKeepsServed(s, m, starts);
      case Deregister(_) => DeregisterKeepsServed(s, m, starts);
      case Publish(_, _) => PublishKeepsServed(s, m, starts);
      case Quit =>
    }
  }

  lemma StepStands(s: Stream, m: Move, sub: Sub)
    requires Enabled(s, m) && sub in s.conns && sub !in s.pending
    ensures m != Register(sub)
    ensures var s' := Apply(s, m); sub in s'.conns && sub !in s'.pending && s.log <= s'.log
  {
  }

  lemma RegisterStarts(s: Stream, sub: Sub)
    requires Enabled(s, Register(sub))
    ensures var s' := Apply(s, Register(sub)); sub in s'.conns && sub !in s'.pending && s.log <= s'.log
  {
  }

  /** A subscriber starts once, and the log only grows. */
  lemma {:induction false} StartStands(before: seq<Move>, sub: Sub, ms: seq<Move>)
    requires Runs(ms) && before + [Register(sub)] <= ms
    ensures Runs(before) && sub in After(before).conns && sub in Starts(ms)
    ensures Starts(ms)[sub] == Position(After(before).log, After(before).conns[sub].lastId)
    ensures After(before).log <= After(ms).log
    ensures sub in After(ms).conns && sub !in After(ms).pending
    decreases |ms|
  {
    var init, m := ms[..|ms| - 1], ms[|ms| - 1];
    if |ms| == |before| + 1 {
      assert ms == before + [Register(sub)];
      assert init == before;
      RegisterStarts(After(before), sub);
    } else {
      assert before + [Register(sub)] <= init;
      StartStands(before, sub, init);
      StepStands(After(init), m, sub);
    }
  }

  lemma StepExtends(s: Stream, m: Move, sub: Sub)
    requires Enabled(s, m) && sub in s.conns && sub !in s.pending
    ensures sub in Apply(s, m).conns && s.conns[sub].sent <= Apply(s, m).conns[sub].sent
  {
    if m.Register? {
      assert sub !in [m.sub];
    }
  }

  /** What a subscriber is sent begins with its replay. */
  lemma {:induction false} SentBegins(before: seq<Move>, sub: Sub, ms: seq<Move>)
    requires Runs(ms) && before + [Register(sub)] <= ms
    ensures Runs(before) && sub in After(before).conns && sub in After(ms).conns
    ensures Replay(After(before).log, After(before).conns[sub].lastId) <= After(ms).conns[sub].sent
    decreases |ms|
  {
    StartStands(before, sub, ms);
    var init, m := ms[..|ms| - 1], ms[|ms| - 1];
    if |ms| == |before| + 1 {
      assert ms == before + [Register(sub)];
      assert init == before;
      NoGap(before);
      RegisterSends(After(before), m);
    } else {
      assert before + [Register(sub)] <= init;
      SentBegins(before, sub, init);
      StartStands(before, sub, init);
      StepExtends(After(init), m, sub);
    }
  }

  /** Logged events have identifiers. */
  lemma {:induction false} IdsGiven(ms: seq<Move>)
    requires Runs(ms)
    ensures forall e :: e in After(ms).log ==> e.id != []
    decreases |ms|
  {
    if ms != [] {
      IdsGiven(ms[..|ms| - 1]);
    }
  }

  /** The logged events a subscriber has been sent. */
  ghost function Got(s: Stream, sub: Sub): seq<Event> {
    if sub in s.conns then Content(s.conns[sub].sent) else []
  }

  /** A registered subscriber has been sent the log from the place its identifier had when it
      registered. */
  lemma SentFromPosition(before: seq<Move>, sub: Sub, ms: seq<Move>)
    requires Runs(ms) && before + [Register(sub)] <= ms && sub in After(ms).subs
    requires Runs(before) && sub in After(before).conns
    ensures var log, p := After(ms).log, Position(After(before).log, After(before).conns[sub].lastId);
            After(before).log <= log && p <= |log| && Got(After(ms), sub) == log[p..]
  {
    StartStands(before, sub, ms);
    NoGap(ms);
  }

  /** The subscriber has been sent a piece of the log that begins at `start`. */
  ghost predicate SentPiece(s: Stream, x: Sub, start: nat) {
    x in s.conns && x !in s.pending && start <= |s.log| && Content(s.conns[x].sent) <= s.log[start..]
  }

  /** Every subscriber that was ever registered, also one that is gone, has been sent a piece of the log
      that begins at its start. */
  ghost predicate SentPieces(s: Stream, starts: map<Sub, nat>) {
    forall x :: x in starts ==> SentPiece(s, x, starts[x])
  }

  lemma PieceStands(log: seq<Event>, log': seq<Event>, start: nat, sent: seq<Event>)
    requires log <= log' && start <= |log| && sent <= log[start..]
    ensures sent <= log'[start..]
  {
  }

  lemma ConnStands(s: Stream, m: Move, x: Sub)
    requires Enabled(s, m) && x in s.conns && x !in s.pending && !(m.Publish? && x in s.subs)
    ensures var s' := Apply(s, m);
            x in s'.conns && x !in s'.pending && s.log <= s'.log && s'.conns[x].sent == s.conns[x].sent
  {
    if m.Register? {
      assert x !in [m.sub];
    }
  }

  lemma PieceKept(s: Stream, m: Move, starts: map<Sub, nat>, starts': map<Sub, nat>, x: Sub)
    requires Enabled(s, m) && SentPieces(s, starts) && Served(Apply(s, m), starts') && Live(Apply(s, m)) && x in starts'
    requires m != Register(x) ==> x in starts && starts'[x] == starts[x]
    ensures SentPiece(Apply(s, m), x, starts'[x])
  {
    var s' := Apply(s, m);
    if x !in s'.subs {
      ConnStands(s, m, x);
      PieceStands(s.log, s'.log, starts[x], Content(s.conns[x].sent));
    }
  }

  lemma StepKeepsPieces(s: Stream, m: Move, starts: map<Sub, nat>, starts': map<Sub, nat>)
    requires Enabled(s, m) && SentPieces(s, starts) && Served(Apply(s, m), starts') && Live(Apply(s, m))
    requires forall x :: x in starts' && m != Register(x) ==> x in starts && starts'[x] == starts[x]
    ensures SentPieces(Apply(s, m), starts')
  {
    var s' := Apply(s, m);
    forall x | x in starts' ensures SentPiece(s', x, starts'[x]) {
      PieceKept(s, m, starts, starts', x);
    }
  }

  lemma {:induction false} SentPiecesHold(ms: seq<Move>)
    requires Runs(ms)
    ensures SentPieces(After(ms), Starts(ms))
    decreases |ms|
  {
    if ms != [] {
      var init, m := ms[..|ms| - 1], ms[|ms| - 1];
      SentPiecesHold(init);
      assert Served(After(ms), Starts(ms)) by { NoGap(ms); }
      assert Live(After(ms)) by { LifecycleHolds(ms); }
      StepKeepsPieces(After(init), m, Starts(init), Starts(ms));
    }
  }

  /** The first `j` events of a piece of the old log, and the new log from the last of them on. */
  lemma Rejoin(past: seq<Event>, log: seq<Event>, p: nat, piece: seq<Event>, j: nat)
    requires p <= |past| && past <= log && piece <= past[p..] && 0 < j <= |piece|
    ensures p + j <= |past| && piece[j - 1] == past[p + j - 1] == log[p + j - 1]
    ensures piece[..j] + log[p + j - 1..][1..] == log[p..]
  {
    assert piece[..j] == past[p..][..j] == past[p..p + j] == log[p..p + j];
    assert log[p + j - 1..][1..] == log[p + j..];
  }

  /** Reconnecting: a client that received the first `j` events its old connection was sent, and then
      registers with the identifier of the last of them, is sent that event again and then exactly what
      it lacks: what it received before and after make up the log from where it first started, without
      a gap or a repetition but that one event. */
  lemma Reconnect(before: seq<Move>, a: Sub, j: nat, b: Sub, ms: seq<Move>)
    requires Runs(ms) && before + [Register(b)] <= ms && b in After(ms).subs
    requires Runs(before) && a in Starts(before) && 0 < j <= |Got(After(before), a)|
    requires b in After(before).conns && After(before).conns[b].lastId == Got(After(before), a)[j - 1].id
    ensures var had, got, log := Got(After(before), a)[..j], Got(After(ms), b), After(ms).log;
            && |got| > 0 && got[0] == had[j - 1]
            && Starts(before)[a] <= |log| && had + got[1..] == log[Starts(before)[a]..]
  {
    var p, log := Starts(before)[a], After(before).log;
    assert p <= |log| && Got(After(before), a) <= log[p..] by { SentPiecesHold(before); }
    SentFromPosition(before, b, ms);
    Rejoin(log, After(ms).log, p, Got(After(before), a), j);
    assert Sorted(log) by { NoGap(before); }
    PositionOfEntry(log, p + j - 1);
  }

  /** A first connection, without an identifier, is sent the whole log. */
  lemma FirstConnect(before: seq<Move>, sub: Sub, ms: seq<Move>)
    requires Runs(ms) && before + [Register(sub)] <= ms && sub in After(ms).subs
    requires Runs(before) && sub in After(before).conns && After(before).conns[sub].lastId == []
    ensures Got(After(ms), sub) == After(ms).log
  {
    SentFromPosition(before, sub, ms);
    PositionOfEmptyId(After(before).log);
  }

  // ---------------------------------------------------------------------------
  // The stream object
  // ---------------------------------------------------------------------------

  lemma SendOneMore(conns: map<Sub, Conn>, subs: seq<Sub>, i: nat, e: Event)
    requires i < |subs| && Distinct(subs) && subs[i] in conns
    ensures var part := SendAll(conns, subs[..i], [e]);
            subs[i] in part && part[subs[i]] == conns[subs[i]]
            && part[subs[i] := part[subs[i]].(sent := part[subs[i]].sent + [e])] == SendAll(conns, subs[..i + 1], [e])
  {
    assert subs[..i + 1] == subs[..i] + [subs[i]];
    assert subs[i] !in subs[..i];
  }

  lemma SendMoreToOne(conns: map<Sub, Conn>, sub: Sub, es: seq<Event>, e: Event)
    requires sub in conns
    ensures var part := SendAll(conns, [sub], es);
            part[sub := part[sub].(sent := part[sub].sent + [e])] == SendAll(conns, [sub], es + [e])
    ensures SendAll(conns, [sub], []) == conns
  {
    assert conns[sub].sent + es + [e] == conns[sub].sent + (es + [e]);
    assert conns[sub].sent + [] == conns[sub].sent;
  }

  lemma CloseOneMore(conns: map<Sub, Conn>, subs: seq<Sub>, i: nat)
    requires i < |subs| && Distinct(subs) && subs[i] in conns
    ensures var part := CloseAll(conns, subs[..i]);
            subs[i] in part && part[subs[i]] == conns[subs[i]]
            && part[subs[i] := Closed(part[subs[i]])] == CloseAll(conns, subs[..i + 1])
  {
    assert subs[..i + 1] == subs[..i] + [subs[i]];
    assert subs[i] !in subs[..i];
  }

  lemma {:induction false} WithoutIndex(subs: seq<Sub>, i: nat)
    requires i < |subs| && subs[i] !in subs[..i]
    ensures Without(subs, subs[i]) == subs[..i] + subs[i + 1..]
  {
    if i > 0 {
      assert subs[0] in subs[..i];
      assert subs[1..][..i - 1] == subs[1..i];
      assert forall x :: x in subs[1..i] ==> x in subs[..i];
      WithoutIndex(subs[1..], i - 1);
      assert subs[1..][i..] == subs[i + 1..];
      assert [subs[0]] + subs[1..i] == subs[..i];
    }
  }

  class StreamLoop {
    var subscribers: seq<Sub>
    var connections: map<Sub, Conn>
    var pending: set<Sub>
    var eventLog: seq<Event>
    var subscriberCount: int
    var quit: bool
    var panicked: bool

    ghost function View(): Stream
      reads this
    {
      Stream(subscribers, connections, pending, eventLog, subscriberCount, quit, panicked)
    }

    constructor ()
      ensures View() == EMPTY
    {
      subscribers, connections, pending, eventLog := [], map[], {}, [];
      subscriberCount, quit, panicked := 0, false, false;
    }

    /** A channel send: a panic on a closed channel. */
    method Send(sub: Sub, e: Event)
      requires sub in connections
      modifies this`connections, this`panicked
      ensures old(connections)[sub].closes > 0 ==> panicked && connections == old(connections)
      ensures old(connections)[sub].closes == 0 ==>
                && panicked == old(panicked)
                && (var c := old(connections)[sub]; connections == old(connections)[sub := c.(sent := c.sent + [e])])
    {
      if connections[sub].closes > 0 {
        panicked := true;
        return;
      }
      connections := connections[sub := connections[sub].(sent := connections[sub].sent + [e])];
    }

    /** Closing a connection, then signalling and closing its `removed` channel: a panic on a closed
        channel. */
    method CloseConnection(sub: Sub)
      requires sub in connections
      modifies this`connections, this`panicked
      ensures connections == old(connections)[sub := Closed(old(connections)[sub])]
      ensures panicked == (old(panicked) || old(connections)[sub].closes > 0 || old(connections)[sub].signals > 0)
    {
      var c := connections[sub];
      if c.closes > 0 {
        panicked := true;
      }
      c := c.(closes := c.closes + 1);
      if c.signals > 0 {
        panicked := true;
      }
      c := c.(signals := c.signals + 1);
      connections := connections[sub := c];
    }

    method AddSubscriber(sub: Sub, lastId: bytes)
      requires Enabled(View(), Join(sub, lastId))
      modifies this
      ensures View() == Apply(old(View()), Join(sub, lastId))
    {
      subscriberCount := subscriberCount + 1;
      connections := connections[sub := Conn(lastId, [], 0, 0)];
      pending := pending + {sub};
    }

    method HandleRegister(sub: Sub)
      requires Lifecycle(View()) && Enabled(View(), Register(sub))
      modifies this
      ensures Lifecycle(View()) && View() == Apply(old(View()), Register(sub))
    {
      StepKeepsLifecycle(View(), Register(sub));
      pending := pending - {sub};
      subscribers := subscribers + [sub];
      ReplayTo(sub);
    }

    method ReplayTo(sub: Sub)
      requires sub in connections && connections[sub].closes == 0
      modifies this`connections, this`panicked
      ensures panicked == old(panicked)
      ensures connections == SendAll(old(connections), [sub], Replay(eventLog, old(connections)[sub].lastId))
    {
      ghost var was := connections;
      var id := connections[sub].lastId;
      SendMoreToOne(was, sub, [], Event([], [], [], [], []));
      for i := 0 to |eventLog|
        invariant panicked == old(panicked)
        invariant connections == SendAll(was, [sub], Replay(eventLog[..i], id))
      {
        assert eventLog[..i + 1][..i] == eventLog[..i];
        SendMoreToOne(was, sub, Replay(eventLog[..i], id), eventLog[i]);
        if !Less(eventLog[i].id, id) {
          Send(sub, eventLog[i]);
        }
      }
      assert eventLog[..|eventLog|] == eventLog;
    }

    method GetSubIndex(sub: Sub) returns (i: int)
      ensures i == -1 ==> sub !in subscribers
      ensures i != -1 ==> 0 <= i < |subscribers| && subscribers[i] == sub && sub !in subscribers[..i]
    {
      for j := 0 to |subscribers|
        invariant sub !in subscribers[..j]
      {
        if subscribers[j] == sub {
          return j;
        }
        assert subscribers[..j + 1] == subscribers[..j] + [subscribers[j]];
      }
      assert subscribers[..|subscribers|] == subscribers;
      return -1;
    }

    method RemoveSubscriber(i: nat)
      requires i < |subscribers| && subscribers[i] in connections
      modifies this`subscriberCount, this`connections, this`panicked, this`subscribers
      ensures subscriberCount == old(subscriberCount) - 1
      ensures subscribers == old(subscribers)[..i] + old(subscribers)[i + 1..]
      ensures connections == CloseAll(old(connections), [old(subscribers)[i]])
      ensures panicked == (old(panicked) || SomeRemoved(old(connections), [old(subscribers)[i]]))
    {
      subscriberCount := subscriberCount - 1;
      ghost var sub := subscribers[i];
      assert SomeRemoved(connections, [sub]) <==> connections[sub].closes > 0 || connections[sub].signals > 0 by {
        assert sub in [sub];
      }
      CloseConnection(subscribers[i]);
      subscribers := subscribers[..i] + subscribers[i + 1..];
    }

    method HandleDeregister(sub: Sub)
      requires Lifecycle(View()) && Enabled(View(), Deregister(sub))
      modifies this
      ensures Lifecycle(View()) && View() == Apply(old(View()), Deregister(sub))
    {
      StepKeepsLifecycle(View(), Deregister(sub));
      var i := GetSubIndex(sub);
      if i != -1 {
        WithoutIndex(subscribers, i);
        RemoveSubscriber(i);
      }
    }

    method HandleEvent(event: Event, newId: bytes)
      requires Lifecycle(View()) && Enabled(View(), Publish(event, newId))
      modifies this
      ensures Lifecycle(View()) && View() == Apply(old(View()), Publish(event, newId))
    {
      StepKeepsLifecycle(View(), Publish(event, newId));
      var e := event;
      if event.HasContent() {
        e := event.(id := newId);
        eventLog := eventLog + [e];
      }
      Broadcast(e);
    }

    method Broadcast(e: Event)
      requires Distinct(subscribers)
      requires forall x :: x in subscribers ==> x in connections && connections[x].closes == 0
      modifies this`connections, this`panicked
      ensures panicked == old(panicked) && connections == SendAll(old(connections), subscribers, [e])
    {
      ghost var was := connections;
      for i := 0 to |subscribers|
        invariant panicked == old(panicked) && connections == SendAll(was, subscribers[..i], [e])
      {
        SendOneMore(was, subscribers, i, e);
        Send(subscribers[i], e);
      }
      assert subscribers[..|subscribers|] == subscribers;
    }

    method RemoveAllSubscribers()
      requires Distinct(subscribers)
      requires forall x :: x in subscribers ==> x in connections && connections[x].closes == connections[x].signals == 0
      modifies this`connections, this`panicked, this`subscriberCount, this`subscribers
      ensures panicked == old(panicked) && subscriberCount == 0 && subscribers == []
      ensures connections == CloseAll(old(connections), old(subscribers))
    {
      ghost var was := connections;
      for i := 0 to |subscribers|
        invariant subscribers == old(subscribers)
        invariant panicked == old(panicked) && connections == CloseAll(was, subscribers[..i])
      {
        CloseOneMore(was, subscribers, i);
        CloseConnection(subscribers[i]);
      }
      assert subscribers[..|subscribers|] == subscribers;
      subscriberCount := 0;
      subscribers := [];
    }

    method HandleQuit()
      requires Lifecycle(View()) && Enabled(View(), Quit)
      modifies this
      ensures Lifecycle(View()) && View() == Apply(old(View()), Quit)
    {
      StepKeepsLifecycle(View(), Quit);
      RemoveAllSubscribers();
      quit := true;
    }
  }
}
