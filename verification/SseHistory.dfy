/** What a stream logs and sends, read off the moves of a run. */
module SseHistory {
  import opened Bytes
  import opened SseEvent
  import opened SseStream

  /** An event that carries more than a comment. */
  ghost predicate Carries(e: Event) {
    e.id != [] || e.data != [] || e.name != [] || e.retry != []
  }

  /** A published event as subscribers get it: with a new identifier if it carries anything. */
  ghost function Stamped(e: Event, newId: bytes): Event {
    if Carries(e) then Event(newId, e.data, e.name, e.retry, e.comment) else e
  }

  /** The published events that carry anything, in order, under their new identifiers. */
  ghost function Issued(ms: seq<Move>): seq<Event> {
    if ms == [] then []
    else
      var m := ms[|ms| - 1];
      Issued(ms[..|ms| - 1]) + if m.Publish? && Carries(m.event) then [Stamped(m.event, m.newId)] else []
  }

  /** Nothing in these moves takes the subscriber off the list. */
  ghost predicate Stays(ms: seq<Move>, sub: Sub) {
    Deregister(sub) !in ms && Quit !in ms
  }

  /** All events published in these moves until the subscriber is taken off the list, those with nothing but
      a comment included. */
  ghost function Aired(ms: seq<Move>, sub: Sub): seq<Event> {
    if ms == [] then []
    else
      var init, m := ms[..|ms| - 1], ms[|ms| - 1];
      Aired(init, sub) + if Stays(init, sub) && m.Publish? then [Stamped(m.event, m.newId)] else []
  }

  /** The events of these that do not come before an identifier. */
  ghost function NotBefore(es: seq<Event>, id: bytes): seq<Event> {
    if es == [] then []
    else NotBefore(es[..|es| - 1], id) + if Less(es[|es| - 1].id, id) then [] else [es[|es| - 1]]
  }

  lemma PublishedIs(s: Stream, e: Event, newId: bytes)
    requires Enabled(s, Publish(e, newId))
    ensures var s' := Apply(s, Publish(e, newId));
            && s'.log == s.log + (if Carries(e) then [Stamped(e, newId)] else [])
            && s'.conns.Keys == s.conns.Keys && s'.subs == s.subs
            && forall x :: x in s.conns ==>
                 s'.conns[x].sent == s.conns[x].sent + if x in s.subs then [Stamped(e, newId)] else []
  {
    forall x | x in s.conns ensures s.conns[x].sent + [] == s.conns[x].sent {
    }
  }

  /** Over every run, the log is what was published: the events that carry anything, in order, each changed
      in its identifier only. */
  lemma {:induction false} LogIsIssued(ms: seq<Move>)
    requires Runs(ms)
    ensures After(ms).log == Issued(ms)
    decreases |ms|
  {
    if ms != [] {
      var init, m := ms[..|ms| - 1], ms[|ms| - 1];
      LogIsIssued(init);
      if m.Publish? {
        PublishedIs(After(init), m.event, m.newId);
      }
    }
  }

  lemma {:induction false} ReplayIsNotBefore(log: seq<Event>, id: bytes)
    ensures Replay(log, id) == NotBefore(log, id)
  {
    if log != [] {
      ReplayIsNotBefore(log[..|log| - 1], id);
    }
  }

  // ---------------------------------------------------------------------------
  // One subscriber
  // ---------------------------------------------------------------------------

  lemma ListedStep(s: Stream, m: Move, sub: Sub)
    requires Lifecycle(s) && Enabled(s, m) && sub in s.conns && sub !in s.pending
    ensures sub in Apply(s, m).subs <==> sub in s.subs && m != Deregister(sub) && m != Quit
  {
    if m.Deregister? {
      WithoutMembers(s.subs, m.sub);
    }
  }

  lemma SentStep(s: Stream, m: Move, sub: Sub)
    requires Enabled(s, m) && sub in s.conns && sub !in s.pending
    ensures sub in Apply(s, m).conns && Apply(s, m).conns[sub].lastId == s.conns[sub].lastId
    ensures Apply(s, m).conns[sub].sent
         == s.conns[sub].sent + if m.Publish? && sub in s.subs then [Stamped(m.event, m.newId)] else []
  {
    if m.Publish? {
      PublishedIs(s, m.event, m.newId);
    } else {
      ConnStands(s, m, sub);
      assert s.conns[sub].sent + [] == s.conns[sub].sent;
    }
  }

  ghost predicate Has(s: Stream, sub: Sub, sent: seq<Event>, listed: bool) {
    && sub in s.conns && sub !in s.pending
    && s.conns[sub].sent == sent && (sub in s.subs <==> listed)
    && s.conns[sub].closes == s.conns[sub].signals == if listed then 0 else 1
  }

  lemma HasSteps(s: Stream, m: Move, sub: Sub, sent: seq<Event>, listed: bool)
    requires Lifecycle(s) && Enabled(s, m) && Has(s, sub, sent, listed)
    ensures Has(Apply(s, m), sub,
                sent + (if m.Publish? && listed then [Stamped(m.event, m.newId)] else []),
                listed && m != Deregister(sub) && m != Quit)
  {
    ListedStep(s, m, sub);
    SentStep(s, m, sub);
    StepStands(s, m, sub);
    StepKeepsLifecycle(s, m);
  }

  lemma HasFirst(before: seq<Move>, sub: Sub)
    requires Runs(before) && Enabled(After(before), Register(sub))
    ensures Has(Apply(After(before), Register(sub)), sub,
                NotBefore(Issued(before), After(before).conns[sub].lastId), true)
  {
    var s := After(before);
    assert s.conns[sub].sent == [] by { NoGap(before); }
    LifecycleHolds(before);
    RegisterSends(s, Register(sub));
    StepKeepsLifecycle(s, Register(sub));
    LogIsIssued(before);
    ReplayIsNotBefore(s.log, s.conns[sub].lastId);
  }

  /** The last move of a run in two parts. */
  lemma LastMove(first: seq<Move>, after: seq<Move>)
    requires Runs(first + after) && after != []
    ensures var init, m := after[..|after| - 1], after[|after| - 1];
            && after == init + [m]
            && Runs(first + init) && Enabled(After(first + init), m)
            && After(first + after) == Apply(After(first + init), m)
  {
    assert (first + after)[..|first + after| - 1] == first + after[..|after| - 1];
  }

  lemma AiredSnoc(replay: seq<Event>, init: seq<Move>, m: Move, sub: Sub)
    ensures Stays(init + [m], sub) == (Stays(init, sub) && m != Deregister(sub) && m != Quit)
    ensures replay + Aired(init + [m], sub)
         == replay + Aired(init, sub) + if m.Publish? && Stays(init, sub) then [Stamped(m.event, m.newId)] else []
  {
    assert (init + [m])[..|init|] == init;
  }

  lemma HasSnoc(s: Stream, sub: Sub, replay: seq<Event>, init: seq<Move>, m: Move)
    requires Lifecycle(s) && Enabled(s, m) && Has(s, sub, replay + Aired(init, sub), Stays(init, sub))
    ensures Has(Apply(s, m), sub, replay + Aired(init + [m], sub), Stays(init + [m], sub))
  {
    AiredSnoc(replay, init, m, sub);
    HasSteps(s, m, sub, replay + Aired(init, sub), Stays(init, sub));
  }

  /** What a subscriber is replayed when it registers after these moves. */
  ghost function Replayed(before: seq<Move>, sub: Sub): seq<Event>
    requires Runs(before) && sub in After(before).conns
  {
    NotBefore(Issued(before), After(before).conns[sub].lastId)
  }

  lemma {:induction false} SentAfter(first: seq<Move>, sub: Sub, replay: seq<Event>, after: seq<Move>)
    requires Runs(first + after) && Runs(first) && Has(After(first), sub, replay, true)
    ensures Has(After(first + after), sub, replay + Aired(after, sub), Stays(after, sub))
    decreases |after|
  {
    if after == [] {
      assert first + after == first && replay + [] == replay;
    } else {
      var init, m := after[..|after| - 1], after[|after| - 1];
      LastMove(first, after);
      SentAfter(first, sub, replay, init);
      LifecycleHolds(first + init);
      HasSnoc(After(first + init), sub, replay, init, m);
    }
  }

  lemma {:induction false} FirstRuns(first: seq<Move>, after: seq<Move>)
    requires Runs(first + after)
    ensures Runs(first)
    decreases |after|
  {
    if after == [] {
      assert first + after == first;
    } else {
      LastMove(first, after);
      FirstRuns(first, after[..|after| - 1]);
    }
  }

  /** Over every run, a subscriber that registered has been sent the published events from its Last-Event-ID
      on, and then every event published while it was listed; it is listed until it deregisters or the
      stream quits, and then its connection is closed and signalled once. */
  lemma SentIs(before: seq<Move>, sub: Sub, after: seq<Move>)
    requires Runs(before + [Register(sub)] + after)
    ensures Runs(before) && sub in After(before).conns
    ensures Has(After(before + [Register(sub)] + after), sub,
                Replayed(before, sub) + Aired(after, sub), Stays(after, sub))
  {
    FirstRuns(before + [Register(sub)], after);
    LastMove(before, [Register(sub)]);
    assert before + [] == before;
    HasFirst(before, sub);
    SentAfter(before + [Register(sub)], sub, Replayed(before, sub), after);
  }

  /** A subscriber's identifier is the one it joined with. */
  lemma {:induction false} JoinedWith(before: seq<Move>, sub: Sub, lastId: bytes, after: seq<Move>)
    requires Runs(before + [Join(sub, lastId)] + after)
    ensures var s := After(before + [Join(sub, lastId)] + after); sub in s.conns && s.conns[sub].lastId == lastId
    decreases |after|
  {
    if after == [] {
      FirstRuns(before + [Join(sub, lastId)], after);
      LastMove(before, [Join(sub, lastId)]);
      assert before + [Join(sub, lastId)] + after == before + [Join(sub, lastId)] && before + [] == before;
    } else {
      LastMove(before + [Join(sub, lastId)], after);
      JoinedWith(before, sub, lastId, after[..|after| - 1]);
    }
  }
}
