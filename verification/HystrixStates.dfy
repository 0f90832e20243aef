/** The states of the hystrix breaker over whole runs, read off the calls: when it opened, whether its trial
    slot is taken, which calls move it, and which requests it admits. */
module HystrixStates {
  import opened Hystrix

  ghost function After(cfg: Config, n: nat, start: int, ops: seq<Op>): (b: Breaker)
    requires cfg.Valid() && n > 0
    ensures WellFormed(b)
  {
    Run(cfg, Initial(n, start), ops)
  }

  lemma AfterSnoc(cfg: Config, n: nat, start: int, ops: seq<Op>, op: Op)
    requires cfg.Valid() && n > 0
    ensures After(cfg, n, start, ops + [op]) == Step(cfg, After(cfg, n, start, ops), op).breaker
    ensures Admitted(cfg, Initial(n, start), ops + [op])
         == Admitted(cfg, Initial(n, start), ops) + if Step(cfg, After(cfg, n, start, ops), op).admitted then 1 else 0
  {
    assert (ops + [op])[..|ops|] == ops;
  }

  /** The clock reading of a mark that opens the breaker: the reading it came with if it is a failed trial,
      the second one if it trips the breaker. */
  ghost function Reading(was: State, op: Op): int
    requires op.Mark?
  {
    if was == HalfOpen then op.now else op.later
  }

  ghost predicate Opens(cfg: Config, n: nat, start: int, ops: seq<Op>, op: Op)
    requires cfg.Valid() && n > 0
  {
    op.Mark? && After(cfg, n, start, ops).state != Open && After(cfg, n, start, ops + [op]).state == Open
  }

  /** The reading of the mark that last opened the breaker. */
  ghost function OpenSince(cfg: Config, n: nat, start: int, ops: seq<Op>): int
    requires cfg.Valid() && n > 0
    decreases |ops|
  {
    if ops == [] then 0
    else
      var init, op := ops[..|ops| - 1], ops[|ops| - 1];
      if Opens(cfg, n, start, init, op) then Reading(After(cfg, n, start, init).state, op)
      else OpenSince(cfg, n, start, init)
  }

  /** The slot is taken by the request that finds the sleep window over, or by the first request after a
      state query that did. */
  ghost predicate TrialTaken(cfg: Config, n: nat, start: int, ops: seq<Op>)
    requires cfg.Valid() && n > 0
    decreases |ops|
  {
    && ops != []
    && After(cfg, n, start, ops).state == HalfOpen
    && (var init, op := ops[..|ops| - 1], ops[|ops| - 1];
        op.Allow? || (After(cfg, n, start, init).state == HalfOpen && TrialTaken(cfg, n, start, init)))
  }

  lemma OnlyMarksOpen(cfg: Config, b: Breaker, op: Op)
    requires cfg.Valid() && WellFormed(b) && b.state != Open && Step(cfg, b, op).breaker.state == Open
    ensures op.Mark? && Step(cfg, b, op).breaker.openedAt == Reading(b.state, op)
  {
  }

  lemma OpenKeeps(cfg: Config, b: Breaker, op: Op)
    requires cfg.Valid() && WellFormed(b) && b.state == Open
    ensures Step(cfg, b, op).breaker.openedAt == b.openedAt
  {
  }

  /** Over every run, an open breaker remembers the reading of the mark that last opened it, be it a failed
      trial or a trip. */
  lemma {:induction false} OpenedAtIs(cfg: Config, n: nat, start: int, ops: seq<Op>)
    requires cfg.Valid() && n > 0
    ensures var b := After(cfg, n, start, ops); b.state == Open ==> b.openedAt == OpenSince(cfg, n, start, ops)
    decreases |ops|
  {
    if ops != [] {
      var init, op := ops[..|ops| - 1], ops[|ops| - 1];
      assert ops == init + [op];
      var was := After(cfg, n, start, init);
      OpenedAtIs(cfg, n, start, init);
      AfterSnoc(cfg, n, start, init, op);
      if was.state == Open {
        OpenKeeps(cfg, was, op);
      } else if After(cfg, n, start, ops).state == Open {
        OnlyMarksOpen(cfg, was, op);
      }
    }
  }

  /** Over every run: a closed breaker leaves Closed only by a mark and for Open. An open one moves to
      HalfOpen by a request, unless the breaker was shut, or a state query, exactly from the sleep window
      after it opened on. A half-open one closes by a success, opens by a failure and stays otherwise. */
  lemma Transitions(cfg: Config, n: nat, start: int, ops: seq<Op>, op: Op)
    requires cfg.Valid() && n > 0
    ensures var was, now := After(cfg, n, start, ops), After(cfg, n, start, ops + [op]).state;
            match was.state
            case Closed => now == Closed || (now == Open && op.Mark?)
            case Open =>
              var asks := (op.Allow? && !was.closed) || op.Report?;
              now == if asks && op.now >= OpenSince(cfg, n, start, ops) + cfg.sleepWindow then HalfOpen else Open
            case HalfOpen => now == if !op.Mark? then HalfOpen else if op.ok then Closed else Open
  {
    AfterSnoc(cfg, n, start, ops, op);
    OpenedAtIs(cfg, n, start, ops);
  }

  lemma {:induction false} ShutIff(cfg: Config, n: nat, start: int, ops: seq<Op>)
    requires cfg.Valid() && n > 0
    ensures After(cfg, n, start, ops).closed <==> Close in ops
    decreases |ops|
  {
    if ops != [] {
      ShutIff(cfg, n, start, ops[..|ops| - 1]);
      assert ops == ops[..|ops| - 1] + [ops[|ops| - 1]];
    }
  }

  lemma StepTrial(cfg: Config, b: Breaker, op: Op)
    requires cfg.Valid() && WellFormed(b) && !b.closed
    ensures var b' := Step(cfg, b, op).breaker;
            b'.state == HalfOpen ==> (b'.halfOpenIn <==> op.Allow? || b.halfOpenIn)
  {
  }

  lemma {:induction false} TrialIs(cfg: Config, n: nat, start: int, ops: seq<Op>)
    requires cfg.Valid() && n > 0 && Close !in ops
    ensures After(cfg, n, start, ops).halfOpenIn <==> TrialTaken(cfg, n, start, ops)
    decreases |ops|
  {
    TripInvariant(cfg, n, start, ops);
    if ops != [] {
      var init, op := ops[..|ops| - 1], ops[|ops| - 1];
      assert ops == init + [op];
      TrialIs(cfg, n, start, init);
      TripInvariant(cfg, n, start, init);
      ShutIff(cfg, n, start, init);
      AfterSnoc(cfg, n, start, init, op);
      StepTrial(cfg, After(cfg, n, start, init), op);
    }
  }

  /** Over every run, a request is admitted, whatever the time, exactly when the breaker was not shut and is
      closed, or half-open with its trial slot free. */
  lemma AdmitsIff(cfg: Config, n: nat, start: int, ops: seq<Op>, now: int)
    requires cfg.Valid() && n > 0
    ensures var b := After(cfg, n, start, ops);
            Step(cfg, b, Allow(now)).admitted <==>
            Close !in ops && (b.state == Closed || (b.state == HalfOpen && !TrialTaken(cfg, n, start, ops)))
  {
    ShutIff(cfg, n, start, ops);
    if Close !in ops {
      TrialIs(cfg, n, start, ops);
    }
  }

  lemma {:induction false} RunsOn(cfg: Config, b: Breaker, xs: seq<Op>, ys: seq<Op>)
    requires cfg.Valid() && WellFormed(b)
    ensures Run(cfg, b, xs + ys) == Run(cfg, Run(cfg, b, xs), ys)
    ensures Admitted(cfg, b, xs + ys) == Admitted(cfg, b, xs) + Admitted(cfg, Run(cfg, b, xs), ys)
    decreases |ys|
  {
    if ys == [] {
      assert xs + ys == xs;
    } else {
      assert (xs + ys)[..|xs + ys| - 1] == xs + ys[..|ys| - 1];
      RunsOn(cfg, b, xs, ys[..|ys| - 1]);
    }
  }

  /** Over every run: once a mark opens the breaker, from Closed or from HalfOpen, it stays open and admits
      nothing until a sleep window after that mark, whatever calls come. */
  lemma SleepsAfterOpening(cfg: Config, n: nat, start: int, ops: seq<Op>, op: Op, more: seq<Op>)
    requires cfg.Valid() && n > 0 && Opens(cfg, n, start, ops, op)
    requires var t := Reading(After(cfg, n, start, ops).state, op) + cfg.sleepWindow;
             forall i :: 0 <= i < |more| ==> Before(more[i], t)
    ensures After(cfg, n, start, ops + [op] + more).state == Open
    ensures Admitted(cfg, Initial(n, start), ops + [op] + more) == Admitted(cfg, Initial(n, start), ops)
  {
    AfterSnoc(cfg, n, start, ops, op);
    OnlyMarksOpen(cfg, After(cfg, n, start, ops), op);
    OpenHolds(cfg, After(cfg, n, start, ops + [op]), more);
    RunsOn(cfg, Initial(n, start), ops + [op], more);
  }
}
