/** What the hystrix breaker trips on: the outcomes of the last `n` ticks of its Closed period, as long as no
    rotation does damage. Recovery empties the buckets but not the time of the last rotation. */
module HystrixWindow {
  import opened SlidingWindow
  import opened Hystrix

  ghost predicate Recovers(was: Breaker, op: Op) {
    op.Mark? && op.ok && was.state == HalfOpen
  }

  /** What a mark does to the buckets, recovery aside: a failed trial only rotates them. */
  ghost function CallOf(was: Breaker, op: Op): Call
    requires op.Mark?
  {
    if was.state == HalfOpen then Look(op.now) else Record(op.now, if op.ok then 0 else 1)
  }

  ghost function Next(cfg: Config, was: Breaker, h: History, op: Op): History
    requires cfg.Valid()
  {
    if !op.Mark? then h
    else
      var h' := HistoryStep(h, CallOf(was, op), cfg.duration);
      if Recovers(was, op) then h'.(log := []) else h'
  }

  /** The outcomes counted since the latest recovery, and the clock readings of the latest rotation and
      mark. */
  ghost function Counted(cfg: Config, n: nat, start: int, ops: seq<Op>): History
    requires cfg.Valid() && n > 0
    decreases |ops|
  {
    if ops == [] then History([], start, start)
    else
      var init := ops[..|ops| - 1];
      Next(cfg, Run(cfg, Initial(n, start), init), Counted(cfg, n, start, init), ops[|ops| - 1])
  }

  /** The outcomes marked in the current Closed period or, if the breaker is not closed, the latest one. */
  ghost function Period(cfg: Config, n: nat, start: int, ops: seq<Op>): seq<Entry>
    requires cfg.Valid() && n > 0
    decreases |ops|
  {
    if ops == [] then []
    else
      var init, op := ops[..|ops| - 1], ops[|ops| - 1];
      var was, log := Run(cfg, Initial(n, start), init), Period(cfg, n, start, init);
      if was.state != Closed then if Step(cfg, was, op).breaker.state == Closed then [] else log
      else if op.Mark? then log + [Entry(Tick(op.now, cfg.duration), if op.ok then 0 else 1)]
      else log
  }

  /** Marks come in the order of their clock readings. */
  ghost predicate Ordered(cfg: Config, n: nat, start: int, ops: seq<Op>)
    requires cfg.Valid() && n > 0
    decreases |ops|
  {
    ops == [] ||
    var init, op := ops[..|ops| - 1], ops[|ops| - 1];
    Ordered(cfg, n, start, init) && (op.Mark? ==> Counted(cfg, n, start, init).at <= op.now)
  }

  /** Since the latest recovery no rotation did damage. */
  ghost predicate Clean(cfg: Config, n: nat, start: int, ops: seq<Op>)
    requires cfg.Valid() && n > 0
    decreases |ops|
  {
    ops == [] ||
    var init, op := ops[..|ops| - 1], ops[|ops| - 1];
    || Recovers(Run(cfg, Initial(n, start), init), op)
    || (&& Clean(cfg, n, start, init)
        && (op.Mark? ==> Harmless(Counted(cfg, n, start, init), op.now, cfg.duration, n)))
  }

  ghost predicate AgreesAfter(cfg: Config, n: nat, start: int, ops: seq<Op>)
    requires cfg.Valid() && n > 0
  {
    Agrees(Run(cfg, Initial(n, start), ops).ring, Counted(cfg, n, start, ops), cfg.duration)
  }

  /** At every state since the latest recovery the buckets' totals are the outcomes of the last `n` ticks. */
  ghost predicate AgreesSince(cfg: Config, n: nat, start: int, ops: seq<Op>)
    requires cfg.Valid() && n > 0
    decreases |ops|
  {
    && AgreesAfter(cfg, n, start, ops)
    && (ops != [] ==>
          var init, op := ops[..|ops| - 1], ops[|ops| - 1];
          Recovers(Run(cfg, Initial(n, start), init), op) || AgreesSince(cfg, n, start, init))
  }

  // ---------------------------------------------------------------------------
  // One call
  // ---------------------------------------------------------------------------

  /** What holds of the buckets with or without damage. */
  ghost predicate Synced(r: Ring, h: History, d: int, n: nat)
    requires d > 0
  {
    Sane(h, d) && r.last == h.last && |r.cells| == n > 0
  }

  lemma MarkedRing(cfg: Config, b: Breaker, op: Op)
    requires cfg.Valid() && WellFormed(b) && op.Mark?
    ensures var r := RingStep(b.ring, CallOf(b, op), cfg.duration);
            Step(cfg, b, op).breaker.ring == if Recovers(b, op) then Fresh(|r.cells|, r.last) else r
  {
  }

  lemma OtherRing(cfg: Config, b: Breaker, op: Op)
    requires cfg.Valid() && WellFormed(b) && !op.Mark?
    ensures Step(cfg, b, op).breaker.ring == b.ring
  {
  }

  lemma RotatedLast(r: Ring, h: History, c: Call, d: int)
    requires d > 0 && |r.cells| > 0 && r.last == h.last
    ensures RingStep(r, c, d).last == HistoryStep(h, c, d).last
  {
  }

  lemma EmptiedTracks(n: nat, h: History, d: int)
    requires d > 0 && n > 0 && Sane(h, d)
    ensures var r, h' := Fresh(n, h.last), h.(log := []); Tracks(r, h', d) && Agrees(r, h', d)
  {
    FreshExact(n, h.last, Tick(h.at, d));
    SumZero(Fresh(n, h.last).cells);
  }

  lemma StepSynced(cfg: Config, b: Breaker, h: History, op: Op, n: nat)
    requires cfg.Valid() && WellFormed(b) && Synced(b.ring, h, cfg.duration, n) && (op.Mark? ==> h.at <= op.now)
    ensures Synced(Step(cfg, b, op).breaker.ring, Next(cfg, b, h, op), cfg.duration, n)
  {
    if op.Mark? {
      MarkedRing(cfg, b, op);
      StepSane(h, CallOf(b, op), cfg.duration);
      RotatedLast(b.ring, h, CallOf(b, op), cfg.duration);
    } else {
      OtherRing(cfg, b, op);
    }
  }

  lemma RecoveryTracks(cfg: Config, b: Breaker, h: History, op: Op, n: nat)
    requires cfg.Valid() && WellFormed(b) && Synced(b.ring, h, cfg.duration, n)
    requires Recovers(b, op) && h.at <= op.now
    ensures var r, h' := Step(cfg, b, op).breaker.ring, Next(cfg, b, h, op);
            Tracks(r, h', cfg.duration) && Agrees(r, h', cfg.duration)
  {
    MarkedRing(cfg, b, op);
    StepSane(h, CallOf(b, op), cfg.duration);
    RotatedLast(b.ring, h, CallOf(b, op), cfg.duration);
    EmptiedTracks(n, HistoryStep(h, CallOf(b, op), cfg.duration), cfg.duration);
  }

  lemma StepAgreesIff(cfg: Config, b: Breaker, h: History, op: Op, n: nat)
    requires cfg.Valid() && WellFormed(b) && |b.ring.cells| == n && Tracks(b.ring, h, cfg.duration)
    requires !Recovers(b, op) && (op.Mark? ==> h.at <= op.now)
    ensures var r, h', d := Step(cfg, b, op).breaker.ring, Next(cfg, b, h, op), cfg.duration;
            var harmless := op.Mark? ==> Harmless(h, op.now, d, n);
            (Agrees(r, h', d) <==> harmless) && (harmless ==> Tracks(r, h', d))
  {
    if op.Mark? {
      MarkedRing(cfg, b, op);
      LastCall(b.ring, h, CallOf(b, op), cfg.duration);
    } else {
      OtherRing(cfg, b, op);
      ExactSum(b.ring.cells, h.log, Tick(h.at, cfg.duration));
    }
  }

  // ---------------------------------------------------------------------------
  // Runs
  // ---------------------------------------------------------------------------

  lemma {:induction false} SyncedHolds(cfg: Config, n: nat, start: int, ops: seq<Op>)
    requires cfg.Valid() && n > 0 && Ordered(cfg, n, start, ops)
    ensures Synced(Run(cfg, Initial(n, start), ops).ring, Counted(cfg, n, start, ops), cfg.duration, n)
    decreases |ops|
  {
    if ops == [] {
      FreshTracks(n, start, cfg.duration);
    } else {
      var init := ops[..|ops| - 1];
      SyncedHolds(cfg, n, start, init);
      StepSynced(cfg, Run(cfg, Initial(n, start), init), Counted(cfg, n, start, init), ops[|ops| - 1], n);
    }
  }

  /** Over every run with ordered marks: at every state since the latest recovery the buckets' totals are the
      outcomes of the last `n` ticks, if and only if no rotation since then did damage. */
  lemma {:induction false} AgreesSinceIff(cfg: Config, n: nat, start: int, ops: seq<Op>)
    requires cfg.Valid() && n > 0 && Ordered(cfg, n, start, ops)
    ensures AgreesSince(cfg, n, start, ops) <==> Clean(cfg, n, start, ops)
    ensures Clean(cfg, n, start, ops) ==>
              Tracks(Run(cfg, Initial(n, start), ops).ring, Counted(cfg, n, start, ops), cfg.duration)
    decreases |ops|
  {
    if ops == [] {
      FreshTracks(n, start, cfg.duration);
    } else {
      var init, op := ops[..|ops| - 1], ops[|ops| - 1];
      var was, h := Run(cfg, Initial(n, start), init), Counted(cfg, n, start, init);
      SyncedHolds(cfg, n, start, init);
      AgreesSinceIff(cfg, n, start, init);
      if Recovers(was, op) {
        RecoveryTracks(cfg, was, h, op, n);
      } else if Clean(cfg, n, start, init) {
        StepAgreesIff(cfg, was, h, op, n);
      }
    }
  }

  /** In Closed the buckets have counted the outcomes of this Closed period and no others. */
  lemma {:induction false} CountedIsPeriod(cfg: Config, n: nat, start: int, ops: seq<Op>)
    requires cfg.Valid() && n > 0
    ensures Run(cfg, Initial(n, start), ops).state == Closed ==>
              Counted(cfg, n, start, ops).log == Period(cfg, n, start, ops)
    decreases |ops|
  {
    if ops != [] {
      CountedIsPeriod(cfg, n, start, ops[..|ops| - 1]);
    }
  }

  /** Enough outcomes, and the threshold's share of them errors. */
  ghost predicate Meets(cfg: Config, total: Cell) {
    total.count >= cfg.volumeThreshold && total.weight as real >= cfg.errorThreshold * total.count as real
  }

  lemma TripsMeets(cfg: Config, cells: seq<Cell>)
    requires cfg.Valid()
    ensures Trips(cfg, cells) <==> Meets(cfg, Sum(cells))
  {
    if Sum(cells).count >= 0 {
      ShareIsProduct(cfg.errorThreshold, Sum(cells).count);
    }
  }

  lemma ClosedMark(cfg: Config, b: Breaker, op: Op)
    requires cfg.Valid() && WellFormed(b) && op.Mark? && b.state == Closed
    ensures var b' := Step(cfg, b, op).breaker; b'.state == if Trips(cfg, b'.ring.cells) then Open else Closed
  {
  }

  /** Over every run with ordered marks whose rotations since the latest recovery do no damage, a mark in
      Closed trips the breaker exactly when the outcomes of this Closed period that fall in the last `n`
      ticks are enough, with the threshold's share of errors. */
  lemma TripsOnWindowIff(cfg: Config, n: nat, start: int, ops: seq<Op>, op: Op)
    requires cfg.Valid() && n > 0 && op.Mark? && Run(cfg, Initial(n, start), ops).state == Closed
    requires Ordered(cfg, n, start, ops + [op]) && Clean(cfg, n, start, ops + [op])
    ensures var t := Tick(op.now, cfg.duration);
            Run(cfg, Initial(n, start), ops + [op]).state == Open
            <==> Meets(cfg, Logged(Period(cfg, n, start, ops + [op]), t - n, t))
  {
    var all := ops + [op];
    assert all[..|all| - 1] == ops;
    var b, h := Run(cfg, Initial(n, start), all), Counted(cfg, n, start, all);
    SyncedHolds(cfg, n, start, all);
    AgreesSinceIff(cfg, n, start, all);
    CountedIsPeriod(cfg, n, start, ops);
    assert h.log == Period(cfg, n, start, all) && h.at == op.now;
    TripsMeets(cfg, b.ring.cells);
    ClosedMark(cfg, Run(cfg, Initial(n, start), ops), op);
  }
}
