/** The Hystrix-style breaker. Every method runs under one mutex, so a run is a sequence of calls,
    each with its clock reading; a mark that trips the breaker reads the clock a second time. */
module Hystrix {
  import opened SlidingWindow

  datatype State = Closed | Open | HalfOpen

  datatype Config = Config(errorThreshold: real, volumeThreshold: int, sleepWindow: int, duration: int)
  {
    ghost predicate Valid() {
      0.0 < errorThreshold <= 1.0 && volumeThreshold > 0 && sleepWindow > 0 && duration > 0
    }
  }

  datatype Breaker = Breaker(ring: Ring, state: State, openedAt: int, halfOpenIn: bool, closed: bool)

  datatype Op =
    | Allow(now: int)
    | Mark(now: int, ok: bool, later: int)
    | Report(now: int)
    | Close

  datatype Outcome = Outcome(breaker: Breaker, admitted: bool)

  // ---------------------------------------------------------------------------
  // Specification of one call
  // ---------------------------------------------------------------------------

  /** `rate * n`, as repeated addition. */
  ghost function Share(rate: real, n: int): real
    decreases if n <= 0 then 0 else n
  {
    if n <= 0 then 0.0 else rate + Share(rate, n - 1)
  }

  lemma {:induction false} ShareIsProduct(rate: real, n: nat)
    ensures Share(rate, n) == rate * n as real
  {
    if n > 0 {
      ShareIsProduct(rate, n - 1);
      assert rate * n as real == rate * (n - 1) as real + rate;
    }
  }

  lemma {:induction false} ShareOrder(rate: real, m: int, n: int)
    requires rate > 0.0 && m <= n
    ensures Share(rate, m) <= Share(rate, n)
    decreases n - m
  {
    if m < n {
      ShareOrder(rate, m, n - 1);
    }
  }

  /** Enough requests, and the threshold's share of them errors. */
  ghost predicate Trips(cfg: Config, cells: seq<Cell>) {
    var total := Sum(cells);
    total.count >= cfg.volumeThreshold && total.weight as real >= Share(cfg.errorThreshold, total.count)
  }

  ghost predicate WellFormed(b: Breaker) {
    |b.ring.cells| > 0
  }

  ghost function Initial(n: int, now: int): Breaker
    requires n > 0
  {
    Breaker(Fresh(n, now), Closed, 0, false, false)
  }

  /** In Open, a due call moves to HalfOpen and takes the trial slot for itself, and the HalfOpen arm
      it falls through to then rejects it because the slot is taken. */
  ghost function AllowStep(cfg: Config, b: Breaker, now: int): Outcome {
    if b.closed then Outcome(b, false)
    else
      match b.state
      case Closed => Outcome(b, true)
      case Open =>
        if now - b.openedAt >= cfg.sleepWindow then Outcome(b.(state := HalfOpen, halfOpenIn := true), false)
        else Outcome(b, false)
      case HalfOpen => Outcome(b.(halfOpenIn := true), !b.halfOpenIn)
  }

  ghost function MarkStep(cfg: Config, b: Breaker, now: int, ok: bool, later: int): (b': Breaker)
    requires cfg.Valid() && WellFormed(b)
    ensures WellFormed(b')
  {
    var rotated := Rotate(b.ring, now, cfg.duration);
    Settle(cfg, b, rotated, SlidingWindow.Mark(rotated, now, cfg.duration, if ok then 0 else 1), now, ok, later)
  }

  /** The effect of a mark, given the ring after its rotation and the ring with the mark counted. */
  ghost function Settle(cfg: Config, b: Breaker, rotated: Ring, marked: Ring, now: int, ok: bool, later: int): Breaker {
    if b.state == HalfOpen then
      if ok then b.(ring := Fresh(|rotated.cells|, rotated.last), state := Closed, halfOpenIn := false)
      else b.(ring := rotated, state := Open, openedAt := now, halfOpenIn := false)
    else if b.state == Closed && Trips(cfg, marked.cells) then b.(ring := marked, state := Open, openedAt := later)
    else b.(ring := marked)
  }

  ghost function ReportStep(cfg: Config, b: Breaker, now: int): Breaker {
    if b.state == Open && now - b.openedAt >= cfg.sleepWindow then b.(state := HalfOpen) else b
  }

  ghost function Step(cfg: Config, b: Breaker, op: Op): (o: Outcome)
    requires cfg.Valid() && WellFormed(b)
    ensures WellFormed(o.breaker)
  {
    match op
    case Allow(now) => AllowStep(cfg, b, now)
    case Mark(now, ok, later) => Outcome(MarkStep(cfg, b, now, ok, later), false)
    case Report(now) => Outcome(ReportStep(cfg, b, now), false)
    case Close => Outcome(b.(closed := true), false)
  }

  // ---------------------------------------------------------------------------
  // Runs
  // ---------------------------------------------------------------------------

  ghost function Run(cfg: Config, b: Breaker, ops: seq<Op>): (b': Breaker)
    requires cfg.Valid() && WellFormed(b)
    ensures WellFormed(b')
    decreases |ops|
  {
    if ops == [] then b else Step(cfg, Run(cfg, b, ops[..|ops| - 1]), ops[|ops| - 1]).breaker
  }

  /** Requests let through by the run. */
  ghost function Admitted(cfg: Config, b: Breaker, ops: seq<Op>): nat
    requires cfg.Valid() && WellFormed(b)
    decreases |ops|
  {
    if ops == [] then 0
    else
      var init := ops[..|ops| - 1];
      Admitted(cfg, b, init) + if Step(cfg, Run(cfg, b, init), ops[|ops| - 1]).admitted then 1 else 0
  }

  /** Marks, and failures among them, made in the current Closed period or the one that ended in the
      latest trip. */
  datatype Evidence = Evidence(marks: nat, failures: nat)

  /** At least the request volume, with at least the threshold's share of failures. */
  ghost predicate Enough(cfg: Config, e: Evidence) {
    e.marks >= cfg.volumeThreshold && e.failures as real >= Share(cfg.errorThreshold, cfg.volumeThreshold)
  }

  ghost function Credit(was: Breaker, op: Op, e: Evidence, becomes: State): Evidence {
    if was.state != Closed then if becomes == Closed then Evidence(0, 0) else e
    else if op.Mark? then Evidence(e.marks + 1, e.failures + if op.ok then 0 else 1)
    else e
  }

  ghost function Since(cfg: Config, b: Breaker, ops: seq<Op>): Evidence
    requires cfg.Valid() && WellFormed(b)
    decreases |ops|
  {
    if ops == [] then Evidence(0, 0)
    else
      var init, op := ops[..|ops| - 1], ops[|ops| - 1];
      var was := Run(cfg, b, init);
      Credit(was, op, Since(cfg, b, init), Step(cfg, was, op).breaker.state)
  }

  // ---------------------------------------------------------------------------
  // The trip invariant, and the evidence behind a trip
  // ---------------------------------------------------------------------------

  ghost predicate NonNegative(cells: seq<Cell>) {
    forall i :: 0 <= i < |cells| ==> cells[i].count >= 0 && cells[i].weight >= 0
  }

  /** A closed breaker's buckets do not meet the trip condition. */
  ghost predicate Quiet(cfg: Config, b: Breaker) {
    b.state == Closed ==> !Trips(cfg, b.ring.cells)
  }

  ghost predicate Invariant(cfg: Config, b: Breaker) {
    && WellFormed(b)
    && NonNegative(b.ring.cells)
    && Quiet(cfg, b)
    && (b.halfOpenIn ==> b.state == HalfOpen)
  }

  lemma {:induction false} SumShrinks(cells: seq<Cell>, less: seq<Cell>)
    requires NonNegative(cells) && |less| == |cells|
    requires forall i :: 0 <= i < |cells| ==> less[i] == cells[i] || less[i] == ZERO
    ensures 0 <= Sum(less).count <= Sum(cells).count && 0 <= Sum(less).weight <= Sum(cells).weight
  {
    if cells != [] {
      SumShrinks(cells[1..], less[1..]);
    }
  }

  lemma RotateShrinks(r: Ring, now: int, d: int)
    requires d > 0 && |r.cells| > 0 && NonNegative(r.cells)
    ensures var cells := Rotate(r, now, d).cells;
            && NonNegative(cells)
            && Sum(cells).count <= Sum(r.cells).count
            && Sum(cells).weight <= Sum(r.cells).weight
  {
    SumShrinks(r.cells, Rotate(r, now, d).cells);
  }

  /** A mark counts at most once: rotation only takes away, and the mark adds one outcome. */
  lemma MarkAddsOne(r: Ring, now: int, d: int, w: nat)
    requires d > 0 && |r.cells| > 0 && NonNegative(r.cells)
    ensures var cells := SlidingWindow.Mark(Rotate(r, now, d), now, d, w).cells;
            && Sum(cells).count <= Sum(r.cells).count + 1
            && Sum(cells).weight <= Sum(r.cells).weight + w
  {
    var rotated := Rotate(r, now, d);
    RotateShrinks(r, now, d);
    var i := Tick(now, d) % |r.cells|;
    SumUpdate(rotated.cells, i, rotated.cells[i].Plus(Cell(1, w)));
  }

  lemma FreshSum(n: int, now: int)
    requires n > 0
    ensures Sum(Fresh(n, now).cells) == ZERO
  {
    SumZero(Fresh(n, now).cells);
  }

  lemma FreshCounts(n: int, now: int)
    requires n > 0
    ensures NonNegative(Fresh(n, now).cells)
  {
  }

  lemma InitialInvariant(cfg: Config, n: int, now: int)
    requires cfg.Valid() && n > 0
    ensures Invariant(cfg, Initial(n, now))
  {
    FreshCounts(n, now);
    assert Quiet(cfg, Initial(n, now)) by { FreshSum(n, now); }
  }

  lemma MarkedCounts(r: Ring, now: int, d: int, w: nat)
    requires d > 0 && |r.cells| > 0 && NonNegative(r.cells)
    ensures NonNegative(SlidingWindow.Mark(r, now, d, w).cells)
  {
  }

  lemma SettleKeepsCounts(cfg: Config, b: Breaker, rotated: Ring, marked: Ring, now: int, ok: bool, later: int)
    requires |rotated.cells| > 0 && NonNegative(rotated.cells) && NonNegative(marked.cells)
    ensures NonNegative(Settle(cfg, b, rotated, marked, now, ok, later).ring.cells)
  {
    FreshCounts(|rotated.cells|, rotated.last);
  }

  lemma StepKeepsCounts(cfg: Config, b: Breaker, op: Op)
    requires cfg.Valid() && WellFormed(b) && NonNegative(b.ring.cells)
    ensures NonNegative(Step(cfg, b, op).breaker.ring.cells)
  {
    if op.Mark? {
      var rotated, w := Rotate(b.ring, op.now, cfg.duration), if op.ok then 0 else 1;
      RotateShrinks(b.ring, op.now, cfg.duration);
      MarkedCounts(rotated, op.now, cfg.duration, w);
      SettleKeepsCounts(cfg, b, rotated, SlidingWindow.Mark(rotated, op.now, cfg.duration, w), op.now, op.ok, op.later);
    }
  }

  lemma StepKeepsQuiet(cfg: Config, b: Breaker, op: Op)
    requires cfg.Valid() && WellFormed(b) && Quiet(cfg, b)
    ensures Quiet(cfg, Step(cfg, b, op).breaker)
  {
    if op.Mark? && b.state == HalfOpen && op.ok {
      var rotated := Rotate(b.ring, op.now, cfg.duration);
      FreshSum(|rotated.cells|, rotated.last);
    }
  }

  lemma StepKeepsTrial(cfg: Config, b: Breaker, op: Op)
    requires cfg.Valid() && WellFormed(b) && (b.halfOpenIn ==> b.state == HalfOpen)
    ensures var b' := Step(cfg, b, op).breaker; b'.halfOpenIn ==> b'.state == HalfOpen
  {
  }

  /** In every reachable state: Closed means the buckets do not meet the trip condition, and a trial
      in progress means HalfOpen. */
  lemma {:induction false} TripInvariant(cfg: Config, n: int, start: int, ops: seq<Op>)
    requires cfg.Valid() && n > 0
    ensures Invariant(cfg, Run(cfg, Initial(n, start), ops))
    decreases |ops|
  {
    if ops == [] {
      InitialInvariant(cfg, n, start);
    } else {
      TripInvariant(cfg, n, start, ops[..|ops| - 1]);
      var b, op := Run(cfg, Initial(n, start), ops[..|ops| - 1]), ops[|ops| - 1];
      StepKeepsCounts(cfg, b, op);
      StepKeepsQuiet(cfg, b, op);
      StepKeepsTrial(cfg, b, op);
    }
  }

  /** What the buckets hold in Closed never exceeds what was marked in this Closed period. */
  ghost predicate Covered(b: Breaker, e: Evidence) {
    b.state == Closed ==> Sum(b.ring.cells).count <= e.marks && Sum(b.ring.cells).weight <= e.failures
  }

  lemma StepCovered(cfg: Config, b: Breaker, op: Op, e: Evidence)
    requires cfg.Valid() && WellFormed(b) && NonNegative(b.ring.cells) && Covered(b, e)
    ensures var b' := Step(cfg, b, op).breaker; Covered(b', Credit(b, op, e, b'.state))
  {
    if op.Mark? {
      if b.state == HalfOpen {
        var rotated := Rotate(b.ring, op.now, cfg.duration);
        FreshSum(|rotated.cells|, rotated.last);
      } else {
        MarkAddsOne(b.ring, op.now, cfg.duration, if op.ok then 0 else 1);
      }
    }
  }

  lemma {:induction false} EvidenceCovers(cfg: Config, n: int, start: int, ops: seq<Op>)
    requires cfg.Valid() && n > 0
    ensures Covered(Run(cfg, Initial(n, start), ops), Since(cfg, Initial(n, start), ops))
    decreases |ops|
  {
    if ops == [] {
      FreshSum(n, start);
    } else {
      var init, op := ops[..|ops| - 1], ops[|ops| - 1];
      EvidenceCovers(cfg, n, start, init);
      TripInvariant(cfg, n, start, init);
      StepCovered(cfg, Run(cfg, Initial(n, start), init), op, Since(cfg, Initial(n, start), init));
    }
  }

  lemma SettleTrips(cfg: Config, b: Breaker, rotated: Ring, marked: Ring, now: int, ok: bool, later: int)
    requires b.state == Closed && Settle(cfg, b, rotated, marked, now, ok, later).state == Open
    ensures Trips(cfg, marked.cells)
  {
  }

  lemma TrippedTotals(cfg: Config, b: Breaker, op: Op, e: Evidence)
    requires cfg.Valid() && WellFormed(b) && NonNegative(b.ring.cells) && Covered(b, e)
    requires b.state == Closed && Step(cfg, b, op).breaker.state == Open
    ensures Enough(cfg, Credit(b, op, e, Open))
  {
    var rotated, w := Rotate(b.ring, op.now, cfg.duration), if op.ok then 0 else 1;
    var marked := SlidingWindow.Mark(rotated, op.now, cfg.duration, w);
    MarkAddsOne(b.ring, op.now, cfg.duration, w);
    SettleTrips(cfg, b, rotated, marked, op.now, op.ok, op.later);
    EnoughFailures(cfg, Sum(marked.cells), Credit(b, op, e, Open));
  }

  /** Every step from Closed to Open has enough evidence of its own Closed period behind it. */
  lemma TripEvidence(cfg: Config, n: int, start: int, ops: seq<Op>, op: Op)
    requires cfg.Valid() && n > 0
    requires Run(cfg, Initial(n, start), ops).state == Closed
    requires Step(cfg, Run(cfg, Initial(n, start), ops), op).breaker.state == Open
    ensures Enough(cfg, Since(cfg, Initial(n, start), ops + [op]))
  {
    EvidenceCovers(cfg, n, start, ops);
    TripInvariant(cfg, n, start, ops);
    assert (ops + [op])[..|ops|] == ops;
    TrippedTotals(cfg, Run(cfg, Initial(n, start), ops), op, Since(cfg, Initial(n, start), ops));
  }

  lemma EnoughFailures(cfg: Config, total: Cell, c: Evidence)
    requires cfg.Valid() && cfg.volumeThreshold <= total.count <= c.marks && total.weight <= c.failures
    requires total.weight as real >= Share(cfg.errorThreshold, total.count)
    ensures Enough(cfg, c)
  {
    ShareOrder(cfg.errorThreshold, cfg.volumeThreshold, total.count);
  }

  lemma EnoughInProducts(cfg: Config, e: Evidence)
    requires cfg.Valid()
    ensures Enough(cfg, e) <==>
            e.marks >= cfg.volumeThreshold && e.failures as real >= cfg.errorThreshold * cfg.volumeThreshold as real
  {
    ShareIsProduct(cfg.errorThreshold, cfg.volumeThreshold);
  }

  // ---------------------------------------------------------------------------
  // Admission safety
  // ---------------------------------------------------------------------------

  ghost predicate Before(op: Op, t: int) {
    op.Close? || op.now < t
  }

  /** After opening, nothing leaves Open and nothing is admitted until the sleep window has passed,
      whatever late marks arrive. */
  lemma {:induction false} OpenHolds(cfg: Config, b: Breaker, ops: seq<Op>)
    requires cfg.Valid() && WellFormed(b) && b.state == Open
    requires forall i :: 0 <= i < |ops| ==> Before(ops[i], b.openedAt + cfg.sleepWindow)
    ensures var e := Run(cfg, b, ops); e.state == Open && e.openedAt == b.openedAt
    ensures Admitted(cfg, b, ops) == 0
    decreases |ops|
  {
    if ops != [] {
      OpenHolds(cfg, b, ops[..|ops| - 1]);
      assert Before(ops[|ops| - 1], b.openedAt + cfg.sleepWindow);
    }
  }

  ghost predicate StaysHalfOpen(cfg: Config, b: Breaker, ops: seq<Op>)
    requires cfg.Valid() && WellFormed(b)
    decreases |ops|
  {
    Run(cfg, b, ops).state == HalfOpen && (ops != [] ==> StaysHalfOpen(cfg, b, ops[..|ops| - 1]))
  }

  /** Between entering and leaving HalfOpen at most one request is admitted, and none once the trial
      slot is taken. */
  lemma {:induction false} SingleTrial(cfg: Config, b: Breaker, ops: seq<Op>)
    requires cfg.Valid() && WellFormed(b) && StaysHalfOpen(cfg, b, ops)
    ensures Admitted(cfg, b, ops) + (if b.halfOpenIn then 1 else 0) <= (if Run(cfg, b, ops).halfOpenIn then 1 else 0)
    decreases |ops|
  {
    if ops != [] {
      SingleTrial(cfg, b, ops[..|ops| - 1]);
    }
  }

  // ---------------------------------------------------------------------------
  // Recovery
  // ---------------------------------------------------------------------------

  ghost predicate NoReports(ops: seq<Op>) {
    forall i :: 0 <= i < |ops| ==> !ops[i].Report?
  }

  /** When nobody asks for the state, the trial slot is taken on entry to HalfOpen, so every request
      that is ever admitted is admitted in Closed: the trial request of the package comment does not
      exist. */
  lemma {:induction false} NoTrialWithoutReport(cfg: Config, n: int, start: int, ops: seq<Op>, now: int)
    requires cfg.Valid() && n > 0 && NoReports(ops)
    ensures var b := Run(cfg, Initial(n, start), ops);
            && (b.state == HalfOpen ==> b.halfOpenIn)
            && (AllowStep(cfg, b, now).admitted ==> b.state == Closed)
    decreases |ops|
  {
    if ops != [] {
      NoTrialWithoutReport(cfg, n, start, ops[..|ops| - 1], now);
      assert !ops[|ops| - 1].Report?;
    }
  }

  /** A breaker with the number of admitted requests that have not been marked yet, and the latest
      clock reading. */
  datatype Session = Session(b: Breaker, outstanding: nat, now: int)

  /** The contract of the callers: marks only for admitted requests, each once; time goes on. */
  ghost predicate Legal(s: Session, op: Op) {
    match op
    case Allow(now) => now >= s.now
    case Mark(now, _, later) => later >= now >= s.now && s.outstanding > 0
    case Report(now) => now >= s.now
    case Close => true
  }

  ghost function SessionStep(cfg: Config, s: Session, op: Op): (s': Session)
    requires cfg.Valid() && WellFormed(s.b) && Legal(s, op)
    ensures WellFormed(s'.b)
  {
    var o := Step(cfg, s.b, op);
    Session(o.breaker,
            if o.admitted then s.outstanding + 1 else if op.Mark? then s.outstanding - 1 else s.outstanding,
            match op case Allow(now) => now case Mark(_, _, later) => later case Report(now) => now case Close => s.now)
  }

  ghost predicate Respects(cfg: Config, s: Session, ops: seq<Op>)
    requires cfg.Valid() && WellFormed(s.b)
    decreases |ops|
  {
    ops == [] || (Legal(s, ops[0]) && Respects(cfg, SessionStep(cfg, s, ops[0]), ops[1..]))
  }

  ghost function SessionRun(cfg: Config, s: Session, ops: seq<Op>): (s': Session)
    requires cfg.Valid() && WellFormed(s.b) && Respects(cfg, s, ops)
    ensures WellFormed(s'.b)
    decreases |ops|
  {
    if ops == [] then s else SessionRun(cfg, SessionStep(cfg, s, ops[0]), ops[1..])
  }

  /** After the run, which respects the contract, a request at `now` is admitted. */
  ghost predicate Admits(cfg: Config, s: Session, ops: seq<Op>, now: int)
    requires cfg.Valid() && WellFormed(s.b)
  {
    Respects(cfg, s, ops)
    && (var e := SessionRun(cfg, s, ops); now >= e.now && Step(cfg, e.b, Allow(now)).admitted)
  }

  /** Some contract-respecting future admits a request. */
  ghost predicate Recoverable(cfg: Config, s: Session)
    requires cfg.Valid() && WellFormed(s.b)
  {
    exists ops, now :: Admits(cfg, s, ops, now)
  }

  /** Closed for good, or half-open with the trial slot taken by nobody. */
  ghost predicate Dead(s: Session) {
    s.b.closed || (s.b.state == HalfOpen && s.b.halfOpenIn && s.outstanding == 0)
  }

  lemma {:induction false} DeadStaysDead(cfg: Config, s: Session, ops: seq<Op>)
    requires cfg.Valid() && WellFormed(s.b) && Dead(s) && Respects(cfg, s, ops)
    ensures Dead(SessionRun(cfg, s, ops))
    decreases |ops|
  {
    if ops != [] {
      DeadStaysDead(cfg, SessionStep(cfg, s, ops[0]), ops[1..]);
    }
  }

  lemma NoStep(cfg: Config, s: Session)
    requires cfg.Valid() && WellFormed(s.b)
    ensures Respects(cfg, s, []) && SessionRun(cfg, s, []) == s
  {
  }

  lemma OneStep(cfg: Config, s: Session, op: Op)
    requires cfg.Valid() && WellFormed(s.b) && Legal(s, op)
    ensures Respects(cfg, s, [op]) && SessionRun(cfg, s, [op]) == SessionStep(cfg, s, op)
  {
    assert [op][1..] == [];
    NoStep(cfg, SessionStep(cfg, s, op));
  }

  lemma DeadIsLost(cfg: Config, s: Session)
    requires cfg.Valid() && WellFormed(s.b) && Dead(s)
    ensures !Recoverable(cfg, s)
  {
    forall ops, now ensures !Admits(cfg, s, ops, now) {
      if Respects(cfg, s, ops) {
        DeadStaysDead(cfg, s, ops);
      }
    }
  }

  /** Some contract-respecting future admits a request exactly when the session is not dead. */
  lemma RecoverableIff(cfg: Config, s: Session)
    requires cfg.Valid() && Invariant(cfg, s.b)
    ensures Recoverable(cfg, s) <==> !Dead(s)
  {
    if Dead(s) {
      DeadIsLost(cfg, s);
    } else {
      var ops, now := Revive(cfg, s);
    }
  }

  lemma Revive(cfg: Config, s: Session) returns (ops: seq<Op>, now: int)
    requires cfg.Valid() && Invariant(cfg, s.b) && !Dead(s)
    ensures Admits(cfg, s, ops, now)
  {
    now := if s.now >= s.b.openedAt + cfg.sleepWindow then s.now else s.b.openedAt + cfg.sleepWindow;
    if s.b.state == Open {
      OneStep(cfg, s, Report(now));
      ops := [Report(now)];
    } else if s.b.state == HalfOpen && s.b.halfOpenIn {
      OneStep(cfg, s, Mark(s.now, true, s.now));
      ops := [Mark(s.now, true, s.now)];
    } else {
      NoStep(cfg, s);
      ops := [];
    }
  }

  // ---------------------------------------------------------------------------
  // Every configuration has a run that ends dead
  // ---------------------------------------------------------------------------

  /** Closed, idle, and nothing but `k` failures in the buckets, all at the present instant. */
  ghost predicate Failing(s: Session, k: int) {
    && WellFormed(s.b) && s.b.ring.last == s.now
    && s.b.state == Closed && !s.b.closed && !s.b.halfOpenIn && s.outstanding == 0
    && Sum(s.b.ring.cells) == Cell(k, k)
  }

  lemma {:induction false} ShareAtMost(rate: real, n: nat)
    requires 0.0 < rate <= 1.0
    ensures Share(rate, n) <= n as real
  {
    if n > 0 {
      ShareAtMost(rate, n - 1);
    }
  }

  lemma MarkAtOnce(r: Ring, d: int)
    requires d > 0 && |r.cells| > 0
    ensures Rotate(r, r.last, d) == r
    ensures var r' := SlidingWindow.Mark(r, r.last, d, 1);
            r'.last == r.last && Sum(r'.cells) == Sum(r.cells).Plus(Cell(1, 1))
  {
    var i := Tick(r.last, d) % |r.cells|;
    SumUpdate(r.cells, i, r.cells[i].Plus(Cell(1, 1)));
    assert Steps(r.last, r.last, d) == 0;
  }

  /** One more admitted request that fails at once: a failing session with one failure more, or an
      idle open one when that makes the request volume. */
  lemma FailOnce(cfg: Config, s: Session, k: nat)
    requires cfg.Valid() && k < cfg.volumeThreshold && Failing(s, k)
    ensures Legal(s, Allow(s.now)) && Step(cfg, s.b, Allow(s.now)).admitted
    ensures var t := SessionStep(cfg, s, Allow(s.now));
            && Legal(t, Mark(s.now, false, s.now))
            && (var e := SessionStep(cfg, t, Mark(s.now, false, s.now));
                if k + 1 < cfg.volumeThreshold then Failing(e, k + 1) && e.now == s.now
                else e.b == Breaker(e.b.ring, Open, s.now, false, false) && e.outstanding == 0 && e.now == s.now)
  {
    MarkAtOnce(s.b.ring, cfg.duration);
    ShareAtMost(cfg.errorThreshold, k + 1);
  }

  lemma TwoSteps(cfg: Config, s: Session, a: Op, b: Op, ops: seq<Op>)
    requires cfg.Valid() && WellFormed(s.b) && Legal(s, a) && Legal(SessionStep(cfg, s, a), b)
    requires Respects(cfg, SessionStep(cfg, SessionStep(cfg, s, a), b), ops)
    ensures Respects(cfg, s, [a, b] + ops)
    ensures SessionRun(cfg, s, [a, b] + ops) == SessionRun(cfg, SessionStep(cfg, SessionStep(cfg, s, a), b), ops)
  {
    assert ([a, b] + ops)[1..] == [b] + ops;
    assert ([b] + ops)[1..] == ops;
    var t := SessionStep(cfg, s, a);
    assert Respects(cfg, t, [b] + ops);
  }

  /** Open since `at`, not closed, with nothing outstanding. */
  ghost predicate IdleOpen(s: Session, at: int) {
    && WellFormed(s.b) && s.b.state == Open && s.b.openedAt == at == s.now
    && !s.b.closed && !s.b.halfOpenIn && s.outstanding == 0
  }

  lemma {:induction false} FailUntilOpen(cfg: Config, s: Session, k: nat) returns (ops: seq<Op>)
    requires cfg.Valid() && k < cfg.volumeThreshold && Failing(s, k)
    ensures Respects(cfg, s, ops) && IdleOpen(SessionRun(cfg, s, ops), s.now)
    decreases cfg.volumeThreshold - k
  {
    var a, b := Allow(s.now), Mark(s.now, false, s.now);
    FailOnce(cfg, s, k);
    var e := SessionStep(cfg, SessionStep(cfg, s, a), b);
    if k + 1 < cfg.volumeThreshold {
      ops := FailUntilOpen(cfg, e, k + 1);
    } else {
      NoStep(cfg, e);
      ops := [];
    }
    TwoSteps(cfg, s, a, b, ops);
    ops := [a, b] + ops;
  }

  ghost function Start(n: int, now: int): Session
    requires n > 0
  {
    Session(Initial(n, now), 0, now)
  }

  lemma StartFailing(n: int, now: int)
    requires n > 0
    ensures Failing(Start(n, now), 0)
  {
    FreshSum(n, now);
  }

  /** After the sleep window: a request that comes first kills an idle breaker, a state query first
      lets the next request in. */
  ghost predicate Decides(cfg: Config, s: Session, now: int)
    requires cfg.Valid() && WellFormed(s.b)
  {
    && Legal(s, Allow(now))
    && (var e := SessionStep(cfg, s, Allow(now)); Dead(e) && !e.b.closed)
    && Admits(cfg, s, [Report(now)], now)
  }

  lemma IdleDecides(cfg: Config, s: Session, at: int)
    requires cfg.Valid() && IdleOpen(s, at)
    ensures Decides(cfg, s, at + cfg.sleepWindow)
  {
    OneStep(cfg, s, Report(at + cfg.sleepWindow));
  }

  /** Every configuration has a contract-respecting run from the start to an open breaker with nothing
      outstanding. From there, after the sleep window, asking for the state first lets the next request
      in, while a request that comes first is rejected and kills the breaker. */
  lemma FirstCallDecides(cfg: Config, n: int, start: int) returns (ops: seq<Op>)
    requires cfg.Valid() && n > 0
    ensures Respects(cfg, Start(n, start), ops)
    ensures var s := SessionRun(cfg, Start(n, start), ops);
            IdleOpen(s, start) && Decides(cfg, s, start + cfg.sleepWindow)
  {
    StartFailing(n, start);
    ops := FailUntilOpen(cfg, Start(n, start), 0);
    IdleDecides(cfg, SessionRun(cfg, Start(n, start), ops), start);
  }

  /** The run respects the contract, does not close the breaker, and leaves it beyond recovery. */
  ghost predicate Dies(cfg: Config, s: Session, ops: seq<Op>)
    requires cfg.Valid() && WellFormed(s.b)
  {
    Respects(cfg, s, ops) && (var e := SessionRun(cfg, s, ops); !e.b.closed && !Recoverable(cfg, e))
  }

  lemma {:induction false} RespectsSnoc(cfg: Config, s: Session, ops: seq<Op>, op: Op)
    requires cfg.Valid() && WellFormed(s.b) && Respects(cfg, s, ops) && Legal(SessionRun(cfg, s, ops), op)
    ensures Respects(cfg, s, ops + [op])
    ensures SessionRun(cfg, s, ops + [op]) == SessionStep(cfg, SessionRun(cfg, s, ops), op)
    decreases |ops|
  {
    if ops == [] {
      OneStep(cfg, s, op);
      assert ops + [op] == [op];
    } else {
      assert (ops + [op])[1..] == ops[1..] + [op];
      RespectsSnoc(cfg, SessionStep(cfg, s, ops[0]), ops[1..], op);
    }
  }

  /** No configuration recovers on every run: whatever the thresholds, window and bucket count, some
      contract-respecting run ends in a breaker that is not closed and never admits again. */
  lemma EveryConfigurationCanDie(cfg: Config, n: int, start: int)
    requires cfg.Valid() && n > 0
    ensures exists ops :: Dies(cfg, Start(n, start), ops)
  {
    var ops := FirstCallDecides(cfg, n, start);
    var s, op := SessionRun(cfg, Start(n, start), ops), Allow(start + cfg.sleepWindow);
    RespectsSnoc(cfg, Start(n, start), ops, op);
    DeadIsLost(cfg, SessionStep(cfg, s, op));
    assert Dies(cfg, Start(n, start), ops + [op]);
  }

  // ---------------------------------------------------------------------------
  // The breaker object
  // ---------------------------------------------------------------------------

  lemma TrialSucceeds(cfg: Config, b: Breaker, now: int, later: int)
    requires cfg.Valid() && WellFormed(b) && b.state == HalfOpen
    ensures var ring := Fresh(|b.ring.cells|, Rotate(b.ring, now, cfg.duration).last);
            MarkStep(cfg, b, now, true, later) == Breaker(ring, Closed, b.openedAt, false, b.closed)
  {
  }

  class HystrixBreaker {
    const cfg: Config
    const buckets: Buckets
    var state: State
    var openedAt: int
    var halfOpenIn: bool
    var closed: bool

    ghost predicate Valid() {
      cfg.Valid() && buckets.Valid() && buckets.duration == cfg.duration
    }

    ghost function View(): Breaker
      reads this, buckets, buckets.cells
    {
      Breaker(buckets.View(), state, openedAt, halfOpenIn, closed)
    }

    constructor (cfg: Config, n: nat, now: int)
      requires cfg.Valid() && n > 0
      ensures Valid() && fresh(buckets) && fresh(buckets.cells) && this.cfg == cfg
      ensures View() == Initial(n, now)
    {
      this.cfg := cfg;
      buckets := new Buckets(n, cfg.duration, now);
      state, openedAt, halfOpenIn, closed := Closed, 0, false, false;
    }

    method TryAllow(now: int) returns (ok: bool)
      requires Valid()
      modifies this
      ensures Outcome(View(), ok) == AllowStep(cfg, old(View()), now)
    {
      if closed {
        return false;
      }
      if state == Open {
        if now - openedAt >= cfg.sleepWindow {
          state := HalfOpen;
          halfOpenIn := true;
        } else {
          return false;
        }
      }
      if state == HalfOpen {
        if halfOpenIn {
          return false;
        }
        halfOpenIn := true;
      }
      return true;
    }

    method MarkSuccess(now: int, later: int)
      requires Valid() && now >= 0
      modifies this, buckets, buckets.cells
      ensures View() == MarkStep(cfg, old(View()), now, true, later)
    {
      ghost var was := View();
      buckets.RotateLocked(now);
      if state == HalfOpen {
        RecoverLocked();
        TrialSucceeds(cfg, was, now, later);
        return;
      }
      buckets.Record(now, 0);
      EvaluateLocked(later);
    }

    method RecoverLocked()
      requires Valid()
      modifies this`state, this`halfOpenIn, buckets.cells
      ensures View() == Breaker(Fresh(|old(View()).ring.cells|, old(View()).ring.last), Closed, openedAt, false, closed)
    {
      state := Closed;
      halfOpenIn := false;
      buckets.Reset();
    }

    method MarkFailure(now: int, later: int)
      requires Valid() && now >= 0
      modifies this, buckets, buckets.cells
      ensures View() == MarkStep(cfg, old(View()), now, false, later)
    {
      buckets.RotateLocked(now);
      if state == HalfOpen {
        state := Open;
        openedAt := now;
        halfOpenIn := false;
        return;
      }
      buckets.Record(now, 1);
      EvaluateLocked(later);
    }

    method ReportState(now: int) returns (s: State)
      requires Valid()
      modifies this`state
      ensures View() == ReportStep(cfg, old(View()), now) && s == state
    {
      if state == Open && now - openedAt >= cfg.sleepWindow {
        state := HalfOpen;
      }
      s := state;
    }

    method EvaluateLocked(later: int)
      requires Valid()
      modifies this`state, this`openedAt
      ensures View() == if old(state) == Closed && Trips(cfg, old(View()).ring.cells)
                        then old(View()).(state := Open, openedAt := later) else old(View())
    {
      if state != Closed {
        return;
      }
      var total := buckets.Totals();
      if total.count < cfg.volumeThreshold {
        return;
      }
      if total.count == 0 {
        return;
      }
      var errorRate := total.weight as real / total.count as real;
      RateAgainstThreshold(total.weight as real, total.count, cfg.errorThreshold);
      if errorRate >= cfg.errorThreshold {
        state := Open;
        openedAt := later;
      }
    }
  }

  lemma RateAgainstThreshold(errors: real, requests: nat, threshold: real)
    requires requests > 0
    ensures errors / requests as real >= threshold <==> errors >= Share(threshold, requests)
  {
    ShareIsProduct(threshold, requests);
    var r := requests as real;
    var q := errors / r;
    assert q * r == errors;
    if q >= threshold {
      assert (q - threshold) * r >= 0.0;
    } else {
      assert (threshold - q) * r > 0.0;
    }
  }
}
