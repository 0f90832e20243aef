/** The latency-based breaker. Round-trip times are integer nanoseconds. The smoothed time
    `0.875 * cur + 0.125 * rtt`, truncated, is `(7 * cur + rtt) / 8` exactly, because accepted times
    stay below 2^35 and the weights are binary fractions. */
module Vegas {
  const MIN_RTT := 1000000
  const MAX_RTT := 30000000000

  datatype State = Closed | Open | HalfOpen

  datatype Config = Config(alpha: real, beta: real, warmup: int)
  {
    ghost predicate Valid() {
      alpha > 0.0 && beta > 0.0 && warmup > 0
    }
  }

  datatype Breaker = Breaker(base: int, cur: int, samples: int, state: State, closed: bool)

  datatype Op = Latency(rtt: int) | Failure | Close

  // ---------------------------------------------------------------------------
  // Specification of one call
  // ---------------------------------------------------------------------------

  const INITIAL := Breaker(0, 0, 0, Closed, false)

  predicate Plausible(rtt: int) {
    MIN_RTT <= rtt <= MAX_RTT
  }

  ghost function Update(v: Breaker, rtt: int): Breaker {
    if !Plausible(rtt) then v
    else v.(samples := v.samples + 1,
            cur := if v.cur == 0 then rtt else (7 * v.cur + rtt) / 8,
            base := if v.base == 0 || rtt < v.base then rtt else v.base)
  }

  /** Inflation of the smoothed time over the baseline. */
  ghost function Inflation(gap: int, base: int): real
    requires base > 0
  {
    gap as real / base as real
  }

  ghost predicate Hot(cfg: Config, v: Breaker) {
    v.base > 0 && Inflation(v.cur - v.base, v.base) > cfg.alpha
  }

  ghost predicate Cool(cfg: Config, v: Breaker) {
    v.base > 0 && Inflation(v.cur - v.base, v.base) < cfg.beta
  }

  ghost function Next(s: State, hot: bool, cool: bool): State {
    match s
    case Closed => if hot then Open else Closed
    case Open => if cool then HalfOpen else Open
    case HalfOpen => if cool then Closed else if hot then Open else HalfOpen
  }

  ghost function Evaluate(cfg: Config, v: Breaker): Breaker {
    if v.samples < cfg.warmup || v.base == 0 then v
    else v.(state := Next(v.state, Hot(cfg, v), Cool(cfg, v)))
  }

  ghost function Step(cfg: Config, v: Breaker, op: Op): Breaker {
    match op
    case Latency(rtt) => Evaluate(cfg, Update(v.(state := if v.state == HalfOpen then Closed else v.state), rtt))
    case Failure =>
      if v.state == HalfOpen then v.(state := Open) else Evaluate(cfg, Update(v, MAX_RTT))
    case Close => v.(closed := true)
  }

  predicate Allows(v: Breaker) {
    !v.closed && v.state != Open
  }

  // ---------------------------------------------------------------------------
  // Runs
  // ---------------------------------------------------------------------------

  ghost function Run(cfg: Config, v: Breaker, ops: seq<Op>): Breaker
    decreases |ops|
  {
    if ops == [] then v else Step(cfg, Run(cfg, v, ops[..|ops| - 1]), ops[|ops| - 1])
  }

  /** The times a step feeds to the estimator: plausible latencies, and the maximum for a failure
      that is not the answer to a trial. */
  ghost function Fed(v: Breaker, op: Op): seq<int> {
    match op
    case Latency(rtt) => if Plausible(rtt) then [rtt] else []
    case Failure => if v.state == HalfOpen then [] else [MAX_RTT]
    case Close => []
  }

  ghost function Samples(cfg: Config, v: Breaker, ops: seq<Op>): seq<int>
    decreases |ops|
  {
    if ops == [] then []
    else
      var init := ops[..|ops| - 1];
      Samples(cfg, v, init) + Fed(Run(cfg, v, init), ops[|ops| - 1])
  }

  ghost predicate IsMin(m: int, xs: seq<int>) {
    m in xs && forall x :: x in xs ==> m <= x
  }

  /** The estimator's fields against the samples it was fed. */
  ghost predicate Estimates(v: Breaker, xs: seq<int>) {
    && v.samples == |xs|
    && (if xs == [] then v.base == 0 && v.cur == 0
        else IsMin(v.base, xs) && MIN_RTT <= v.base <= v.cur <= MAX_RTT)
  }

  lemma UpdateEstimates(v: Breaker, xs: seq<int>, rtt: int)
    requires Estimates(v, xs) && Plausible(rtt)
    ensures Estimates(Update(v, rtt), xs + [rtt])
  {
    var v' := Update(v, rtt);
    assert rtt in xs + [rtt];
    if xs != [] {
      assert v.base in xs;
      assert v.base in xs + [rtt];
    }
  }

  lemma StepEstimates(cfg: Config, v: Breaker, xs: seq<int>, op: Op)
    requires Estimates(v, xs)
    ensures Estimates(Step(cfg, v, op), xs + Fed(v, op))
  {
    if Fed(v, op) == [] {
      assert xs + [] == xs;
    } else {
      UpdateEstimates(v, xs, Fed(v, op)[0]);
      assert Fed(v, op) == [Fed(v, op)[0]];
    }
  }

  /** In every reachable state the baseline is the minimum of the samples, and
      minRTT <= base <= current <= maxRTT once there is one. */
  lemma {:induction false} Bounds(cfg: Config, ops: seq<Op>)
    ensures Estimates(Run(cfg, INITIAL, ops), Samples(cfg, INITIAL, ops))
    decreases |ops|
  {
    if ops != [] {
      var init := ops[..|ops| - 1];
      Bounds(cfg, init);
      StepEstimates(cfg, Run(cfg, INITIAL, init), Samples(cfg, INITIAL, init), ops[|ops| - 1]);
    }
  }

  /** What the state says about the estimate. */
  ghost predicate Consistent(cfg: Config, v: Breaker) {
    && (v.samples > 0 <==> v.base > 0)
    && v.samples >= 0 && v.base >= 0
    && (v.state != Closed ==> v.samples >= cfg.warmup)
    && (v.state == Closed && v.samples >= cfg.warmup ==> !Hot(cfg, v))
    && (v.state == HalfOpen ==> Cool(cfg, v))
  }

  lemma StepConsistent(cfg: Config, v: Breaker, op: Op)
    requires cfg.Valid() && Consistent(cfg, v)
    ensures Consistent(cfg, Step(cfg, v, op))
    ensures v.state == HalfOpen && !op.Close? ==> Step(cfg, v, op).state != HalfOpen
  {
  }

  /** In every reachable state past warm-up: Closed means the inflation is at most alpha, HalfOpen
      means it is below beta. The HalfOpen arm of the evaluation is never used: the next outcome
      leaves HalfOpen before it is evaluated. */
  lemma {:induction false} StateMeaning(cfg: Config, ops: seq<Op>)
    requires cfg.Valid()
    ensures Consistent(cfg, Run(cfg, INITIAL, ops))
    decreases |ops|
  {
    if ops != [] {
      StateMeaning(cfg, ops[..|ops| - 1]);
      StepConsistent(cfg, Run(cfg, INITIAL, ops[..|ops| - 1]), ops[|ops| - 1]);
    }
  }

  ghost predicate Warm(cfg: Config, v: Breaker) {
    v.samples >= cfg.warmup && MIN_RTT <= v.base <= v.cur && v.base <= MAX_RTT
  }

  /** In every reachable state, open means past warm-up with estimates in range. */
  lemma OpenIsWarm(cfg: Config, ops: seq<Op>)
    requires cfg.Valid()
    ensures var v := Run(cfg, INITIAL, ops); v.state == Open ==> Warm(cfg, v)
  {
    StateMeaning(cfg, ops);
    Bounds(cfg, ops);
  }

  // ---------------------------------------------------------------------------
  // The states of a run, by its samples
  // ---------------------------------------------------------------------------

  /** Every sample after the first counts for an eighth. */
  ghost function Smoothed(xs: seq<int>): int {
    if xs == [] then 0
    else if |xs| == 1 then xs[0]
    else (7 * Smoothed(xs[..|xs| - 1]) + xs[|xs| - 1]) / 8
  }

  lemma SmoothedSnoc(xs: seq<int>, x: int)
    ensures Smoothed(xs + [x]) == if xs == [] then x else (7 * Smoothed(xs) + x) / 8
  {
    assert (xs + [x])[..|xs|] == xs;
  }

  /** The estimator's fields are functions of the samples. */
  ghost predicate Measures(v: Breaker, xs: seq<int>) {
    Estimates(v, xs) && v.cur == Smoothed(xs)
  }

  lemma StepMeasures(cfg: Config, v: Breaker, xs: seq<int>, op: Op)
    requires Measures(v, xs)
    ensures Measures(Step(cfg, v, op), xs + Fed(v, op))
  {
    StepEstimates(cfg, v, xs, op);
    StepCurrent(cfg, v, op);
    if Fed(v, op) == [] {
      assert xs + [] == xs;
    } else {
      SmoothedSnoc(xs, Fed(v, op)[0]);
    }
  }

  lemma StepCurrent(cfg: Config, v: Breaker, op: Op)
    ensures if Fed(v, op) == [] then Step(cfg, v, op).cur == v.cur
            else var x := Fed(v, op)[0];
                 Fed(v, op) == [x] && Step(cfg, v, op).cur == if v.cur == 0 then x else (7 * v.cur + x) / 8
  {
  }

  /** In every reachable state the current time is the smoothed samples, and the baseline the smallest. */
  lemma {:induction false} MeasuresHold(cfg: Config, ops: seq<Op>)
    ensures Measures(Run(cfg, INITIAL, ops), Samples(cfg, INITIAL, ops))
    decreases |ops|
  {
    if ops != [] {
      var init := ops[..|ops| - 1];
      MeasuresHold(cfg, init);
      StepMeasures(cfg, Run(cfg, INITIAL, init), Samples(cfg, INITIAL, init), ops[|ops| - 1]);
    }
  }

  /** This share of a time. */
  ghost function Part(share: real, time: int): real {
    share * time as real
  }

  /** The smoothed time exceeds the smallest by more than this share of it. */
  ghost predicate Above(xs: seq<int>, share: real) {
    exists base :: IsMin(base, xs) && (Smoothed(xs) - base) as real > Part(share, base)
  }

  ghost predicate Below(xs: seq<int>, share: real) {
    exists base :: IsMin(base, xs) && ((Smoothed(xs) - base) as real) < Part(share, base)
  }

  lemma InflationIff(gap: int, base: int, share: real)
    requires base > 0
    ensures Inflation(gap, base) > share <==> gap as real > Part(share, base)
    ensures Inflation(gap, base) < share <==> (gap as real) < Part(share, base)
  {
    var q, b := Inflation(gap, base), base as real;
    assert q * b == gap as real;
    if q > share {
      assert (q - share) * b > 0.0;
    } else if q < share {
      assert (share - q) * b > 0.0;
    }
  }

  lemma MinUnique(m: int, n: int, xs: seq<int>)
    requires IsMin(m, xs) && IsMin(n, xs)
    ensures m == n
  {
  }

  lemma MeasuredIff(cfg: Config, v: Breaker, xs: seq<int>)
    requires Measures(v, xs)
    ensures Hot(cfg, v) <==> Above(xs, cfg.alpha)
    ensures Cool(cfg, v) <==> Below(xs, cfg.beta)
  {
    if xs != [] {
      InflationIff(v.cur - v.base, v.base, cfg.alpha);
      InflationIff(v.cur - v.base, v.base, cfg.beta);
      forall m | IsMin(m, xs) ensures m == v.base {
        MinUnique(m, v.base, xs);
      }
    }
  }

  lemma OpensStep(cfg: Config, v: Breaker, op: Op)
    requires !op.Close? && (v.state == Closed || (v.state == HalfOpen && op.Latency?))
    ensures var w := Step(cfg, v, op); w.state == if w.samples >= cfg.warmup && Hot(cfg, w) then Open else Closed
  {
  }

  lemma HealsStep(cfg: Config, v: Breaker, op: Op)
    requires !op.Close? && OpenAndWarm(cfg, v)
    ensures var w := Step(cfg, v, op); w.state == if Cool(cfg, w) then HalfOpen else Open
  {
  }

  lemma RunSnoc(cfg: Config, ops: seq<Op>, op: Op)
    ensures Run(cfg, INITIAL, ops + [op]) == Step(cfg, Run(cfg, INITIAL, ops), op)
    ensures Samples(cfg, INITIAL, ops + [op]) == Samples(cfg, INITIAL, ops) + Fed(Run(cfg, INITIAL, ops), op)
  {
    assert (ops + [op])[..|ops|] == ops;
  }

  /** Over every run, an outcome opens a closed breaker exactly when there are samples enough and the
      smoothed time is above the smallest by more than alpha. A latency in HalfOpen is judged alike. */
  lemma OpensIff(cfg: Config, ops: seq<Op>, op: Op)
    requires cfg.Valid() && !op.Close?
    requires var was := Run(cfg, INITIAL, ops).state; was == Closed || (was == HalfOpen && op.Latency?)
    ensures var xs := Samples(cfg, INITIAL, ops + [op]);
            Run(cfg, INITIAL, ops + [op]).state
            == if |xs| >= cfg.warmup && Above(xs, cfg.alpha) then Open else Closed
  {
    RunSnoc(cfg, ops, op);
    MeasuresHold(cfg, ops + [op]);
    OpensStep(cfg, Run(cfg, INITIAL, ops), op);
    MeasuredIff(cfg, Run(cfg, INITIAL, ops + [op]), Samples(cfg, INITIAL, ops + [op]));
  }

  /** Over every run, an outcome moves an open breaker to HalfOpen exactly when it leaves the smoothed time
      above the smallest by less than beta, and otherwise leaves it open. */
  lemma HealsIff(cfg: Config, ops: seq<Op>, op: Op)
    requires cfg.Valid() && !op.Close? && Run(cfg, INITIAL, ops).state == Open
    ensures Run(cfg, INITIAL, ops + [op]).state
         == if Below(Samples(cfg, INITIAL, ops + [op]), cfg.beta) then HalfOpen else Open
  {
    RunSnoc(cfg, ops, op);
    MeasuresHold(cfg, ops + [op]);
    OpenIsWarm(cfg, ops);
    HealsStep(cfg, Run(cfg, INITIAL, ops), op);
    MeasuredIff(cfg, Run(cfg, INITIAL, ops + [op]), Samples(cfg, INITIAL, ops + [op]));
  }

  /** Over every run, a failure in HalfOpen opens the breaker and is no sample. */
  lemma FailedTrial(cfg: Config, ops: seq<Op>)
    requires cfg.Valid() && Run(cfg, INITIAL, ops).state == HalfOpen
    ensures var was, now := Run(cfg, INITIAL, ops), Run(cfg, INITIAL, ops + [Failure]);
            && now.state == Open
            && now.base == was.base && now.cur == was.cur && now.samples == was.samples && now.closed == was.closed
            && Samples(cfg, INITIAL, ops + [Failure]) == Samples(cfg, INITIAL, ops)
  {
    RunSnoc(cfg, ops, Failure);
    assert Samples(cfg, INITIAL, ops) + [] == Samples(cfg, INITIAL, ops);
  }

  /** No outcome of `more` leaves the smoothed time above the smallest by less than beta. */
  ghost predicate NeverBelow(cfg: Config, ops: seq<Op>, more: seq<Op>) {
    more == [] ||
    var init, op := more[..|more| - 1], more[|more| - 1];
    NeverBelow(cfg, ops, init) && (op.Close? || !Below(Samples(cfg, INITIAL, ops + init + [op]), cfg.beta))
  }

  lemma {:induction false} OpenUntilBelow(cfg: Config, ops: seq<Op>, more: seq<Op>)
    requires cfg.Valid() && Run(cfg, INITIAL, ops).state == Open && NeverBelow(cfg, ops, more)
    ensures Run(cfg, INITIAL, ops + more).state == Open
    decreases |more|
  {
    if more == [] {
      assert ops + more == ops;
    } else {
      var init, op := more[..|more| - 1], more[|more| - 1];
      OpenUntilBelow(cfg, ops, init);
      assert ops + more == ops + init + [op];
      if op.Close? {
        RunSnoc(cfg, ops + init, op);
      } else {
        HealsIff(cfg, ops + init, op);
      }
    }
  }

  /** Over every run, after a failure in HalfOpen nothing is admitted until some later outcome leaves the
      smoothed time above the smallest by less than beta. */
  lemma FailedTrialHolds(cfg: Config, ops: seq<Op>, more: seq<Op>)
    requires cfg.Valid() && Run(cfg, INITIAL, ops).state == HalfOpen && NeverBelow(cfg, ops + [Failure], more)
    ensures !Allows(Run(cfg, INITIAL, ops + [Failure] + more))
  {
    FailedTrial(cfg, ops);
    OpenUntilBelow(cfg, ops + [Failure], more);
  }

  /** Over every run, requests are rejected exactly when the breaker was closed for good or is open. */
  lemma {:induction false} AllowsIff(cfg: Config, ops: seq<Op>)
    ensures Allows(Run(cfg, INITIAL, ops)) <==> Close !in ops && Run(cfg, INITIAL, ops).state in {Closed, HalfOpen}
    ensures Run(cfg, INITIAL, ops).closed <==> Close in ops
    decreases |ops|
  {
    if ops != [] {
      AllowsIff(cfg, ops[..|ops| - 1]);
      assert ops == ops[..|ops| - 1] + [ops[|ops| - 1]];
    }
  }

  // ---------------------------------------------------------------------------
  // Healing
  // ---------------------------------------------------------------------------

  /** The gap between smoothed time and baseline after `k` samples at the baseline. */
  ghost function Gap(d: int, k: nat): int {
    if k == 0 then d else 7 * Gap(d, k - 1) / 8
  }

  lemma {:induction false} GapShrinks(d: nat, k: nat)
    ensures 0 <= Gap(d, k) <= if d <= k then 0 else d - k
    ensures k > 0 ==> Gap(d, k) <= Gap(d, k - 1)
  {
    if k > 0 {
      GapShrinks(d, k - 1);
    }
  }

  /** `k` successive baseline latencies. */
  ghost function Heal(cfg: Config, v: Breaker, k: nat): Breaker {
    if k == 0 then v else Step(cfg, Heal(cfg, v, k - 1), Latency(v.base))
  }

  lemma {:induction false} HealGap(cfg: Config, v: Breaker, k: nat)
    requires cfg.Valid() && Warm(cfg, v)
    ensures var w := Heal(cfg, v, k);
            w.base == v.base && w.cur == v.base + Gap(v.cur - v.base, k) && w.samples == v.samples + k
  {
    if k > 0 {
      HealGap(cfg, v, k - 1);
      GapShrinks(v.cur - v.base, k - 1);
    }
  }

  /** One more baseline latency, in terms of the new gap. */
  lemma HealStep(cfg: Config, v: Breaker, k: nat)
    requires cfg.Valid() && Warm(cfg, v)
    ensures var was, now := Heal(cfg, v, k), Heal(cfg, v, k + 1);
            var i := Inflation(Gap(v.cur - v.base, k + 1), v.base);
            now.state == Next(if was.state == HalfOpen then Closed else was.state, i > cfg.alpha, i < cfg.beta)
  {
    HealGap(cfg, v, k);
    HealGap(cfg, v, k + 1);
  }

  lemma InflationOrder(d: int, e: int, base: int)
    requires d <= e && base > 0
    ensures Inflation(d, base) <= Inflation(e, base)
    ensures Inflation(0, base) == 0.0
  {
    var b := base as real;
    var x, y := d as real / b, e as real / b;
    assert x * b == d as real && y * b == e as real;
  }

  /** From any state past warm-up, whatever alpha and beta are, gap + 2 latencies at the baseline
      end in Closed. */
  lemma HealsWithinGap(cfg: Config, v: Breaker)
    requires cfg.Valid() && Warm(cfg, v)
    ensures Heal(cfg, v, v.cur - v.base + 2).state == Closed
  {
    var d := v.cur - v.base;
    GapShrinks(d, d + 1);
    GapShrinks(d, d + 2);
    ClosedGapStep(cfg, v, d);
    ClosedGapStep(cfg, v, d + 1);
  }

  lemma ClosedGapStep(cfg: Config, v: Breaker, k: nat)
    requires cfg.Valid() && Warm(cfg, v) && Gap(v.cur - v.base, k + 1) == 0
    ensures Heal(cfg, v, k + 1).state == if Heal(cfg, v, k).state == Open then HalfOpen else Closed
  {
    InflationOrder(0, 0, v.base);
    HealStep(cfg, v, k);
  }

  /** The exact course of recovery from Open when beta <= alpha: Open while the gap's inflation is at
      least beta, HalfOpen at the first latency that brings it below, Closed from the next one on. */
  lemma {:induction false} HealsExactly(cfg: Config, v: Breaker, k: nat)
    requires cfg.Valid() && Warm(cfg, v) && v.state == Open && cfg.beta <= cfg.alpha && k > 0
    ensures var d, s := v.cur - v.base, Heal(cfg, v, k).state;
            && (s == Open <==> Inflation(Gap(d, k), v.base) >= cfg.beta)
            && (s == Closed <==> k > 1 && Inflation(Gap(d, k - 1), v.base) < cfg.beta)
  {
    var d := v.cur - v.base;
    HealStep(cfg, v, k - 1);
    GapShrinks(d, k);
    InflationOrder(Gap(d, k), Gap(d, k - 1), v.base);
    if k > 1 {
      HealsExactly(cfg, v, k - 1);
    }
  }

  // ---------------------------------------------------------------------------
  // Callers that only report admitted requests
  // ---------------------------------------------------------------------------

  /** Every admitted request brings `each` outcomes: one with a plain `Execute`, two when the function it
      runs also calls `RecordLatency`, as in the package example. `outstanding` are the outcomes to come. */
  datatype Session = Session(v: Breaker, outstanding: nat, each: nat)

  /** A request for admission, or an outcome, which needs an admitted request behind it. */
  datatype Event = Request | Outcome(op: Op)

  ghost predicate Legal(s: Session, e: Event) {
    e.Outcome? && !e.op.Close? ==> s.outstanding > 0
  }

  ghost function SessionStep(cfg: Config, s: Session, e: Event): Session
    requires Legal(s, e)
  {
    match e
    case Request => if Allows(s.v) then s.(outstanding := s.outstanding + s.each) else s
    case Outcome(op) => s.(v := Step(cfg, s.v, op), outstanding := s.outstanding - if op.Close? then 0 else 1)
  }

  ghost predicate Respects(cfg: Config, s: Session, es: seq<Event>)
    decreases |es|
  {
    es == [] || (Legal(s, es[0]) && Respects(cfg, SessionStep(cfg, s, es[0]), es[1..]))
  }

  ghost function SessionRun(cfg: Config, s: Session, es: seq<Event>): Session
    requires Respects(cfg, s, es)
    decreases |es|
  {
    if es == [] then s else SessionRun(cfg, SessionStep(cfg, s, es[0]), es[1..])
  }

  /** After the run, which respects the contract, a request is admitted. */
  ghost predicate Admits(cfg: Config, s: Session, es: seq<Event>) {
    Respects(cfg, s, es) && Allows(SessionRun(cfg, s, es).v)
  }

  ghost predicate Recoverable(cfg: Config, s: Session) {
    exists es :: Admits(cfg, s, es)
  }

  lemma RunCons(cfg: Config, s: Session, e: Event, es: seq<Event>)
    requires Legal(s, e) && Respects(cfg, SessionStep(cfg, s, e), es)
    ensures Respects(cfg, s, [e] + es)
    ensures SessionRun(cfg, s, [e] + es) == SessionRun(cfg, SessionStep(cfg, s, e), es)
  {
    assert ([e] + es)[1..] == es;
  }

  lemma {:induction false} GapShift(d: int, k: nat)
    ensures Gap(d, k + 1) == Gap(7 * d / 8, k)
  {
    if k > 0 {
      GapShift(d, k - 1);
    }
  }

  lemma {:induction false} GapFalls(d: nat, j: nat, k: nat)
    requires j <= k
    ensures 0 <= Gap(d, k) <= Gap(d, j)
  {
    GapShrinks(d, k);
    if j < k {
      GapFalls(d, j, k - 1);
    }
  }

  /** The inflation after as many latencies at the baseline as there are outcomes outstanding. */
  ghost predicate HealsInTime(cfg: Config, s: Session) {
    s.outstanding > 0 && s.v.base > 0
    && Inflation(Gap(s.v.cur - s.v.base, s.outstanding), s.v.base) < cfg.beta
  }

  ghost predicate OpenAndWarm(cfg: Config, v: Breaker) {
    v.state == Open && Warm(cfg, v)
  }

  /** Any outcome at an open breaker leaves the gap no smaller, and the baseline no larger, than a
      latency at the baseline does. */
  lemma BaselineIsBest(cfg: Config, v: Breaker, op: Op)
    requires OpenAndWarm(cfg, v) && !op.Close?
    ensures var w := Step(cfg, v, op);
            && w.closed == v.closed
            && Warm(cfg, w)
            && w.base <= v.base
            && w.cur - w.base >= 7 * (v.cur - v.base) / 8
            && w.state == if Inflation(w.cur - w.base, w.base) < cfg.beta then HalfOpen else Open
  {
  }

  lemma BaselineStep(cfg: Config, v: Breaker)
    requires OpenAndWarm(cfg, v)
    ensures var w := Step(cfg, v, Latency(v.base)); w.base == v.base && w.cur - w.base == 7 * (v.cur - v.base) / 8
  {
  }

  lemma Unscale(x: real, y: real, c: real)
    requires c > 0.0 && x * c <= y * c
    ensures x <= y
  {
    assert (y - x) * c >= 0.0;
  }

  lemma InflationMono(d: nat, b: int, d': nat, b': int)
    requires d <= d' && 0 < b' <= b
    ensures Inflation(d, b) <= Inflation(d', b')
  {
    InflationOrder(d, d', b);
    var x, y := Inflation(d', b), Inflation(d', b');
    assert x * b as real == d' as real == y * b' as real;
    assert y * (b - b') as real >= 0.0;
    assert y * b as real == y * b' as real + y * (b - b') as real;
    Unscale(x, y, b as real);
  }

  /** Feeding the baseline back for every outstanding outcome. */
  lemma {:induction false} FeedBaseline(cfg: Config, s: Session) returns (es: seq<Event>)
    requires cfg.Valid() && OpenAndWarm(cfg, s.v) && !s.v.closed && HealsInTime(cfg, s)
    ensures Admits(cfg, s, es)
    decreases s.outstanding
  {
    var e := Outcome(Latency(s.v.base));
    var t := SessionStep(cfg, s, e);
    BaselineIsBest(cfg, s.v, Latency(s.v.base));
    BaselineStep(cfg, s.v);
    GapShift(s.v.cur - s.v.base, s.outstanding - 1);
    es := [];
    if t.v.state == Open {
      es := FeedBaseline(cfg, t);
    }
    RunCons(cfg, s, e, es);
    es := [e] + es;
  }

  /** Too few outcomes are left for the inflation to fall below beta, even at gap `g` and baseline `b`. */
  ghost predicate Stuck(cfg: Config, s: Session, g: nat, b: int) {
    && OpenAndWarm(cfg, s.v)
    && s.v.base <= b && s.v.cur - s.v.base >= g
    && (s.outstanding == 0 || Inflation(Gap(g, s.outstanding), b) >= cfg.beta)
  }

  lemma StuckStep(cfg: Config, s: Session, g: nat, b: int, e: Event) returns (g': nat)
    requires cfg.Valid() && Stuck(cfg, s, g, b) && Legal(s, e)
    ensures Stuck(cfg, SessionStep(cfg, s, e), g', b)
  {
    g' := g;
    if e.Outcome? && !e.op.Close? {
      g' := 7 * g / 8;
      var w := Step(cfg, s.v, e.op);
      BaselineIsBest(cfg, s.v, e.op);
      GapShift(g, s.outstanding - 1);
      GapFalls(g, 1, s.outstanding);
      assert Gap(g, 1) == g' by { assert Gap(g, 0) == g; }
      InflationMono(Gap(g, s.outstanding), b, w.cur - w.base, w.base);
    }
  }

  lemma {:induction false} StuckStays(cfg: Config, s: Session, g: nat, b: int, es: seq<Event>)
    requires cfg.Valid() && Stuck(cfg, s, g, b) && Respects(cfg, s, es)
    ensures !Allows(SessionRun(cfg, s, es).v)
    decreases |es|
  {
    if es != [] {
      var g' := StuckStep(cfg, s, g, b, es[0]);
      StuckStays(cfg, SessionStep(cfg, s, es[0]), g', b, es[1..]);
    }
  }

  lemma {:induction false} ClosedStays(cfg: Config, s: Session, es: seq<Event>)
    requires s.v.closed && Respects(cfg, s, es)
    ensures !Allows(SessionRun(cfg, s, es).v)
    decreases |es|
  {
    if es != [] {
      ClosedStays(cfg, SessionStep(cfg, s, es[0]), es[1..]);
    }
  }

  /** With outcomes reported only for admitted requests, as `Execute` does, an open breaker can ever
      admit again exactly when latencies at the baseline for all outcomes still to come would bring the
      inflation below beta. With nothing outstanding it cannot. */
  lemma RecoverableIff(cfg: Config, s: Session)
    requires cfg.Valid() && (s.v.state == Open ==> Warm(cfg, s.v))
    ensures Recoverable(cfg, s) <==> !s.v.closed && (s.v.state == Open ==> HealsInTime(cfg, s))
  {
    if s.v.closed {
      forall es ensures !Admits(cfg, s, es) {
        if Respects(cfg, s, es) {
          ClosedStays(cfg, s, es);
        }
      }
    } else if s.v.state != Open {
      assert Admits(cfg, s, []);
    } else if HealsInTime(cfg, s) {
      var es := FeedBaseline(cfg, s);
    } else {
      forall es ensures !Admits(cfg, s, es) {
        if Respects(cfg, s, es) {
          StuckStays(cfg, s, s.v.cur - s.v.base, s.v.base, es);
        }
      }
    }
  }

  // ---------------------------------------------------------------------------
  // Which configurations can get stuck
  // ---------------------------------------------------------------------------

  /** The largest smoothed time over the smallest baseline: smoothing toward the maximum stops 7 short. */
  const TOP := MAX_RTT - 7

  ghost function Start(each: nat): Session {
    Session(INITIAL, 0, each)
  }

  /** The run respects the contract, does not close the breaker, and leaves it beyond recovery. */
  ghost predicate Strands(cfg: Config, each: nat, es: seq<Event>) {
    && Respects(cfg, Start(each), es)
    && (var s := SessionRun(cfg, Start(each), es); !s.v.closed && !Recoverable(cfg, s))
  }

  /** Closed and staying so at a latency that is not plausible, such as that of `MarkSuccess`. */
  ghost predicate Quiet(cfg: Config, v: Breaker) {
    v.state == Closed && !v.closed && Evaluate(cfg, v) == v
  }

  /** Idle, with the smallest baseline. */
  ghost predicate Climbing(cfg: Config, v: Breaker) {
    Quiet(cfg, v) && v.base == MIN_RTT && MIN_RTT <= v.cur <= TOP
  }

  lemma Climb(cfg: Config, v: Breaker)
    requires cfg.Valid() && Climbing(cfg, v) && cfg.alpha < Inflation(TOP - MIN_RTT, MIN_RTT)
    ensures var w := Step(cfg, v, Failure);
            && w.samples == v.samples + 1
            && (v.cur < TOP ==> w.cur > v.cur)
            && (if w.state == Open then OpenAndWarm(cfg, w) && !w.closed
                else Climbing(cfg, w) && (w.cur == TOP ==> w.samples < cfg.warmup))
  {
  }

  /** A request's outcomes: latencies that change nothing, and a last one that counts. */
  lemma {:induction false} LastOutcome(cfg: Config, s: Session, op: Op, es: seq<Event>) returns (all: seq<Event>)
    requires Quiet(cfg, s.v) && s.outstanding > 0 && !op.Close?
    requires Respects(cfg, Session(Step(cfg, s.v, op), 0, s.each), es)
    ensures Respects(cfg, s, all)
    ensures SessionRun(cfg, s, all) == SessionRun(cfg, Session(Step(cfg, s.v, op), 0, s.each), es)
    decreases s.outstanding
  {
    if s.outstanding == 1 {
      all := [Outcome(op)] + es;
      RunCons(cfg, s, Outcome(op), es);
    } else {
      var t := SessionStep(cfg, s, Outcome(Latency(0)));
      var rest := LastOutcome(cfg, t, op, es);
      all := [Outcome(Latency(0))] + rest;
      RunCons(cfg, s, Outcome(Latency(0)), rest);
    }
  }

  lemma RequestThen(cfg: Config, v: Breaker, each: nat, op: Op, es: seq<Event>) returns (all: seq<Event>)
    requires Quiet(cfg, v) && each > 0 && !op.Close? && Respects(cfg, Session(Step(cfg, v, op), 0, each), es)
    ensures Respects(cfg, Session(v, 0, each), all)
    ensures SessionRun(cfg, Session(v, 0, each), all) == SessionRun(cfg, Session(Step(cfg, v, op), 0, each), es)
  {
    var rest := LastOutcome(cfg, Session(v, each, each), op, es);
    all := [Request] + rest;
    RunCons(cfg, Session(v, 0, each), Request, rest);
  }

  /** Failing requests, one after the other, until the breaker opens. */
  lemma {:induction false} ClimbToOpen(cfg: Config, v: Breaker, each: nat) returns (es: seq<Event>)
    requires cfg.Valid() && Climbing(cfg, v) && each > 0 && cfg.alpha < Inflation(TOP - MIN_RTT, MIN_RTT)
    ensures Respects(cfg, Session(v, 0, each), es)
    ensures var e := SessionRun(cfg, Session(v, 0, each), es);
            OpenAndWarm(cfg, e.v) && !e.v.closed && e.outstanding == 0
    decreases TOP - v.cur + if v.samples < cfg.warmup then cfg.warmup - v.samples else 0
  {
    Climb(cfg, v);
    var w := Step(cfg, v, Failure);
    es := [];
    if w.state != Open {
      es := ClimbToOpen(cfg, w, each);
    }
    es := RequestThen(cfg, v, each, Failure, es);
  }

  /** Closed, with the inflation that plausible times can give. */
  ghost predicate Tame(v: Breaker) {
    && v.state == Closed
    && (v.base == v.cur == 0 || MIN_RTT <= v.base <= v.cur <= MAX_RTT)
    && (v.base == MIN_RTT ==> v.cur <= TOP)
  }

  lemma TameInflation(v: Breaker)
    requires Tame(v) && v.base > 0
    ensures Inflation(v.cur - v.base, v.base) <= Inflation(TOP - MIN_RTT, MIN_RTT)
  {
    var x, b := Inflation(v.cur - v.base, v.base), v.base as real;
    var y, m := Inflation(TOP - MIN_RTT, MIN_RTT), MIN_RTT as real;
    assert x * b == (v.cur - v.base) as real && y * m == (TOP - MIN_RTT) as real;
    assert (v.cur - v.base) * MIN_RTT <= (TOP - MIN_RTT) * v.base;
    Unscale(x, y, b);
  }

  lemma StaysTame(cfg: Config, v: Breaker, op: Op)
    requires cfg.Valid() && Tame(v) && cfg.alpha >= Inflation(TOP - MIN_RTT, MIN_RTT)
    ensures Tame(Step(cfg, v, op))
  {
    var w := match op case Latency(rtt) => Update(v, rtt) case Failure => Update(v, MAX_RTT) case Close => v;
    assert Tame(w);
    if w.base > 0 {
      TameInflation(w);
    }
  }

  lemma {:induction false} TameRun(cfg: Config, s: Session, es: seq<Event>)
    requires cfg.Valid() && Tame(s.v) && cfg.alpha >= Inflation(TOP - MIN_RTT, MIN_RTT) && Respects(cfg, s, es)
    ensures SessionRun(cfg, s, es).v.state == Closed
    decreases |es|
  {
    if es != [] {
      if es[0].Outcome? {
        StaysTame(cfg, s.v, es[0].op);
      }
      TameRun(cfg, SessionStep(cfg, s, es[0]), es[1..]);
    }
  }

  /** However many outcomes a request brings, some contract-respecting run strands the breaker, open with
      nothing outstanding and no way back, exactly when alpha is below 29998.999993, the largest inflation
      that plausible times reach. */
  lemma StrandsIff(cfg: Config, each: nat)
    requires cfg.Valid() && each > 0
    ensures (exists es :: Strands(cfg, each, es)) <==> cfg.alpha < 29998.999993
  {
    assert Inflation(TOP - MIN_RTT, MIN_RTT) == 29998.999993;
    if cfg.alpha < 29998.999993 {
      var first := Step(cfg, INITIAL, Latency(MIN_RTT));
      InflationOrder(0, 0, MIN_RTT);
      assert Climbing(cfg, first);
      var es := ClimbToOpen(cfg, first, each);
      RecoverableIff(cfg, SessionRun(cfg, Session(first, 0, each), es));
      es := RequestThen(cfg, INITIAL, each, Latency(MIN_RTT), es);
      assert Strands(cfg, each, es);
    } else {
      forall es ensures !Strands(cfg, each, es) {
        if Respects(cfg, Start(each), es) {
          TameRun(cfg, Start(each), es);
          RecoverableIff(cfg, SessionRun(cfg, Start(each), es));
        }
      }
    }
  }

  // ---------------------------------------------------------------------------
  // The breaker object
  // ---------------------------------------------------------------------------

  class VegasBreaker {
    const cfg: Config
    var baseRTT: int
    var currentRTT: int
    var sampleCount: int
    var state: State
    var closed: bool

    ghost function View(): Breaker
      reads this
    {
      Breaker(baseRTT, currentRTT, sampleCount, state, closed)
    }

    ghost predicate Valid()
      reads this
    {
      cfg.Valid() && 0 <= baseRTT && 0 <= currentRTT
    }

    constructor (cfg: Config)
      requires cfg.Valid()
      ensures Valid() && this.cfg == cfg && View() == INITIAL
    {
      this.cfg := cfg;
      baseRTT, currentRTT, sampleCount, state, closed := 0, 0, 0, Closed, false;
    }

    method Allow() returns (ok: bool)
      ensures ok <==> Allows(View())
    {
      if closed {
        return false;
      }
      if state == Open {
        return false;
      }
      return true;
    }

    method MarkFailure()
      requires Valid()
      modifies this
      ensures Valid() && View() == Step(cfg, old(View()), Failure)
    {
      if state == HalfOpen {
        state := Open;
        return;
      }
      UpdateLocked(MAX_RTT);
      EvaluateLocked();
    }

    method RecordLatency(rtt: int)
      requires Valid()
      modifies this
      ensures Valid() && View() == Step(cfg, old(View()), Latency(rtt))
    {
      if state == HalfOpen {
        state := Closed;
      }
      UpdateLocked(rtt);
      EvaluateLocked();
    }

    method UpdateLocked(rtt: int)
      requires Valid()
      modifies this`baseRTT, this`currentRTT, this`sampleCount
      ensures Valid() && View() == Update(old(View()), rtt)
    {
      if rtt < MIN_RTT || rtt > MAX_RTT {
        return;
      }
      sampleCount := sampleCount + 1;
      if currentRTT == 0 {
        currentRTT := rtt;
      } else {
        currentRTT := (currentRTT as real * 0.875 + rtt as real * 0.125).Floor;
      }
      if baseRTT == 0 || rtt < baseRTT {
        baseRTT := rtt;
      }
    }

    method EvaluateLocked()
      requires Valid()
      modifies this`state
      ensures View() == Evaluate(cfg, old(View()))
    {
      if sampleCount < cfg.warmup || baseRTT == 0 {
        return;
      }
      var inflation := (currentRTT - baseRTT) as real / baseRTT as real;
      match state {
        case Closed =>
          if inflation > cfg.alpha {
            state := Open;
          }
        case Open =>
          if inflation < cfg.beta {
            state := HalfOpen;
          }
        case HalfOpen =>
          if inflation < cfg.beta {
            state := Closed;
          } else if inflation > cfg.alpha {
            state := Open;
          }
      }
    }
  }
}
