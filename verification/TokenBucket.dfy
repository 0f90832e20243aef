/** The token-bucket limiter in exact arithmetic: no operation is rounded, except that a wait is converted
    to a 64-bit duration, by any conversion that the language allows. Time is in integer nanoseconds and
    may go backwards. `TokenLimiter` is the limiter with rounded operations, as the code computes.

    This form counts in nanoseconds of credit instead of tokens: a token costs `SECOND / rate`
    nanoseconds, and the bucket holds at most `burst` tokens' worth. */
module TokenBucket {
  import opened Floats
  import opened Int64
  import TokenMachine

  const SECOND: real := 1000000000.0

  /** What one token costs and what a full bucket holds, both in nanoseconds of credit, and how the
      platform converts a wait. */
  datatype Pace = Pace(cost: real, cap: real, conv: real -> int)
  {
    ghost predicate Valid() {
      cost > 0.0 && cap > 0.0 && Conversion(conv)
    }
  }

  datatype Bucket = Bucket(credit: real, last: int)

  datatype TakeResult = TakeResult(bucket: Bucket, wait: int, consumed: bool)

  ghost predicate InRange(p: Pace, b: Bucket) {
    0.0 <= b.credit <= p.cap
  }

  /** The price of `n` tokens, as repeated addition. */
  ghost function Price(n: nat, cost: real): real {
    if n == 0 then 0.0 else cost + Price(n - 1, cost)
  }

  lemma {:induction false} PriceIsProduct(n: nat, cost: real)
    ensures Price(n, cost) == n as real * cost
  {
    if n > 0 {
      PriceIsProduct(n - 1, cost);
      assert n as real * cost == (n - 1) as real * cost + cost;
    }
  }

  lemma {:induction false} PriceOrder(m: nat, n: nat, cost: real)
    requires m <= n && cost > 0.0
    ensures Price(m, cost) <= Price(n, cost)
  {
    if m < n {
      PriceOrder(m, n - 1, cost);
    }
  }

  // ---------------------------------------------------------------------------
  // Specification of one call
  // ---------------------------------------------------------------------------

  ghost function Initial(p: Pace, now: int): Bucket {
    Bucket(p.cap, now)
  }

  ghost function Refill(p: Pace, b: Bucket, now: int): Bucket {
    if now <= b.last then b
    else Bucket(TokenMachine.Min(p.cap, b.credit + (now - b.last) as real), now)
  }

  ghost function Take(p: Pace, b: Bucket, now: int): TakeResult {
    var f := Refill(p, b, now);
    if f.credit >= p.cost then TakeResult(f.(credit := f.credit - p.cost), 0, true)
    else TakeResult(f, p.conv(p.cost - f.credit), false)
  }

  lemma TakeKeepsRange(p: Pace, b: Bucket, now: int)
    requires p.Valid() && InRange(p, b)
    ensures InRange(p, Take(p, b, now).bucket)
    ensures Take(p, b, now).bucket.last >= b.last
  {
  }

  // ---------------------------------------------------------------------------
  // Runs: a run is the sequence of clock readings of its calls
  // ---------------------------------------------------------------------------

  ghost function Run(p: Pace, b: Bucket, times: seq<int>): Bucket
    decreases |times|
  {
    if times == [] then b else Run(p, Take(p, b, times[0]).bucket, times[1..])
  }

  /** Calls that took a token. */
  ghost function Consumed(p: Pace, b: Bucket, times: seq<int>): nat
    decreases |times|
  {
    if times == [] then 0
    else
      var r := Take(p, b, times[0]);
      (if r.consumed then 1 else 0) + Consumed(p, r.bucket, times[1..])
  }

  /** Calls that `Allow` and `Wait` let through: those whose wait is not positive. */
  ghost function Admitted(p: Pace, b: Bucket, times: seq<int>): nat
    decreases |times|
  {
    if times == [] then 0
    else
      var r := Take(p, b, times[0]);
      (if r.wait <= 0 then 1 else 0) + Admitted(p, r.bucket, times[1..])
  }

  /** Credit that arrived while the bucket was full. */
  ghost function Spilled(p: Pace, b: Bucket, times: seq<int>): real
    decreases |times|
  {
    if times == [] then 0.0
    else
      var f := Refill(p, b, times[0]);
      b.credit + (f.last - b.last) as real - f.credit + Spilled(p, Take(p, b, times[0]).bucket, times[1..])
  }

  /** Conservation over every run, whatever the clock does: what the bucket held at the start plus
      what arrived equals what it holds now plus what was paid for tokens plus what was spilled. */
  lemma {:induction false} Conservation(p: Pace, b: Bucket, times: seq<int>)
    requires p.Valid() && InRange(p, b)
    ensures InRange(p, Run(p, b, times))
    ensures Run(p, b, times).last >= b.last
    ensures Spilled(p, b, times) >= 0.0
    ensures b.credit + (Run(p, b, times).last - b.last) as real
         == Run(p, b, times).credit + Price(Consumed(p, b, times), p.cost) + Spilled(p, b, times)
    decreases |times|
  {
    if times != [] {
      var r := Take(p, b, times[0]);
      TakeKeepsRange(p, b, times[0]);
      Conservation(p, r.bucket, times[1..]);
    }
  }

  /** The rate bound on tokens taken between two states. */
  lemma IntervalBound(p: Pace, b: Bucket, times: seq<int>)
    requires p.Valid() && InRange(p, b)
    ensures Price(Consumed(p, b, times), p.cost) <= p.cap + (Run(p, b, times).last - b.last) as real
  {
    Conservation(p, b, times);
  }

  // ---------------------------------------------------------------------------
  // Admissions are not always consumptions: `wait` is truncated to whole nanoseconds, and to 64 bits
  // ---------------------------------------------------------------------------

  /** What is missing for a token, when that is a 64-bit number of nanoseconds. */
  ghost predicate WaitFits(p: Pace, b: Bucket, now: int) {
    Refill(p, b, now).credit < p.cost ==> p.cost - Refill(p, b, now).credit < TWO_63 as real
  }

  /** A call is let through without taking a token exactly when the refilled bucket lacks less
      than one nanosecond of credit, unless it lacks more than a duration can say. */
  lemma FreeAdmissionIff(p: Pace, b: Bucket, now: int)
    requires p.Valid() && InRange(p, b) && WaitFits(p, b, now)
    ensures var r := Take(p, b, now);
            && r.wait >= 0
            && (r.wait <= 0 && !r.consumed <==> p.cost - 1.0 < Refill(p, b, now).credit < p.cost)
  {
    var x := p.cost - Refill(p, b, now).credit;
    assert x > 0.0 ==> p.conv(x) == x.Floor;
  }

  /** The paces that limit admissions. A bucket that never holds a whole token must stay at least a
      nanosecond short of one; otherwise the cost and the capacity are whole nanoseconds. What may be
      missing fits in 64 bits. */
  ghost predicate Limiting(cost: real, cap: real) {
    if cap < cost then 1.0 <= cost - cap < TWO_63 as real
    else Whole(cost) && Whole(cap) && cost < TWO_63 as real
  }

  /** The states a limiting pace can be in. */
  ghost predicate OnGrid(p: Pace, b: Bucket) {
    InRange(p, b) && if p.cap < p.cost then b.credit == p.cap else Whole(b.credit)
  }

  lemma GridStep(p: Pace, b: Bucket, now: int)
    requires p.Valid() && Limiting(p.cost, p.cap) && OnGrid(p, b)
    ensures OnGrid(p, Take(p, b, now).bucket)
    ensures Take(p, b, now).wait <= 0 <==> Take(p, b, now).consumed
    ensures Take(p, b, now).wait >= 0
  {
    TakeKeepsRange(p, b, now);
    FreeAdmissionIff(p, b, now);
    if p.cap >= p.cost {
      var f := Refill(p, b, now);
      WholeAdd(b.credit, now - b.last);
      WholeAdd(f.credit, -p.cost.Floor);
      WholeAdd(p.cost, -f.credit.Floor);
    }
  }

  lemma WholeAdd(x: real, k: int)
    requires Whole(x)
    ensures Whole(x + k as real)
  {
    assert x + k as real == (x.Floor + k) as real;
  }

  /** In exact arithmetic, at a limiting pace every admission takes a token, so the rate bound holds between
      any two states of any run. */
  lemma {:induction false} LimitingRun(p: Pace, b: Bucket, times: seq<int>)
    requires p.Valid() && Limiting(p.cost, p.cap) && OnGrid(p, b)
    ensures OnGrid(p, Run(p, b, times))
    ensures Admitted(p, b, times) == Consumed(p, b, times)
    decreases |times|
  {
    if times != [] {
      GridStep(p, b, times[0]);
      LimitingRun(p, Take(p, b, times[0]).bucket, times[1..]);
    }
  }

  lemma {:induction false} RunAppend(p: Pace, b: Bucket, xs: seq<int>, ys: seq<int>)
    ensures Run(p, b, xs + ys) == Run(p, Run(p, b, xs), ys)
    ensures Admitted(p, b, xs + ys) == Admitted(p, b, xs) + Admitted(p, Run(p, b, xs), ys)
    decreases |xs|
  {
    if xs == [] {
      assert xs + ys == ys;
    } else {
      assert (xs + ys)[1..] == xs[1..] + ys;
      RunAppend(p, Take(p, b, xs[0]).bucket, xs[1..], ys);
    }
  }

  /** Lacking credit, but by an amount that converts to no wait. */
  ghost predicate Flooding(p: Pace, b: Bucket) {
    InRange(p, b) && b.credit < p.cost && p.conv(p.cost - b.credit) <= 0
  }

  /** Lacking less than a nanosecond, or on x86-64 more than a duration can say. */
  lemma FloodsWhen(p: Pace, b: Bucket)
    requires p.Valid() && InRange(p, b) && b.credit < p.cost
    requires b.credit > p.cost - 1.0 || (p.conv == Indefinite && p.cost - b.credit >= TWO_63 as real)
    ensures Flooding(p, b)
  {
    var x := p.cost - b.credit;
    assert x < 1.0 ==> p.conv(x) == x.Floor == 0;
  }

  /** At one instant, a flooding bucket lets every caller through. */
  lemma {:induction false} Flood(p: Pace, b: Bucket, n: nat)
    requires p.Valid() && Flooding(p, b)
    ensures Run(p, b, TokenMachine.Repeat(b.last, n)) == b
    ensures Admitted(p, b, TokenMachine.Repeat(b.last, n)) == n
  {
    if n > 0 {
      assert TokenMachine.Repeat(b.last, n)[1..] == TokenMachine.Repeat(b.last, n - 1);
      Flood(p, b, n - 1);
    }
  }

  /** Taking at one instant until less than a token is left. */
  lemma {:induction false} Drain(p: Pace, b: Bucket, bound: nat) returns (times: seq<int>, n: nat)
    requires p.Valid() && InRange(p, b) && b.credit < Price(bound, p.cost)
    ensures Run(p, b, times) == b.(credit := b.credit - Price(n, p.cost))
    ensures 0.0 <= b.credit - Price(n, p.cost) < p.cost
    decreases bound
  {
    if b.credit < p.cost {
      times, n := [], 0;
    } else {
      var rest, n' := Drain(p, b.(credit := b.credit - p.cost), bound - 1);
      times, n := [b.last] + rest, n' + 1;
      assert times[1..] == rest;
    }
  }

  /** From a part-filled bucket that can hold a token, stopping at the last whole nanosecond before
      the token is complete reaches a flooding state, unless it completes on a whole nanosecond. */
  lemma FillUp(p: Pace, b: Bucket) returns (times: seq<int>)
    requires p.Valid() && p.cap >= p.cost && 0.0 <= b.credit < p.cost
    ensures Flooding(p, Run(p, b, times)) || (Whole(p.cost - b.credit) && Run(p, b, times).credit == 0.0)
  {
    var k := (p.cost - b.credit).Floor;
    times := if k == 0 then [] else [b.last + k];
    if k > 0 {
      assert times[1..] == [];
      assert Run(p, b, times) == Take(p, b, b.last + k).bucket;
      assert Refill(p, b, b.last + k) == Bucket(b.credit + k as real, b.last + k);
    }
    var e := Run(p, b, times);
    if e.credit != 0.0 || !Whole(p.cost - b.credit) {
      FloodsWhen(p, e);
    }
  }

  /** At a pace that does not limit, some run from the initial state reaches a flooding state. */
  lemma UnlimitedFloods(p: Pace, start: int) returns (times: seq<int>)
    requires p.Valid() && p.conv == Indefinite && !Limiting(p.cost, p.cap)
    ensures Flooding(p, Run(p, Initial(p, start), times))
  {
    var b := Initial(p, start);
    if p.cap < p.cost {
      FloodsWhen(p, b);
      times := [];
    } else {
      var bound := Multiple(p.cap, p.cost);
      var drained, n := Drain(p, b, bound);
      var e := Run(p, b, drained);
      var first := FillUp(p, e);
      RunAppend(p, b, drained, first);
      times := drained + first;
      if !Flooding(p, Run(p, b, times)) {
        times := EmptyFloods(p, b, times, n);
      }
    }
  }

  /** The second lap of the run above, from the empty bucket. */
  lemma EmptyFloods(p: Pace, b: Bucket, before: seq<int>, n: nat) returns (times: seq<int>)
    requires p.Valid() && p.conv == Indefinite && p.cap >= p.cost && !Limiting(p.cost, p.cap)
    requires Run(p, b, before).credit == 0.0 && Whole(p.cost - (p.cap - Price(n, p.cost)))
    ensures Flooding(p, Run(p, b, times))
  {
    var z := Run(p, b, before);
    if p.cost >= TWO_63 as real {
      FloodsWhen(p, z);
      return before;
    }
    var more := FillUp(p, z);
    RunAppend(p, b, before, more);
    times := before + more;
    if Whole(p.cost) {
      WholeCap(n, p.cost, p.cap);
    }
  }

  lemma WholeCap(n: nat, cost: real, cap: real)
    requires Whole(cost) && Whole(cost - (cap - Price(n, cost)))
    ensures Whole(cap)
  {
    WholePrice(n, cost);
    WholeAdd(cost + Price(n, cost), -(cost - (cap - Price(n, cost))).Floor);
  }

  lemma {:induction false} WholePrice(n: nat, cost: real)
    requires Whole(cost)
    ensures Whole(Price(n, cost)) && Whole(cost + Price(n, cost))
  {
    if n > 0 {
      WholePrice(n - 1, cost);
    }
    WholeAdd(Price(n, cost), cost.Floor);
  }

  ghost predicate AdmissionsBounded(p: Pace, start: int, times: seq<int>) {
    Price(Admitted(p, Initial(p, start), times), p.cost)
    <= p.cap + (Run(p, Initial(p, start), times).last - start) as real
  }

  /** On whatever platform, the rate bound on admissions holds over every run. */
  ghost predicate AlwaysBounded(cost: real, cap: real) {
    forall conv, start, times :: Conversion(conv) ==> AdmissionsBounded(Pace(cost, cap, conv), start, times)
  }

  lemma LimitingBounds(p: Pace, start: int, times: seq<int>)
    requires p.Valid() && Limiting(p.cost, p.cap)
    ensures AdmissionsBounded(p, start, times)
  {
    LimitingRun(p, Initial(p, start), times);
    IntervalBound(p, Initial(p, start), times);
  }

  lemma UnlimitedExceeds(p: Pace) returns (times: seq<int>)
    requires p.Valid() && p.conv == Indefinite && !Limiting(p.cost, p.cap)
    ensures !AdmissionsBounded(p, 0, times)
  {
    var b := Initial(p, 0);
    var first := UnlimitedFloods(p, 0);
    var e := Run(p, b, first);
    var n := Multiple(p.cap + e.last as real, p.cost);
    times := first + TokenMachine.Repeat(e.last, n);
    Flood(p, e, n);
    RunAppend(p, b, first, TokenMachine.Repeat(e.last, n));
    PriceOrder(n, Admitted(p, b, times), p.cost);
  }

  /** In exact arithmetic the rate bound on admissions holds over every run exactly at the limiting paces. */
  lemma AdmissionBoundIff(cost: real, cap: real)
    requires cost > 0.0 && cap > 0.0
    ensures AlwaysBounded(cost, cap) <==> Limiting(cost, cap)
  {
    Conversions();
    var p := Pace(cost, cap, Indefinite);
    if Limiting(p.cost, p.cap) {
      forall conv, start, times | Conversion(conv) ensures AdmissionsBounded(Pace(cost, cap, conv), start, times) {
        LimitingBounds(Pace(cost, cap, conv), start, times);
      }
    } else {
      var times := UnlimitedExceeds(p);
    }
  }

  /** Some number of tokens costs more than any bound. */
  lemma Multiple(bound: real, cost: real) returns (n: nat)
    requires cost > 0.0
    ensures Price(n, cost) > bound
  {
    var q := bound / cost;
    assert q * cost == bound;
    n := if q < 0.0 then 0 else q.Floor + 1;
    PriceIsProduct(n, cost);
    ScaleOrder(n as real, q, cost);
  }

  // ---------------------------------------------------------------------------
  // Waiting
  // ---------------------------------------------------------------------------

  /** In exact arithmetic, wherever calls can pass at all, sleeping for the returned wait is enough when
      nobody else takes and the clock moves on by it; at a limiting pace the retry then takes a token. */
  lemma WaitSuffices(p: Pace, b: Bucket, now: int)
    requires p.Valid() && InRange(p, b) && p.cap + 1.0 > p.cost && now >= b.last && WaitFits(p, b, now)
    requires !Take(p, b, now).consumed
    ensures var r := Take(p, b, now); r.wait >= 0 && Take(p, r.bucket, now + r.wait).wait == 0
    ensures var r := Take(p, b, now);
            Limiting(p.cost, p.cap) && OnGrid(p, b) ==> Take(p, r.bucket, now + r.wait).consumed
  {
    var r := Take(p, b, now);
    FreeAdmissionIff(p, b, now);
    TakeKeepsRange(p, b, now);
    TakeKeepsRange(p, r.bucket, now + r.wait);
    FreeAdmissionIff(p, r.bucket, now + r.wait);
    if Limiting(p.cost, p.cap) && OnGrid(p, b) {
      GridStep(p, b, now);
      GridStep(p, r.bucket, now + r.wait);
    }
  }

  /** On whatever platform, some reading lets a waiter through. */
  ghost predicate EventuallyAdmitted(cost: real, cap: real, b: Bucket) {
    forall conv :: Conversion(conv) ==> exists now :: Take(Pace(cost, cap, conv), b, now).wait <= 0
  }

  /** In exact arithmetic a waiter can ever be let through, on whatever platform, exactly when a full bucket
      lets callers through. */
  lemma EventuallyAdmittedIff(cost: real, cap: real, b: Bucket)
    requires cost > 0.0 && cap > 0.0 && 0.0 <= b.credit <= cap
    ensures EventuallyAdmitted(cost, cap, b) <==> cap + 1.0 > cost
  {
    Conversions();
    if cap + 1.0 > cost {
      forall conv | Conversion(conv) ensures exists now :: Take(Pace(cost, cap, conv), b, now).wait <= 0 {
        var p, now := Pace(cost, cap, conv), b.last + cap.Floor + 1;
        assert Refill(p, b, now).credit == cap;
        FreeAdmissionIff(p, b, now);
        assert Take(p, b, now).wait <= 0;
      }
    } else {
      var p := Pace(cost, cap, Saturating);
      forall now ensures Take(p, b, now).wait > 0 {
        var x := cost - Refill(p, b, now).credit;
        assert x >= 1.0;
      }
    }
  }

  // ---------------------------------------------------------------------------
  // In tokens
  // ---------------------------------------------------------------------------

  /** The pace of a configured rate (tokens a second) and burst (tokens). */
  ghost function PaceOf(rate: real, burst: real, conv: real -> int): (p: Pace)
    requires rate > 0.0 && burst > 0.0 && Conversion(conv)
    ensures p.Valid()
    ensures p.cap >= p.cost <==> burst >= 1.0
  {
    var cost := SECOND / rate;
    assert cost > 0.0 && burst * cost > 0.0;
    assert burst * cost >= cost <==> burst >= 1.0 by { ScaleOrder(burst, 1.0, cost); }
    Pace(cost, burst * cost, conv)
  }

  lemma ScaleOrder(x: real, y: real, cost: real)
    requires cost > 0.0
    ensures x * cost <= y * cost <==> x <= y
    ensures x * cost >= y * cost <==> x >= y
    ensures x * cost == y * cost <==> x == y
  {
    if x < y { assert (y - x) * cost > 0.0; }
    if x > y { assert (x - y) * cost > 0.0; }
  }

  /** The documented bound: at most `burst + rate * elapsed` admissions. */
  ghost predicate WithinRate(rate: real, burst: real, admitted: nat, elapsed: int) {
    admitted as real <= burst + rate * (elapsed as real / SECOND)
  }

  ghost predicate RateBounded(rate: real, burst: real, conv: real -> int, start: int, times: seq<int>)
    requires rate > 0.0 && burst > 0.0 && Conversion(conv)
  {
    var p := PaceOf(rate, burst, conv);
    WithinRate(rate, burst, Admitted(p, Initial(p, start), times), Run(p, Initial(p, start), times).last - start)
  }

  lemma BoundUnits(rate: real, burst: real, conv: real -> int, start: int, times: seq<int>)
    requires rate > 0.0 && burst > 0.0 && Conversion(conv)
    ensures RateBounded(rate, burst, conv, start, times) <==>
            AdmissionsBounded(PaceOf(rate, burst, conv), start, times)
  {
    var p := PaceOf(rate, burst, conv);
    var n := Admitted(p, Initial(p, start), times);
    var dt := (Run(p, Initial(p, start), times).last - start) as real;
    PriceUnits(rate, burst, n, dt);
  }

  lemma PriceUnits(rate: real, burst: real, n: nat, dt: real)
    requires rate > 0.0 && burst > 0.0
    ensures n as real <= burst + rate * (dt / SECOND) <==> Price(n, SECOND / rate) <= burst * (SECOND / rate) + dt
  {
    PriceIsProduct(n, SECOND / rate);
    ScaleUnits(rate, burst, n as real, dt);
  }

  ghost predicate RateAlwaysBounded(rate: real, burst: real)
    requires rate > 0.0 && burst > 0.0
  {
    forall conv, start, times :: Conversion(conv) ==> RateBounded(rate, burst, conv, start, times)
  }

  /** In tokens and seconds, the bound over all runs and on whatever platform is the documented one: at
      most `burst + rate * elapsed` admissions. With `cost` = 10^9 / rate nanoseconds a token, and in exact
      arithmetic, it holds exactly when `cost` and `burst * cost` are whole numbers and `cost` is below
      2^63, or, for a burst below one token, when the missing `cost - burst * cost` is at least one and
      below 2^63. */
  lemma ExactRateBoundIff(rate: real, burst: real)
    requires rate > 0.0 && burst > 0.0
    ensures RateAlwaysBounded(rate, burst) <==> (var cost := SECOND / rate; Limiting(cost, burst * cost))
    ensures burst * (SECOND / rate) < SECOND / rate <==> burst < 1.0
  {
    AlwaysUnits(rate, burst);
    PositivePace(rate, burst);
    AdmissionBoundIff(SECOND / rate, burst * (SECOND / rate));
  }

  lemma PositivePace(rate: real, burst: real)
    requires rate > 0.0 && burst > 0.0
    ensures SECOND / rate > 0.0 && burst * (SECOND / rate) > 0.0
    ensures burst * (SECOND / rate) < SECOND / rate <==> burst < 1.0
  {
    ScaleOrder(burst, 1.0, SECOND / rate);
  }

  lemma AlwaysUnits(rate: real, burst: real)
    requires rate > 0.0 && burst > 0.0
    ensures RateAlwaysBounded(rate, burst) <==> AlwaysBounded(SECOND / rate, burst * (SECOND / rate))
  {
    var cost, cap := SECOND / rate, burst * (SECOND / rate);
    if AlwaysBounded(cost, cap) {
      forall conv, start, times | Conversion(conv) ensures RateBounded(rate, burst, conv, start, times) {
        assert AdmissionsBounded(Pace(cost, cap, conv), start, times);
        BoundUnits(rate, burst, conv, start, times);
      }
    }
    if RateAlwaysBounded(rate, burst) {
      forall conv, start, times | Conversion(conv) ensures AdmissionsBounded(Pace(cost, cap, conv), start, times) {
        assert RateBounded(rate, burst, conv, start, times);
        BoundUnits(rate, burst, conv, start, times);
      }
    }
  }

  lemma ScaleUnits(rate: real, burst: real, n: real, dt: real)
    requires rate > 0.0 && burst > 0.0
    ensures n <= burst + rate * (dt / SECOND) <==> n * (SECOND / rate) <= burst * (SECOND / rate) + dt
  {
    var cost := SECOND / rate;
    assert rate * cost == SECOND;
    var y := burst + rate * (dt / SECOND);
    assert y * cost == burst * cost + (rate * cost) * (dt / SECOND);
    assert y * cost == burst * cost + dt;
    ScaleOrder(n, y, cost);
  }

  lemma RefillUnits(rate: real, burst: real, tokens: real, dt: real)
    requires rate > 0.0
    ensures TokenMachine.Min(burst, tokens + dt / SECOND * rate) * (SECOND / rate)
         == TokenMachine.Min(burst * (SECOND / rate), tokens * (SECOND / rate) + dt)
  {
    var cost := SECOND / rate;
    assert rate * cost == SECOND;
    var y := tokens + dt / SECOND * rate;
    assert y * cost == tokens * cost + (dt / SECOND) * (rate * cost);
    assert y * cost == tokens * cost + dt;
    ScaleOrder(burst, y, cost);
  }

  lemma TakeUnits(rate: real, tokens: real)
    requires rate > 0.0
    ensures tokens >= 1.0 <==> tokens * (SECOND / rate) >= SECOND / rate
    ensures (tokens - 1.0) * (SECOND / rate) == tokens * (SECOND / rate) - SECOND / rate
    ensures (1.0 - tokens) / rate * SECOND == SECOND / rate - tokens * (SECOND / rate)
  {
    var cost := SECOND / rate;
    ScaleOrder(tokens, 1.0, cost);
    var q := (1.0 - tokens) / rate;
    assert q * rate == 1.0 - tokens;
    assert q * (rate * cost) == (1.0 - tokens) * cost;
    assert rate * cost == SECOND;
  }

  ghost function Refilled(rate: real, burst: real, tokens: real, dt: int): (t: real)
    requires rate > 0.0 && 0.0 <= tokens <= burst
    ensures 0.0 <= t <= burst
  {
    var elapsed := dt as real / SECOND;
    assert elapsed > 0.0 ==> elapsed * rate > 0.0;
    if elapsed > 0.0 then TokenMachine.Min(burst, tokens + elapsed * rate) else tokens
  }

  ghost function Credit(rate: real, tokens: real): real
    requires rate > 0.0
  {
    tokens * (SECOND / rate)
  }

  lemma RefillInTokens(rate: real, burst: real, conv: real -> int, tokens: real, last: int, now: int)
    requires rate > 0.0 && burst > 0.0 && Conversion(conv) && 0.0 <= tokens <= burst
    ensures Refill(PaceOf(rate, burst, conv), Bucket(Credit(rate, tokens), last), now)
         == Bucket(Credit(rate, Refilled(rate, burst, tokens, now - last)), if now > last then now else last)
  {
    RefillUnits(rate, burst, tokens, (now - last) as real);
  }

  /** A take at a bucket that holds `t` tokens once refilled. */
  lemma TakeFrom(rate: real, p: Pace, b: Bucket, now: int, t: real)
    requires rate > 0.0 && p.cost == SECOND / rate && Refill(p, b, now).credit == Credit(rate, t)
    ensures var r := Take(p, b, now);
            && r.bucket.credit == Credit(rate, if t >= 1.0 then t - 1.0 else t)
            && r.bucket.last == Refill(p, b, now).last
            && r.consumed == (t >= 1.0)
            && r.wait == if t >= 1.0 then 0 else p.conv((1.0 - t) / rate * SECOND)
  {
    TakeUnits(rate, t);
  }

  /** One take computed in tokens agrees with one take computed in credit. */
  lemma TakeInTokens(rate: real, burst: real, conv: real -> int, tokens: real, last: int, now: int)
    requires rate > 0.0 && burst > 0.0 && Conversion(conv) && 0.0 <= tokens <= burst
    ensures var t := Refilled(rate, burst, tokens, now - last);
            var r := Take(PaceOf(rate, burst, conv), Bucket(Credit(rate, tokens), last), now);
            && r.bucket.credit == Credit(rate, if t >= 1.0 then t - 1.0 else t)
            && r.bucket.last == (if now > last then now else last)
            && r.consumed == (t >= 1.0)
            && r.wait == if t >= 1.0 then 0 else conv((1.0 - t) / rate * SECOND)
  {
    var t := Refilled(rate, burst, tokens, now - last);
    RefillInTokens(rate, burst, conv, tokens, last, now);
    TakeFrom(rate, PaceOf(rate, burst, conv), Bucket(Credit(rate, tokens), last), now, t);
  }
}
