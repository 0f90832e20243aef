/** The token-bucket limiter as the code computes it: in tokens, with every floating-point operation
    rounded and the wait converted to a 64-bit duration as the platform does. `TokenBucket` is the same
    limiter in exact arithmetic. */
module TokenLimiter {
  import opened Floats
  import opened TokenMachine
  import TokenBucket

  /** Rate in tokens a second and burst in tokens; the burst is a float, which rounding leaves alone. */
  datatype Config = Config(rate: real, burst: real, arith: Arith)
  {
    ghost predicate Valid() {
      rate > 0.0 && burst > 0.0 && arith.Valid() && arith.rnd(burst) == burst
    }
  }

  // ---------------------------------------------------------------------------
  // The computations of a call
  // ---------------------------------------------------------------------------

  /** A duration in seconds: whole seconds, and the rounded fraction added to them. */
  function Seconds(rnd: real -> real, dt: int): real {
    var sec := if dt >= 0 then dt / 1000000000 else -(-dt / 1000000000);
    rnd(sec as real + rnd((dt - 1000000000 * sec) as real / 1000000000.0))
  }

  function Product(x: real, y: real): real {
    x * y
  }

  /** An amount with a product added to it, which is rounded first or not. */
  function Accrued(a: Arith, amount: real, gain: real): real {
    if a.fused then a.rnd(amount + gain) else a.rnd(amount + a.rnd(gain))
  }

  function WaitFor(a: Arith, rate: real, amount: real): int
    requires rate > 0.0
  {
    a.conv(a.rnd(a.rnd(a.rnd(1.0 - amount) / rate) * 1000000000.0))
  }

  ghost function MachineOf(c: Config): Machine
    requires c.rate > 0.0
  {
    Machine(c.burst,
            dt => Seconds(c.arith.rnd, dt),
            (x, e) => Accrued(c.arith, x, Product(e, c.rate)),
            x => c.arith.rnd(x - 1.0),
            x => WaitFor(c.arith, c.rate, x))
  }

  /** Time has passed exactly when the rounded number of seconds is positive. */
  lemma SecondsSign(rnd: real -> real, dt: int)
    requires Rounding(rnd)
    ensures Seconds(rnd, dt) > 0.0 <==> dt > 0
  {
    var sec := if dt >= 0 then dt / 1000000000 else -(-dt / 1000000000);
    var part := (dt - 1000000000 * sec) as real / 1000000000.0;
    KeepsSign(rnd, part);
    KeepsSign(rnd, sec as real + rnd(part));
  }

  lemma AccruedAtLeast(a: Arith, amount: real, gain: real)
    requires a.Valid() && gain >= 0.0
    ensures Accrued(a, amount, gain) >= a.rnd(amount)
  {
    KeepsSign(a.rnd, gain);
    Order(a.rnd, amount, amount + gain);
    Order(a.rnd, amount, amount + a.rnd(gain));
  }

  lemma ConfigSound(c: Config)
    requires c.Valid()
    ensures Sound(MachineOf(c))
  {
    var m, rnd := MachineOf(c), c.arith.rnd;
    forall dt ensures TellsTime(m, dt) {
      SecondsSign(rnd, dt);
    }
    forall x, e ensures AccrueKeeps(m, x, e) {
      if e > 0.0 && 0.0 <= x <= c.burst {
        assert Product(e, c.rate) > 0.0;
        AccruedAtLeast(c.arith, x, Product(e, c.rate));
        KeepsSign(rnd, x);
      }
    }
    forall x ensures SpendKeeps(m, x) {
      if 1.0 <= x <= c.burst {
        KeepsSign(rnd, x - 1.0);
        Order(rnd, x - 1.0, c.burst);
      }
    }
  }

  // ---------------------------------------------------------------------------
  // The limiter
  // ---------------------------------------------------------------------------

  lemma RunNext(m: Machine, s: Tokens, times: seq<int>, i: nat)
    requires i < |times|
    ensures Run(m, s, times[..i + 1]) == Take(m, Run(m, s, times[..i]), times[i]).tokens
  {
    assert times[..i + 1] == times[..i] + [times[i]];
    AppendCall(m, s, times[..i], times[i]);
  }

  lemma RunWhole(m: Machine, s: Tokens, times: seq<int>)
    ensures Run(m, s, times[..|times|]) == Run(m, s, times)
  {
    assert times[..|times|] == times;
  }

  class Limiter {
    const cfg: Config
    var tokens: real
    var last: int
    var closed: bool

    ghost predicate Valid()
      reads this
    {
      cfg.Valid() && 0.0 <= tokens <= cfg.burst
    }

    ghost function State(): Tokens
      reads this
    {
      Tokens(tokens, last)
    }

    constructor (cfg: Config, now: int)
      requires cfg.Valid()
      ensures this.cfg == cfg && Valid() && !closed && State() == Initial(MachineOf(cfg), now)
    {
      this.cfg := cfg;
      tokens, last, closed := cfg.burst, now, false;
    }

    method Replenish(now: int)
      requires Valid()
      modifies this`tokens, this`last
      ensures Valid() && State() == Refill(MachineOf(cfg), old(State()), now)
      ensures last == if now > old(last) then now else old(last)
    {
      ConfigSound(cfg);
      RefillKeeps(MachineOf(cfg), State(), now);
      var elapsed := Seconds(cfg.arith.rnd, now - last);
      if elapsed > 0.0 {
        tokens := Min(cfg.burst, Accrued(cfg.arith, tokens, Product(elapsed, cfg.rate)));
        last := now;
      }
    }

    method TakeLocked(now: int) returns (wait: int)
      requires Valid()
      modifies this`tokens, this`last
      ensures Valid()
      ensures var r := Take(MachineOf(cfg), old(State()), now); State() == r.tokens && wait == r.wait
      ensures last == if now > old(last) then now else old(last)
    {
      ConfigSound(cfg);
      TakeKeeps(MachineOf(cfg), State(), now);
      Replenish(now);
      if tokens >= 1.0 {
        tokens := cfg.arith.rnd(tokens - 1.0);
        return 0;
      }
      wait := WaitFor(cfg.arith, cfg.rate, tokens);
    }

    method Allow(now: int) returns (ok: bool)
      requires Valid()
      modifies this`tokens, this`last
      ensures Valid()
      ensures old(closed) ==> !ok && State() == old(State())
      ensures !old(closed) ==>
                var r := Take(MachineOf(cfg), old(State()), now);
                State() == r.tokens && (ok <==> r.wait <= 0)
    {
      if closed {
        return false;
      }
      var wait := TakeLocked(now);
      ok := wait <= 0;
    }

    /** The other callers between two tries of a waiter. */
    method Interfere(turn: Turn)
      requires Valid()
      modifies this
      ensures Valid() && State() == Run(MachineOf(cfg), old(State()), turn.others)
      ensures closed == (old(closed) || turn.closes)
    {
      ghost var m, start := MachineOf(cfg), State();
      for i := 0 to |turn.others|
        invariant Valid() && closed == old(closed) && State() == Run(m, start, turn.others[..i])
      {
        var _ := TakeLocked(turn.others[i]);
        RunNext(m, start, turn.others, i);
      }
      RunWhole(m, start, turn.others);
      closed := closed || turn.closes;
    }

    /** One try of a waiter, after the other callers. */
    method Try(turn: Turn) returns (passed: bool)
      requires Valid()
      modifies this
      ensures Valid() && closed == (old(closed) || turn.closes)
      ensures var m, s := MachineOf(cfg), old(State());
              && State() == Run(m, s, turn.others + if closed then [] else [turn.now])
              && (passed <==> !closed && Take(m, Run(m, s, turn.others), turn.now).wait <= 0)
    {
      ghost var m, s := MachineOf(cfg), State();
      Interfere(turn);
      if closed {
        assert turn.others + [] == turn.others;
        return false;
      }
      AppendCall(m, s, turn.others, turn.now);
      var wait := TakeLocked(turn.now);
      passed := wait <= 0;
    }

    /** `Wait`, with what other callers do before each try: it stops at the first take without a wait,
        at a closed limiter, or when the context ends after the last try. */
    method Wait(turns: seq<Turn>) returns (v: Verdict, tries: nat)
      requires Valid() && turns != []
      modifies this
      ensures Valid() && tries <= |turns|
      ensures Waited(MachineOf(cfg), old(State()), turns, tries, v, State())
      ensures old(closed) ==> v == Limited && tries == 0
      ensures v == Limited ==> old(closed) || turns[tries].closes
    {
      v, tries := Ended, 0;
      ghost var m, s := MachineOf(cfg), State();
      while tries < |turns|
        invariant tries <= |turns| && Valid() && closed == old(closed) && (closed ==> tries == 0)
        invariant Waiting(m, s, turns, tries, State())
      {
        WaitStep(m, s, turns, tries, State());
        var passed := Try(turns[tries]);
        if closed {
          return Limited, tries;
        }
        tries := tries + 1;
        if passed {
          return Passed, tries;
        }
      }
      WaitEnds(m, s, turns, State());
    }
  }

  datatype Created = InvalidConfig | Created(limiter: Limiter)

  method New(rate: real, burst: real, arith: Arith, now: int) returns (r: Created)
    requires arith.Valid() && arith.rnd(burst) == burst
    ensures r.InvalidConfig? <==> rate <= 0.0 || burst <= 0.0
    ensures r.Created? ==>
              && fresh(r.limiter) && r.limiter.Valid() && !r.limiter.closed
              && r.limiter.cfg == Config(rate, burst, arith)
              && r.limiter.State() == Initial(MachineOf(r.limiter.cfg), now)
  {
    if rate <= 0.0 || burst <= 0.0 {
      return InvalidConfig;
    }
    var l := new Limiter(Config(rate, burst, arith), now);
    return Created(l);
  }

  /** The documented bound over a run. */
  ghost predicate RateBounded(rate: real, m: Machine, start: int, times: seq<int>) {
    var s := Initial(m, start);
    TokenBucket.WithinRate(rate, m.burst, Admitted(m, s, times), Run(m, s, times).last - start)
  }

  ghost predicate AlwaysBounded(rate: real, m: Machine) {
    forall start, times :: RateBounded(rate, m, start, times)
  }

  // ---------------------------------------------------------------------------
  // Tokens taken, under any rounding
  // ---------------------------------------------------------------------------

  /** What a duration is worth in tokens. */
  ghost function Worth(rate: real, dt: int): real {
    rate * (dt as real / 1000000000.0)
  }

  lemma WorthAdds(rate: real, a: int, b: int)
    requires rate > 0.0
    ensures Worth(rate, a + b) == Worth(rate, a) + Worth(rate, b)
    ensures a >= 0 ==> Worth(rate, a) >= 0.0
  {
  }

  /** The seconds of a duration are off by at most three parts in 2^53. */
  lemma SecondsClose(rnd: real -> real, dt: nat)
    requires Rounding(rnd)
    ensures var t := dt as real / 1000000000.0; -3.0 * t <= 9007199254740992.0 * (Seconds(rnd, dt) - t) <= 3.0 * t
  {
    var sec := dt / 1000000000;
    var part := (dt - 1000000000 * sec) as real / 1000000000.0;
    Close(rnd, part);
    Close(rnd, sec as real + rnd(part));
  }

  lemma GainClose(rnd: real -> real, rate: real, dt: nat)
    requires Rounding(rnd) && rate > 0.0
    ensures var w := Worth(rate, dt);
            -3.0 * w <= 9007199254740992.0 * (Product(Seconds(rnd, dt), rate) - w) <= 3.0 * w
  {
    var t, e := dt as real / 1000000000.0, Seconds(rnd, dt);
    SecondsClose(rnd, dt);
    Stretch(9007199254740992.0 * (e - t), 3.0 * t, rate);
    Stretch(-3.0 * t, 9007199254740992.0 * (e - t), rate);
    assert 9007199254740992.0 * (e - t) * rate == 9007199254740992.0 * (e * rate - t * rate);
  }

  lemma Stretch(x: real, y: real, rate: real)
    requires x <= y && rate > 0.0
    ensures x * rate <= y * rate
    ensures x < y ==> x * rate < y * rate
  {
    assert (y - x) * rate >= 0.0;
    assert x < y ==> (y - x) * rate > 0.0;
  }

  lemma AccruedBound(a: Arith, amount: real, gain: real, w: real)
    requires a.Valid() && amount >= 0.0 && gain >= 0.0 && w >= 0.0
    requires 9007199254740992.0 * (gain - w) <= 3.0 * w
    ensures 9007199254740992.0 * (Accrued(a, amount, gain) - amount - w) <= amount + 6.0 * w
  {
    Close(a.rnd, gain);
    if a.fused {
      Close(a.rnd, amount + gain);
    } else {
      Close(a.rnd, amount + a.rnd(gain));
    }
  }

  lemma AccruedWorth(c: Config, x: real, dt: nat)
    requires c.Valid() && x >= 0.0 && dt > 0
    ensures var w := Worth(c.rate, dt);
            && w >= 0.0
            && (var y := Accrued(c.arith, x, Product(Seconds(c.arith.rnd, dt), c.rate));
                9007199254740992.0 * (y - x - w) <= x + 6.0 * w)
  {
    SecondsSign(c.arith.rnd, dt);
    WorthAdds(c.rate, dt, 0);
    GainClose(c.arith.rnd, c.rate, dt);
    AccruedBound(c.arith, x, Product(Seconds(c.arith.rnd, dt), c.rate), Worth(c.rate, dt));
  }

  lemma RefillBound(c: Config, s: Tokens, now: int)
    requires c.Valid() && InRange(MachineOf(c), s)
    ensures var f := Refill(MachineOf(c), s, now);
            var w := Worth(c.rate, f.last - s.last);
            w >= 0.0 && 9007199254740992.0 * (f.amount - s.amount - w) <= c.burst + 6.0 * w
  {
    SecondsSign(c.arith.rnd, now - s.last);
    if now > s.last {
      AccruedWorth(c, s.amount, now - s.last);
    } else {
      WorthAdds(c.rate, 0, 0);
    }
  }

  /** What a take may add beyond the worth of the time passed. */
  ghost predicate TakeBounded(m: Machine, rate: real, s: Tokens, now: int) {
    var r := Take(m, s, now);
    var w := Worth(rate, r.tokens.last - s.last);
    var n := if r.consumed then 1.0 else 0.0;
    w >= 0.0 && 9007199254740992.0 * (n + r.tokens.amount - s.amount - w) <= 2.0 * m.burst + 6.0 * w
  }

  lemma TakeBound(c: Config, s: Tokens, now: int)
    requires c.Valid() && InRange(MachineOf(c), s)
    ensures TakeBounded(MachineOf(c), c.rate, s, now)
  {
    var f := Refill(MachineOf(c), s, now);
    ConfigSound(c);
    RefillKeeps(MachineOf(c), s, now);
    RefillBound(c, s, now);
    if f.amount >= 1.0 {
      Close(c.arith.rnd, f.amount - 1.0);
    }
  }

  ghost predicate RunBounded(m: Machine, rate: real, s: Tokens, times: seq<int>) {
    var e := Run(m, s, times);
    var w := Worth(rate, e.last - s.last);
    && w >= 0.0
    && 9007199254740992.0 * (Consumed(m, s, times) as real + e.amount - s.amount - w)
       <= 6.0 * w + TokenBucket.Price(|times|, 2.0 * m.burst)
  }

  lemma {:induction false} BoundsAdd(m: Machine, rate: real, s: Tokens, times: seq<int>)
    requires Sound(m) && rate > 0.0 && InRange(m, s)
    requires forall x, now :: InRange(m, x) ==> TakeBounded(m, rate, x, now)
    ensures RunBounded(m, rate, s, times)
    decreases |times|
  {
    if times == [] {
      WorthAdds(rate, 0, 0);
    } else {
      var r := Take(m, s, times[0]).tokens;
      TakeKeeps(m, s, times[0]);
      assert TakeBounded(m, rate, s, times[0]);
      BoundsAdd(m, rate, r, times[1..]);
      WorthAdds(rate, r.last - s.last, Run(m, r, times[1..]).last - r.last);
    }
  }

  /** Under any rounding, over every run and with any clock, the tokens taken and left are at most those
      held at the start and the worth of the time passed, up to six parts in 2^53 of that worth and two
      parts in 2^53 of the burst for each call. Calls let through without a token are not among them. */
  lemma RoundedBound(c: Config, s: Tokens, times: seq<int>)
    requires c.Valid() && InRange(MachineOf(c), s)
    ensures RunBounded(MachineOf(c), c.rate, s, times)
  {
    ConfigSound(c);
    forall x, now | InRange(MachineOf(c), x) ensures TakeBounded(MachineOf(c), c.rate, x, now) {
      TakeBound(c, x, now);
    }
    BoundsAdd(MachineOf(c), c.rate, s, times);
  }

  // ---------------------------------------------------------------------------
  // A burst below one token
  // ---------------------------------------------------------------------------

  lemma FullBounded(m: Machine, rate: real, start: int, times: seq<int>)
    requires Sound(m) && rate > 0.0 && m.burst < 1.0 && m.wait(m.burst) > 0
    ensures RateBounded(rate, m, start, times)
  {
    FullRun(m, Initial(m, start), times);
    Grows(rate, Run(m, Initial(m, start), times).last - start);
  }

  lemma FullUnbounded(m: Machine, rate: real)
    requires Sound(m) && rate > 0.0 && m.burst < 1.0 && m.wait(m.burst) <= 0
    ensures !RateBounded(rate, m, 0, [0])
  {
    FullRun(m, Initial(m, 0), [0]);
    AtOnce(m, Initial(m, 0));
    TwoCalls(m, Initial(m, 0), 0, 0);
  }

  /** With a burst below one token the bucket stays full and never holds a token: on a given platform the
      bound holds over all runs exactly when the wait computed for a full bucket is positive. */
  lemma BelowOneIff(c: Config)
    requires c.Valid() && c.burst < 1.0
    ensures AlwaysBounded(c.rate, MachineOf(c)) <==> WaitFor(c.arith, c.rate, c.burst) > 0
  {
    var m := MachineOf(c);
    ConfigSound(c);
    assert m.wait(m.burst) == WaitFor(c.arith, c.rate, c.burst);
    if m.wait(m.burst) > 0 {
      forall start, times ensures RateBounded(c.rate, m, start, times) {
        FullBounded(m, c.rate, start, times);
      }
    } else {
      FullUnbounded(m, c.rate);
    }
  }

  lemma Grows(rate: real, dt: nat)
    requires rate > 0.0
    ensures rate * (dt as real / 1000000000.0) >= 0.0
  {
  }

  lemma WaitParts(a: Arith, rate: real, d: real)
    requires a.Valid() && rate > 0.0 && d >= 0.0
    ensures var rnd := a.rnd;
            var w := rnd(rnd(d / rate) * 1000000000.0);
            && w >= 0.0
            && (d * 1000000000.0 >= 1.0000000000000003 * rate ==> w >= 1.0)
            && (d * 1000000000.0 <= 9223372036854770000.0 * rate ==> w < 9223372036854775808.0)
  {
    var rnd := a.rnd;
    var q := d / rate;
    assert q * rate == d && q >= 0.0;
    Close(rnd, q);
    Close(rnd, rnd(q) * 1000000000.0);
    ExactInteger(rnd, 1.0);
    ScaleRate(q, d, rate);
    if q * 1000000000.0 >= 1.0000000000000003 {
      Order(rnd, 1.0, rnd(q) * 1000000000.0);
    }
  }

  lemma ScaleRate(q: real, d: real, rate: real)
    requires rate > 0.0 && q * rate == d
    ensures d * 1000000000.0 >= 1.0000000000000003 * rate ==> q * 1000000000.0 >= 1.0000000000000003
    ensures d * 1000000000.0 <= 9223372036854770000.0 * rate ==> q * 1000000000.0 <= 9223372036854770000.0
  {
    var x := q * 1000000000.0;
    assert x * rate == d * 1000000000.0;
    if x < 1.0000000000000003 {
      assert (1.0000000000000003 - x) * rate > 0.0;
    }
    if x > 9223372036854770000.0 {
      assert (x - 9223372036854770000.0) * rate > 0.0;
    }
  }

  /** A caller can tell from the configuration, on whatever platform: the wait for a full bucket is
      positive when the missing part of a token costs a nanosecond and a margin of 5 parts in 10^16, and
      stays clear of 2^63. */
  lemma FullWaitMargin(c: Config)
    requires c.Valid() && c.burst < 1.0
    requires (1.0 - c.burst) * 1000000000.0 >= 1.0000000000000005 * c.rate
    requires (1.0 - c.burst) * 1000000000.0 <= 9223372036854760000.0 * c.rate
    ensures WaitFor(c.arith, c.rate, c.burst) > 0
  {
    var d := c.arith.rnd(1.0 - c.burst);
    Close(c.arith.rnd, 1.0 - c.burst);
    WaitParts(c.arith, c.rate, d);
  }

  lemma QuotientBetween(d: real, rate: real)
    requires rate > 0.0 && 1.0 <= d / rate * 1000000000.0 < 9223372036854775808.0
    ensures rate <= d * 1000000000.0 < 9223372036854775808.0 * rate
  {
    var q := d / rate;
    assert q * rate == d;
    Stretch(1.0, q * 1000000000.0, rate);
    Stretch(q * 1000000000.0, 9223372036854775808.0, rate);
    assert q * 1000000000.0 * rate == q * rate * 1000000000.0;
  }

  /** That is close to exact: where the wait is positive on every platform, the missing part costs at least
      a nanosecond, and less than 2^63 of them. */
  lemma FullWaitNeeds(rate: real, burst: real)
    requires rate > 0.0 && 0.0 < burst < 1.0
    requires forall a: Arith :: Config(rate, burst, a).Valid() ==> WaitFor(a, rate, burst) > 0
    ensures rate <= (1.0 - burst) * 1000000000.0 < 9223372036854775808.0 * rate
  {
    var a := Arith(Exact, Indefinite, false);
    ExactIsRounding();
    Conversions();
    assert Config(rate, burst, a).Valid();
    QuotientBetween(1.0 - burst, rate);
  }

  // ---------------------------------------------------------------------------
  // Exact arithmetic
  // ---------------------------------------------------------------------------

  ghost function PaceOf(c: Config): TokenBucket.Pace
    requires c.rate > 0.0 && c.burst > 0.0 && Conversion(c.arith.conv)
  {
    TokenBucket.PaceOf(c.rate, c.burst, c.arith.conv)
  }

  /** The bucket in nanoseconds of credit. */
  ghost function CreditOf(c: Config, s: Tokens): TokenBucket.Bucket
    requires c.rate > 0.0
  {
    TokenBucket.Bucket(TokenBucket.Credit(c.rate, s.amount), s.last)
  }

  ghost predicate ElapsedExact(m: Machine, dt: int) {
    if dt > 0 then m.elapsed(dt) == dt as real / TokenBucket.SECOND else m.elapsed(dt) <= 0.0
  }

  ghost predicate AccrueExact(m: Machine, rate: real, x: real, e: real) {
    m.accrue(x, e) == x + e * rate
  }

  ghost predicate SpendExact(m: Machine, x: real) {
    m.spend(x) == x - 1.0
  }

  ghost predicate WaitExact(m: Machine, rate: real, conv: real -> int, x: real)
    requires rate > 0.0
  {
    m.wait(x) == conv((1.0 - x) / rate * TokenBucket.SECOND)
  }

  ghost predicate IsExact(m: Machine, rate: real, conv: real -> int)
    requires rate > 0.0
  {
    && (forall dt :: ElapsedExact(m, dt))
    && (forall x, e :: AccrueExact(m, rate, x, e))
    && (forall x :: SpendExact(m, x))
    && (forall x :: WaitExact(m, rate, conv, x))
  }

  lemma ConfigExact(c: Config)
    requires c.Valid() && c.arith.rnd == Exact
    ensures IsExact(MachineOf(c), c.rate, c.arith.conv)
  {
    var m := MachineOf(c);
    forall dt ensures ElapsedExact(m, dt) {
      SecondsSign(Exact, dt);
    }
    forall x, e ensures AccrueExact(m, c.rate, x, e) {
      assert m.accrue(x, e) == Accrued(c.arith, x, Product(e, c.rate));
    }
    forall x ensures SpendExact(m, x) {
      assert m.spend(x) == Exact(x - 1.0);
    }
    forall x ensures WaitExact(m, c.rate, c.arith.conv, x) {
      assert m.wait(x) == WaitFor(c.arith, c.rate, x);
    }
  }

  lemma ExactRefill(m: Machine, rate: real, conv: real -> int, s: Tokens, now: int)
    requires rate > 0.0 && IsExact(m, rate, conv) && InRange(m, s)
    ensures Refill(m, s, now).amount == TokenBucket.Refilled(rate, m.burst, s.amount, now - s.last)
    ensures Refill(m, s, now).last == if now > s.last then now else s.last
  {
    var dt := now - s.last;
    assert ElapsedExact(m, dt);
    assert AccrueExact(m, rate, s.amount, m.elapsed(dt));
  }

  lemma ExactMachineTake(m: Machine, rate: real, conv: real -> int, s: Tokens, now: int)
    requires rate > 0.0 && m.burst > 0.0 && Conversion(conv) && IsExact(m, rate, conv) && InRange(m, s)
    ensures var r := Take(m, s, now);
            var q := TokenBucket.Take(TokenBucket.PaceOf(rate, m.burst, conv),
                                      TokenBucket.Bucket(TokenBucket.Credit(rate, s.amount), s.last), now);
            && q.bucket == TokenBucket.Bucket(TokenBucket.Credit(rate, r.tokens.amount), r.tokens.last)
            && q.wait == r.wait && q.consumed == r.consumed
  {
    ExactRefill(m, rate, conv, s, now);
    assert SpendExact(m, Refill(m, s, now).amount);
    assert WaitExact(m, rate, conv, Refill(m, s, now).amount);
    TokenBucket.TakeInTokens(rate, m.burst, conv, s.amount, s.last, now);
  }

  /** Without rounding, a take in tokens is a take in nanoseconds of credit. */
  lemma ExactTake(c: Config, s: Tokens, now: int)
    requires c.Valid() && c.arith.rnd == Exact && InRange(MachineOf(c), s)
    ensures var r, q := Take(MachineOf(c), s, now), TokenBucket.Take(PaceOf(c), CreditOf(c, s), now);
            q.bucket == CreditOf(c, r.tokens) && q.wait == r.wait && q.consumed == r.consumed
  {
    ConfigExact(c);
    ExactMachineTake(MachineOf(c), c.rate, c.arith.conv, s, now);
  }

  /** So without rounding the runs of the code are those of the credit form. */
  lemma {:induction false} ExactRun(c: Config, s: Tokens, times: seq<int>)
    requires c.Valid() && c.arith.rnd == Exact && InRange(MachineOf(c), s)
    ensures TokenBucket.Run(PaceOf(c), CreditOf(c, s), times) == CreditOf(c, Run(MachineOf(c), s, times))
    ensures TokenBucket.Admitted(PaceOf(c), CreditOf(c, s), times) == Admitted(MachineOf(c), s, times)
    ensures TokenBucket.Consumed(PaceOf(c), CreditOf(c, s), times) == Consumed(MachineOf(c), s, times)
    decreases |times|
  {
    if times != [] {
      ConfigSound(c);
      ExactTake(c, s, times[0]);
      TakeKeeps(MachineOf(c), s, times[0]);
      ExactRun(c, Take(MachineOf(c), s, times[0]).tokens, times[1..]);
    }
  }

  lemma ExactInitial(c: Config, start: int)
    requires c.Valid()
    ensures CreditOf(c, Initial(MachineOf(c), start)) == TokenBucket.Initial(PaceOf(c), start)
  {
  }

  lemma ExactBounded(c: Config, start: int, times: seq<int>)
    requires c.Valid() && c.arith.rnd == Exact
    ensures RateBounded(c.rate, MachineOf(c), start, times) <==>
            TokenBucket.RateBounded(c.rate, c.burst, c.arith.conv, start, times)
  {
    ExactInitial(c, start);
    ExactRun(c, Initial(MachineOf(c), start), times);
  }

  // ---------------------------------------------------------------------------
  // A burst of at least one token
  // ---------------------------------------------------------------------------

  lemma TooMany(rate: real, burst: real, elapsed: int) returns (n: nat)
    ensures !TokenBucket.WithinRate(rate, burst, n, elapsed)
  {
    var bound := burst + rate * (elapsed as real / TokenBucket.SECOND);
    n := if bound < 0.0 then 0 else bound.Floor + 1;
  }

  lemma MoreThan(rate: real, burst: real, n: nat, more: nat, elapsed: int)
    requires n <= more && !TokenBucket.WithinRate(rate, burst, n, elapsed)
    ensures !TokenBucket.WithinRate(rate, burst, more, elapsed)
  {
  }

  lemma Exceeds(rate: real, m: Machine, start: int, times: seq<int>, n: nat)
    requires Admitted(m, Initial(m, start), times) >= n
    requires !TokenBucket.WithinRate(rate, m.burst, n, Run(m, Initial(m, start), times).last - start)
    ensures !RateBounded(rate, m, start, times)
  {
    var s := Initial(m, start);
    MoreThan(rate, m.burst, n, Admitted(m, s, times), Run(m, s, times).last - start);
  }

  /** A run that reaches a flooding state can go on to exceed any bound. */
  lemma FloodExceeds(rate: real, m: Machine, start: int, first: seq<int>) returns (times: seq<int>)
    requires Sound(m) && Flooding(m, Run(m, Initial(m, start), first))
    ensures !RateBounded(rate, m, start, times)
  {
    var n := TooMany(rate, m.burst, Run(m, Initial(m, start), first).last - start);
    times := FloodRun(m, Initial(m, start), first, n);
    Exceeds(rate, m, start, times, n);
  }

  /** A rounding that only rounds down, and by at most `d`. */
  ghost predicate Lean(rnd: real -> real, d: real, x: real) {
    x - d <= rnd(x) <= x
  }

  ghost predicate Leans(rnd: real -> real, d: real) {
    d > 0.0 && forall x :: Lean(rnd, d, x)
  }

  lemma CollapseLeans(a: real, b: real)
    requires a < b
    ensures Leans(Collapse(a, b), b - a)
  {
  }

  lemma LeanAccrued(a: Arith, d: real, amount: real, gain: real)
    requires Leans(a.rnd, d)
    ensures amount + gain - 2.0 * d <= Accrued(a, amount, gain) <= amount + gain
  {
    assert Lean(a.rnd, d, gain);
    assert Lean(a.rnd, d, amount + gain);
    assert Lean(a.rnd, d, amount + a.rnd(gain));
  }

  lemma LeanSeconds(rnd: real -> real, d: real, dt: nat)
    requires Leans(rnd, d)
    ensures var t := dt as real / 1000000000.0; t - 2.0 * d <= Seconds(rnd, dt) <= t
  {
    var sec := dt / 1000000000;
    var part := (dt - 1000000000 * sec) as real / 1000000000.0;
    assert Lean(rnd, d, part);
    assert Lean(rnd, d, sec as real + rnd(part));
  }

  lemma LeanGain(rnd: real -> real, d: real, rate: real, dt: nat)
    requires Leans(rnd, d) && rate > 0.0
    ensures var w := Worth(rate, dt); w - 2.0 * Product(d, rate) <= Product(Seconds(rnd, dt), rate) <= w
  {
    var t, e := dt as real / 1000000000.0, Seconds(rnd, dt);
    LeanSeconds(rnd, d, dt);
    Stretch(e, t, rate);
    Stretch(t - 2.0 * d, e, rate);
    assert (t - 2.0 * d) * rate == t * rate - 2.0 * d * rate;
  }

  lemma NanoSecond(a: real, b: real)
    requires 0.0 < a < b == 0.000000001
    ensures Seconds(Collapse(a, b), 1) == a
  {
    assert 1 / 1000000000 == 0 && 1 as real / 1000000000.0 == b;
  }

  lemma NanoGain(rate: real, a: real, b: real)
    requires 0.0 < a < b == 0.000000001 && rate > 0.0
    ensures Product(a, rate) == Worth(rate, 1) - Product(b - a, rate) && Product(b - a, rate) > 0.0
  {
  }

  /** How far an amount can be off after a refill. */
  ghost function Slack(rate: real, d: real): real {
    2.0 * Product(d, rate) + 2.0 * d
  }

  ghost function WorthOf(rate: real): int -> real {
    dt => Worth(rate, dt)
  }

  lemma LeanAccrues(c: Config, d: real, x: real, dt: nat)
    requires c.rate > 0.0 && Leans(c.arith.rnd, d)
    ensures var w := Worth(c.rate, dt);
            x + w - Slack(c.rate, d) <= Accrued(c.arith, x, Product(Seconds(c.arith.rnd, dt), c.rate)) <= x + w
  {
    LeanGain(c.arith.rnd, d, c.rate, dt);
    LeanAccrued(c.arith, d, x, Product(Seconds(c.arith.rnd, dt), c.rate));
  }

  lemma CollapseSpends(a: real, b: real, slack: real, x: real)
    requires 0.0 < a < b < 1.0 && slack >= b - a
    ensures var y := Collapse(a, b)(x - 1.0);
            && (x >= 2.0 ==> y == x - 1.0)
            && (1.0 <= x < 2.0 ==> y >= 0.0 && x - 1.0 - slack <= y <= x - 1.0)
  {
  }

  lemma NearlyLow(c: Config, a: real, b: real)
    requires c.Valid() && c.arith.rnd == Collapse(a, b) && 0.0 < a < b == 0.000000001 && c.burst >= 1.0
    ensures Low(MachineOf(c), WorthOf(c.rate), Slack(c.rate, b - a), Product(b - a, c.rate))
  {
    var m, d, v, slack := MachineOf(c), b - a, Product(b - a, c.rate), Slack(c.rate, b - a);
    var worth := WorthOf(c.rate);
    ConfigSound(c);
    CollapseLeans(a, b);
    NanoGain(c.rate, a, b);
    NanoSecond(a, b);
    forall x ensures SpendsLow(m, slack, x) {
      CollapseSpends(a, b, slack, x);
    }
    forall x, dt ensures AccruesLow(m, worth, slack, x, dt) {
      if dt > 0 {
        LeanAccrues(c, d, x, dt);
      }
    }
    forall x ensures FirstLow(m, worth, v, x) {
      LeanAccrued(c.arith, d, x, Product(a, c.rate));
    }
  }

  lemma SmallQuotient(x: real, d: real, rate: real)
    requires rate > 0.0 && 0.0 <= x <= 3.0 * Slack(rate, d) && d > 0.0
    requires d * (6000000000.0 + 6.0 * (1000000000.0 / rate)) < 1.0
    ensures 0.0 <= x / rate && x / rate * 1000000000.0 < 1.0
  {
    var q, r := x / rate, 1.0 / rate;
    assert r * rate == 1.0 && 1000000000.0 / rate == 1000000000.0 * r;
    assert q == x * r;
    Stretch(x, 6.0 * (d * rate) + 6.0 * d, r);
    assert (6.0 * (d * rate) + 6.0 * d) * r == 6.0 * (d * (rate * r)) + 6.0 * (d * r);
    assert d * (6000000000.0 + 6.0 * (1000000000.0 * r)) == 6000000000.0 * d + 6000000000.0 * (d * r);
  }

  lemma NoWait(a: Arith, rate: real, d: real, x: real)
    requires a.Valid() && Leans(a.rnd, d) && rate > 0.0 && 1.0 - 3.0 * Slack(rate, d) <= x < 1.0
    requires d * (6000000000.0 + 6.0 * (1000000000.0 / rate)) < 1.0
    ensures WaitFor(a, rate, x) == 0
  {
    var y := a.rnd(1.0 - x);
    assert Lean(a.rnd, d, 1.0 - x);
    KeepsSign(a.rnd, 1.0 - x);
    SmallQuotient(y, d, rate);
    var q := y / rate;
    assert Lean(a.rnd, d, q);
    KeepsSign(a.rnd, q);
    var z := a.rnd(q) * 1000000000.0;
    assert Lean(a.rnd, d, z);
    KeepsSign(a.rnd, z);
    assert Truncate(a.rnd(z)) == 0;
  }

  /** An interval short enough for a given rate. */
  lemma Interval(rate: real) returns (a: real, b: real)
    requires rate > 0.0
    ensures 0.0 < a < b == 0.000000001 && 9007199254740992.0 * (b - a) <= a
    ensures (b - a) * (6000000000.0 + 6.0 * (1000000000.0 / rate)) < 1.0
  {
    var cost := 1000000000.0 / rate;
    var big := 18014398509481984000000000.0 + 10.0 * cost;
    var d := 1.0 / big;
    assert d * big == 1.0 && d > 0.0;
    assert d * 18014398509481984000000000.0 + 10.0 * (d * cost) == 1.0;
    assert d * cost > 0.0;
    a, b := 0.000000001 - d, 0.000000001;
    assert d * (6000000000.0 + 6.0 * cost) == 6000000000.0 * d + 6.0 * (d * cost);
  }

  lemma {:induction false} IntegerProduct(k: nat, n: int)
    ensures (k * n) as real == k as real * n as real
  {
    if k > 0 {
      IntegerProduct(k - 1, n);
      assert k * n == (k - 1) * n + n;
      assert k as real * n as real == (k - 1) as real * n as real + n as real;
    }
  }

  lemma TimeLeft(rate: real, cost: real, m: int, share: real)
    requires rate > 0.0 && cost * rate == 1000000000.0 && m as real == share * cost
    ensures Worth(rate, m) == share
  {
    assert rate * (share * cost) == share * (cost * rate);
  }

  /** The whole number of nanoseconds to the next token, where costs are whole. */
  lemma WholeWait(rate: real, burst: real, cost: real, cap: real) returns (n: nat, m: nat)
    requires rate > 0.0 && burst >= 1.0 && cost * rate == 1000000000.0 && cost > 0.0
    requires Whole(cost) && Whole(cap) && cap == burst * cost
    ensures 0.0 <= burst - n as real < 1.0 && m > 0 && burst - n as real + Worth(rate, m) == 1.0
  {
    n := burst.Floor;
    var share := 1.0 - (burst - n as real);
    var k := (n + 1) * cost.Floor - cap.Floor;
    IntegerProduct(n + 1, cost.Floor);
    assert share * cost == (n + 1) as real * cost - cap;
    assert share * cost > 0.0;
    m := k;
    TimeLeft(rate, cost, m, share);
  }

  lemma NearlyFloods(c: Config, a: real, b: real)
    requires c.Valid() && c.arith.rnd == Collapse(a, b) && 0.0 < a < b == 0.000000001
    requires (b - a) * (6000000000.0 + 6.0 * (1000000000.0 / c.rate)) < 1.0
    ensures AllFloodNear(MachineOf(c), Slack(c.rate, b - a))
  {
    var m, d, slack := MachineOf(c), b - a, Slack(c.rate, b - a);
    CollapseLeans(a, b);
    forall x ensures FloodsNear(m, slack, x) {
      if 1.0 - 3.0 * slack <= x < 1.0 {
        NoWait(c.arith, c.rate, d, x);
      }
    }
  }

  /** A platform that errs downward in one nanosecond, by so little that it makes no wait. */
  lemma NearlyExact(rate: real, burst: real) returns (c: Config, d: real, v: real)
    requires rate > 0.0 && burst >= 1.0
    ensures c.rate == rate && c.burst == burst && c.Valid()
    ensures Low(MachineOf(c), WorthOf(rate), d, v) && AllFloodNear(MachineOf(c), d)
  {
    var a, b := Interval(rate);
    CollapseIsRounding(a, b);
    Conversions();
    c := Config(rate, burst, Arith(Collapse(a, b), Indefinite, false));
    NearlyLow(c, a, b);
    NearlyFloods(c, a, b);
    d, v := Slack(rate, b - a), Product(b - a, rate);
  }

  lemma LowExceeds(rate: real, m: Machine, d: real, v: real, n: nat, k: nat) returns (times: seq<int>)
    requires rate > 0.0 && Low(m, WorthOf(rate), d, v) && AllFloodNear(m, d)
    requires 0.0 <= m.burst - n as real < 1.0 && k > 0 && m.burst - n as real + Worth(rate, k) == 1.0
    ensures !RateBounded(rate, m, 0, times)
  {
    WorthAdds(rate, 1, k - 1);
    WorthAdds(rate, k - 1, 0);
    var first := LowFloods(m, WorthOf(rate), d, v, n, k);
    times := FloodExceeds(rate, m, 0, first);
  }

  /** Whole costs do not help: with one nanosecond rounded down the limiter floods. */
  lemma WholeCostsExceed(rate: real, burst: real, n: nat, k: nat) returns (c: Config, times: seq<int>)
    requires rate > 0.0 && burst >= 1.0
    requires 0.0 <= burst - n as real < 1.0 && k > 0 && burst - n as real + Worth(rate, k) == 1.0
    ensures c.rate == rate && c.burst == burst && c.Valid() && !RateBounded(rate, MachineOf(c), 0, times)
  {
    var d, v;
    c, d, v := NearlyExact(rate, burst);
    times := LowExceeds(rate, MachineOf(c), d, v, n, k);
  }

  lemma ExactExceeds(c: Config) returns (times: seq<int>)
    requires c.Valid() && c.arith.rnd == Exact && c.arith.conv == Indefinite
    requires !TokenBucket.Limiting(PaceOf(c).cost, PaceOf(c).cap)
    ensures !RateBounded(c.rate, MachineOf(c), 0, times)
  {
    times := TokenBucket.UnlimitedExceeds(PaceOf(c));
    TokenBucket.BoundUnits(c.rate, c.burst, Indefinite, 0, times);
    ExactBounded(c, 0, times);
  }

  /** A burst of at least one token is not enough, at any rate: some platform lets more calls through than
      the documented bound. */
  lemma AboveOneExceeds(rate: real, burst: real) returns (c: Config, times: seq<int>)
    requires rate > 0.0 && burst >= 1.0
    ensures c.rate == rate && c.burst == burst && c.Valid() && !RateBounded(rate, MachineOf(c), 0, times)
  {
    Conversions();
    ExactIsRounding();
    c := Config(rate, burst, Arith(Exact, Indefinite, false));
    var p := PaceOf(c);
    if TokenBucket.Limiting(p.cost, p.cap) {
      c, times := LimitingExceeds(rate, burst, p);
    } else {
      times := ExactExceeds(c);
    }
  }

  lemma LimitingExceeds(rate: real, burst: real, p: TokenBucket.Pace) returns (c: Config, times: seq<int>)
    requires rate > 0.0 && burst >= 1.0 && Conversion(Indefinite) && p == TokenBucket.PaceOf(rate, burst, Indefinite)
    requires Whole(p.cost) && Whole(p.cap)
    ensures c.rate == rate && c.burst == burst && c.Valid() && !RateBounded(rate, MachineOf(c), 0, times)
  {
    CostOfToken(rate);
    var n, k := WholeWait(rate, burst, p.cost, p.cap);
    c, times := WholeCostsExceed(rate, burst, n, k);
  }

  lemma CostOfToken(rate: real)
    requires rate > 0.0
    ensures TokenBucket.SECOND / rate > 0.0 && TokenBucket.SECOND / rate * rate == 1000000000.0
  {
  }

  /** The documented bound, at most `burst + rate * elapsed` admissions, holds over all runs and on whatever
      platform if and only if the burst is below one token, so that no call ever takes one, and the wait
      for a full bucket is positive on every platform, so that none is let through either. */
  lemma RateBoundIff(rate: real, burst: real)
    requires rate > 0.0 && burst > 0.0
    ensures (forall a: Arith ::
               Config(rate, burst, a).Valid() ==> AlwaysBounded(rate, MachineOf(Config(rate, burst, a))))
            <==> burst < 1.0 && forall a: Arith :: Config(rate, burst, a).Valid() ==> WaitFor(a, rate, burst) > 0
  {
    if burst < 1.0 {
      forall a: Arith | Config(rate, burst, a).Valid()
        ensures AlwaysBounded(rate, MachineOf(Config(rate, burst, a))) <==> WaitFor(a, rate, burst) > 0
      {
        BelowOneIff(Config(rate, burst, a));
      }
    } else {
      var c, times := AboveOneExceeds(rate, burst);
      assert c == Config(rate, burst, c.arith);
      assert !AlwaysBounded(rate, MachineOf(c));
    }
  }

  // ---------------------------------------------------------------------------
  // Two floods that no rounding prevents
  // ---------------------------------------------------------------------------

  /** The first call at time zero empties a bucket of burst one. */
  lemma FirstTake(c: Config)
    requires c.Valid() && c.burst == 1.0
    ensures Take(MachineOf(c), Initial(MachineOf(c), 0), 0).tokens == Tokens(0.0, 0)
  {
    ConfigSound(c);
    AtOnce(MachineOf(c), Initial(MachineOf(c), 0));
    ExactInteger(c.arith.rnd, 0.0);
  }

  lemma ThirdOfSecond(a: Arith)
    requires a.Valid()
    ensures 0.9999999989 <= Accrued(a, 0.0, Product(Seconds(a.rnd, 333333333), 3.0)) <= 0.9999999991
  {
    var e := Seconds(a.rnd, 333333333);
    SecondsClose(a.rnd, 333333333);
    Close(a.rnd, Product(e, 3.0));
    Close(a.rnd, a.rnd(Product(e, 3.0)));
  }

  lemma ThirdWait(a: Arith, x: real)
    requires a.Valid() && 0.9999999989 <= x <= 0.9999999991
    ensures WaitFor(a, 3.0, x) == 0
  {
    var d := 1.0 - x;
    Close(a.rnd, d);
    var q := a.rnd(d) / 3.0;
    Close(a.rnd, q);
    Close(a.rnd, a.rnd(q) * 1000000000.0);
    assert Truncate(a.rnd(a.rnd(q) * 1000000000.0)) == 0;
  }

  /** Rate 3 a second with burst 1, whose tokens cost no whole number of nanoseconds: after a call and
      333333333 ns every call passes, on whatever platform. */
  lemma RateThreeFloods(a: Arith)
    requires a.Valid()
    ensures var c := Config(3.0, 1.0, a);
            var m := MachineOf(c);
            c.Valid() && !AlwaysBounded(3.0, m) && Flooding(m, Run(m, Initial(m, 0), [0, 333333333]))
  {
    var c := Config(3.0, 1.0, a);
    var m, s := MachineOf(c), Initial(MachineOf(c), 0);
    ExactInteger(a.rnd, 1.0);
    ConfigSound(c);
    FirstTake(c);
    TwoCalls(m, s, 0, 333333333);
    ThirdOfSecond(a);
    assert TellsTime(m, 333333333);
    ThirdWait(a, m.accrue(0.0, m.elapsed(333333333)));
    var more := FloodExceeds(3.0, m, 0, [0, 333333333]);
  }

  lemma TinyWait(a: Arith)
    requires a.Valid() && a.conv == Indefinite
    ensures WaitFor(a, 0.0000000001, 0.0) < 0
  {
    ExactInteger(a.rnd, 1.0);
    var q := 1.0 / 0.0000000001;
    assert q == 10000000000.0;
    Close(a.rnd, q);
    Close(a.rnd, a.rnd(q) * 1000000000.0);
  }

  /** One token in 10^10 seconds, with burst 1: the wait of the second call does not fit in 64 bits, and
      on x86-64 that lets every call through. */
  lemma TinyRateFloods(a: Arith)
    requires a.Valid() && a.conv == Indefinite
    ensures var c := Config(0.0000000001, 1.0, a);
            var m := MachineOf(c);
            c.Valid() && !AlwaysBounded(0.0000000001, m) && Flooding(m, Run(m, Initial(m, 0), [0]))
  {
    var c := Config(0.0000000001, 1.0, a);
    var m, s := MachineOf(c), Initial(MachineOf(c), 0);
    ExactInteger(a.rnd, 1.0);
    ConfigSound(c);
    FirstTake(c);
    TwoCalls(m, s, 0, 0);
    TinyWait(a);
    var more := FloodExceeds(0.0000000001, m, 0, [0]);
  }
}
