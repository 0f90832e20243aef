/** The token-bucket limiter's control flow, over the four computations that a call makes in floating
    point. `TokenLimiter` says what these computations are. */
module TokenMachine {

  /** The seconds in a number of nanoseconds; an amount after so many seconds; an amount less one token;
      the wait for a token that an amount lacks. */
  datatype Machine = Machine(
    burst: real,
    elapsed: int -> real,
    accrue: (real, real) -> real,
    spend: real -> real,
    wait: real -> int)

  datatype Tokens = Tokens(amount: real, last: int)

  datatype Taken = Taken(tokens: Tokens, wait: int, consumed: bool)

  function Min(x: real, y: real): real {
    if x <= y then x else y
  }

  ghost function Initial(m: Machine, now: int): Tokens {
    Tokens(m.burst, now)
  }

  ghost function Refill(m: Machine, s: Tokens, now: int): Tokens {
    var e := m.elapsed(now - s.last);
    if e > 0.0 then Tokens(Min(m.burst, m.accrue(s.amount, e)), now) else s
  }

  ghost function Take(m: Machine, s: Tokens, now: int): Taken {
    var f := Refill(m, s, now);
    if f.amount >= 1.0 then Taken(Tokens(m.spend(f.amount), f.last), 0, true)
    else Taken(f, m.wait(f.amount), false)
  }

  ghost predicate InRange(m: Machine, s: Tokens) {
    0.0 <= s.amount <= m.burst
  }

  // ---------------------------------------------------------------------------
  // What the computations keep
  // ---------------------------------------------------------------------------

  ghost predicate TellsTime(m: Machine, dt: int) {
    m.elapsed(dt) > 0.0 <==> dt > 0
  }

  /** Time takes nothing away from an amount in range, nor from a full bucket. */
  ghost predicate AccrueKeeps(m: Machine, x: real, e: real) {
    e > 0.0 && 0.0 <= x <= m.burst ==> m.accrue(x, e) >= 0.0 && (x == m.burst ==> m.accrue(x, e) >= m.burst)
  }

  ghost predicate SpendKeeps(m: Machine, x: real) {
    1.0 <= x <= m.burst ==> 0.0 <= m.spend(x) <= m.burst
  }

  ghost predicate Sound(m: Machine) {
    && m.burst > 0.0
    && (forall dt :: TellsTime(m, dt))
    && (forall x, e :: AccrueKeeps(m, x, e))
    && (forall x :: SpendKeeps(m, x))
  }

  lemma RefillKeeps(m: Machine, s: Tokens, now: int)
    requires Sound(m) && InRange(m, s)
    ensures InRange(m, Refill(m, s, now))
    ensures Refill(m, s, now).last == if now > s.last then now else s.last
    ensures s.amount == m.burst ==> Refill(m, s, now).amount == m.burst
  {
    assert TellsTime(m, now - s.last);
    assert AccrueKeeps(m, s.amount, m.elapsed(now - s.last));
  }

  lemma TakeKeeps(m: Machine, s: Tokens, now: int)
    requires Sound(m) && InRange(m, s)
    ensures var r := Take(m, s, now).tokens; InRange(m, r) && r.last == if now > s.last then now else s.last
  {
    RefillKeeps(m, s, now);
    assert SpendKeeps(m, Refill(m, s, now).amount);
  }

  /** A call at the time of the last refill does not refill. */
  lemma AtOnce(m: Machine, s: Tokens)
    requires Sound(m)
    ensures Refill(m, s, s.last) == s
  {
    assert TellsTime(m, 0);
  }

  // ---------------------------------------------------------------------------
  // Runs: a run is the sequence of clock readings of its calls
  // ---------------------------------------------------------------------------

  ghost function Run(m: Machine, s: Tokens, times: seq<int>): Tokens
    decreases |times|
  {
    if times == [] then s else Run(m, Take(m, s, times[0]).tokens, times[1..])
  }

  /** Calls that `Allow` and `Wait` let through: those whose wait is not positive. */
  ghost function Admitted(m: Machine, s: Tokens, times: seq<int>): nat
    decreases |times|
  {
    if times == [] then 0
    else
      var r := Take(m, s, times[0]);
      (if r.wait <= 0 then 1 else 0) + Admitted(m, r.tokens, times[1..])
  }

  /** Calls that took a token. */
  ghost function Consumed(m: Machine, s: Tokens, times: seq<int>): nat
    decreases |times|
  {
    if times == [] then 0
    else
      var r := Take(m, s, times[0]);
      (if r.consumed then 1 else 0) + Consumed(m, r.tokens, times[1..])
  }

  lemma {:induction false} RunAppend(m: Machine, s: Tokens, xs: seq<int>, ys: seq<int>)
    ensures Run(m, s, xs + ys) == Run(m, Run(m, s, xs), ys)
    ensures Admitted(m, s, xs + ys) == Admitted(m, s, xs) + Admitted(m, Run(m, s, xs), ys)
    decreases |xs|
  {
    if xs == [] {
      assert xs + ys == ys;
    } else {
      assert (xs + ys)[1..] == xs[1..] + ys;
      RunAppend(m, Take(m, s, xs[0]).tokens, xs[1..], ys);
    }
  }

  lemma AppendCall(m: Machine, s: Tokens, times: seq<int>, now: int)
    ensures var r := Take(m, Run(m, s, times), now);
            && Run(m, s, times + [now]) == r.tokens
            && Admitted(m, s, times + [now]) == Admitted(m, s, times) + (if r.wait <= 0 then 1 else 0)
  {
    RunAppend(m, s, times, [now]);
    assert [now][1..] == [];
  }

  lemma {:induction false} RunKeeps(m: Machine, s: Tokens, times: seq<int>)
    requires Sound(m) && InRange(m, s)
    ensures InRange(m, Run(m, s, times)) && Run(m, s, times).last >= s.last
    decreases |times|
  {
    if times != [] {
      TakeKeeps(m, s, times[0]);
      RunKeeps(m, Take(m, s, times[0]).tokens, times[1..]);
    }
  }

  // ---------------------------------------------------------------------------
  // A burst below one token
  // ---------------------------------------------------------------------------

  /** A bucket that never holds a token stays full, and lets all calls through or none. */
  lemma {:induction false} FullRun(m: Machine, s: Tokens, times: seq<int>)
    requires Sound(m) && s.amount == m.burst < 1.0
    ensures Run(m, s, times).last >= s.last
    ensures Admitted(m, s, times) == if m.wait(m.burst) <= 0 then |times| else 0
    decreases |times|
  {
    if times != [] {
      RefillKeeps(m, s, times[0]);
      FullRun(m, Take(m, s, times[0]).tokens, times[1..]);
    }
  }

  // ---------------------------------------------------------------------------
  // Flooding
  // ---------------------------------------------------------------------------

  /** Lacking part of a token, but by an amount that converts to no wait. */
  ghost predicate Flooding(m: Machine, s: Tokens) {
    s.amount < 1.0 && m.wait(s.amount) <= 0
  }

  function Repeat(t: int, n: nat): (s: seq<int>)
    ensures |s| == n
  {
    if n == 0 then [] else [t] + Repeat(t, n - 1)
  }

  /** At one instant, a flooding bucket lets every caller through. */
  lemma {:induction false} Flood(m: Machine, s: Tokens, n: nat)
    requires Sound(m) && Flooding(m, s)
    ensures Run(m, s, Repeat(s.last, n)) == s
    ensures Admitted(m, s, Repeat(s.last, n)) == n
  {
    if n > 0 {
      assert Repeat(s.last, n)[1..] == Repeat(s.last, n - 1);
      AtOnce(m, s);
      Flood(m, s, n - 1);
    }
  }

  lemma FloodRun(m: Machine, s: Tokens, first: seq<int>, n: nat) returns (times: seq<int>)
    requires Sound(m) && Flooding(m, Run(m, s, first))
    ensures Run(m, s, times) == Run(m, s, first) && Admitted(m, s, times) >= n
  {
    var e := Run(m, s, first);
    times := first + Repeat(e.last, n);
    Flood(m, e, n);
    RunAppend(m, s, first, Repeat(e.last, n));
  }

  // ---------------------------------------------------------------------------
  // Falling short of a token
  // ---------------------------------------------------------------------------

  /** A machine that only errs downward, by at most `d` where it spends, and by at most `d + v` where it
      accrues what `worth` says of the time passed. */
  ghost predicate SpendsLow(m: Machine, d: real, x: real) {
    && (x >= 2.0 ==> m.spend(x) == x - 1.0)
    && (1.0 <= x < 2.0 ==> m.spend(x) >= 0.0 && x - 1.0 - d <= m.spend(x) <= x - 1.0)
  }

  ghost predicate AccruesLow(m: Machine, worth: int -> real, d: real, x: real, dt: int) {
    dt > 0 ==> x + worth(dt) - d <= m.accrue(x, m.elapsed(dt)) <= x + worth(dt)
  }

  /** A first nanosecond is worth `v` less than it should be. */
  ghost predicate FirstLow(m: Machine, worth: int -> real, v: real, x: real) {
    m.accrue(x, m.elapsed(1)) <= x + worth(1) - v
  }

  ghost predicate Low(m: Machine, worth: int -> real, d: real, v: real) {
    && Sound(m) && m.burst >= 1.0 && d > 0.0 && v > 0.0
    && (forall x :: SpendsLow(m, d, x))
    && (forall x, dt :: AccruesLow(m, worth, d, x, dt))
    && (forall x :: FirstLow(m, worth, v, x))
  }

  /** Emptying a bucket at one instant: what is left is a fraction of a token. */
  lemma {:induction false} Drain(m: Machine, worth: int -> real, d: real, v: real, s: Tokens, n: nat)
    returns (times: seq<int>)
    requires Low(m, worth, d, v) && 0.0 <= s.amount - n as real < 1.0
    ensures var e, left := Run(m, s, times), s.amount - n as real;
            e.last == s.last && 0.0 <= e.amount && left - d <= e.amount <= left
    decreases n
  {
    if n == 0 {
      times := [];
    } else {
      var r := Take(m, s, s.last).tokens;
      AtOnce(m, s);
      assert SpendsLow(m, d, s.amount);
      var rest: seq<int> := [];
      if n > 1 {
        rest := Drain(m, worth, d, v, r, n - 1);
      }
      times := [s.last] + rest;
      assert times[1..] == rest;
    }
  }

  /** A refill that ends below a whole token. */
  lemma LowTake(m: Machine, worth: int -> real, d: real, v: real, s: Tokens, dt: nat, hi: real)
    requires Low(m, worth, d, v) && dt > 0 && m.accrue(s.amount, m.elapsed(dt)) <= hi < 1.0
    ensures var e := Take(m, s, s.last + dt).tokens;
            e.last == s.last + dt && s.amount + worth(dt) - d <= e.amount <= hi
  {
    assert TellsTime(m, dt);
    assert AccruesLow(m, worth, d, s.amount, dt);
  }

  lemma TwoCalls(m: Machine, s: Tokens, x: int, y: int)
    ensures Run(m, s, [x]) == Take(m, s, x).tokens
    ensures Run(m, s, [x, y]) == Take(m, Take(m, s, x).tokens, y).tokens
  {
    assert [x][1..] == [];
    assert [x, y][1..] == [y];
    assert [y][1..] == [];
    assert Run(m, Take(m, s, x).tokens, [y]) == Take(m, Take(m, s, x).tokens, y).tokens;
  }

  /** After a first nanosecond and then the rest of the time to a whole token, the bucket is short of it by
      a little. */
  lemma JustShort(m: Machine, worth: int -> real, d: real, v: real, s: Tokens, k: nat, t: real)
    returns (times: seq<int>)
    requires Low(m, worth, d, v) && t - d <= s.amount <= t && k > 0 && t + worth(k) == 1.0
    requires k > 1 ==> worth(1) + worth(k - 1) == worth(k) && worth(k - 1) >= 0.0
    ensures 1.0 - 3.0 * d <= Run(m, s, times).amount < 1.0
  {
    assert FirstLow(m, worth, v, s.amount);
    LowTake(m, worth, d, v, s, 1, s.amount + worth(1) - v);
    TwoCalls(m, s, s.last + 1, s.last + k);
    if k == 1 {
      times := [s.last + 1];
    } else {
      var f := Take(m, s, s.last + 1).tokens;
      assert AccruesLow(m, worth, d, f.amount, k - 1);
      LowTake(m, worth, d, v, f, k - 1, f.amount + worth(k - 1));
      times := [s.last + 1, s.last + k];
    }
  }

  /** The amounts just short of a token that convert to no wait. */
  ghost predicate FloodsNear(m: Machine, d: real, x: real) {
    1.0 - 3.0 * d <= x < 1.0 ==> m.wait(x) <= 0
  }

  ghost predicate AllFloodNear(m: Machine, d: real) {
    forall x :: FloodsNear(m, d, x)
  }

  /** A low machine whose burst is `n` tokens and a part, with a whole number `k` of nanoseconds from that
      part to a token, reaches a flooding state. */
  lemma LowFloods(m: Machine, worth: int -> real, d: real, v: real, n: nat, k: nat) returns (times: seq<int>)
    requires Low(m, worth, d, v) && AllFloodNear(m, d)
    requires 0.0 <= m.burst - n as real < 1.0 && k > 0 && m.burst - n as real + worth(k) == 1.0
    requires k > 1 ==> worth(1) + worth(k - 1) == worth(k) && worth(k - 1) >= 0.0
    ensures Flooding(m, Run(m, Initial(m, 0), times))
  {
    var s := Initial(m, 0);
    var drain := Drain(m, worth, d, v, s, n);
    var fill := JustShort(m, worth, d, v, Run(m, s, drain), k, m.burst - n as real);
    RunAppend(m, s, drain, fill);
    times := drain + fill;
    assert FloodsNear(m, d, Run(m, s, times).amount);
  }

  // ---------------------------------------------------------------------------
  // Waiting
  // ---------------------------------------------------------------------------

  /** Before a try of a waiter: the clock readings of other callers' takes, and whether somebody closes
      the limiter; then the waiter's own reading. */
  datatype Turn = Turn(others: seq<int>, closes: bool, now: int)

  datatype Verdict = Passed | Limited | Ended

  ghost function Readings(turns: seq<Turn>): seq<int> {
    if turns == [] then []
    else
      var t := turns[|turns| - 1];
      Readings(turns[..|turns| - 1]) + t.others + [t.now]
  }

  /** The waiter's own take of a turn is let through. */
  ghost predicate Passes(m: Machine, b: Tokens, turns: seq<Turn>, i: nat)
    requires i < |turns|
  {
    Take(m, Run(m, b, Readings(turns[..i]) + turns[i].others), turns[i].now).wait <= 0
  }

  lemma RunTurn(m: Machine, b: Tokens, turns: seq<Turn>, i: nat)
    requires i < |turns|
    ensures var t, s := turns[i], Run(m, b, Readings(turns[..i]));
            && Run(m, b, Readings(turns[..i + 1])) == Run(m, s, t.others + [t.now])
            && Run(m, b, Readings(turns[..i]) + t.others) == Run(m, s, t.others + [])
            && (Passes(m, b, turns, i) <==> Take(m, Run(m, s, t.others), t.now).wait <= 0)
  {
    var t, past := turns[i], Readings(turns[..i]);
    assert turns[..i + 1][..i] == turns[..i];
    assert past + t.others + [t.now] == past + (t.others + [t.now]);
    assert t.others + [] == t.others;
    RunAppend(m, b, past, t.others);
    RunAppend(m, b, past, t.others + [t.now]);
  }

  /** The waiter's first tries found the limiter open and were not let through. */
  ghost predicate Waiting(m: Machine, b: Tokens, turns: seq<Turn>, tries: nat, now: Tokens)
    requires tries <= |turns|
  {
    && (forall i :: 0 <= i < tries ==> !turns[i].closes && !Passes(m, b, turns, i))
    && now == Run(m, b, Readings(turns[..tries]))
  }

  /** A waiter that ends after some tries: let through by the last of them and no earlier one, or by
      none, because the limiter was found closed or because there was no further try. */
  ghost predicate Waited(m: Machine, b: Tokens, turns: seq<Turn>, tries: nat, v: Verdict, end: Tokens)
    requires tries <= |turns|
  {
    && (forall i :: 0 <= i < tries ==> !turns[i].closes && (Passes(m, b, turns, i) <==> v == Passed && i == tries - 1))
    && (v == Passed ==> tries > 0)
    && (v == Limited ==> tries < |turns|)
    && (v == Ended ==> tries == |turns|)
    && end == Run(m, b, Readings(turns[..tries]) + if v == Limited then turns[tries].others else [])
  }

  lemma WaitStep(m: Machine, b: Tokens, turns: seq<Turn>, tries: nat, s: Tokens)
    requires tries < |turns| && Waiting(m, b, turns, tries, s)
    ensures var t := turns[tries];
            var next := Run(m, s, t.others + [t.now]);
            && Waited(m, b, turns, tries, Limited, Run(m, s, t.others + []))
            && (!t.closes ==> if Take(m, Run(m, s, t.others), t.now).wait <= 0
                              then Waited(m, b, turns, tries + 1, Passed, next)
                              else Waiting(m, b, turns, tries + 1, next))
  {
    RunTurn(m, b, turns, tries);
    assert Readings(turns[..tries + 1]) + [] == Readings(turns[..tries + 1]);
  }

  lemma WaitEnds(m: Machine, b: Tokens, turns: seq<Turn>, s: Tokens)
    requires Waiting(m, b, turns, |turns|, s)
    ensures Waited(m, b, turns, |turns|, Ended, s)
  {
    assert Readings(turns[..|turns|]) + [] == Readings(turns[..|turns|]);
  }
}
