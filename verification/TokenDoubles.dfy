/** The limiter in double precision: configurations whose costs are whole numbers of nanoseconds, which
    exact arithmetic would limit, and which nevertheless let every call through. */
module TokenDoubles {
  import opened Floats
  import opened Doubles
  import opened TokenMachine
  import opened TokenLimiter

  /** 2^-56; the amounts below are whole multiples of it. */
  ghost function Amount(n: int): real {
    n as real / 72057594037927936.0
  }

  lemma {:induction false} PowSum(i: int, j: int)
    requires i <= 0
    ensures Pow(i + j) == Pow(i) * Pow(j)
    decreases -i
  {
    if i < 0 {
      PowSum(i + 1, j);
      PowNext(i);
      PowNext(i + j);
    }
  }

  lemma SmallPowers()
    ensures Pow(-6) == 1.0 / 64.0 && Pow(-8) == 1.0 / 256.0
  {
    assert Pow(0) == 1.0;
    assert Pow(-2) == 0.25;
    assert Pow(-4) == 1.0 / 16.0;
    assert Pow(-6) == 1.0 / 64.0;
  }

  lemma Powers()
    ensures IsPower(1.0 / 72057594037927936.0) && IsPower(1.0 / 4611686018427387904.0)
  {
    SmallPowers();
    PowSum(-8, -8);
    PowSum(-16, -16);
    PowSum(-8, -16);
    PowSum(-24, -32);
    PowSum(-6, -56);
    assert Pow(-16) == 1.0 / 65536.0 && Pow(-24) == 1.0 / 16777216.0 && Pow(-32) == 1.0 / 4294967296.0;
    assert Pow(-56) == 1.0 / 72057594037927936.0;
    assert Pow(-62) == 1.0 / 4611686018427387904.0;
  }

  lemma ManyPowers()
    ensures IsPower(1.0 / 72057594037927936.0) && IsPower(2.0 / 72057594037927936.0)
    ensures IsPower(4.0 / 72057594037927936.0) && IsPower(8.0 / 72057594037927936.0)
  {
    Powers();
    PowerPositive(1.0 / 72057594037927936.0);
    PowerPositive(2.0 / 72057594037927936.0);
    PowerPositive(4.0 / 72057594037927936.0);
  }

  /** Rounding a number of units to the nearest multiple of one, four or eight, where that is the unit of
      its size. */
  lemma RoundBy1(s: int, n: int)
    requires 4503599627370496 <= s < 9007199254740992
    requires var d := 2 * (n - s); -1 <= d <= 1 && (d == 1 || d == -1 ==> n % 2 == 0)
    ensures Nearest(Amount(s)) == Amount(n)
  {
    ManyPowers();
    RoundedIs(Amount(s), 1.0 / 72057594037927936.0, n);
  }

  lemma RoundBy4(s: int, n: int)
    requires 18014398509481984 <= s < 36028797018963968
    requires var d := 2 * (4 * n - s); -4 <= d <= 4 && (d == 4 || d == -4 ==> n % 2 == 0)
    ensures Nearest(Amount(s)) == Amount(4 * n)
  {
    ManyPowers();
    RoundedIs(Amount(s), 4.0 / 72057594037927936.0, n);
  }

  lemma RoundBy8(s: int, n: int)
    requires 36028797018963968 <= s < 72057594037927936
    requires var d := 2 * (8 * n - s); -8 <= d <= 8 && (d == 8 || d == -8 ==> n % 2 == 0)
    ensures Nearest(Amount(s)) == Amount(8 * n)
  {
    ManyPowers();
    RoundedIs(Amount(s), 8.0 / 72057594037927936.0, n);
  }

  /** The sums of tenths, as doubles. */
  ghost function Tenths(i: nat): real {
    Amount(if i == 0 then 0
           else if i == 1 then 7205759403792794
           else if i == 2 then 14411518807585588
           else if i == 3 then 21617278211378384
           else if i == 4 then 28823037615171176
           else if i == 5 then 36028797018963968
           else if i == 6 then 43234556422756760
           else if i == 7 then 50440315826549552
           else if i == 8 then 57646075230342344
           else if i == 9 then 64851834634135136
           else 72057594037927928)
  }

  lemma TwoTenths()
    ensures Nearest(Amount(14411518807585588)) == Amount(14411518807585588)
  {
    ManyPowers();
    RoundedIs(Amount(14411518807585588), 2.0 / 72057594037927936.0, 7205759403792794);
  }

  lemma NextTenth(i: nat)
    requires i < 10
    ensures Nearest(Tenths(i) + Tenths(1)) == Tenths(i + 1)
  {
    if i == 0 {
      RoundBy1(7205759403792794, 7205759403792794);
    } else if i == 1 {
      TwoTenths();
    } else if i == 2 {
      RoundBy4(21617278211378382, 5404319552844596);
    } else if i == 3 {
      RoundBy4(28823037615171178, 7205759403792794);
    } else if i == 4 {
      RoundBy8(36028797018963970, 4503599627370496);
    } else if i == 5 {
      RoundBy8(43234556422756762, 5404319552844595);
    } else if i == 6 {
      RoundBy8(50440315826549554, 6305039478318694);
    } else if i == 7 {
      RoundBy8(57646075230342346, 7205759403792793);
    } else if i == 8 {
      RoundBy8(64851834634135138, 8106479329266892);
    } else {
      RoundBy8(72057594037927930, 9007199254740991);
    }
  }

  lemma TenthIs()
    ensures Nearest(0.1) == Tenths(1)
  {
    Powers();
    RoundedIs(0.1, 1.0 / 72057594037927936.0, 7205759403792794);
  }

  lemma ThousandthIs()
    ensures Nearest(0.001) == 4611686018427388.0 / 4611686018427387904.0
    ensures Nearest(100.0 * (4611686018427388.0 / 4611686018427387904.0)) == Tenths(1)
  {
    Powers();
    RoundedIs(0.001, 1.0 / 4611686018427387904.0, 4611686018427388);
    RoundedIs(100.0 * (4611686018427388.0 / 4611686018427387904.0), 1.0 / 72057594037927936.0, 7205759403792794);
  }

  // ---------------------------------------------------------------------------
  // Ten tenths are not a token
  // ---------------------------------------------------------------------------

  /** A machine on which each step of time takes one of the amounts to the next. */
  ghost predicate StepsTo(m: Machine, sums: nat -> real, step: int, i: nat) {
    i < 10 ==> sums(i + 1) < 1.0 && m.accrue(sums(i), m.elapsed(step)) == sums(i + 1)
  }

  ghost predicate StepsThrough(m: Machine, sums: nat -> real, step: int) {
    forall i: nat :: StepsTo(m, sums, step, i)
  }

  /** `n` readings, a step apart. */
  ghost function Ticks(last: int, step: int, n: nat): seq<int>
    decreases n
  {
    if n == 0 then [] else [last + step] + Ticks(last + step, step, n - 1)
  }

  lemma {:induction false} TenSteps(m: Machine, sums: nat -> real, step: int, s: Tokens, i: nat)
    requires Sound(m) && m.burst >= 1.0 && step > 0 && i <= 10 && s.amount == sums(i) && StepsThrough(m, sums, step)
    ensures Run(m, s, Ticks(s.last, step, 10 - i)).amount == sums(10)
    decreases 10 - i
  {
    if i < 10 {
      var times := Ticks(s.last, step, 10 - i);
      assert times[0] == s.last + step && times[1..] == Ticks(s.last + step, step, 9 - i);
      assert TellsTime(m, step) && StepsTo(m, sums, step, i);
      TenSteps(m, sums, step, Tokens(sums(i + 1), s.last + step), i + 1);
    }
  }

  ghost predicate SpendsInteger(m: Machine, x: real) {
    Whole(x) && 1.0 <= x <= 9007199254740992.0 ==> m.spend(x) == x - 1.0
  }

  lemma {:induction false} SpendAll(m: Machine, s: Tokens, n: nat)
    requires Sound(m) && s.amount == n as real && n <= 9007199254740992 && forall x :: SpendsInteger(m, x)
    ensures Run(m, s, Repeat(s.last, n)) == Tokens(0.0, s.last)
    decreases n
  {
    if n > 0 {
      assert Repeat(s.last, n)[1..] == Repeat(s.last, n - 1);
      AtOnce(m, s);
      assert Whole(n as real);
      assert SpendsInteger(m, n as real);
      SpendAll(m, Tokens((n - 1) as real, s.last), n - 1);
    }
  }

  /** Ten calls, a step apart, after a full bucket has been emptied. */
  lemma StepsFlood(m: Machine, sums: nat -> real, n: nat, step: int) returns (times: seq<int>)
    requires Sound(m) && m.burst == n as real && 1 <= n <= 9007199254740992 && step > 0
    requires sums(0) == 0.0 && StepsThrough(m, sums, step) && (forall x :: SpendsInteger(m, x)) && m.wait(sums(10)) <= 0
    ensures times == Repeat(0, n) + Ticks(0, step, 10) && Flooding(m, Run(m, Initial(m, 0), times))
  {
    times := Repeat(0, n) + Ticks(0, step, 10);
    SpendAll(m, Initial(m, 0), n);
    RunAppend(m, Initial(m, 0), Repeat(0, n), Ticks(0, step, 10));
    TenSteps(m, sums, step, Tokens(0.0, 0), 0);
    assert StepsTo(m, sums, step, 9);
  }

  lemma NoWaitNearOne(a: Arith, rate: real)
    requires a.Valid() && rate >= 1.0
    ensures WaitFor(a, rate, Amount(72057594037927928)) == 0
  {
    var d := 1.0 - Amount(72057594037927928);
    assert d == 1.0 / 9007199254740992.0;
    Close(a.rnd, d);
    var q := a.rnd(d) / rate;
    assert 0.0 <= q <= a.rnd(d);
    Close(a.rnd, q);
    Close(a.rnd, a.rnd(q) * 1000000000.0);
    assert Truncate(a.rnd(a.rnd(q) * 1000000000.0)) == 0;
  }

  lemma SpendsIntegers(c: Config)
    requires c.Valid()
    ensures forall x :: SpendsInteger(MachineOf(c), x)
  {
    forall x ensures SpendsInteger(MachineOf(c), x) {
      if Whole(x) && 1.0 <= x <= 9007199254740992.0 {
        assert x - 1.0 == (x.Floor - 1) as real;
        ExactInteger(c.arith.rnd, x - 1.0);
      }
    }
  }

  lemma WholeBurst(a: Arith, rate: real, n: nat)
    requires a.Valid() && rate > 0.0 && 1 <= n <= 9007199254740992
    ensures Config(rate, n as real, a).Valid()
  {
    assert Whole(n as real);
    ExactInteger(a.rnd, n as real);
  }

  /** A duration below a second. */
  lemma ShortSeconds(dt: nat, x: real)
    requires dt < 1000000000 && x == dt as real / 1000000000.0
    ensures Seconds(Nearest, dt) == Nearest(x)
  {
    NearestIsRounding();
    Twice(Nearest, x);
    assert dt / 1000000000 == 0;
    assert 0.0 + Nearest(x) == Nearest(x);
  }

  lemma RateOneGain(c: Config, x: real)
    requires c.rate == 1.0 && c.arith.rnd == Nearest
    ensures var m := MachineOf(c); m.accrue(x, m.elapsed(100000000)) == Nearest(x + Tenths(1))
  {
    NearestIsRounding();
    ShortSeconds(100000000, 0.1);
    TenthIs();
    Twice(Nearest, 0.1);
    assert Product(Tenths(1), 1.0) == Tenths(1);
  }

  lemma RateHundredGain(c: Config, x: real)
    requires c.rate == 100.0 && c.arith.rnd == Nearest && !c.arith.fused
    ensures var m := MachineOf(c); m.accrue(x, m.elapsed(1000000)) == Nearest(x + Tenths(1))
  {
    var e := 4611686018427388.0 / 4611686018427387904.0;
    ShortSeconds(1000000, 0.001);
    ThousandthIs();
    assert Product(e, 100.0) == 100.0 * e;
  }

  lemma AddsTenths(m: Machine, step: int)
    requires forall x :: m.accrue(x, m.elapsed(step)) == Nearest(x + Tenths(1))
    ensures StepsThrough(m, Tenths, step)
  {
    forall i: nat ensures StepsTo(m, Tenths, step, i) {
      if i < 10 {
        NextTenth(i);
      }
    }
  }

  /** The limiter empties its bucket, and ten steps later lets every call through. */
  ghost predicate FloodsAfter(c: Config, n: nat, step: int)
    requires c.rate > 0.0
  {
    var m := MachineOf(c);
    c.Valid() && !AlwaysBounded(c.rate, m) && Flooding(m, Run(m, Initial(m, 0), Repeat(0, n) + Ticks(0, step, 10)))
  }

  lemma TenthsFlood(c: Config, n: nat, step: int)
    requires c.Valid() && c.burst == n as real && 1 <= n <= 9007199254740992 && step > 0 && c.rate >= 1.0
    requires StepsThrough(MachineOf(c), Tenths, step)
    ensures FloodsAfter(c, n, step)
  {
    ConfigSound(c);
    SpendsIntegers(c);
    NoWaitNearOne(c.arith, c.rate);
    var times := StepsFlood(MachineOf(c), Tenths, n, step);
    var more := FloodExceeds(c.rate, MachineOf(c), 0, times);
  }

  /** One token a second, burst one, in double precision on any platform: the first call empties the
      bucket, ten calls a tenth of a second apart bring it to 1 - 2^-53 tokens, and then every call at that
      instant passes without taking a token. */
  lemma RateOneFloods(conv: real -> int, fused: bool)
    requires Conversion(conv)
    ensures FloodsAfter(Config(1.0, 1.0, Arith(Nearest, conv, fused)), 1, 100000000)
  {
    var c := Config(1.0, 1.0, Arith(Nearest, conv, fused));
    var m := MachineOf(c);
    NearestIsRounding();
    WholeBurst(c.arith, 1.0, 1);
    forall x ensures m.accrue(x, m.elapsed(100000000)) == Nearest(x + Tenths(1)) {
      RateOneGain(c, x);
    }
    AddsTenths(m, 100000000);
    TenthsFlood(c, 1, 100000000);
  }

  /** A hundred tokens a second, burst two hundred, as in the package example, where products are rounded
      before they are added: two hundred calls at once, ten calls a millisecond apart, and then every call
      passes. */
  lemma RateHundredFloods(conv: real -> int)
    requires Conversion(conv)
    ensures FloodsAfter(Config(100.0, 200.0, Arith(Nearest, conv, false)), 200, 1000000)
  {
    var c := Config(100.0, 200.0, Arith(Nearest, conv, false));
    var m := MachineOf(c);
    NearestIsRounding();
    WholeBurst(c.arith, 100.0, 200);
    forall x ensures m.accrue(x, m.elapsed(1000000)) == Nearest(x + Tenths(1)) {
      RateHundredGain(c, x);
    }
    AddsTenths(m, 1000000);
    TenthsFlood(c, 200, 1000000);
  }
}
