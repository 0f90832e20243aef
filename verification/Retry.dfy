/** Retrying with exponential backoff. Durations are 64-bit integers, the backoff value is a real, and
    the conversion between them is a parameter. */
module Retry {
  import opened Floats
  import opened Int64

  // ---------------------------------------------------------------------------
  // Exponential backoff
  // ---------------------------------------------------------------------------

  function Pow(f: real, n: nat): real {
    if n == 0 then 1.0 else f * Pow(f, n - 1)
  }

  /** The uncapped delay as the loop computes it: one multiplication after the other. */
  function Grown(initial: int, factor: real, n: nat): real {
    if n == 0 then initial as real else Grown(initial, factor, n - 1) * factor
  }

  lemma {:induction false} GrownIsPower(initial: int, factor: real, n: nat)
    ensures Grown(initial, factor, n) == initial as real * Pow(factor, n)
  {
    if n > 0 {
      GrownIsPower(initial, factor, n - 1);
      Commute(initial as real, Pow(factor, n - 1), factor);
    }
  }

  lemma Commute(a: real, b: real, c: real)
    ensures a * b * c == a * (c * b)
  {
  }

  /** What the documentation promises of a value: capped, if there is a cap. */
  function Cap(d: real, max: int): int {
    if max > 0 && Truncate(d) > max then max else Truncate(d)
  }

  /** Whether the loop leaves early: one of the values after a multiplication exceeds the cap. */
  ghost predicate LeavesEarly(conv: real -> int, initial: int, factor: real, max: int, attempt: nat) {
    attempt > 0 && (LeavesEarly(conv, initial, factor, max, attempt - 1)
                    || (max > 0 && conv(Grown(initial, factor, attempt)) > max))
  }

  ghost function DelaySpec(conv: real -> int, initial: int, factor: real, max: int, attempt: nat): int {
    var c := conv(Grown(initial, factor, attempt));
    if LeavesEarly(conv, initial, factor, max, attempt) || (max > 0 && c > max) then max else c
  }

  method Delay(conv: real -> int, initial: int, factor: real, max: int, attempt: nat) returns (r: int)
    ensures r == DelaySpec(conv, initial, factor, max, attempt)
    ensures r == if Capped(conv, initial, factor, max, attempt) then max else conv(Formula(initial, factor, attempt))
  {
    DelayIs(conv, initial, factor, max, attempt);
    var d := initial as real;
    for i := 0 to attempt
      invariant d == Grown(initial, factor, i) && !LeavesEarly(conv, initial, factor, max, i)
    {
      d := d * factor;
      assert d == Grown(initial, factor, i + 1);
      if max > 0 && conv(d) > max {
        EarlyStays(conv, initial, factor, max, i + 1, attempt);
        return max;
      }
    }
    if max > 0 && conv(d) > max {
      return max;
    }
    return conv(d);
  }

  /** Initial * Factor^i. */
  ghost function Formula(initial: int, factor: real, i: nat): real {
    initial as real * Pow(factor, i)
  }

  /** That value exceeds the cap. */
  ghost predicate OverCap(conv: real -> int, initial: int, factor: real, max: int, i: nat) {
    max > 0 && conv(Formula(initial, factor, i)) > max
  }

  /** The value of this attempt, or one of the values after a multiplication before it, exceeds the cap. */
  ghost predicate Capped(conv: real -> int, initial: int, factor: real, max: int, attempt: nat) {
    exists i: nat :: (0 < i < attempt || i == attempt) && OverCap(conv, initial, factor, max, i)
  }

  lemma GrownIsFormula(initial: int, factor: real, i: nat)
    ensures Grown(initial, factor, i) == Formula(initial, factor, i)
  {
    GrownIsPower(initial, factor, i);
  }

  lemma LeavesNow(conv: real -> int, initial: int, factor: real, max: int, attempt: nat)
    ensures LeavesEarly(conv, initial, factor, max, attempt + 1) <==>
            LeavesEarly(conv, initial, factor, max, attempt) || OverCap(conv, initial, factor, max, attempt + 1)
  {
    GrownIsFormula(initial, factor, attempt + 1);
  }

  lemma {:induction false} LeavesEarlyIff(conv: real -> int, initial: int, factor: real, max: int, attempt: nat)
    ensures LeavesEarly(conv, initial, factor, max, attempt) <==>
            exists i: nat :: 0 < i <= attempt && OverCap(conv, initial, factor, max, i)
  {
    if attempt > 0 {
      LeavesEarlyIff(conv, initial, factor, max, attempt - 1);
      LeavesNow(conv, initial, factor, max, attempt - 1);
    }
  }

  lemma DelayCases(conv: real -> int, initial: int, factor: real, max: int, attempt: nat)
    ensures DelaySpec(conv, initial, factor, max, attempt)
         == if LeavesEarly(conv, initial, factor, max, attempt) || OverCap(conv, initial, factor, max, attempt) then max
            else conv(Formula(initial, factor, attempt))
  {
    GrownIsFormula(initial, factor, attempt);
  }

  lemma DelayIs(conv: real -> int, initial: int, factor: real, max: int, attempt: nat)
    ensures DelaySpec(conv, initial, factor, max, attempt)
         == if Capped(conv, initial, factor, max, attempt) then max else conv(Formula(initial, factor, attempt))
  {
    LeavesEarlyIff(conv, initial, factor, max, attempt);
    DelayCases(conv, initial, factor, max, attempt);
  }

  lemma {:induction false} EarlyStays(conv: real -> int, initial: int, factor: real, max: int, i: nat, attempt: nat)
    requires LeavesEarly(conv, initial, factor, max, i) && i <= attempt
    ensures LeavesEarly(conv, initial, factor, max, attempt)
  {
    if i < attempt {
      EarlyStays(conv, initial, factor, max, i, attempt - 1);
    }
  }

  /** Value `i`, if the loop gets to convert it, fits in 64 bits. */
  ghost predicate FitsAt(initial: int, factor: real, max: int, i: nat) {
    i > 0 && !LeavesEarly(Truncate, initial, factor, max, i - 1) ==> Fits(Truncate(Grown(initial, factor, i)))
  }

  /** Every value that the loop converts, whatever the attempt, fits in 64 bits. */
  ghost predicate AllFit(initial: int, factor: real, max: int) {
    forall i: nat :: FitsAt(initial, factor, max, i)
  }

  /** While the values fit, the conversion does not matter. */
  lemma {:induction false} ConversionIrrelevant(conv: real -> int, initial: int, factor: real, max: int, attempt: nat)
    requires Conversion(conv) && Fits(initial) && AllFit(initial, factor, max)
    ensures LeavesEarly(conv, initial, factor, max, attempt) <==> LeavesEarly(Truncate, initial, factor, max, attempt)
    ensures DelaySpec(conv, initial, factor, max, attempt) == DelaySpec(Truncate, initial, factor, max, attempt)
  {
    assert FitsAt(initial, factor, max, attempt);
    if attempt > 0 {
      ConversionIrrelevant(conv, initial, factor, max, attempt - 1);
    }
  }

  lemma TruncateOrder(x: real, y: real)
    requires x <= y
    ensures Truncate(x) <= Truncate(y)
  {
  }

  lemma GrowStep(g: real, factor: real)
    ensures factor >= 1.0 && g >= 0.0 ==> g * factor >= g
    ensures 0.0 <= factor < 1.0 && g >= 0.0 ==> 0.0 <= g * factor <= g
    ensures factor >= 0.0 && g <= 0.0 ==> g * factor <= 0.0
  {
    if factor >= 1.0 && g >= 0.0 {
      NonNegativeProduct(g, factor - 1.0);
      assert g * (factor - 1.0) == g * factor - g;
    } else if factor >= 0.0 && g >= 0.0 {
      NonNegativeProduct(g, factor);
      NonNegativeProduct(g, 1.0 - factor);
      assert g * (1.0 - factor) == g - g * factor;
    } else if factor >= 0.0 {
      NonNegativeProduct(-g, factor);
      assert -g * factor == -(g * factor);
    }
  }

  lemma {:induction false} GrownSign(initial: int, factor: real, n: nat)
    requires factor >= 0.0
    ensures initial >= 0 ==> Grown(initial, factor, n) >= 0.0
    ensures initial <= 0 ==> Grown(initial, factor, n) <= 0.0
  {
    if n > 0 {
      GrownSign(initial, factor, n - 1);
      GrowStep(Grown(initial, factor, n - 1), factor);
    }
  }

  /** With a factor of at least one the delay does not fall from one attempt to the next. */
  lemma {:induction false} GrownRises(initial: nat, factor: real, m: nat, n: nat)
    requires factor >= 1.0 && m <= n
    ensures Grown(initial, factor, m) <= Grown(initial, factor, n)
  {
    if m < n {
      GrownRises(initial, factor, m, n - 1);
      GrownSign(initial, factor, n - 1);
      GrowStep(Grown(initial, factor, n - 1), factor);
    }
  }

  lemma GrownNextFalls(initial: nat, factor: real, n: nat)
    requires 0.0 <= factor < 1.0
    ensures Grown(initial, factor, n + 1) <= Grown(initial, factor, n)
  {
    GrownSign(initial, factor, n);
    GrowStep(Grown(initial, factor, n), factor);
  }

  lemma {:induction false} GrownFalls(initial: nat, factor: real, n: nat)
    requires 0.0 <= factor < 1.0 && n >= 1
    ensures Grown(initial, factor, n) <= Grown(initial, factor, 1)
  {
    if n > 1 {
      GrownFalls(initial, factor, n - 1);
      GrownNextFalls(initial, factor, n - 1);
    }
  }

  /** Leaving early is harmless when the values rise, and does not happen when the first value after
      a multiplication is within the cap and the values fall. */
  lemma {:induction false} EarlyMeansCapped(initial: int, factor: real, max: int, attempt: nat)
    requires factor >= 0.0 && max > 0
    requires factor >= 1.0 || Truncate(Grown(initial, factor, 1)) <= max
    ensures LeavesEarly(Truncate, initial, factor, max, attempt) ==> Truncate(Grown(initial, factor, attempt)) > max
  {
    if attempt > 0 {
      EarlyMeansCapped(initial, factor, max, attempt - 1);
      GrownSign(initial, factor, attempt);
      if initial >= 0 {
        if factor >= 1.0 {
          GrownRises(initial, factor, attempt - 1, attempt);
          TruncateOrder(Grown(initial, factor, attempt - 1), Grown(initial, factor, attempt));
        } else {
          NeverEarly(initial, factor, max, attempt);
        }
      } else {
        GrownSign(initial, factor, attempt - 1);
      }
    }
  }

  lemma {:induction false} NeverEarly(initial: nat, factor: real, max: int, attempt: nat)
    requires 0.0 <= factor < 1.0 && max > 0 && Truncate(Grown(initial, factor, 1)) <= max
    ensures !LeavesEarly(Truncate, initial, factor, max, attempt)
  {
    if attempt > 0 {
      NeverEarly(initial, factor, max, attempt - 1);
      GrownFalls(initial, factor, attempt);
      TruncateOrder(Grown(initial, factor, attempt), Grown(initial, factor, 1));
    }
  }

  /** The documented formula, at one attempt and for one conversion. */
  ghost predicate Documented(conv: real -> int, initial: int, factor: real, max: int, attempt: nat) {
    DelaySpec(conv, initial, factor, max, attempt) == Cap(initial as real * Pow(factor, attempt), max)
  }

  lemma {:induction false} EarlyFromFirst(initial: int, factor: real, max: int, attempt: nat)
    requires max > 0 && Truncate(Grown(initial, factor, 1)) > max && attempt >= 1
    ensures LeavesEarly(Truncate, initial, factor, max, attempt)
  {
    EarlyStays(Truncate, initial, factor, max, 1, attempt);
  }

  lemma NonNegativeProduct(x: real, y: real)
    requires x >= 0.0 && y >= 0.0
    ensures x * y >= 0.0
  {
  }

  lemma PositiveProduct(x: real, y: real)
    requires x > 0.0 && y > 0.0
    ensures x * y > 0.0
  {
  }

  /** Bernoulli's inequality. */
  lemma {:induction false} Bernoulli(g: real, n: nat)
    requires g >= 1.0
    ensures Pow(g, n) >= 1.0 + n as real * (g - 1.0)
  {
    if n > 0 {
      Bernoulli(g, n - 1);
      var p, x := Pow(g, n - 1), (n - 1) as real * (g - 1.0);
      assert x >= 0.0;
      BernoulliStep(g, p, x);
      assert n as real * (g - 1.0) == x + (g - 1.0);
    }
  }

  lemma BernoulliStep(g: real, p: real, x: real)
    requires g >= 1.0 && x >= 0.0 && p >= 1.0 + x
    ensures g * p >= 1.0 + x + (g - 1.0)
  {
    NonNegativeProduct(g - 1.0, p - 1.0);
    assert g * p == (g - 1.0) * (p - 1.0) + (p - 1.0) + g;
  }

  lemma {:induction false} PowInverse(f: real, g: real, n: nat)
    requires f * g == 1.0
    ensures Pow(f, n) * Pow(g, n) == 1.0
  {
    if n > 0 {
      PowInverse(f, g, n - 1);
      InverseStep(f, g, Pow(f, n - 1), Pow(g, n - 1));
    }
  }

  lemma InverseStep(f: real, g: real, p: real, q: real)
    requires f * g == 1.0 && p * q == 1.0
    ensures (f * p) * (g * q) == 1.0
  {
    assert (f * p) * (g * q) == (f * g) * (p * q);
  }

  /** With a factor below one the delay gets below one nanosecond. */
  lemma Vanishes(initial: nat, factor: real) returns (n: nat)
    requires 0.0 < factor < 1.0
    ensures n >= 1 && Truncate(Grown(initial, factor, n)) == 0
  {
    var g := 1.0 / factor;
    assert factor * g == 1.0;
    assert g > 1.0;
    n := Enough(initial as real, g - 1.0);
    Bernoulli(g, n);
    PowInverse(factor, g, n);
    GrownIsPower(initial, factor, n);
    GrownSign(initial, factor, n);
    SmallQuotient(initial as real, Pow(factor, n), Pow(g, n));
  }

  lemma Enough(x: real, step: real) returns (n: nat)
    requires x >= 0.0 && step > 0.0
    ensures n >= 1 && n as real * step > x
  {
    var q := x / step;
    assert q * step == x && q >= 0.0;
    n := q.Floor + 1;
    assert (n as real - q) * step > 0.0;
  }

  lemma PositiveFactor(p: real, q: real)
    requires p * q == 1.0 && q >= 1.0
    ensures p > 0.0
  {
    if p <= 0.0 {
      NonNegativeProduct(-p, q);
    }
  }

  lemma Distribute(d: real, x: real, p: real)
    ensures (d + x) * p == d * p + x * p
  {
  }

  lemma SmallQuotient(x: real, p: real, q: real)
    requires x >= 0.0 && p * q == 1.0 && q > x && q >= 1.0
    ensures x * p < 1.0
  {
    PositiveFactor(p, q);
    var d := q - x;
    PositiveProduct(d, p);
    Distribute(d, x, p);
    assert (d + x) * p == 1.0;
  }

  /** Whatever makes the loop leave early under this conversion does so under plain truncation. */
  lemma {:induction false} IndefiniteEarly(initial: int, factor: real, max: int, attempt: nat)
    ensures LeavesEarly(Indefinite, initial, factor, max, attempt) ==>
              LeavesEarly(Truncate, initial, factor, max, attempt)
  {
    if attempt > 0 {
      IndefiniteEarly(initial, factor, max, attempt - 1);
    }
  }

  /** At a value that does not fit the formula fails on x86-64. */
  lemma MisfitFails(initial: int, factor: real, max: int, i: nat)
    requires Fits(max) && !FitsAt(initial, factor, max, i)
    ensures DelaySpec(Indefinite, initial, factor, max, i) == -TWO_63
    ensures !Documented(Indefinite, initial, factor, max, i)
  {
    IndefiniteEarly(initial, factor, max, i - 1);
    GrownIsPower(initial, factor, i);
  }

  ghost predicate DocumentedAlways(initial: int, factor: real, max: int) {
    forall conv, attempt: nat :: Conversion(conv) ==> Documented(conv, initial, factor, max, attempt)
  }

  lemma TruncatedFormula(initial: int, factor: real, max: int, attempt: nat)
    requires factor >= 0.0
    requires max <= 0 || factor >= 1.0 || Truncate(Grown(initial, factor, 1)) <= max
    ensures DelaySpec(Truncate, initial, factor, max, attempt) == Cap(Grown(initial, factor, attempt), max)
  {
    if max > 0 {
      EarlyMeansCapped(initial, factor, max, attempt);
    } else {
      NoCap(initial, factor, max, attempt);
    }
  }

  lemma FormulaHolds(conv: real -> int, initial: int, factor: real, max: int, attempt: nat)
    requires Conversion(conv) && factor >= 0.0 && Fits(initial) && AllFit(initial, factor, max)
    requires max <= 0 || factor >= 1.0 || Truncate(Grown(initial, factor, 1)) <= max
    ensures Documented(conv, initial, factor, max, attempt)
  {
    TruncatedFormula(initial, factor, max, attempt);
    ConversionIrrelevant(conv, initial, factor, max, attempt);
    GrownIsPower(initial, factor, attempt);
  }

  lemma {:induction false} NoCap(initial: int, factor: real, max: int, attempt: nat)
    requires max <= 0
    ensures !LeavesEarly(Truncate, initial, factor, max, attempt)
  {
    if attempt > 0 {
      NoCap(initial, factor, max, attempt - 1);
    }
  }

  // What it takes for all values to fit

  lemma {:induction false} GrownMirrors(initial: int, factor: real, n: nat)
    ensures Grown(-initial, factor, n) == -Grown(initial, factor, n)
  {
    if n > 0 {
      GrownMirrors(initial, factor, n - 1);
      assert -Grown(initial, factor, n - 1) * factor == -(Grown(initial, factor, n - 1) * factor);
    }
  }

  lemma {:induction false} GrownShrinks(initial: nat, factor: real, n: nat)
    requires initial == 0 || 0.0 <= factor <= 1.0
    ensures 0.0 <= Grown(initial, factor, n) <= initial as real
  {
    if n > 0 {
      GrownShrinks(initial, factor, n - 1);
      ShrinkStep(Grown(initial, factor, n - 1), factor);
    }
  }

  lemma ShrinkStep(g: real, factor: real)
    requires g == 0.0 || (g >= 0.0 && 0.0 <= factor <= 1.0)
    ensures 0.0 <= g * factor <= g
  {
    if g == 0.0 {
      assert g * factor == 0.0;
    } else {
      NonNegativeProduct(g, factor);
      NonNegativeProduct(g, 1.0 - factor);
      assert g * (1.0 - factor) == g - g * factor;
    }
  }

  lemma ShrinkingFits(initial: int, factor: real, max: int)
    requires Fits(initial) && (initial == 0 || 0.0 <= factor <= 1.0)
    ensures AllFit(initial, factor, max)
  {
    forall i: nat ensures FitsAt(initial, factor, max, i) {
      if initial >= 0 {
        GrownShrinks(initial, factor, i);
      } else {
        GrownShrinks(-initial, factor, i);
        GrownMirrors(initial, factor, i);
      }
    }
  }

  /** A grown value above the cap that still fits in 64 bits. */
  ghost predicate Lands(initial: int, factor: real, max: int, k: nat) {
    k >= 1 && max < Truncate(Grown(initial, factor, k)) < TWO_63
  }

  lemma LandingFits(initial: nat, factor: real, max: int, k: nat)
    requires factor >= 1.0 && max > 0 && Lands(initial, factor, max, k)
    ensures AllFit(initial, factor, max)
  {
    forall i: nat ensures FitsAt(initial, factor, max, i) {
      if i > k {
        EarlyStays(Truncate, initial, factor, max, k, i - 1);
      } else {
        GrownSign(initial, factor, i);
        GrownRises(initial, factor, i, k);
        TruncateOrder(Grown(initial, factor, i), Grown(initial, factor, k));
      }
    }
  }

  /** With a factor above one the values pass any bound. */
  lemma Explodes(initial: nat, factor: real, bound: nat) returns (n: nat)
    requires initial > 0 && factor > 1.0
    ensures n >= 1 && Grown(initial, factor, n) > bound as real
  {
    n := Enough(bound as real, factor - 1.0);
    Bernoulli(factor, n);
    GrownIsPower(initial, factor, n);
    var p := Pow(factor, n);
    NonNegativeProduct(initial as real - 1.0, p);
    assert initial as real * p == (initial as real - 1.0) * p + p;
  }

  lemma {:induction false} EarlyAt(initial: int, factor: real, max: int, attempt: nat) returns (j: nat)
    requires LeavesEarly(Truncate, initial, factor, max, attempt)
    ensures 1 <= j <= attempt && Truncate(Grown(initial, factor, j)) > max > 0
  {
    if LeavesEarly(Truncate, initial, factor, max, attempt - 1) {
      j := EarlyAt(initial, factor, max, attempt - 1);
    } else {
      j := attempt;
    }
  }

  /** If no value above the cap fits, the loop converts one that does not. */
  lemma {:induction false} Misfit(initial: int, factor: real, max: int, n: nat) returns (i: nat)
    requires n >= 1 && Truncate(Grown(initial, factor, n)) >= TWO_63
    requires forall k: nat :: !Lands(initial, factor, max, k)
    ensures !FitsAt(initial, factor, max, i)
    decreases n
  {
    if LeavesEarly(Truncate, initial, factor, max, n - 1) {
      var j := EarlyAt(initial, factor, max, n - 1);
      assert !Lands(initial, factor, max, j);
      i := Misfit(initial, factor, max, j);
    } else {
      i := n;
    }
  }

  lemma {:induction false} NegativeStays(initial: int, factor: real, max: int, attempt: nat)
    requires initial <= 0 && factor >= 0.0
    ensures !LeavesEarly(Truncate, initial, factor, max, attempt)
  {
    if attempt > 0 {
      NegativeStays(initial, factor, max, attempt - 1);
      GrownSign(initial, factor, attempt);
    }
  }

  lemma GrowingMisfits(initial: int, factor: real, max: int)
    requires factor > 1.0 && initial != 0 && (max <= 0 || initial < 0)
    ensures !AllFit(initial, factor, max)
  {
    var n := Explodes(if initial > 0 then initial else -initial, factor, TWO_63 + 1);
    if initial < 0 {
      GrownMirrors(initial, factor, n);
      NegativeStays(initial, factor, max, n - 1);
    } else {
      NoCap(initial, factor, max, n - 1);
    }
    assert !FitsAt(initial, factor, max, n);
  }

  /** The values keep within 64 bits: they do not grow, or a cap stops them at a value that fits. */
  ghost predicate InRange(initial: int, factor: real, max: int) {
    || initial == 0
    || factor <= 1.0
    || (max > 0 && initial > 0 && exists k: nat :: Lands(initial, factor, max, k))
  }

  lemma AllFitIff(initial: int, factor: real, max: int)
    requires factor >= 0.0 && Fits(initial)
    ensures AllFit(initial, factor, max) <==> InRange(initial, factor, max)
  {
    if initial == 0 || factor <= 1.0 {
      ShrinkingFits(initial, factor, max);
    } else if max <= 0 || initial < 0 {
      GrowingMisfits(initial, factor, max);
    } else if k: nat :| Lands(initial, factor, max, k) {
      LandingFits(initial, factor, max, k);
    } else {
      var n := Explodes(initial, factor, TWO_63);
      var i := Misfit(initial, factor, max, n);
    }
  }

  /** The documented formula, `Initial * Factor^attempt` capped at `Max`, is what the loop returns for
      every attempt and whatever the platform converts, exactly when the values keep within 64 bits and, if
      there is a cap, the factor is at least one or the first grown value is within the cap. */
  lemma FormulaIff(initial: int, factor: real, max: int)
    requires factor >= 0.0 && Fits(initial) && Fits(max)
    ensures DocumentedAlways(initial, factor, max) <==>
            InRange(initial, factor, max) && (max <= 0 || factor >= 1.0 || Truncate(initial as real * factor) <= max)
  {
    assert Grown(initial, factor, 1) == initial as real * factor;
    Conversions();
    AllFitIff(initial, factor, max);
    if !AllFit(initial, factor, max) {
      var i: nat :| !FitsAt(initial, factor, max, i);
      MisfitFails(initial, factor, max, i);
    } else if max <= 0 || factor >= 1.0 || Truncate(initial as real * factor) <= max {
      forall conv, attempt: nat | Conversion(conv) ensures Documented(conv, initial, factor, max, attempt) {
        FormulaHolds(conv, initial, factor, max, attempt);
      }
    } else {
      var n := FormulaFails(initial, factor, max);
    }
  }

  lemma PositiveInputs(initial: int, factor: real)
    requires factor >= 0.0 && Truncate(Grown(initial, factor, 1)) > 0
    ensures initial > 0 && factor > 0.0
  {
    assert Grown(initial, factor, 1) == initial as real * factor;
    GrownSign(initial, factor, 1);
  }

  /** The loop left early at a value above the cap, while the formula has come down to nothing. */
  lemma FailsAt(conv: real -> int, initial: int, factor: real, max: int, n: nat)
    requires max > 0 && LeavesEarly(conv, initial, factor, max, n) && Truncate(Grown(initial, factor, n)) == 0
    ensures !Documented(conv, initial, factor, max, n)
  {
    GrownIsPower(initial, factor, n);
  }

  lemma FormulaFails(initial: int, factor: real, max: int) returns (n: nat)
    requires 0.0 <= factor < 1.0 && max > 0 && Truncate(Grown(initial, factor, 1)) > max
    requires Fits(initial) && AllFit(initial, factor, max) && Conversion(Indefinite)
    ensures !Documented(Indefinite, initial, factor, max, n)
  {
    PositiveInputs(initial, factor);
    n := Vanishes(initial, factor);
    EarlyFromFirst(initial, factor, max, n);
    ConversionIrrelevant(Indefinite, initial, factor, max, n);
    FailsAt(Indefinite, initial, factor, max, n);
  }

  /** With the initial delay within the cap, no value the loop forms exceeds (Max + 1) * Factor. */
  lemma FormedBound(initial: int, factor: real, max: int, i: nat)
    requires factor >= 0.0 && max > 0 && initial <= max && i > 0
    requires !LeavesEarly(Truncate, initial, factor, max, i - 1)
    ensures Grown(initial, factor, i) <= (max + 1) as real * factor
  {
    var g, bound := Grown(initial, factor, i - 1), (max + 1) as real;
    assert g <= bound;
    NonNegativeProduct(bound - g, factor);
    assert (bound - g) * factor == bound * factor - g * factor;
  }

  /** So a cap with (Max + 1) * Factor below 2^63 keeps every value in 64 bits. */
  lemma CapKeepsFit(initial: nat, factor: real, max: int)
    requires factor >= 0.0 && 0 < max && initial <= max && (max + 1) as real * factor < TWO_63 as real
    ensures AllFit(initial, factor, max)
  {
    forall i: nat ensures FitsAt(initial, factor, max, i) {
      if i > 0 && !LeavesEarly(Truncate, initial, factor, max, i - 1) {
        FormedBound(initial, factor, max, i);
        GrownSign(initial, factor, i);
      }
    }
  }

  /** One second, times 10^10, capped at ten seconds: the first grown value does not fit, and on x86-64
      the delay is negative. */
  lemma OverflowExample()
    ensures DelaySpec(Indefinite, 1000000000, 10000000000.0, 10000000000, 1) == -TWO_63
  {
    assert Grown(1000000000, 10000000000.0, 0) == 1000000000.0;
    assert Grown(1000000000, 10000000000.0, 1) == 10000000000000000000.0;
    MisfitFails(1000000000, 10000000000.0, 10000000000, 1);
  }

  /** With a factor of at least one, later attempts never wait less. */
  lemma DelayRises(conv: real -> int, initial: nat, factor: real, max: int, m: nat, n: nat)
    requires factor >= 1.0 && max > 0 && m <= n
    requires Conversion(conv) && Fits(initial) && AllFit(initial, factor, max)
    ensures DelaySpec(conv, initial, factor, max, m) <= DelaySpec(conv, initial, factor, max, n) <= max
  {
    ConversionIrrelevant(conv, initial, factor, max, m);
    ConversionIrrelevant(conv, initial, factor, max, n);
    EarlyMeansCapped(initial, factor, max, m);
    EarlyMeansCapped(initial, factor, max, n);
    GrownRises(initial, factor, m, n);
    TruncateOrder(Grown(initial, factor, m), Grown(initial, factor, n));
  }

  /** A factor left at its zero value gives no backoff at all after the first retry. */
  lemma {:induction false} ZeroFactor(conv: real -> int, initial: int, max: int, attempt: nat)
    requires Conversion(conv) && attempt >= 1 && max >= 0
    ensures !LeavesEarly(conv, initial, 0.0, max, attempt)
    ensures DelaySpec(conv, initial, 0.0, max, attempt) == 0
  {
    assert conv(0.0) == Truncate(0.0) == 0;
    ZeroGrown(initial, attempt);
    if attempt > 1 {
      ZeroFactor(conv, initial, max, attempt - 1);
    }
    assert Grown(initial, 0.0, attempt) == 0.0;
    assert !LeavesEarly(conv, initial, 0.0, max, attempt);
  }

  lemma ZeroGrown(initial: int, attempt: nat)
    requires attempt >= 1
    ensures Grown(initial, 0.0, attempt) == 0.0
  {
  }

  // ---------------------------------------------------------------------------
  // The retry loop
  // ---------------------------------------------------------------------------

  /** What the environment does in one round: whether the context is done before the call, how the call
      ends and how long it takes, the wait that backoff and jitter give, and whether and after how long
      the context ends the sleep. */
  datatype Round = Round(
    cancelled: bool, ok: bool, retryable: bool, takes: nat, wait: int, interrupted: bool, after: nat)

  datatype Outcome = Success | ContextError | Permanent | Timeout | Exhausted

  ghost predicate Failing(rounds: seq<Round>) {
    forall i :: 0 <= i < |rounds| ==> !rounds[i].cancelled && !rounds[i].ok && rounds[i].retryable
  }

  /** The sleep after a failed call: the wait of its round, cut to what remains and to the moment the context
      ends it. */
  ghost function Nap(maxTotalWait: int, elapsed: int, round: Round): nat {
    var left := maxTotalWait - elapsed;
    var wait := if maxTotalWait > 0 && round.wait > left then left else round.wait;
    if wait <= 0 then 0 else if round.interrupted && round.after < wait then round.after else wait
  }

  datatype Spent = Spent(slept: nat, elapsed: nat)

  /** The time spent in so many rounds, calls and sleeps. */
  ghost function SpentIn(maxTotalWait: int, rounds: seq<Round>, n: nat): Spent
    requires n <= |rounds|
  {
    if n == 0 then Spent(0, 0)
    else
      var t, round := SpentIn(maxTotalWait, rounds, n - 1), rounds[n - 1];
      var nap := Nap(maxTotalWait, t.elapsed + round.takes, round);
      Spent(t.slept + nap, t.elapsed + round.takes + nap)
  }

  /** The same with the last call, but no sleep after it. */
  ghost function SpentAt(maxTotalWait: int, rounds: seq<Round>, n: nat): Spent
    requires n <= |rounds|
  {
    if n == 0 then Spent(0, 0)
    else
      var t := SpentIn(maxTotalWait, rounds, n - 1);
      t.(elapsed := t.elapsed + rounds[n - 1].takes)
  }

  ghost predicate Fails(round: Round) {
    !round.cancelled && !round.ok && round.retryable
  }

  /** The call of round `i` fails, there is time left after it, and the context does not end the sleep. */
  ghost predicate GoesOn(maxTotalWait: int, rounds: seq<Round>, i: nat)
    requires i < |rounds|
  {
    Fails(rounds[i]) && !rounds[i].interrupted && InTime(maxTotalWait, rounds, i)
  }

  ghost predicate InTime(maxTotalWait: int, rounds: seq<Round>, i: nat)
    requires i < |rounds|
  {
    maxTotalWait > 0 ==> SpentAt(maxTotalWait, rounds, i + 1).elapsed < maxTotalWait
  }

  /** Every round before this one goes on to the next. */
  ghost predicate Reaches(maxTotalWait: int, rounds: seq<Round>, n: nat)
    requires n <= |rounds|
  {
    forall i :: 0 <= i < n ==> GoesOn(maxTotalWait, rounds, i)
  }

  /** What the loop returns when round `i`, which it calls, is its last. */
  ghost predicate Concludes(maxTotalWait: int, rounds: seq<Round>, i: nat, r: Outcome)
    requires i < |rounds|
  {
    && !rounds[i].cancelled
    && match r
       case Success => rounds[i].ok
       case Permanent => !rounds[i].ok && !rounds[i].retryable
       case Exhausted => Fails(rounds[i]) && i == |rounds| - 1
       case Timeout => Fails(rounds[i]) && i < |rounds| - 1 && !InTime(maxTotalWait, rounds, i)
       case ContextError =>
         Fails(rounds[i]) && i < |rounds| - 1 && InTime(maxTotalWait, rounds, i) && rounds[i].interrupted
  }

  /** The context is done before the next call. */
  ghost predicate Cancelled(maxTotalWait: int, rounds: seq<Round>, calls: nat) {
    calls < |rounds| && Reaches(maxTotalWait, rounds, calls) && rounds[calls].cancelled
  }

  /** How the loop can end after so many calls. */
  ghost predicate Ends(maxTotalWait: int, rounds: seq<Round>, r: Outcome, calls: nat)
    requires calls <= |rounds|
  {
    || (r == Exhausted && rounds == [])
    || (r == ContextError && Cancelled(maxTotalWait, rounds, calls))
    || (calls > 0 && Reaches(maxTotalWait, rounds, calls - 1) && Concludes(maxTotalWait, rounds, calls - 1, r))
  }

  lemma {:induction false} InTimeBounds(maxTotalWait: int, rounds: seq<Round>, n: nat)
    requires n <= |rounds| && forall i :: 0 <= i < n ==> InTime(maxTotalWait, rounds, i)
    ensures var t := SpentIn(maxTotalWait, rounds, n);
            t.slept <= t.elapsed && (maxTotalWait > 0 ==> t.slept <= t.elapsed <= maxTotalWait)
  {
    if n > 0 {
      InTimeBounds(maxTotalWait, rounds, n - 1);
      assert InTime(maxTotalWait, rounds, n - 1);
    }
  }

  /** What the documentation promises of the end. */
  ghost predicate Promises(maxTotalWait: int, rounds: seq<Round>, r: Outcome, calls: nat, slept: nat, elapsed: nat)
    requires calls <= |rounds|
  {
    && (r == Success <==> calls > 0 && rounds[calls - 1].ok)
    && (r == Permanent <==> calls > 0 && !rounds[calls - 1].ok && !rounds[calls - 1].retryable)
    && (r == Timeout ==> 0 < maxTotalWait <= elapsed)
    && (r == ContextError ==>
          (calls < |rounds| && rounds[calls].cancelled) || (calls > 0 && rounds[calls - 1].interrupted))
    && (r == Exhausted ==> calls == |rounds| && Failing(rounds))
    && (calls > 0 ==> Failing(rounds[..calls - 1]))
    && slept <= elapsed
    && (maxTotalWait > 0 ==> slept <= maxTotalWait)
    && (maxTotalWait > 0 && calls > 0 ==> elapsed <= maxTotalWait + rounds[calls - 1].takes)
  }

  ghost function TimeAt(maxTotalWait: int, rounds: seq<Round>, r: Outcome, calls: nat): Spent
    requires calls <= |rounds|
  {
    if r == ContextError then SpentIn(maxTotalWait, rounds, calls) else SpentAt(maxTotalWait, rounds, calls)
  }

  lemma ReachesFailing(maxTotalWait: int, rounds: seq<Round>, n: nat)
    requires n <= |rounds| && Reaches(maxTotalWait, rounds, n)
    ensures Failing(rounds[..n])
    ensures forall i :: 0 <= i < n ==> InTime(maxTotalWait, rounds, i)
  {
    forall i | 0 <= i < n ensures Fails(rounds[i]) && InTime(maxTotalWait, rounds, i) {
      assert GoesOn(maxTotalWait, rounds, i);
    }
  }

  lemma EndsTime(maxTotalWait: int, rounds: seq<Round>, r: Outcome, calls: nat)
    requires calls <= |rounds| && Ends(maxTotalWait, rounds, r, calls)
    ensures var t := TimeAt(maxTotalWait, rounds, r, calls);
            && t.slept <= t.elapsed
            && (maxTotalWait > 0 ==> t.slept <= maxTotalWait)
            && (maxTotalWait > 0 && calls > 0 ==> t.elapsed <= maxTotalWait + rounds[calls - 1].takes)
  {
    if r == ContextError && Cancelled(maxTotalWait, rounds, calls) {
      ReachesFailing(maxTotalWait, rounds, calls);
      InTimeBounds(maxTotalWait, rounds, calls);
    } else if calls > 0 {
      ReachesFailing(maxTotalWait, rounds, calls - 1);
      InTimeBounds(maxTotalWait, rounds, calls - 1);
      if r == ContextError {
        InTimeBounds(maxTotalWait, rounds, calls);
      }
    }
  }

  lemma EndsPromise(maxTotalWait: int, rounds: seq<Round>, r: Outcome, calls: nat)
    requires calls <= |rounds| && Ends(maxTotalWait, rounds, r, calls)
    ensures var t := TimeAt(maxTotalWait, rounds, r, calls);
            Promises(maxTotalWait, rounds, r, calls, t.slept, t.elapsed)
  {
    EndsTime(maxTotalWait, rounds, r, calls);
    if r == ContextError && Cancelled(maxTotalWait, rounds, calls) {
      ReachesFailing(maxTotalWait, rounds, calls);
      assert calls > 0 ==> GoesOn(maxTotalWait, rounds, calls - 1);
      assert calls > 0 ==> rounds[..calls - 1] == rounds[..calls][..calls - 1];
    } else if calls > 0 {
      ReachesFailing(maxTotalWait, rounds, calls - 1);
      assert rounds[..calls] == rounds[..calls - 1] + [rounds[calls - 1]];
      assert rounds[..|rounds|] == rounds;
    }
  }

  /** There is one way only for the loop to end. */
  lemma EndsOnce(maxTotalWait: int, rounds: seq<Round>, r: Outcome, calls: nat, other: Outcome, others: nat)
    requires calls <= others <= |rounds|
    requires Ends(maxTotalWait, rounds, r, calls) && Ends(maxTotalWait, rounds, other, others)
    ensures r == other && calls == others
  {
    if r == ContextError && Cancelled(maxTotalWait, rounds, calls) {
      CancelledOnce(maxTotalWait, rounds, calls, other, others);
    } else if calls > 0 {
      NotBoth(maxTotalWait, rounds, calls - 1, r);
    }
  }

  lemma CancelledOnce(maxTotalWait: int, rounds: seq<Round>, calls: nat, other: Outcome, others: nat)
    requires calls <= others <= |rounds| && Cancelled(maxTotalWait, rounds, calls)
    requires Ends(maxTotalWait, rounds, other, others)
    ensures other == ContextError && calls == others
  {
    assert !GoesOn(maxTotalWait, rounds, calls);
    if others > 0 && Concludes(maxTotalWait, rounds, others - 1, other) {
      NotBoth(maxTotalWait, rounds, others - 1, other);
    }
  }

  lemma NotBoth(maxTotalWait: int, rounds: seq<Round>, i: nat, r: Outcome)
    requires i < |rounds| && Concludes(maxTotalWait, rounds, i, r)
    ensures GoesOn(maxTotalWait, rounds, i) ==> r == Exhausted && i == |rounds| - 1
    ensures forall other :: Concludes(maxTotalWait, rounds, i, other) ==> other == r
  {
  }

  /** `calls` counts the calls of the function, `slept` the time spent in sleeps and `elapsed` all time
      since the start. */
  method Do(maxAttempts: nat, maxTotalWait: int, rounds: seq<Round>)
    returns (r: Outcome, calls: nat, slept: nat, elapsed: nat)
    requires |rounds| == maxAttempts
    ensures calls <= maxAttempts
    ensures Ends(maxTotalWait, rounds, r, calls) && Spent(slept, elapsed) == TimeAt(maxTotalWait, rounds, r, calls)
    ensures Promises(maxTotalWait, rounds, r, calls, slept, elapsed)
  {
    r, calls, slept, elapsed := Exhausted, 0, 0, 0;
    for attempt := 0 to maxAttempts
      invariant calls == attempt && (attempt == maxAttempts ==> maxAttempts == 0) && r == Exhausted
      invariant Reaches(maxTotalWait, rounds, attempt)
      invariant Spent(slept, elapsed) == SpentIn(maxTotalWait, rounds, attempt)
    {
      var round := rounds[attempt];
      if round.cancelled {
        r := ContextError;
        break;
      }
      calls := calls + 1;
      elapsed := elapsed + round.takes;
      if round.ok {
        r := Success;
        break;
      }
      if !round.retryable {
        r := Permanent;
        break;
      }
      if attempt == maxAttempts - 1 {
        break;
      }
      var wait := round.wait;
      if maxTotalWait > 0 {
        var remaining := maxTotalWait - elapsed;
        if remaining <= 0 {
          r := Timeout;
          break;
        }
        if wait > remaining {
          wait := remaining;
        }
      }
      var nap := if wait <= 0 then 0 else if round.interrupted && round.after < wait then round.after else wait;
      assert InTime(maxTotalWait, rounds, attempt) && nap == Nap(maxTotalWait, elapsed, round);
      slept, elapsed := slept + nap, elapsed + nap;
      if round.interrupted {
        r := ContextError;
        break;
      }
      assert GoesOn(maxTotalWait, rounds, attempt);
    }
    EndsPromise(maxTotalWait, rounds, r, calls);
  }
}
