/** Floating-point arithmetic as far as the code depends on it: how the result of an operation is rounded,
    and how a float is converted to a 64-bit integer. The values themselves are reals. */
module Floats {
  import opened Int64

  // ---------------------------------------------------------------------------
  // Conversion to 64-bit integers
  // ---------------------------------------------------------------------------

  function Truncate(x: real): int {
    if x >= 0.0 then x.Floor else -((-x).Floor)
  }

  /** A conversion that the language allows: it truncates toward zero when the result fits, and is
      implementation-dependent otherwise. */
  ghost predicate Conversion(conv: real -> int) {
    forall x :: Fits(conv(x)) && (Fits(Truncate(x)) ==> conv(x) == Truncate(x))
  }

  /** The conversion of x86-64: values that do not fit become the smallest integer. */
  function Indefinite(x: real): int {
    if Fits(Truncate(x)) then Truncate(x) else -TWO_63
  }

  /** The conversion of ARM64: values that do not fit become the nearest integer that does. */
  function Saturating(x: real): int {
    if Fits(Truncate(x)) then Truncate(x) else if x > 0.0 then TWO_63 - 1 else -TWO_63
  }

  lemma Conversions()
    ensures Conversion(Indefinite) && Conversion(Saturating)
  {
  }

  // ---------------------------------------------------------------------------
  // Rounding
  // ---------------------------------------------------------------------------

  ghost predicate Whole(x: real) {
    x == x.Floor as real
  }

  ghost predicate InOrder(rnd: real -> real, x: real, y: real) {
    x <= y ==> rnd(x) <= rnd(y)
  }

  ghost predicate Settled(rnd: real -> real, x: real) {
    rnd(rnd(x)) == rnd(x)
  }

  ghost predicate ExactAt(rnd: real -> real, x: real) {
    Whole(x) && -9007199254740992.0 <= x <= 9007199254740992.0 ==> rnd(x) == x
  }

  /** Off by at most one part in 2^53. */
  ghost predicate Near(rnd: real -> real, x: real) {
    var d := 9007199254740992.0 * (rnd(x) - x);
    if x >= 0.0 then -x <= d <= x else x <= d <= -x
  }

  /** What is used of rounding to double precision: it keeps order, leaves floats and integers up to 2^53
      alone, and is off by at most one part in 2^53. */
  ghost predicate Rounding(rnd: real -> real) {
    && (forall x, y :: InOrder(rnd, x, y))
    && (forall x :: Settled(rnd, x))
    && (forall x :: ExactAt(rnd, x))
    && (forall x :: Near(rnd, x))
  }

  lemma Order(rnd: real -> real, x: real, y: real)
    requires Rounding(rnd) && x <= y
    ensures rnd(x) <= rnd(y)
  {
    assert InOrder(rnd, x, y);
  }

  lemma ExactInteger(rnd: real -> real, x: real)
    requires Rounding(rnd) && Whole(x) && -9007199254740992.0 <= x <= 9007199254740992.0
    ensures rnd(x) == x
  {
    assert ExactAt(rnd, x);
  }

  lemma Twice(rnd: real -> real, x: real)
    requires Rounding(rnd)
    ensures rnd(rnd(x)) == rnd(x)
  {
    assert Settled(rnd, x);
  }

  lemma Close(rnd: real -> real, x: real)
    requires Rounding(rnd) && x >= 0.0
    ensures -x <= 9007199254740992.0 * (rnd(x) - x) <= x
  {
    assert Near(rnd, x);
  }

  lemma KeepsSign(rnd: real -> real, x: real)
    requires Rounding(rnd)
    ensures x > 0.0 ==> rnd(x) > 0.0
    ensures x >= 0.0 ==> rnd(x) >= 0.0
    ensures x <= 0.0 ==> rnd(x) <= 0.0
  {
    assert Near(rnd, x);
  }

  /** How a platform computes: its rounding, its conversion, and whether it rounds a product that is
      added to something only once, with the sum. */
  datatype Arith = Arith(rnd: real -> real, conv: real -> int, fused: bool)
  {
    ghost predicate Valid() {
      Rounding(rnd) && Conversion(conv)
    }
  }

  function Exact(x: real): real {
    x
  }

  lemma ExactIsRounding()
    ensures Rounding(Exact)
  {
  }

  /** Exact arithmetic but for one short interval, which is rounded down to its lower end. */
  function Collapse(a: real, b: real): real -> real {
    x => if a < x <= b then a else x
  }

  lemma CollapseIsRounding(a: real, b: real)
    requires 0.0 < a < b < 1.0 && 9007199254740992.0 * (b - a) <= a
    ensures Rounding(Collapse(a, b))
  {
    var rnd := Collapse(a, b);
    forall x ensures ExactAt(rnd, x) {
      if Whole(x) {
        assert x <= 0.0 || x >= 1.0;
      }
    }
  }
}
