/** Rounding to the nearest float with a 53-bit significand, ties to even, as IEEE 754 does by default;
    the exponent is unbounded. */
module Doubles {
  import opened Floats

  /** Two to an integer power. */
  ghost function Pow(k: int): real
    decreases if k < 0 then -k else k
  {
    if k == 0 then 1.0 else if k > 0 then 2.0 * Pow(k - 1) else Pow(k + 1) / 2.0
  }

  lemma PowNext(k: int)
    ensures Pow(k + 1) == 2.0 * Pow(k)
  {
  }

  lemma {:induction false} PowPositive(k: int)
    ensures Pow(k) > 0.0
    decreases if k < 0 then -k else k
  {
    if k > 0 {
      PowPositive(k - 1);
    } else if k < 0 {
      PowPositive(k + 1);
    }
  }

  lemma {:induction false} PowOrder(i: int, j: int)
    requires i < j
    ensures 2.0 * Pow(i) <= Pow(j)
    decreases j - i
  {
    PowNext(j - 1);
    if i < j - 1 {
      PowOrder(i, j - 1);
      PowPositive(i);
    }
  }

  ghost predicate IsPower(u: real) {
    exists k :: u == Pow(k)
  }

  lemma PowerPositive(u: real)
    requires IsPower(u)
    ensures u > 0.0 && IsPower(2.0 * u) && IsPower(u / 2.0)
  {
    var k :| u == Pow(k);
    PowPositive(k);
    PowNext(k);
    PowNext(k - 1);
    assert 2.0 * u == Pow(k + 1) && u / 2.0 == Pow(k - 1);
  }

  lemma PowersApart(u: real, v: real)
    requires IsPower(u) && IsPower(v) && u < v
    ensures 2.0 * u <= v
  {
    var i :| u == Pow(i);
    var j :| v == Pow(j);
    if j < i {
      PowOrder(j, i);
      PowPositive(j);
    } else if i < j {
      PowOrder(i, j);
    }
  }

  // ---------------------------------------------------------------------------
  // The unit of a number
  // ---------------------------------------------------------------------------

  /** `x` lies between 2^52 and 2^53 units. */
  ghost predicate Scaled(x: real, u: real) {
    4503599627370496.0 * u <= x < 9007199254740992.0 * u
  }

  lemma ScaledOnce(x: real, u: real, v: real)
    requires IsPower(u) && IsPower(v) && Scaled(x, u) && Scaled(x, v)
    ensures u == v
  {
    if u < v {
      PowersApart(u, v);
    } else if v < u {
      PowersApart(v, u);
    }
  }

  lemma {:induction false} UnitAbove(x: real) returns (u: real)
    requires x >= 4503599627370496.0
    ensures IsPower(u) && Scaled(x, u)
    decreases x.Floor
  {
    if x < 9007199254740992.0 {
      u := 1.0;
      assert u == Pow(0);
    } else {
      u := UnitAbove(x / 2.0);
      PowerPositive(u);
      u := 2.0 * u;
    }
  }

  lemma {:induction false} UnitBelow(x: real) returns (u: real)
    requires 0.0 < x < 4503599627370496.0
    ensures IsPower(u) && Scaled(x, u)
    decreases (4503599627370496.0 / x).Floor
  {
    if x >= 2251799813685248.0 {
      u := 0.5;
      assert u == Pow(-1);
    } else {
      Halves(4503599627370496.0, x);
      u := UnitBelow(2.0 * x);
      PowerPositive(u);
      u := u / 2.0;
    }
  }

  lemma Halves(c: real, x: real)
    requires 0.0 < x && c > 2.0 * x
    ensures 0 <= (c / (2.0 * x)).Floor < (c / x).Floor
  {
    var q := c / x;
    assert q * x == c;
    assert q > 2.0;
    assert c / (2.0 * x) == q / 2.0;
  }

  ghost function Unit(x: real): (u: real)
    requires x > 0.0
    ensures IsPower(u) && u > 0.0 && Scaled(x, u)
  {
    UnitExists(x);
    var u :| IsPower(u) && Scaled(x, u);
    PowerPositive(u);
    u
  }

  lemma UnitExists(x: real)
    requires x > 0.0
    ensures exists u :: IsPower(u) && Scaled(x, u)
  {
    if x >= 4503599627370496.0 {
      var u := UnitAbove(x);
    } else {
      var u := UnitBelow(x);
    }
  }

  // ---------------------------------------------------------------------------
  // Rounding
  // ---------------------------------------------------------------------------

  /** The nearest integer, the even one of two. */
  ghost function HalfEven(y: real): int {
    var n := (y + 0.5).Floor;
    if n as real == y + 0.5 && n % 2 != 0 then n - 1 else n
  }

  lemma HalfEvenIs(y: real, n: int)
    requires -0.5 <= n as real - y <= 0.5
    requires n as real - y == 0.5 || n as real - y == -0.5 ==> n % 2 == 0
    ensures HalfEven(y) == n
  {
  }

  lemma HalfEvenOrder(x: real, y: real)
    requires x <= y
    ensures HalfEven(x) <= HalfEven(y)
  {
  }

  /** The nearest whole number of units. */
  ghost function Snap(x: real, u: real): real
    requires u > 0.0
  {
    HalfEven(x / u) as real * u
  }

  /** A positive number, as so many of its units. */
  ghost function Rounded(x: real): real
    requires x > 0.0
  {
    Snap(x, Unit(x))
  }

  ghost function Nearest(x: real): real {
    if x == 0.0 then 0.0 else if x > 0.0 then Rounded(x) else -Rounded(-x)
  }

  lemma UnscaleOrder(a: real, b: real, u: real)
    requires u > 0.0
    ensures a * u <= b * u <==> a <= b
  {
    if a <= b {
      assert (b - a) * u >= 0.0;
    } else {
      assert (a - b) * u > 0.0;
    }
  }

  /** `n` units are within half a unit of `x`, and evenly so at half a unit. */
  ghost predicate IsSnap(x: real, u: real, n: int) {
    var d := 2.0 * (n as real * u - x);
    -u <= d <= u && (d == u || d == -u ==> n % 2 == 0)
  }

  lemma SnapIs(x: real, u: real, n: int)
    requires u > 0.0 && IsSnap(x, u, n)
    ensures Snap(x, u) == n as real * u
  {
    var y := x / u;
    InUnits(n as real, y, x, u);
    HalfEvenIs(y, n);
  }

  lemma InUnits(n: real, y: real, x: real, u: real)
    requires u > 0.0 && y == x / u
    ensures -u <= 2.0 * (n * u - x) <= u <==> -0.5 <= n - y <= 0.5
    ensures 2.0 * (n * u - x) == u <==> n - y == 0.5
    ensures 2.0 * (n * u - x) == -u <==> n - y == -0.5
  {
    assert y * u == x;
    var d := n - y;
    assert d * u == n * u - x;
    UnscaleOrder(-0.5, d, u);
    UnscaleOrder(d, -0.5, u);
    UnscaleOrder(0.5, d, u);
    UnscaleOrder(d, 0.5, u);
  }

  /** The rounded value is found by giving the unit and the number of units. */
  lemma RoundedIs(x: real, u: real, n: int)
    requires x > 0.0 && IsPower(u) && Scaled(x, u) && IsSnap(x, u, n)
    ensures Rounded(x) == n as real * u
  {
    ScaledOnce(x, u, Unit(x));
    SnapIs(x, u, n);
  }

  lemma QuotientRange(x: real, u: real)
    requires u > 0.0 && Scaled(x, u)
    ensures 4503599627370496.0 <= x / u <= 9007199254740992.0
  {
    var y := x / u;
    assert y * u == x;
    UnscaleOrder(4503599627370496.0, y, u);
    UnscaleOrder(y, 9007199254740992.0, u);
  }

  lemma HalfEvenRange(y: real)
    requires 4503599627370496.0 <= y <= 9007199254740992.0
    ensures 4503599627370496 <= HalfEven(y) <= 9007199254740992
  {
    HalfEvenIs(4503599627370496.0, 4503599627370496);
    HalfEvenIs(9007199254740992.0, 9007199254740992);
    HalfEvenOrder(4503599627370496.0, y);
    HalfEvenOrder(y, 9007199254740992.0);
  }

  lemma UnitsRange(n: int, u: real, x: real)
    requires u > 0.0 && 4503599627370496 <= n <= 9007199254740992 && x == n as real * u
    ensures 4503599627370496.0 * u <= x <= 9007199254740992.0 * u
    ensures n < 9007199254740992 ==> x < 9007199254740992.0 * u
  {
    var lo, hi := n as real - 4503599627370496.0, 9007199254740992.0 - n as real;
    assert lo * u >= 0.0 && hi * u >= 0.0;
    assert lo * u == x - 4503599627370496.0 * u;
    assert hi * u == 9007199254740992.0 * u - x;
  }

  /** Snapping moves a number by at most half a unit, to between 2^52 and 2^53 units. */
  lemma SnapParts(x: real, u: real) returns (n: int)
    requires u > 0.0 && Scaled(x, u)
    ensures 4503599627370496 <= n <= 9007199254740992 && Snap(x, u) == n as real * u
    ensures -u <= 2.0 * (Snap(x, u) - x) <= u
    ensures 4503599627370496.0 * u <= Snap(x, u) <= 9007199254740992.0 * u
  {
    n := HalfEven(x / u);
    QuotientRange(x, u);
    HalfEvenRange(x / u);
    InUnits(n as real, x / u, x, u);
    UnitsRange(n, u, n as real * u);
  }

  lemma RoundedNear(x: real)
    requires x > 0.0
    ensures -x <= 9007199254740992.0 * (Rounded(x) - x) <= x && Rounded(x) > 0.0
  {
    var n := SnapParts(x, Unit(x));
  }

  /** Between 2^52 and 2^53 units are rounded to themselves. */
  lemma RoundedUnits(x: real, u: real, n: int)
    requires IsPower(u) && u > 0.0 && 4503599627370496 <= n <= 9007199254740992 && x == n as real * u
    ensures x > 0.0 && Rounded(x) == x
  {
    if n == 9007199254740992 {
      PowerPositive(u);
      RoundedIs(x, 2.0 * u, 4503599627370496);
    } else {
      UnitsRange(n, u, x);
      RoundedIs(x, u, n);
    }
  }

  lemma SnapOrder(x: real, y: real, u: real)
    requires x <= y && u > 0.0
    ensures Snap(x, u) <= Snap(y, u)
  {
    assert x / u <= y / u;
    HalfEvenOrder(x / u, y / u);
    UnscaleOrder(HalfEven(x / u) as real, HalfEven(y / u) as real, u);
  }

  lemma RoundedOrder(x: real, y: real)
    requires 0.0 < x <= y
    ensures Rounded(x) <= Rounded(y)
  {
    var u, v := Unit(x), Unit(y);
    if u < v {
      var m := SnapParts(x, u);
      var n := SnapParts(y, v);
      PowersApart(u, v);
    } else if u == v {
      SnapOrder(x, y, u);
    } else {
      PowersApart(v, u);
    }
  }

  /** Whole numbers are whole numbers of units up to one. */
  lemma {:induction false} WholeUnits(x: real, k: int) returns (n: int)
    requires Whole(x) && k <= 0
    ensures x == n as real * Pow(k)
    decreases -k
  {
    if k == 0 {
      n := x.Floor;
    } else {
      var m := WholeUnits(x, k + 1);
      PowNext(k);
      n := 2 * m;
    }
  }

  lemma UnitsOfWhole(x: real, u: real) returns (n: int)
    requires Whole(x) && IsPower(u) && u <= 1.0
    ensures x == n as real * u
  {
    var k :| u == Pow(k);
    if k > 0 {
      PowOrder(0, k);
    }
    n := WholeUnits(x, k);
  }

  lemma RoundedInteger(x: real)
    requires Whole(x) && 0.0 < x <= 9007199254740992.0
    ensures Rounded(x) == x
  {
    var u := Unit(x);
    assert IsPower(1.0) by { assert Pow(0) == 1.0; }
    if u > 1.0 {
      PowersApart(1.0, u);
      RoundedUnits(x, 1.0, 9007199254740992);
    } else {
      var n := UnitsOfWhole(x, u);
      UnscaleOrder(4503599627370496.0, n as real, u);
      UnscaleOrder(9007199254740992.0, n as real, u);
      RoundedUnits(x, u, n);
    }
  }

  lemma NearestOrder(x: real, y: real)
    requires x <= y
    ensures Nearest(x) <= Nearest(y)
  {
    if x > 0.0 {
      RoundedOrder(x, y);
    } else if y < 0.0 {
      RoundedOrder(-y, -x);
    } else {
      if x < 0.0 {
        RoundedNear(-x);
      }
      if y > 0.0 {
        RoundedNear(y);
      }
    }
  }

  lemma NearestTwice(x: real)
    ensures Nearest(Nearest(x)) == Nearest(x)
  {
    if x > 0.0 {
      RoundedTwice(x);
    } else if x < 0.0 {
      RoundedTwice(-x);
    }
  }

  lemma RoundedTwice(x: real)
    requires x > 0.0
    ensures Rounded(x) > 0.0 && Rounded(Rounded(x)) == Rounded(x)
  {
    var n := SnapParts(x, Unit(x));
    RoundedUnits(Rounded(x), Unit(x), n);
  }

  lemma WholeNegative(x: real)
    requires Whole(x)
    ensures Whole(-x)
  {
    assert -x == (-(x.Floor)) as real;
  }

  lemma NearestInteger(x: real)
    requires Whole(x) && -9007199254740992.0 <= x <= 9007199254740992.0
    ensures Nearest(x) == x
  {
    if x > 0.0 {
      RoundedInteger(x);
    } else if x < 0.0 {
      WholeNegative(x);
      RoundedInteger(-x);
    }
  }

  lemma NearestNear(x: real)
    ensures Near(Nearest, x)
  {
    if x > 0.0 {
      RoundedNear(x);
    } else if x < 0.0 {
      RoundedNear(-x);
    }
  }

  /** Rounding to nearest has all the properties that are used of a rounding. */
  lemma NearestIsRounding()
    ensures Rounding(Nearest)
  {
    forall x, y ensures InOrder(Nearest, x, y) {
      if x <= y {
        NearestOrder(x, y);
      }
    }
    forall x ensures Settled(Nearest, x) {
      NearestTwice(x);
    }
    forall x ensures ExactAt(Nearest, x) {
      if Whole(x) && -9007199254740992.0 <= x <= 9007199254740992.0 {
        NearestInteger(x);
      }
    }
    forall x ensures Near(Nearest, x) {
      NearestNear(x);
    }
  }
}
