/** The SRE-style breaker: a sliding window of outcomes and a random draw against an acceptance
    ratio. The draw is a parameter in [0, 1). */
module Sre {
  import opened SlidingWindow

  datatype State = Closed | Open | HalfOpen

  /** The unclamped acceptance ratio of a window with `total.count` requests and `total.weight` errors. */
  function Acceptance(k: real, total: Cell): real
    requires total.count >= 0
  {
    (total.count as real - k * total.weight as real) / (total.count as real + 1.0)
  }

  /** The verdict of `Allow` on a window. */
  ghost predicate Accepts(k: real, total: Cell, draw: real)
    requires total.count >= 0
  {
    total.count == 0 || draw < Acceptance(k, total)
  }

  ghost predicate IsDraw(x: real) {
    0.0 <= x < 1.0
  }

  /** The state reported for a window. */
  ghost function Reported(k: real, total: Cell): State
    requires total.count >= 0
  {
    if total.count == 0 then Closed
    else if Acceptance(k, total) <= 0.0 then Open
    else if Acceptance(k, total) < 1.0 then HalfOpen
    else Closed
  }

  ghost predicate Window(total: Cell) {
    0 <= total.weight <= total.count
  }

  // ---------------------------------------------------------------------------
  // The acceptance ratio
  // ---------------------------------------------------------------------------

  /** Comparing ratios of positive denominators by cross products. */
  lemma CrossOrder(a: real, b: real, x: real, y: real)
    requires b > 0.0 && y > 0.0
    ensures a / b < x / y <==> a * y < x * b
    ensures a / b <= x / y <==> a * y <= x * b
  {
    var p, q := a / b, x / y;
    assert p * b == a && q * y == x;
    assert a * y == p * (b * y) && x * b == q * (b * y);
    assert b * y > 0.0;
    Scale(p, q, b * y);
  }

  lemma Scale(p: real, q: real, c: real)
    requires c > 0.0
    ensures p * c < q * c <==> p < q
    ensures p * c <= q * c <==> p <= q
  {
    if p < q {
      assert (q - p) * c > 0.0;
    } else {
      assert (p - q) * c >= 0.0;
    }
    if p > q {
      assert (p - q) * c > 0.0;
    }
  }

  lemma SuccessAlgebra(r: real, ke: real)
    requires r >= 0.0 && ke >= 0.0
    ensures (r - ke) / (r + 1.0) < (r + 1.0 - ke) / (r + 2.0)
  {
    assert (r - ke) * (r + 2.0) == r * r + 2.0 * r - ke * r - 2.0 * ke;
    assert (r + 1.0 - ke) * (r + 1.0) == r * r + 2.0 * r + 1.0 - ke * r - ke;
    CrossOrder(r - ke, r + 1.0, r + 1.0 - ke, r + 2.0);
  }

  /** Every recorded success strictly raises the ratio. */
  lemma SuccessRaises(k: real, total: Cell)
    requires k > 0.0 && Window(total)
    ensures Acceptance(k, total) < Acceptance(k, total.Plus(Cell(1, 0)))
  {
    SuccessAlgebra(total.count as real, k * total.weight as real);
  }

  lemma FailureAlgebra(k: real, r: real, e: real)
    requires r >= 0.0
    ensures (r + 1.0 - k * (e + 1.0)) / (r + 2.0) <= (r - k * e) / (r + 1.0) <==> k * (r - e + 1.0) >= 1.0
  {
    var ke, kr, x := k * e, k * r, k * (e + 1.0);
    assert x == ke + k;
    assert (r + 1.0 - x) * (r + 1.0) == r * r + 2.0 * r + 1.0 - x * r - x;
    assert x * r == ke * r + kr;
    assert (r - ke) * (r + 2.0) == r * r + 2.0 * r - ke * r - 2.0 * ke;
    assert k * (r - e + 1.0) == kr - ke + k;
    CrossOrder(r + 1.0 - x, r + 2.0, r - ke, r + 1.0);
  }

  /** A recorded failure does not raise the ratio exactly when `k * (successes + 1)` is at least one. */
  lemma FailureNeverRaisesIff(k: real, total: Cell)
    requires k > 0.0 && Window(total)
    ensures Acceptance(k, total.Plus(Cell(1, 1))) <= Acceptance(k, total) <==>
            k * (total.count - total.weight + 1) as real >= 1.0
  {
    var r, e := total.count as real, total.weight as real;
    assert (total.count - total.weight + 1) as real == r - e + 1.0;
    FailureAlgebra(k, r, e);
    assert Acceptance(k, total) == (r - k * e) / (r + 1.0);
    var more := total.Plus(Cell(1, 1));
    assert more.count as real == r + 1.0 && more.weight as real == e + 1.0;
    assert Acceptance(k, more) == (r + 1.0 - k * (e + 1.0)) / (r + 2.0);
  }

  /** Over all windows, failures never raise the ratio if and only if K is at least one. */
  lemma FailuresMonotoneIff(k: real)
    requires k > 0.0
    ensures (forall total :: Window(total) && total.count > 0 ==>
               Acceptance(k, total.Plus(Cell(1, 1))) <= Acceptance(k, total)) <==> k >= 1.0
  {
    if k >= 1.0 {
      forall total | Window(total) && total.count > 0
        ensures Acceptance(k, total.Plus(Cell(1, 1))) <= Acceptance(k, total)
      {
        FailureNeverRaisesIff(k, total);
        Scale(1.0, k, (total.count - total.weight + 1) as real);
      }
    } else {
      FailureNeverRaisesIff(k, Cell(1, 1));
      assert !(Acceptance(k, Cell(1, 1).Plus(Cell(1, 1))) <= Acceptance(k, Cell(1, 1)));
    }
  }

  /** The draws on which two values of K differ. */
  ghost predicate Splits(k: real, k': real, total: Cell, draw: real)
    requires total.count >= 0
  {
    IsDraw(draw) && Accepts(k, total, draw) && !Accepts(k', total, draw)
  }

  lemma RatioFalls(k: real, k': real, total: Cell)
    requires 0.0 < k < k' && Window(total)
    ensures Acceptance(k', total) <= Acceptance(k, total)
    ensures Acceptance(k', total) < Acceptance(k, total) <==> total.weight > 0
  {
    var r, e := total.count as real, total.weight as real;
    Scale(0.0, e, k' - k);
    assert (k' - k) * e == k' * e - k * e;
    CrossOrder(r - k' * e, r + 1.0, r - k * e, r + 1.0);
    Scale(r - k' * e, r - k * e, r + 1.0);
  }

  /** A higher K is stricter, whatever the option's comment says: it never accepts a draw that a lower
      K rejects, and it rejects one that the lower K accepts exactly when the window has errors and
      does not already reject every draw under the lower K. */
  lemma HigherKStricterIff(k: real, k': real, total: Cell)
    requires 0.0 < k < k' && Window(total)
    ensures forall draw :: !Splits(k', k, total, draw)
    ensures (exists draw :: Splits(k, k', total, draw)) <==>
            total.weight > 0 && k * total.weight as real < total.count as real
  {
    RatioFalls(k, k', total);
    RatioBelowOne(k, total);
    var r, ke, a := total.count as real, k * total.weight as real, Acceptance(k', total);
    RatioSign(r - ke, r + 1.0);
    if total.weight > 0 && ke < r {
      assert Splits(k, k', total, if a < 0.0 then 0.0 else a);
    }
  }

  /** With four requests and one error, K = 1 accepts the draw 0.5 and K = 2 rejects it. */
  lemma HigherKExample()
    ensures Splits(1.0, 2.0, Cell(4, 1), 0.5)
  {
  }

  lemma RatioBelowOne(k: real, total: Cell)
    requires k > 0.0 && Window(total)
    ensures Acceptance(k, total) < 1.0
  {
    var r, ke := total.count as real, k * total.weight as real;
    assert ke >= 0.0;
    BelowOne(r - ke, r + 1.0);
  }

  lemma BelowOne(x: real, y: real)
    requires x < y && y > 0.0
    ensures x / y < 1.0
  {
    assert x / y * y == x;
    Scale(x / y, 1.0, y);
  }

  /** A draw is accepted on a window exactly when its share of the requests and one more, together with K
      times the errors, stays below the requests. */
  ghost predicate Below(k: real, total: Cell, draw: real) {
    draw * (total.count as real + 1.0) + k * total.weight as real < total.count as real
  }

  lemma AcceptsIff(k: real, total: Cell, draw: real)
    requires total.count >= 0
    ensures Accepts(k, total, draw) <==> total.count == 0 || Below(k, total, draw)
  {
    var x, y := total.count as real - k * total.weight as real, total.count as real + 1.0;
    assert x / y * y == x;
    Scale(draw, x / y, y);
  }

  /** Without an error, exactly the draws below count / (count + 1) are accepted. */
  lemma HealthyAcceptsIff(k: real, n: nat, draw: real)
    requires IsDraw(draw)
    ensures Accepts(k, Cell(n, 0), draw) <==> n == 0 || draw < n as real / (n as real + 1.0)
  {
    AcceptsIff(k, Cell(n, 0), draw);
    var y := n as real + 1.0;
    assert n as real / y * y == n as real;
    Scale(draw, n as real / y, y);
  }

  /** K times the errors make up the requests. */
  ghost predicate Exhausted(k: real, total: Cell) {
    k * total.weight as real >= total.count as real
  }

  /** What is reported, in terms of requests and errors. */
  lemma ReportedIff(k: real, total: Cell)
    requires k > 0.0 && Window(total)
    ensures Reported(k, total) == if total.count == 0 then Closed
                                  else if Exhausted(k, total) then Open else HalfOpen
  {
    RatioBelowOne(k, total);
    RatioSign(total.count as real - k * total.weight as real, total.count as real + 1.0);
  }

  /** Open is reported exactly when every draw is rejected, Closed exactly when every draw is
      accepted, which is only the case on an empty window: even without any error a non-empty window
      rejects the draws close to one. */
  lemma ReportedMeaning(k: real, total: Cell)
    requires k > 0.0 && Window(total)
    ensures Reported(k, total) == Open <==> forall x :: IsDraw(x) ==> !Accepts(k, total, x)
    ensures Reported(k, total) == Closed <==> forall x :: IsDraw(x) ==> Accepts(k, total, x)
    ensures Reported(k, total) == Closed <==> total.count == 0
  {
    RatioBelowOne(k, total);
    var a := Acceptance(k, total);
    assert IsDraw(0.0);
    if total.count > 0 {
      var x := if a < 0.0 then 0.0 else a;
      assert IsDraw(x) && !Accepts(k, total, x);
    } else {
      assert Accepts(k, total, 0.0);
    }
  }

  // ---------------------------------------------------------------------------
  // The window of a run
  // ---------------------------------------------------------------------------

  ghost predicate Counts(cells: seq<Cell>) {
    forall i :: 0 <= i < |cells| ==> Window(cells[i])
  }

  ghost predicate Outcomes(calls: seq<Call>) {
    forall i :: 0 <= i < |calls| && calls[i].Record? ==> calls[i].weight == 0 || calls[i].weight == 1
  }

  lemma {:induction false} SumIsWindow(cells: seq<Cell>)
    requires Counts(cells)
    ensures Window(Sum(cells))
  {
    if cells != [] {
      assert Window(cells[0]);
      forall i | 0 <= i < |cells[1..]| ensures Window(cells[1..][i]) {
        assert cells[1..][i] == cells[i + 1];
      }
      SumIsWindow(cells[1..]);
    }
  }

  lemma StepCounts(r: Ring, c: Call, d: int)
    requires d > 0 && |r.cells| > 0 && Counts(r.cells)
    requires c.Record? ==> c.weight == 0 || c.weight == 1
    ensures Counts(RingStep(r, c, d).cells)
  {
    var rotated := Rotate(r, c.now, d);
    assert Counts(rotated.cells);
  }

  /** In every reachable state, errors never exceed requests in any bucket. */
  lemma {:induction false} CountsHold(n: nat, start: int, calls: seq<Call>, d: int)
    requires d > 0 && n > 0 && Outcomes(calls)
    ensures Counts(RingRun(Fresh(n, start), calls, d).cells)
  {
    if calls == [] {
      assert Counts(Zeros(n));
    } else {
      var init, c := calls[..|calls| - 1], calls[|calls| - 1];
      CountsHold(n, start, init, d);
      assert c.Record? ==> calls[|calls| - 1].weight == 0 || calls[|calls| - 1].weight == 1;
      StepCounts(RingRun(Fresh(n, start), init, d), c, d);
    }
  }

  /** The outcomes logged in the last `n` ticks of a run. */
  ghost function Recent(n: nat, start: int, calls: seq<Call>, d: int): Cell
    requires d > 0
  {
    var h := HistoryRun(History([], start, start), calls, d);
    Logged(h.log, Tick(h.at, d) - n, Tick(h.at, d))
  }

  lemma RunIsWindow(n: nat, start: int, calls: seq<Call>, d: int)
    requires d > 0 && n > 0 && Outcomes(calls)
    ensures Window(Sum(RingRun(Fresh(n, start), calls, d).cells))
  {
    CountsHold(n, start, calls, d);
    SumIsWindow(RingRun(Fresh(n, start), calls, d).cells);
  }

  /** After a run whose rotations do no damage, the totals a request is judged by are the outcomes of
      the last `n` ticks and nothing else. */
  lemma JudgedByWindow(n: nat, start: int, calls: seq<Call>, d: int)
    requires d > 0 && n > 0 && Outcomes(calls) && Monotone(start, calls) && AllHarmless(start, calls, d, n)
    ensures Sum(RingRun(Fresh(n, start), calls, d).cells) == Recent(n, start, calls, d)
    ensures Window(Recent(n, start, calls, d))
  {
    HarmlessAgrees(n, start, calls, d);
    RunIsWindow(n, start, calls, d);
  }

  /** So a request after such a run is accepted by its draw and the outcomes of the last `n` ticks alone. */
  lemma JudgedIff(n: nat, start: int, calls: seq<Call>, d: int, k: real, draw: real)
    requires d > 0 && n > 0 && Outcomes(calls) && Monotone(start, calls) && AllHarmless(start, calls, d, n)
    ensures var total := Sum(RingRun(Fresh(n, start), calls, d).cells);
            var recent := Recent(n, start, calls, d);
            total.count >= 0 && (Accepts(k, total, draw) <==> recent.count == 0 || Below(k, recent, draw))
  {
    JudgedByWindow(n, start, calls, d);
    AcceptsIff(k, Recent(n, start, calls, d), draw);
  }

  ghost predicate RejectsAll(k: real, total: Cell)
    requires total.count >= 0
  {
    forall draw :: IsDraw(draw) ==> !Accepts(k, total, draw)
  }

  /** Every request is rejected, whatever the draw, exactly when errors times K reach the requests. */
  lemma RejectsAllIff(k: real, total: Cell)
    requires k > 0.0 && Window(total)
    ensures RejectsAll(k, total) <==>
            total.count > 0 && k * total.weight as real >= total.count as real
  {
    ReportedMeaning(k, total);
    var r, ke := total.count as real, k * total.weight as real;
    RatioSign(r - ke, r + 1.0);
  }

  lemma RatioSign(x: real, y: real)
    requires y > 0.0
    ensures x / y <= 0.0 <==> x <= 0.0
  {
    assert x / y * y == x;
    Scale(x / y, 0.0, y);
  }

  // ---------------------------------------------------------------------------
  // The breaker object
  // ---------------------------------------------------------------------------

  class SreBreaker {
    const k: real
    const buckets: Buckets
    var closed: bool

    ghost predicate Valid()
      reads this, buckets, buckets.cells
    {
      k > 0.0 && buckets.Valid() && Counts(buckets.cells[..])
    }

    ghost function View(): Ring
      reads this, buckets, buckets.cells
    {
      buckets.View()
    }

    constructor (k: real, n: nat, duration: int, now: int)
      requires k > 0.0 && n > 0 && duration > 0
      ensures Valid() && fresh(buckets) && fresh(buckets.cells)
      ensures this.k == k && buckets.duration == duration && !closed && View() == Fresh(n, now)
    {
      this.k := k;
      buckets := new Buckets(n, duration, now);
      closed := false;
      new;
      assert buckets.cells[..] == Zeros(n);
    }

    method Allow(now: int, draw: real) returns (ok: bool)
      requires Valid() && now >= 0 && IsDraw(draw)
      modifies buckets, buckets.cells
      ensures Valid()
      ensures closed ==> !ok && View() == old(View())
      ensures !closed ==> View() == RingStep(old(View()), Look(now), buckets.duration)
      ensures !closed ==>
                var total := Sum(View().cells);
                && Window(total)
                && (ok <==> Accepts(k, total, draw))
                && (ok <==> total.count == 0 || Below(k, total, draw))
    {
      if closed {
        return false;
      }
      StepCounts(View(), Look(now), buckets.duration);
      buckets.RotateLocked(now);
      SumIsWindow(View().cells);
      var stats := buckets.Totals();
      RatioBelowOne(k, stats);
      ok := Verdict(k, stats, draw);
    }

    method MarkSuccess(now: int)
      requires Valid() && now >= 0
      modifies buckets, buckets.cells
      ensures Valid() && View() == RingStep(old(View()), Record(now, 0), buckets.duration)
    {
      StepCounts(View(), Record(now, 0), buckets.duration);
      buckets.RotateLocked(now);
      buckets.Record(now, 0);
    }

    method MarkFailure(now: int)
      requires Valid() && now >= 0
      modifies buckets, buckets.cells
      ensures Valid() && View() == RingStep(old(View()), Record(now, 1), buckets.duration)
    {
      StepCounts(View(), Record(now, 1), buckets.duration);
      buckets.RotateLocked(now);
      buckets.Record(now, 1);
    }

    /** Reads the buckets as they stand, without rotating them. */
    method ReportState() returns (s: State)
      requires Valid()
      ensures Window(Sum(View().cells)) && s == Reported(k, Sum(View().cells))
      ensures var total := Sum(View().cells);
              && (s == Closed <==> total.count == 0)
              && (s == Open <==> total.count > 0 && Exhausted(k, total))
    {
      SumIsWindow(View().cells);
      var stats := buckets.Totals();
      s := StateOf(k, stats);
    }
  }

  /** The arithmetic of the reported state. */
  method StateOf(k: real, stats: Cell) returns (s: State)
    requires k > 0.0 && Window(stats)
    ensures s == Reported(k, stats)
    ensures s == Closed <==> stats.count == 0
    ensures s == Open <==> stats.count > 0 && Exhausted(k, stats)
  {
    ReportedIff(k, stats);
    if stats.count == 0 {
      return Closed;
    }
    var accept := Acceptance(k, stats);
    if accept <= 0.0 {
      return Open;
    }
    if accept < 1.0 {
      return HalfOpen;
    }
    return Closed;
  }

  /** The arithmetic of `Allow`, with its clamp at zero and its shortcut at one. */
  method Verdict(k: real, stats: Cell, draw: real) returns (ok: bool)
    requires stats.count >= 0 && IsDraw(draw)
    ensures ok <==> Accepts(k, stats, draw)
    ensures ok <==> stats.count == 0
                    || draw * (stats.count as real + 1.0) + k * stats.weight as real < stats.count as real
  {
    AcceptsIff(k, stats, draw);
    var accept: real;
    if stats.count > 0 {
      accept := Acceptance(k, stats);
    } else {
      accept := 1.0;
    }
    if accept < 0.0 {
      accept := 0.0;
    }
    if accept >= 1.0 {
      return true;
    }
    ok := draw < accept;
  }
}
