/** The ring of time buckets that the hystrix and sre breakers and the bbr limiter each carry.
    A bucket is indexed by the absolute tick `now / d`, while a rotation counts the whole bucket
    durations since the previous rotation. This module proves what the ring holds, and exactly when
    that is the true content of a sliding window of the last `n` ticks. */
module SlidingWindow {

  /** `count` outcomes, with `weight` the errors among them (breakers) or the summed latency (bbr). */
  datatype Cell = Cell(count: int, weight: int)
  {
    function Plus(c: Cell): Cell {
      Cell(count + c.count, weight + c.weight)
    }
  }

  const ZERO := Cell(0, 0)

  function Sum(cells: seq<Cell>): Cell {
    if cells == [] then ZERO else cells[0].Plus(Sum(cells[1..]))
  }

  function Tick(now: int, d: int): int
    requires d > 0
  {
    now / d
  }

  /** How many ticks before `t` the ring slot `i` was last current. */
  function Age(t: int, i: int, n: int): int
    requires n > 0
  {
    (t - i) % n
  }

  function Steps(last: int, now: int, d: int): int
    requires d > 0
  {
    (now - last) / d
  }

  // ---------------------------------------------------------------------------
  // Specification of the ring
  // ---------------------------------------------------------------------------

  datatype Ring = Ring(cells: seq<Cell>, last: int)

  ghost function Zeros(n: nat): (cells: seq<Cell>)
    ensures |cells| == n && forall i :: 0 <= i < n ==> cells[i] == ZERO
  {
    if n == 0 then [] else [ZERO] + Zeros(n - 1)
  }

  ghost function Fresh(n: nat, now: int): Ring {
    Ring(Zeros(n), now)
  }

  ghost function Cleared(cells: seq<Cell>, t: int, steps: int): (r: seq<Cell>)
    requires |cells| > 0
    ensures |r| == |cells|
  {
    seq(|cells|, i requires 0 <= i < |cells| => if Age(t, i, |cells|) < steps then ZERO else cells[i])
  }

  ghost function Rotate(r: Ring, now: int, d: int): (r': Ring)
    requires d > 0 && |r.cells| > 0
    ensures |r'.cells| == |r.cells|
  {
    var steps := Steps(r.last, now, d);
    if steps <= 0 then r else Ring(Cleared(r.cells, Tick(now, d), steps), now)
  }

  ghost function Mark(r: Ring, now: int, d: int, weight: int): (r': Ring)
    requires d > 0 && |r.cells| > 0
    ensures |r'.cells| == |r.cells|
  {
    var i := Tick(now, d) % |r.cells|;
    r.(cells := r.cells[i := r.cells[i].Plus(Cell(1, weight))])
  }

  // ---------------------------------------------------------------------------
  // Modular arithmetic of slots
  // ---------------------------------------------------------------------------

  lemma ModShift(x: int, n: int)
    requires n > 0
    ensures (x + n) % n == x % n && (x - n) % n == x % n
  {
    ModUnique(x + n, n, x / n + 1, x % n);
    ModUnique(x - n, n, x / n - 1, x % n);
  }

  lemma ModUnique(x: int, n: int, q: int, r: int)
    requires n > 0 && x == q * n + r && 0 <= r < n
    ensures x % n == r && x / n == q
  {
    var k := q - x / n;
    assert k * n == q * n - (x / n) * n == x % n - r;
    if k > 0 {
      ProductAtLeast(k, n);
    } else if k < 0 {
      ProductAtLeast(-k, n);
    }
  }

  lemma {:induction false} ProductAtLeast(k: int, n: int)
    requires k > 0 && n > 0
    ensures k * n >= n
  {
    if k > 1 {
      ProductAtLeast(k - 1, n);
      assert k * n == (k - 1) * n + n;
    }
  }

  /** The slot of a tick at most `n - 1` before `t` has that age, and no other slot has. */
  lemma AgeOfTick(t: int, tick: int, n: int)
    requires n > 0 && t - n < tick <= t
    ensures Age(t, tick % n, n) == t - tick
  {
    ModUnique(t - tick % n, n, tick / n, t - tick);
  }

  lemma TickOfAge(t: int, i: int, n: int)
    requires 0 <= i < n
    ensures (t - Age(t, i, n)) % n == i
  {
    ModUnique(t - Age(t, i, n), n, (t - i) / n, i);
  }

  /** Slots of different ticks of one window differ. */
  lemma SlotsDistinct(t: int, x: int, y: int, n: int)
    requires n > 0 && t - n < x <= t && t - n < y <= t && x % n == y % n
    ensures x == y
  {
    AgeOfTick(t, x, n);
    AgeOfTick(t, y, n);
  }

  /** A rotation empties exactly the slots of the last `min(steps, n)` ticks. */
  lemma ClearedAt(cells: seq<Cell>, t: int, steps: int, tick: int)
    requires |cells| > 0 && t - |cells| < tick <= t
    ensures Cleared(cells, t, steps)[tick % |cells|] == if tick > t - steps then ZERO else cells[tick % |cells|]
  {
    AgeOfTick(t, tick, |cells|);
  }

  /** Rotation counts one tick too few exactly when `now` lies earlier in its bucket than the last
      rotation did in its own. */
  lemma StepsAgainstTicks(last: int, now: int, d: int)
    requires d > 0
    ensures Tick(now, d) - Tick(last, d) == Steps(last, now, d) + (if now % d >= last % d then 0 else 1)
  {
    var q := Tick(now, d) - Tick(last, d);
    assert now - last == (now / d) * d + now % d - (last / d) * d - last % d;
    assert (now / d) * d - (last / d) * d == q * d;
    if now % d >= last % d {
      ModUnique(now - last, d, q, now % d - last % d);
    } else {
      assert (q - 1) * d == q * d - d;
      ModUnique(now - last, d, q - 1, now % d - last % d + d);
    }
  }

  // ---------------------------------------------------------------------------
  // Specification of a sliding window: a log of outcomes
  // ---------------------------------------------------------------------------

  datatype Entry = Entry(tick: int, weight: int)

  /** What was logged in ticks `lo < tick <= hi`. */
  ghost function Logged(log: seq<Entry>, lo: int, hi: int): Cell {
    if log == [] then ZERO
    else
      var e := log[|log| - 1];
      var rest := Logged(log[..|log| - 1], lo, hi);
      if lo < e.tick <= hi then rest.Plus(Cell(1, e.weight)) else rest
  }

  ghost function At(log: seq<Entry>, tick: int): Cell {
    Logged(log, tick - 1, tick)
  }

  ghost predicate Exact(cells: seq<Cell>, log: seq<Entry>, t: int) {
    && |cells| > 0
    && forall tick :: t - |cells| < tick <= t ==> cells[tick % |cells|] == At(log, tick)
  }

  /** Exact in every slot of the window but that of `odd`. */
  ghost predicate ExactBut(cells: seq<Cell>, log: seq<Entry>, t: int, odd: int) {
    && |cells| > 0
    && t - |cells| < odd <= t
    && forall tick :: t - |cells| < tick <= t && tick != odd ==> cells[tick % |cells|] == At(log, tick)
  }

  lemma {:induction false} LoggedNone(log: seq<Entry>, lo: int, hi: int)
    requires forall e :: e in log ==> e.tick <= lo || e.tick > hi
    ensures Logged(log, lo, hi) == ZERO
  {
    if log != [] {
      LoggedNone(log[..|log| - 1], lo, hi);
    }
  }

  lemma {:induction false} LoggedNonNegative(log: seq<Entry>, lo: int, hi: int)
    ensures Logged(log, lo, hi).count >= 0
  {
    if log != [] {
      LoggedNonNegative(log[..|log| - 1], lo, hi);
    }
  }

  lemma LoggedSnoc(log: seq<Entry>, e: Entry, lo: int, hi: int)
    ensures Logged(log + [e], lo, hi)
         == if lo < e.tick <= hi then Logged(log, lo, hi).Plus(Cell(1, e.weight)) else Logged(log, lo, hi)
  {
    assert (log + [e])[..|log|] == log;
  }

  // ---------------------------------------------------------------------------
  // Ring totals are window totals when every slot is exact
  // ---------------------------------------------------------------------------

  lemma {:induction false} SumUpdate(cells: seq<Cell>, i: nat, c: Cell)
    requires i < |cells|
    ensures Sum(cells[i := c]).count == Sum(cells).count - cells[i].count + c.count
    ensures Sum(cells[i := c]).weight == Sum(cells).weight - cells[i].weight + c.weight
  {
    if i == 0 {
      assert cells[i := c][1..] == cells[1..];
    } else {
      assert cells[i := c][1..] == cells[1..][i - 1 := c];
      SumUpdate(cells[1..], i - 1, c);
    }
  }

  lemma {:induction false} SumZero(cells: seq<Cell>)
    requires forall i :: 0 <= i < |cells| ==> cells[i] == ZERO
    ensures Sum(cells) == ZERO
  {
    if cells != [] {
      assert cells[0] == ZERO;
      forall i | 0 <= i < |cells[1..]| ensures cells[1..][i] == ZERO {
        assert cells[1..][i] == cells[i + 1];
      }
      SumZero(cells[1..]);
    }
  }

  /** The ring that is exact for a log. */
  ghost function Ideal(log: seq<Entry>, t: int, n: int): (cells: seq<Cell>)
    requires n > 0
    ensures |cells| == n
  {
    seq(n, i => At(log, t - Age(t, i, n)))
  }

  lemma ExactIsIdeal(cells: seq<Cell>, log: seq<Entry>, t: int)
    requires Exact(cells, log, t)
    ensures cells == Ideal(log, t, |cells|)
  {
    var n := |cells|;
    forall i | 0 <= i < n ensures cells[i] == Ideal(log, t, n)[i] {
      TickOfAge(t, i, n);
    }
  }

  lemma {:induction false} IdealSum(log: seq<Entry>, t: int, n: int)
    requires n > 0
    ensures Sum(Ideal(log, t, n)) == Logged(log, t - n, t)
  {
    if log == [] {
      SumZero(Ideal(log, t, n));
    } else {
      var init, e := log[..|log| - 1], log[|log| - 1];
      assert log == init + [e];
      IdealSum(init, t, n);
      IdealSnoc(init, e, t, n);
      LoggedSnoc(init, e, t - n, t);
      if t - n < e.tick <= t {
        SumUpdate(Ideal(init, t, n), e.tick % n, Ideal(init, t, n)[e.tick % n].Plus(Cell(1, e.weight)));
      }
    }
  }

  lemma IdealSnoc(log: seq<Entry>, e: Entry, t: int, n: int)
    requires n > 0
    ensures var was := Ideal(log, t, n);
            var i := e.tick % n;
            Ideal(log + [e], t, n) == if t - n < e.tick <= t then was[i := was[i].Plus(Cell(1, e.weight))] else was
  {
    var was, now := Ideal(log, t, n), Ideal(log + [e], t, n);
    var want := if t - n < e.tick <= t then was[e.tick % n := was[e.tick % n].Plus(Cell(1, e.weight))] else was;
    forall i | 0 <= i < n ensures now[i] == want[i] {
      var tick := t - Age(t, i, n);
      LoggedSnoc(log, e, tick - 1, tick);
      TickOfAge(t, i, n);
      if t - n < e.tick <= t && e.tick % n == i {
        SlotsDistinct(t, e.tick, tick, n);
      }
    }
  }

  lemma ExactSum(cells: seq<Cell>, log: seq<Entry>, t: int)
    requires Exact(cells, log, t)
    ensures Sum(cells) == Logged(log, t - |cells|, t)
  {
    ExactIsIdeal(cells, log, t);
    IdealSum(log, t, |cells|);
  }

  /** One wrong slot shifts the total by its error. */
  lemma ExactButSum(cells: seq<Cell>, log: seq<Entry>, t: int, odd: int)
    requires ExactBut(cells, log, t, odd)
    ensures Sum(cells).count == Logged(log, t - |cells|, t).count
                                + cells[odd % |cells|].count - At(log, odd).count
  {
    var n := |cells|;
    var fixed := cells[odd % n := At(log, odd)];
    forall tick | t - n < tick <= t ensures fixed[tick % n] == At(log, tick) {
      if tick % n == odd % n {
        SlotsDistinct(t, tick, odd, n);
      }
    }
    ExactSum(fixed, log, t);
    SumUpdate(cells, odd % n, At(log, odd));
  }

  // ---------------------------------------------------------------------------
  // One call
  // ---------------------------------------------------------------------------

  /** The log of a run, with the clock reading of its last rotation and of its latest call. */
  datatype History = History(log: seq<Entry>, last: int, at: int)

  ghost predicate Sane(h: History, d: int)
    requires d > 0
  {
    && h.last <= h.at < h.last + d
    && forall e :: e in h.log ==> e.tick <= Tick(h.at, d)
  }

  /** The newest tick that a rotation at `now` leaves alone. */
  ghost function Kept(h: History, now: int, d: int): int
    requires d > 0
  {
    Tick(now, d) - Steps(h.last, now, d)
  }

  /** Whether a rotation at `now` does no damage. It is off by a tick in two ways: it can empty the
      tick already in use, or leave alone the slot of a new tick, which still holds the counts of `n`
      ticks before. Either is harmless only when there is nothing there. */
  ghost predicate Harmless(h: History, now: int, d: int, n: int)
    requires d > 0
  {
    var steps, kept, cur := Steps(h.last, now, d), Kept(h, now, d), Tick(h.at, d);
    && (cur > kept ==> steps > n || At(h.log, cur).count == 0)
    && (cur < kept && steps < n ==> At(h.log, kept - n).count == 0)
  }

  ghost predicate Tracks(r: Ring, h: History, d: int)
    requires d > 0
  {
    Sane(h, d) && r.last == h.last && Exact(r.cells, h.log, Tick(h.at, d))
  }

  lemma KeptRange(h: History, now: int, d: int)
    requires d > 0 && Sane(h, d) && now >= h.at
    ensures Steps(h.last, now, d) >= 0
    ensures Tick(h.at, d) <= Tick(now, d)
    ensures Tick(h.at, d) - 1 <= Kept(h, now, d) <= Tick(h.at, d) + 1
  {
    StepsAgainstTicks(h.last, now, d);
    StepsAgainstTicks(h.last, h.at, d);
    DivMono(h.last, now, d);
    DivMono(h.at, now, d);
    ModUnique(h.at - h.last, d, 0, h.at - h.last);
    assert Steps(h.last, now, d) >= 0 by { DivMono(0, now - h.last, d); }
  }

  lemma DivMono(x: int, y: int, d: int)
    requires d > 0 && x <= y
    ensures x / d <= y / d
  {
    var k := x / d - y / d;
    assert k * d == (x / d) * d - (y / d) * d == x - x % d - (y - y % d);
    if k > 0 {
      ProductAtLeast(k, d);
    }
  }

  lemma AtFuture(h: History, d: int, tick: int)
    requires d > 0 && Sane(h, d) && tick > Tick(h.at, d)
    ensures At(h.log, tick) == ZERO
  {
    LoggedNone(h.log, tick - 1, tick);
  }

  /** What every slot of the new window holds after the rotation. */
  lemma RotatedSlot(r: Ring, h: History, now: int, d: int, tick: int)
    requires d > 0 && Tracks(r, h, d) && now >= h.at
    requires Tick(now, d) - |r.cells| < tick <= Tick(now, d)
    ensures var n, kept, cur := |r.cells|, Kept(h, now, d), Tick(h.at, d);
            Rotate(r, now, d).cells[tick % n] ==
            if tick > kept then ZERO else if tick <= cur then At(h.log, tick) else At(h.log, tick - n)
  {
    var n, steps, t, cur := |r.cells|, Steps(h.last, now, d), Tick(now, d), Tick(h.at, d);
    KeptRange(h, now, d);
    ClearedAt(r.cells, t, steps, tick);
    if tick <= Kept(h, now, d) && tick > cur {
      ModShift(tick, n);
      assert cur - n < tick - n <= cur;
    }
  }

  lemma CountZero(log: seq<Entry>, tick: int)
    requires At(log, tick).count == 0
    ensures At(log, tick) == ZERO
  {
    CountZeroLogged(log, tick - 1, tick);
  }

  lemma {:induction false} CountZeroLogged(log: seq<Entry>, lo: int, hi: int)
    requires Logged(log, lo, hi).count == 0
    ensures Logged(log, lo, hi) == ZERO
  {
    if log != [] {
      LoggedNonNegative(log[..|log| - 1], lo, hi);
      CountZeroLogged(log[..|log| - 1], lo, hi);
    }
  }

  lemma HarmlessKeepsExact(r: Ring, h: History, now: int, d: int)
    requires d > 0 && Tracks(r, h, d) && now >= h.at && Harmless(h, now, d, |r.cells|)
    ensures Exact(Rotate(r, now, d).cells, h.log, Tick(now, d))
  {
    var n, kept, cur, t := |r.cells|, Kept(h, now, d), Tick(h.at, d), Tick(now, d);
    KeptRange(h, now, d);
    forall tick | t - n < tick <= t ensures Rotate(r, now, d).cells[tick % n] == At(h.log, tick) {
      RotatedSlot(r, h, now, d, tick);
      if tick > cur {
        AtFuture(h, d, tick);
        if tick <= kept {
          CountZero(h.log, kept - n);
        }
      } else if tick > kept {
        CountZero(h.log, cur);
      }
    }
  }

  /** Every slot of the ring is right but that of `odd`, which miscounts. */
  ghost predicate OffAt(cells: seq<Cell>, log: seq<Entry>, t: int, odd: int) {
    ExactBut(cells, log, t, odd) && cells[odd % |cells|].count != At(log, odd).count
  }

  /** The ring counts `k` outcomes more than the window. */
  ghost predicate OffBy(cells: seq<Cell>, log: seq<Entry>, t: int, k: int) {
    Sum(cells).count == Logged(log, t - |cells|, t).count + k
  }

  lemma OffTotal(cells: seq<Cell>, log: seq<Entry>, t: int, odd: int, k: int)
    requires ExactBut(cells, log, t, odd) && cells[odd % |cells|].count == At(log, odd).count + k
    ensures OffBy(cells, log, t, k)
  {
    ExactButSum(cells, log, t, odd);
  }

  /** Emptying the tick in use loses exactly its outcomes. */
  lemma ErasedSlot(r: Ring, h: History, now: int, d: int)
    requires d > 0 && Tracks(r, h, d) && now >= h.at
    requires Tick(h.at, d) > Kept(h, now, d) && Steps(h.last, now, d) <= |r.cells|
    requires At(h.log, Tick(h.at, d)).count != 0
    ensures OffAt(Rotate(r, now, d).cells, h.log, Tick(now, d), Tick(h.at, d))
    ensures OffBy(Rotate(r, now, d).cells, h.log, Tick(now, d), -At(h.log, Tick(h.at, d)).count)
  {
    var n, odd, t := |r.cells|, Tick(h.at, d), Tick(now, d);
    var cells := Rotate(r, now, d).cells;
    KeptRange(h, now, d);
    forall tick | t - n < tick <= t && tick != odd ensures cells[tick % n] == At(h.log, tick) {
      RotatedSlot(r, h, now, d, tick);
      if tick > odd {
        AtFuture(h, d, tick);
      }
    }
    RotatedSlot(r, h, now, d, odd);
    OffTotal(cells, h.log, t, odd, -At(h.log, odd).count);
  }

  /** Leaving a new tick's slot alone counts exactly the outcomes of `n` ticks before as well. */
  lemma StaleSlot(r: Ring, h: History, now: int, d: int)
    requires d > 0 && Tracks(r, h, d) && now >= h.at
    requires Tick(h.at, d) < Kept(h, now, d) && Steps(h.last, now, d) < |r.cells|
    requires At(h.log, Kept(h, now, d) - |r.cells|).count != 0
    ensures OffAt(Rotate(r, now, d).cells, h.log, Tick(now, d), Kept(h, now, d))
    ensures OffBy(Rotate(r, now, d).cells, h.log, Tick(now, d), At(h.log, Kept(h, now, d) - |r.cells|).count)
  {
    var n, odd, t := |r.cells|, Kept(h, now, d), Tick(now, d);
    var cells := Rotate(r, now, d).cells;
    KeptRange(h, now, d);
    forall tick | t - n < tick <= t && tick != odd ensures cells[tick % n] == At(h.log, tick) {
      RotatedSlot(r, h, now, d, tick);
      if tick > Tick(h.at, d) {
        AtFuture(h, d, tick);
      }
    }
    RotatedSlot(r, h, now, d, odd);
    AtFuture(h, d, odd);
    OffTotal(cells, h.log, t, odd, At(h.log, odd - n).count);
  }

  lemma HarmfulSlot(r: Ring, h: History, now: int, d: int) returns (odd: int)
    requires d > 0 && Tracks(r, h, d) && now >= h.at && !Harmless(h, now, d, |r.cells|)
    ensures OffAt(Rotate(r, now, d).cells, h.log, Tick(now, d), odd)
  {
    if Tick(h.at, d) > Kept(h, now, d) {
      ErasedSlot(r, h, now, d);
      odd := Tick(h.at, d);
    } else {
      StaleSlot(r, h, now, d);
      odd := Kept(h, now, d);
    }
  }

  lemma MarkKeepsExact(cells: seq<Cell>, log: seq<Entry>, t: int, w: int)
    requires Exact(cells, log, t)
    ensures var i := t % |cells|;
            Exact(cells[i := cells[i].Plus(Cell(1, w))], log + [Entry(t, w)], t)
  {
    var n, i, e := |cells|, t % |cells|, Entry(t, w);
    var cells' := cells[i := cells[i].Plus(Cell(1, w))];
    forall tick | t - n < tick <= t ensures cells'[tick % n] == At(log + [e], tick) {
      LoggedSnoc(log, e, tick - 1, tick);
      if tick % n == i {
        SlotsDistinct(t, tick, t, n);
      }
    }
  }

  // ---------------------------------------------------------------------------
  // Runs
  // ---------------------------------------------------------------------------

  /** `Look` only rotates (an admission check); `Record` rotates and counts an outcome. */
  datatype Call = Look(now: int) | Record(now: int, weight: int)

  ghost function RingStep(r: Ring, c: Call, d: int): (r': Ring)
    requires d > 0 && |r.cells| > 0
    ensures |r'.cells| == |r.cells|
  {
    var r' := Rotate(r, c.now, d);
    if c.Record? then Mark(r', c.now, d, c.weight) else r'
  }

  ghost function HistoryStep(h: History, c: Call, d: int): History
    requires d > 0
  {
    History(if c.Record? then h.log + [Entry(Tick(c.now, d), c.weight)] else h.log,
            if Steps(h.last, c.now, d) <= 0 then h.last else c.now,
            c.now)
  }

  ghost function RingRun(r: Ring, calls: seq<Call>, d: int): (r': Ring)
    requires d > 0 && |r.cells| > 0
    ensures |r'.cells| == |r.cells|
  {
    if calls == [] then r else RingStep(RingRun(r, calls[..|calls| - 1], d), calls[|calls| - 1], d)
  }

  ghost function HistoryRun(h: History, calls: seq<Call>, d: int): History
    requires d > 0
  {
    if calls == [] then h else HistoryStep(HistoryRun(h, calls[..|calls| - 1], d), calls[|calls| - 1], d)
  }

  /** The clock never goes back from `start` on. */
  ghost predicate Monotone(start: int, calls: seq<Call>) {
    && (calls != [] ==> start <= calls[0].now)
    && forall i :: 0 < i < |calls| ==> calls[i - 1].now <= calls[i].now
  }

  ghost predicate Agrees(r: Ring, h: History, d: int)
    requires d > 0
  {
    Sum(r.cells) == Logged(h.log, Tick(h.at, d) - |r.cells|, Tick(h.at, d))
  }

  lemma StepTracks(r: Ring, h: History, c: Call, d: int)
    requires d > 0 && Tracks(r, h, d) && c.now >= h.at
    requires Harmless(h, c.now, d, |r.cells|)
    ensures Tracks(RingStep(r, c, d), HistoryStep(h, c, d), d)
  {
    HarmlessKeepsExact(r, h, c.now, d);
    if c.Record? {
      MarkKeepsExact(Rotate(r, c.now, d).cells, h.log, Tick(c.now, d), c.weight);
    }
    StepSane(h, c, d);
  }

  lemma StepSane(h: History, c: Call, d: int)
    requires d > 0 && Sane(h, d) && c.now >= h.at
    ensures Sane(HistoryStep(h, c, d), d)
  {
    KeptRange(h, c.now, d);
    if Steps(h.last, c.now, d) <= 0 && c.now - h.last >= d {
      DivMono(d, c.now - h.last, d);
      ModUnique(d, d, 1, 0);
    }
  }

  lemma MarkKeepsOff(cells: seq<Cell>, log: seq<Entry>, t: int, odd: int, w: int)
    requires OffAt(cells, log, t, odd)
    ensures var i := t % |cells|;
            OffAt(cells[i := cells[i].Plus(Cell(1, w))], log + [Entry(t, w)], t, odd)
  {
    var n, i, e := |cells|, t % |cells|, Entry(t, w);
    var cells' := cells[i := cells[i].Plus(Cell(1, w))];
    forall tick | t - n < tick <= t
      ensures tick != odd ==> cells'[tick % n] == At(log + [e], tick)
      ensures tick == odd ==> cells'[tick % n].count != At(log + [e], tick).count
    {
      LoggedSnoc(log, e, tick - 1, tick);
      if tick % n == i {
        SlotsDistinct(t, tick, t, n);
      }
    }
  }

  lemma StepMiscounts(r: Ring, h: History, c: Call, d: int)
    requires d > 0 && Tracks(r, h, d) && c.now >= h.at
    requires !Harmless(h, c.now, d, |r.cells|)
    ensures !Agrees(RingStep(r, c, d), HistoryStep(h, c, d), d)
  {
    var odd := HarmfulSlot(r, h, c.now, d);
    var r', h', t := RingStep(r, c, d), HistoryStep(h, c, d), Tick(c.now, d);
    if c.Record? {
      MarkKeepsOff(Rotate(r, c.now, d).cells, h.log, t, odd, c.weight);
    }
    assert OffAt(r'.cells, h'.log, t, odd);
    ExactButSum(r'.cells, h'.log, t, odd);
  }

  /** No rotation of the run does damage. A caller can tell from the clock and the outcomes alone. */
  ghost predicate AllHarmless(start: int, calls: seq<Call>, d: int, n: int)
    requires d > 0
  {
    calls == [] ||
    var init := calls[..|calls| - 1];
    AllHarmless(start, init, d, n)
    && Harmless(HistoryRun(History([], start, start), init, d), calls[|calls| - 1].now, d, n)
  }

  /** At every state of the run the ring's totals are those of the last `n` ticks. */
  ghost predicate AlwaysAgrees(n: nat, start: int, calls: seq<Call>, d: int)
    requires d > 0 && n > 0
  {
    && Agrees(RingRun(Fresh(n, start), calls, d), HistoryRun(History([], start, start), calls, d), d)
    && (calls != [] ==> AlwaysAgrees(n, start, calls[..|calls| - 1], d))
  }

  /** Over every run of a fresh ring under a monotone clock: at every state the ring's totals are
      those of the last `n` ticks if and only if no rotation of the run did damage. */
  lemma {:induction false} WindowRefinementIff(n: nat, start: int, calls: seq<Call>, d: int)
    requires d > 0 && n > 0 && Monotone(start, calls)
    ensures AlwaysAgrees(n, start, calls, d) <==> AllHarmless(start, calls, d, n)
    ensures AllHarmless(start, calls, d, n) ==>
              Tracks(RingRun(Fresh(n, start), calls, d), HistoryRun(History([], start, start), calls, d), d)
  {
    if calls == [] {
      FreshTracks(n, start, d);
    } else {
      var init, c := calls[..|calls| - 1], calls[|calls| - 1];
      WindowRefinementIff(n, start, init, d);
      HistoryAt(start, init, d);
      if AllHarmless(start, init, d, n) {
        LastCall(RingRun(Fresh(n, start), init, d), HistoryRun(History([], start, start), init, d), c, d);
      }
    }
  }

  lemma HarmlessAgrees(n: nat, start: int, calls: seq<Call>, d: int)
    requires d > 0 && n > 0 && Monotone(start, calls) && AllHarmless(start, calls, d, n)
    ensures Agrees(RingRun(Fresh(n, start), calls, d), HistoryRun(History([], start, start), calls, d), d)
  {
    WindowRefinementIff(n, start, calls, d);
  }

  lemma LastCall(r: Ring, h: History, c: Call, d: int)
    requires d > 0 && Tracks(r, h, d) && c.now >= h.at
    ensures Agrees(RingStep(r, c, d), HistoryStep(h, c, d), d) <==> Harmless(h, c.now, d, |r.cells|)
    ensures Harmless(h, c.now, d, |r.cells|) ==> Tracks(RingStep(r, c, d), HistoryStep(h, c, d), d)
  {
    if Harmless(h, c.now, d, |r.cells|) {
      StepTracks(r, h, c, d);
      ExactSum(RingStep(r, c, d).cells, HistoryStep(h, c, d).log, Tick(c.now, d));
    } else {
      StepMiscounts(r, h, c, d);
    }
  }

  lemma FreshTracks(n: nat, start: int, d: int)
    requires d > 0 && n > 0
    ensures Tracks(Fresh(n, start), History([], start, start), d)
    ensures Agrees(Fresh(n, start), History([], start, start), d)
  {
    SumZero(Fresh(n, start).cells);
    FreshExact(n, start, Tick(start, d));
  }

  lemma FreshExact(n: nat, start: int, t: int)
    requires n > 0
    ensures Exact(Fresh(n, start).cells, [], t)
  {
    var cells := Fresh(n, start).cells;
    forall tick | t - n < tick <= t ensures cells[tick % n] == At([], tick) {
      assert 0 <= tick % n < n;
    }
  }

  lemma HistoryAt(start: int, calls: seq<Call>, d: int)
    requires d > 0
    ensures HistoryRun(History([], start, start), calls, d).at
         == if calls == [] then start else calls[|calls| - 1].now
  {
  }

  // ---------------------------------------------------------------------------
  // Which rings are always right
  // ---------------------------------------------------------------------------

  /** Every call lies at least as far into its bucket as the last rotation lay in its own. */
  ghost predicate AllAligned(start: int, calls: seq<Call>, d: int)
    requires d > 0
  {
    calls == [] ||
    var init := calls[..|calls| - 1];
    AllAligned(start, init, d)
    && calls[|calls| - 1].now % d >= HistoryRun(History([], start, start), init, d).last % d
  }

  lemma {:induction false} AlignedIsHarmless(n: nat, start: int, calls: seq<Call>, d: int)
    requires d > 0 && n > 0 && Monotone(start, calls) && AllAligned(start, calls, d)
    ensures AllHarmless(start, calls, d, n)
    ensures var h := HistoryRun(History([], start, start), calls, d);
            Sane(h, d) && Tick(h.at, d) == Tick(h.last, d)
  {
    if calls != [] {
      var init, c := calls[..|calls| - 1], calls[|calls| - 1];
      AlignedIsHarmless(n, start, init, d);
      HistoryAt(start, init, d);
      var h := HistoryRun(History([], start, start), init, d);
      StepsAgainstTicks(h.last, c.now, d);
      KeptRange(h, c.now, d);
      StepSane(h, c, d);
    }
  }

  lemma {:induction false} UnitBucketsAligned(start: int, calls: seq<Call>)
    ensures AllAligned(start, calls, 1)
  {
    if calls != [] {
      UnitBucketsAligned(start, calls[..|calls| - 1]);
    }
  }

  /** The ring and the log of a run. */
  ghost predicate Reaches(n: nat, start: int, calls: seq<Call>, d: int, r: Ring, h: History)
    requires d > 0 && n > 0
  {
    && Monotone(start, calls) && (calls != [] ==> calls[|calls| - 1].now == h.at)
    && r == RingRun(Fresh(n, start), calls, d) && h == HistoryRun(History([], start, start), calls, d)
    && start <= h.at
  }

  lemma ReachesNext(n: nat, start: int, calls: seq<Call>, d: int, r: Ring, h: History, c: Call)
    requires d > 0 && n > 0 && Reaches(n, start, calls, d, r, h) && c.now >= h.at
    ensures Reaches(n, start, calls + [c], d, RingStep(r, c, d), HistoryStep(h, c, d))
  {
    assert (calls + [c])[..|calls|] == calls;
  }

  lemma ReachesStart(n: nat, start: int, d: int)
    requires d > 0 && n > 0
    ensures Reaches(n, start, [], d, Fresh(n, start), History([], start, start))
    ensures Tracks(Fresh(n, start), History([], start, start), d)
  {
    FreshTracks(n, start, d);
  }

  /** The first outcome of a run does no damage. */
  lemma FirstRecord(n: nat, start: int, now: int, d: int) returns (r: Ring)
    requires d > 0 && n > 0 && start <= now < start + d
    ensures |r.cells| == n
    ensures Reaches(n, start, [Record(now, 0)], d, r, History([Entry(Tick(now, d), 0)], start, now))
    ensures Tracks(r, History([Entry(Tick(now, d), 0)], start, now), d)
  {
    var h, c := History([], start, start), Record(now, 0);
    ReachesStart(n, start, d);
    ModUnique(now - start, d, 0, now - start);
    assert [] + [Entry(Tick(now, d), 0)] == [Entry(Tick(now, d), 0)];
    assert HistoryStep(h, c, d) == History([Entry(Tick(now, d), 0)], start, now);
    StepTracks(Fresh(n, start), h, c, d);
    ReachesNext(n, start, [], d, Fresh(n, start), h, c);
    assert [] + [c] == [c];
    r := RingStep(Fresh(n, start), c, d);
  }

  /** Ring and log after a call that does no damage. */
  lemma TracksNext(n: nat, start: int, calls: seq<Call>, d: int, r: Ring, h: History, c: Call)
    requires d > 0 && n > 0 && |r.cells| == n && Reaches(n, start, calls, d, r, h) && Tracks(r, h, d)
    requires c.now >= h.at && Harmless(h, c.now, d, n)
    ensures Reaches(n, start, calls + [c], d, RingStep(r, c, d), HistoryStep(h, c, d))
    ensures Tracks(RingStep(r, c, d), HistoryStep(h, c, d), d)
  {
    StepTracks(r, h, c, d);
    ReachesNext(n, start, calls, d, r, h, c);
  }

  /** One outcome in tick 0, and a look at the end of tick `n - 1`, at time `m - 1`. */
  lemma StaleHistory(n: nat, d: int, m: int)
    requires d > 1 && n > 0 && m >= d && (n == 1 ==> m == d)
    requires Tick(d - 1, d) == 0 && Tick(m - 1, d) == n - 1 && Steps(d - 1, m - 1, d) == n - 1
    ensures var h := History([Entry(0, 0)], d - 1, d - 1);
            HistoryStep(h, Look(m - 1), d) == History([Entry(0, 0)], m - 1, m - 1) && Harmless(h, m - 1, d, n)
  {
  }

  lemma StaleLook(n: nat, d: int, m: int, r: Ring, h: History)
    requires d > 1 && n > 0 && |r.cells| == n && Tick(m, d) == n && Tick(m - 1, d) == n - 1 && Steps(m - 1, m, d) == 0
    requires h.last == h.at == m - 1 && At(h.log, 0).count == 1 && Tracks(r, h, d)
    ensures OffBy(RingStep(r, Look(m), d).cells, HistoryStep(h, Look(m), d).log, Tick(m, d), 1)
  {
    StaleSlot(r, h, m, d);
  }

  lemma StaleTicks(n: nat, d: int) returns (m: int)
    requires d > 1 && n > 0
    ensures m >= d && (n == 1 ==> m == d)
    ensures Tick(d - 1, d) == 0 && Tick(m - 1, d) == n - 1 && Tick(m, d) == n
    ensures Steps(d - 1, m - 1, d) == n - 1 && Steps(m - 1, m, d) == 0
  {
    m := n * d;
    ProductAtLeast(n, d);
    ModUnique(d - 1, d, 0, d - 1);
    ModUnique(m - d, d, n - 1, 0);
    ModUnique(m - 1, d, n - 1, d - 1);
    ModUnique(m, d, n, 0);
    ModUnique(1, d, 0, 1);
  }

  /** After the run, under a monotone clock, the ring counts `k` outcomes more than the window. */
  ghost predicate EndsOff(n: nat, start: int, calls: seq<Call>, d: int, k: int)
    requires d > 0 && n > 0
  {
    var h := HistoryRun(History([], start, start), calls, d);
    Monotone(start, calls) && OffBy(RingRun(Fresh(n, start), calls, d).cells, h.log, Tick(h.at, d), k)
  }

  lemma StaleEnd(n: nat, d: int, m: int, calls: seq<Call>, r: Ring, h: History)
    requires d > 1 && n > 0 && |r.cells| == n && Tick(m, d) == n && Tick(m - 1, d) == n - 1 && Steps(m - 1, m, d) == 0
    requires h.last == h.at == m - 1 && At(h.log, 0).count == 1 && Tracks(r, h, d) && Reaches(n, d - 1, calls, d, r, h)
    ensures EndsOff(n, d - 1, calls + [Look(m)], d, 1)
  {
    StaleLook(n, d, m, r, h);
    ReachesNext(n, d - 1, calls, d, r, h, Look(m));
  }

  /** One outcome at the end of tick 0 that is still counted in tick `n`. */
  lemma StaleRun(n: nat, d: int) returns (start: int, calls: seq<Call>)
    requires d > 1 && n > 0
    ensures EndsOff(n, start, calls, d, 1)
  {
    var m := StaleTicks(n, d);
    var r := FirstRecord(n, d - 1, d - 1, d);
    var h, c := History([Entry(0, 0)], d - 1, d - 1), Look(m - 1);
    StaleHistory(n, d, m);
    TracksNext(n, d - 1, [Record(d - 1, 0)], d, r, h, c);
    LoggedOne(Entry(0, 0));
    calls := [Record(d - 1, 0)] + [c];
    StaleEnd(n, d, m, calls, RingStep(r, c, d), HistoryStep(h, c, d));
    start, calls := d - 1, calls + [Look(m)];
  }

  lemma ErasedLook(n: nat, d: int, r: Ring, h: History)
    requires d > 1 && n > 0 && |r.cells| == n && Tracks(r, h, d)
    requires h.last == d - 1 && h.at == d && At(h.log, 1).count == 1
    ensures OffBy(RingStep(r, Look(2 * d - 1), d).cells, h.log, Tick(2 * d - 1, d), -1)
  {
    ModUnique(d, d, 1, 0);
    ModUnique(2 * d - 1, d, 1, d - 1);
    ErasedSlot(r, h, 2 * d - 1, d);
  }

  /** One outcome at the start of tick 1 that is gone at the end of tick 1. */
  lemma ErasedRun(n: nat, d: int) returns (start: int, calls: seq<Call>)
    requires d > 1 && n > 0
    ensures EndsOff(n, start, calls, d, -1)
  {
    ModUnique(d, d, 1, 0);
    var r := FirstRecord(n, d - 1, d, d);
    var h, c := History([Entry(1, 0)], d - 1, d), Look(2 * d - 1);
    LoggedOne(Entry(1, 0));
    ErasedLook(n, d, r, h);
    ReachesNext(n, d - 1, [Record(d, 0)], d, r, h, c);
    start, calls := d - 1, [Record(d, 0)] + [c];
  }

  lemma LoggedOne(e: Entry)
    ensures At([e], e.tick).count == 1
  {
    var log := [e];
    assert log[..|log| - 1] == [];
    assert Logged([], e.tick - 1, e.tick) == ZERO;
    assert log[|log| - 1] == e;
  }

  /** The window is right over all runs exactly when a bucket lasts one nanosecond. */
  lemma AlwaysRightIff(n: nat, d: int)
    requires d > 0 && n > 0
    ensures (forall start, calls :: Monotone(start, calls) ==> AlwaysAgrees(n, start, calls, d)) <==> d == 1
  {
    if d == 1 {
      forall start, calls | Monotone(start, calls) ensures AlwaysAgrees(n, start, calls, d) {
        UnitBucketsAligned(start, calls);
        AlignedIsHarmless(n, start, calls, d);
        WindowRefinementIff(n, start, calls, d);
      }
    } else {
      var start, calls := StaleRun(n, d);
      assert !AlwaysAgrees(n, start, calls, d);
    }
  }

  // ---------------------------------------------------------------------------
  // The ring in place
  // ---------------------------------------------------------------------------

  /** Division as Go does it, truncating toward zero. */
  function Quotient(x: int, d: int): int
    requires d > 0
  {
    if x >= 0 then x / d else -(-x / d)
  }

  lemma QuotientSign(x: int, d: int)
    requires d > 0
    ensures Quotient(x, d) == x / d || (Quotient(x, d) <= 0 && x / d <= 0)
  {
    if x < 0 {
      DivMono(x, 0, d);
      DivMono(0, -x, d);
    }
  }

  /** The slot that the `i`-th pass of the clearing loop empties. */
  lemma LoopSlot(t: int, n: int, steps: int, i: int)
    requires n > 0 && 0 <= i < steps < n
    ensures var j := (t % n - steps + i + 1 + n) % n;
            forall k :: 0 <= k < n ==> (Age(t, k, n) == steps - 1 - i <==> k == j)
  {
    var a := steps - 1 - i;
    var j := (t % n - steps + i + 1 + n) % n;
    ModShift(t % n - a, n);
    ModAdd(t, -a, n);
    assert j == (t - a) % n;
    AgeOfTick(t, t - a, n);
    forall k | 0 <= k < n && Age(t, k, n) == a ensures k == j {
      TickOfAge(t, k, n);
    }
    assert 0 <= j < n;
  }

  /** The slot of the present tick is the one slot of age zero. */
  lemma SlotInUse(t: int, n: int)
    requires n > 0
    ensures forall k :: 0 <= k < n ==> (Age(t, k, n) == 0 <==> k == t % n)
  {
    forall k | 0 <= k < n ensures Age(t, k, n) == 0 <==> k == t % n {
      TickOfAge(t, k, n);
      AgeOfTick(t, t, n);
    }
  }

  lemma ModAdd(t: int, a: int, n: int)
    requires n > 0
    ensures (t % n + a) % n == (t + a) % n
  {
    var y := t % n + a;
    var q := t / n + y / n;
    assert q * n == (t / n) * n + (y / n) * n;
    ModUnique(t + a, n, q, y % n);
  }

  /** The bbr limiter writes the same index with a test in place of the added `n`. */
  lemma IndexFormsAgree(c: int, n: int, steps: int, i: int)
    requires 0 <= c < n && 0 <= i < steps < n
    ensures (var idx := c - steps + i + 1; (if idx < 0 then idx + n else idx) % n) == (c - steps + i + 1 + n) % n
  {
    ModShift(c - steps + i + 1, n);
  }

  lemma {:induction false} SumSnoc(cells: seq<Cell>, c: Cell)
    ensures Sum(cells + [c]) == Sum(cells).Plus(c)
  {
    if cells == [] {
      assert [] + [c] == [c];
    } else {
      assert (cells + [c])[1..] == cells[1..] + [c];
      SumSnoc(cells[1..], c);
    }
  }

  class Buckets {
    const cells: array<Cell>
    const duration: int
    var last: int

    ghost predicate Valid() {
      cells.Length > 0 && duration > 0
    }

    ghost function View(): (r: Ring)
      reads this, cells
    {
      Ring(cells[..], last)
    }

    constructor (n: nat, duration: int, now: int)
      requires n > 0 && duration > 0
      ensures Valid() && fresh(cells) && this.duration == duration && cells.Length == n
      ensures View() == Fresh(n, now)
    {
      cells := new Cell[n](_ => ZERO);
      this.duration := duration;
      last := now;
      new;
      assert cells[..] == Zeros(n);
    }

    function Index(now: int): (i: int)
      requires Valid() && now >= 0
      ensures 0 <= i < cells.Length
      ensures forall k :: 0 <= k < cells.Length ==> (Age(Tick(now, duration), k, cells.Length) == 0 <==> k == i)
    {
      SlotInUse(Tick(now, duration), cells.Length);
      now / duration % cells.Length
    }

    method RotateLocked(now: int)
      requires Valid() && now >= 0
      modifies this`last, cells
      ensures View() == Rotate(old(View()), now, duration)
    {
      var elapsed := now - last;
      var steps := Quotient(elapsed, duration);
      QuotientSign(elapsed, duration);
      if steps <= 0 {
        return;
      }
      var n := cells.Length;
      ghost var t := Tick(now, duration);
      if steps >= n {
        for i := 0 to n
          invariant forall j :: 0 <= j < n ==> cells[j] == if j < i then ZERO else old(cells[j])
        {
          cells[i] := ZERO;
        }
      } else {
        ClearPassed(now, steps);
      }
      last := now;
      assert cells[..] == Cleared(old(cells[..]), t, steps);
    }

    method ClearPassed(now: int, steps: int)
      requires Valid() && now >= 0 && 0 < steps < cells.Length
      modifies cells
      ensures forall j :: 0 <= j < cells.Length ==>
                cells[j] == if Age(Tick(now, duration), j, cells.Length) < steps then ZERO else old(cells[j])
    {
      var n := cells.Length;
      ghost var t := Tick(now, duration);
      for i := 0 to steps
        invariant forall j :: 0 <= j < n ==>
                    cells[j] == if steps - i <= Age(t, j, n) < steps then ZERO else old(cells[j])
      {
        LoopSlot(t, n, steps, i);
        var idx := (Index(now) - steps + i + 1 + n) % n;
        cells[idx] := ZERO;
      }
    }

    method Record(now: int, weight: int)
      requires Valid() && now >= 0
      modifies cells
      ensures View() == Mark(old(View()), now, duration, weight)
    {
      var idx := Index(now);
      cells[idx] := cells[idx].Plus(Cell(1, weight));
    }

    method Reset()
      requires Valid()
      modifies cells
      ensures View() == Fresh(cells.Length, last)
    {
      for i := 0 to cells.Length
        invariant forall j :: 0 <= j < i ==> cells[j] == ZERO
      {
        cells[i] := ZERO;
      }
      assert cells[..] == Zeros(cells.Length);
    }

    method Totals() returns (total: Cell)
      requires Valid()
      ensures total == Sum(View().cells)
    {
      total := ZERO;
      for i := 0 to cells.Length
        invariant total == Sum(cells[..i])
      {
        SumSnoc(cells[..i], cells[i]);
        assert cells[..i + 1] == cells[..i] + [cells[i]];
        total := total.Plus(cells[i]);
      }
      assert cells[..cells.Length] == cells[..];
    }
  }
}
