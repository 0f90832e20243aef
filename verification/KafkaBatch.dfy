/** The batch consumer loop. What the loop waits for, the reader returns and the handler answers is
    given by the environment: a run is the sequence of turns of the loop's select. */
module KafkaBatch {
  import opened Int64

  /** A fetched message with what unmarshalling, handler and commit answer for it. */
  datatype Message = Message(offset: int, decodes: bool, handles: bool, commits: bool)

  datatype Failure = Fatal | Deadline | Other

  datatype Turn =
    | ContextDone
    | Done
    | Tick
    | Fetched(message: Message)
    | Failed(failure: Failure)

  datatype Options = Options(batchSize: int, binder: bool, autoAck: bool)

  // ---------------------------------------------------------------------------
  // One message
  // ---------------------------------------------------------------------------

  /** The handler is called for the message and answers without error. */
  predicate Succeeds(o: Options, m: Message) {
    (o.binder ==> m.decodes) && m.handles
  }

  predicate Acked(o: Options, m: Message) {
    o.autoAck && Succeeds(o, m) && m.commits
  }

  method HandleMessage(o: Options, m: Message) returns (failed: bool, acked: bool)
    ensures acked <==> Acked(o, m)
    ensures acked <==> o.autoAck && !failed
    ensures failed <==> (o.binder && !m.decodes) || !m.handles || (o.autoAck && !m.commits)
  {
    if o.binder {
      if !m.decodes {
        return true, false;
      }
    }
    if !m.handles {
      return true, false;
    }
    if o.autoAck {
      if !m.commits {
        return true, false;
      }
      return false, true;
    }
    return false, false;
  }

  /** The messages committed among those handled, in order. */
  ghost function AckedOf(o: Options, ms: seq<Message>): seq<Message> {
    if ms == [] then []
    else AckedOf(o, ms[..|ms| - 1]) + if Acked(o, ms[|ms| - 1]) then [ms[|ms| - 1]] else []
  }

  lemma {:induction false} AckedAppend(o: Options, xs: seq<Message>, ys: seq<Message>)
    ensures AckedOf(o, xs + ys) == AckedOf(o, xs) + AckedOf(o, ys)
  {
    if ys == [] {
      assert xs + ys == xs;
    } else {
      assert (xs + ys)[..|xs + ys| - 1] == xs + ys[..|ys| - 1];
      AckedAppend(o, xs, ys[..|ys| - 1]);
    }
  }

  method HandleBatch(o: Options, messages: seq<Message>) returns (acked: seq<Message>)
    ensures acked == AckedOf(o, messages)
  {
    acked := [];
    for i := 0 to |messages|
      invariant acked == AckedOf(o, messages[..i])
    {
      assert messages[..i + 1][..i] == messages[..i];
      var failed, ok := HandleMessage(o, messages[i]);
      if ok {
        acked := acked + [messages[i]];
      }
    }
    assert messages[..|messages|] == messages;
  }

  // ---------------------------------------------------------------------------
  // The loop
  // ---------------------------------------------------------------------------

  /** The messages the reader returned in these turns. */
  ghost function FetchedOf(turns: seq<Turn>): seq<Message> {
    if turns == [] then []
    else
      var t := turns[|turns| - 1];
      FetchedOf(turns[..|turns| - 1]) + if t.Fetched? then [t.message] else []
  }

  ghost function Flatten(batches: seq<seq<Message>>): seq<Message> {
    if batches == [] then [] else Flatten(batches[..|batches| - 1]) + batches[|batches| - 1]
  }

  function Room(o: Options): int {
    if o.batchSize < 1 then 1 else o.batchSize
  }

  predicate Ends(t: Turn) {
    t.ContextDone? || t.Done? || (t.Failed? && t.failure == Fatal)
  }

  /** Batches are non-empty and no larger than the batch size. */
  ghost predicate WellSized(o: Options, batches: seq<seq<Message>>) {
    forall i :: 0 <= i < |batches| ==> 0 < |batches[i]| <= Room(o)
  }

  /** Failures since the last fetch, by kind, up to six. */
  ghost function Attempts(turns: seq<Turn>, kind: Failure): nat {
    if turns == [] then 0
    else
      var t, n := turns[|turns| - 1], Attempts(turns[..|turns| - 1], kind);
      if t.Fetched? then 0 else if t == Failed(kind) && n < 6 then n + 1 else n
  }

  /** The failures of a kind since the last fetch. */
  ghost function FailuresSince(turns: seq<Turn>, kind: Failure): nat {
    if turns == [] || turns[|turns| - 1].Fetched? then 0
    else FailuresSince(turns[..|turns| - 1], kind) + if turns[|turns| - 1] == Failed(kind) then 1 else 0
  }

  lemma {:induction false} AttemptsCount(turns: seq<Turn>, kind: Failure)
    ensures Attempts(turns, kind) == if FailuresSince(turns, kind) < 6 then FailuresSince(turns, kind) else 6
  {
    if turns != [] {
      AttemptsCount(turns[..|turns| - 1], kind);
    }
  }

  /** Batch `i` was handed over in turn `at[i]`, at a tick or by the fetch that filled it, and with the
      batches before it is everything fetched up to then. */
  ghost predicate HandedOver(o: Options, turns: seq<Turn>, taken: nat, batches: seq<seq<Message>>, at: seq<nat>, i: nat)
    requires taken <= |turns| && i < |batches| == |at|
  {
    && at[i] < taken
    && (turns[at[i]].Tick? || (turns[at[i]].Fetched? && |batches[i]| == Room(o)))
    && Flatten(batches[..i + 1]) == FetchedOf(turns[..at[i] + 1])
  }

  /** Everything fetched up to turn `k` has been handed over in some of the batches. */
  ghost predicate Emptied(turns: seq<Turn>, batches: seq<seq<Message>>, k: nat)
    requires k < |turns|
  {
    exists j :: 0 <= j <= |batches| && Flatten(batches[..j]) == FetchedOf(turns[..k + 1])
  }

  /** A batch is handed over when it is full or at a tick, and a tick leaves nothing behind. */
  ghost predicate Prompt(o: Options, turns: seq<Turn>, taken: nat, batches: seq<seq<Message>>, at: seq<nat>)
    requires taken <= |turns|
  {
    && |at| == |batches|
    && (forall i :: 0 <= i < |batches| ==> HandedOver(o, turns, taken, batches, at, i))
    && (forall k :: 0 <= k < taken && turns[k].Tick? ==> Emptied(turns, batches, k))
  }

  lemma EmptiedStays(turns: seq<Turn>, batches: seq<seq<Message>>, k: nat, b: seq<Message>)
    requires k < |turns| && Emptied(turns, batches, k)
    ensures Emptied(turns, batches + [b], k)
  {
    var j :| 0 <= j <= |batches| && Flatten(batches[..j]) == FetchedOf(turns[..k + 1]);
    assert (batches + [b])[..j] == batches[..j];
  }

  lemma PromptFlush(o: Options, turns: seq<Turn>, k: nat, batches: seq<seq<Message>>, at: seq<nat>, b: seq<Message>)
    requires k < |turns| && Prompt(o, turns, k, batches, at)
    requires turns[k].Tick? || (turns[k].Fetched? && |b| == Room(o))
    requires Flatten(batches + [b]) == FetchedOf(turns[..k + 1])
    ensures Prompt(o, turns, k + 1, batches + [b], at + [k])
  {
    var all, at', taken := batches + [b], at + [k], k + 1;
    assert all[..|all|] == all;
    forall i | 0 <= i < |all| ensures HandedOver(o, turns, taken, all, at', i) {
      if i < |batches| {
        assert HandedOver(o, turns, k, batches, at, i);
        assert all[..i + 1] == batches[..i + 1];
      }
    }
    forall j | 0 <= j < k + 1 && turns[j].Tick? ensures Emptied(turns, all, j) {
      if j < k {
        EmptiedStays(turns, batches, j, b);
      }
    }
  }

  lemma PromptKeep(o: Options, turns: seq<Turn>, k: nat, batches: seq<seq<Message>>, at: seq<nat>)
    requires k < |turns| && Prompt(o, turns, k, batches, at)
    requires turns[k].Tick? ==> Flatten(batches) == FetchedOf(turns[..k + 1])
    ensures Prompt(o, turns, k + 1, batches, at)
  {
    var taken := k + 1;
    assert batches[..|batches|] == batches;
    forall i | 0 <= i < |batches| ensures HandedOver(o, turns, taken, batches, at, i) {
      assert HandedOver(o, turns, k, batches, at, i);
    }
  }

  lemma FlattenSnoc(batches: seq<seq<Message>>, b: seq<Message>)
    ensures Flatten(batches + [b]) == Flatten(batches) + b
  {
    assert (batches + [b])[..|batches|] == batches;
  }

  /** Everything the loop keeps, for the turns taken so far. */
  ghost predicate Conserved(
    o: Options, turns: seq<Turn>, batches: seq<seq<Message>>, buffer: seq<Message>, acked: seq<Message>)
  {
    && Flatten(batches) + buffer == FetchedOf(turns)
    && |buffer| < Room(o)
    && WellSized(o, batches)
    && acked == AckedOf(o, Flatten(batches))
  }

  /** Handing the buffer over as a batch. */
  lemma Flush(o: Options, turns: seq<Turn>, batches: seq<seq<Message>>, buffer: seq<Message>, acked: seq<Message>)
    requires Flatten(batches) + buffer == FetchedOf(turns) && 0 < |buffer| <= Room(o)
    requires WellSized(o, batches) && acked == AckedOf(o, Flatten(batches))
    ensures Conserved(o, turns, batches + [buffer], [], acked + AckedOf(o, buffer))
  {
    FlattenSnoc(batches, buffer);
    AckedAppend(o, Flatten(batches), buffer);
    assert Flatten(batches) + buffer + [] == FetchedOf(turns);
  }

  lemma TurnFetches(turns: seq<Turn>, k: nat)
    requires k < |turns|
    ensures FetchedOf(turns[..k + 1]) == FetchedOf(turns[..k]) + if turns[k].Fetched? then [turns[k].message] else []
  {
    assert turns[..k + 1][..k] == turns[..k];
  }

  lemma TurnCounts(turns: seq<Turn>, k: nat, kind: Failure)
    requires k < |turns|
    ensures var n := Attempts(turns[..k], kind);
            Attempts(turns[..k + 1], kind)
            == if turns[k].Fetched? then 0 else if turns[k] == Failed(kind) && n < 6 then n + 1 else n
  {
    assert turns[..k + 1][..k] == turns[..k];
  }

  /** What the loop has handled and still holds after `taken` turns. */
  datatype Held = Held(batches: seq<seq<Message>>, buffer: seq<Message>, acked: seq<Message>)

  ghost predicate Keeps(o: Options, turns: seq<Turn>, taken: nat, h: Held, at: seq<nat>)
    requires taken <= |turns|
  {
    Conserved(o, turns[..taken], h.batches, h.buffer, h.acked) && Prompt(o, turns, taken, h.batches, at)
  }

  /** Handles the buffer as a batch in turn `k`. */
  method HandOver(o: Options, h: Held, ghost turns: seq<Turn>, ghost k: nat, ghost at: seq<nat>)
    returns (h': Held, ghost at': seq<nat>)
    requires k < |turns| && Prompt(o, turns, k, h.batches, at)
    requires turns[k].Tick? || (turns[k].Fetched? && |h.buffer| == Room(o))
    requires Flatten(h.batches) + h.buffer == FetchedOf(turns[..k + 1]) && 0 < |h.buffer| <= Room(o)
    requires WellSized(o, h.batches) && h.acked == AckedOf(o, Flatten(h.batches))
    ensures Keeps(o, turns, k + 1, h', at')
  {
    Flush(o, turns[..k + 1], h.batches, h.buffer, h.acked);
    FlattenSnoc(h.batches, h.buffer);
    PromptFlush(o, turns, k, h.batches, at, h.buffer);
    var ok := HandleBatch(o, h.buffer);
    h', at' := Held(h.batches + [h.buffer], [], h.acked + ok), at + [k];
  }

  method OnTick(o: Options, h: Held, ghost turns: seq<Turn>, ghost k: nat, ghost at: seq<nat>)
    returns (h': Held, ghost at': seq<nat>)
    requires k < |turns| && turns[k].Tick? && Keeps(o, turns, k, h, at)
    ensures Keeps(o, turns, k + 1, h', at')
  {
    TurnFetches(turns, k);
    h', at' := h, at;
    if |h.buffer| > 0 {
      h', at' := HandOver(o, h, turns, k, at);
    } else {
      PromptKeep(o, turns, k, h.batches, at);
    }
  }

  method OnFetch(o: Options, h: Held, m: Message, ghost turns: seq<Turn>, ghost k: nat, ghost at: seq<nat>)
    returns (h': Held, ghost at': seq<nat>)
    requires k < |turns| && turns[k] == Fetched(m) && Keeps(o, turns, k, h, at)
    ensures Keeps(o, turns, k + 1, h', at')
  {
    TurnFetches(turns, k);
    h', at' := h.(buffer := h.buffer + [m]), at;
    assert Flatten(h.batches) + (h.buffer + [m]) == Flatten(h.batches) + h.buffer + [m];
    if |h'.buffer| >= o.batchSize {
      h', at' := HandOver(o, h', turns, k, at);
    } else {
      PromptKeep(o, turns, k, h.batches, at);
    }
  }

  lemma OnFailure(o: Options, h: Held, turns: seq<Turn>, k: nat, at: seq<nat>)
    requires k < |turns| && turns[k].Failed? && Keeps(o, turns, k, h, at)
    ensures Keeps(o, turns, k + 1, h, at)
  {
    TurnFetches(turns, k);
    PromptKeep(o, turns, k, h.batches, at);
  }

  /** The loop over any sequence of turns. It stops at the first turn that ends it or when the turns run
      out, which stands for the state at the head of the loop. Nothing fetched is lost, duplicated or
      reordered: what was handled, batch by batch, and what is left in the buffer are the fetched
      messages; what was committed are exactly the messages whose handler and commit succeeded. Batches
      are handed over full or at a tick, in the turns `at`. */
  method ProcessBatches(o: Options, turns: seq<Turn>)
    returns (taken: nat, h: Held, deadlineAttempt: nat, errorAttempt: nat, ghost at: seq<nat>)
    ensures taken <= |turns| && (taken < |turns| ==> Ends(turns[taken]))
    ensures forall i :: 0 <= i < taken ==> !Ends(turns[i])
    ensures Conserved(o, turns[..taken], h.batches, h.buffer, h.acked)
    ensures Prompt(o, turns, taken, h.batches, at)
    ensures deadlineAttempt == Attempts(turns[..taken], Deadline) <= 6
    ensures errorAttempt == Attempts(turns[..taken], Other) <= 6
  {
    taken, h, deadlineAttempt, errorAttempt, at := 0, Held([], [], []), 0, 0, [];
    while taken < |turns|
      invariant taken <= |turns|
      invariant forall i :: 0 <= i < taken ==> !Ends(turns[i])
      invariant Keeps(o, turns, taken, h, at)
      invariant deadlineAttempt == Attempts(turns[..taken], Deadline) <= 6
      invariant errorAttempt == Attempts(turns[..taken], Other) <= 6
    {
      var turn := turns[taken];
      if Ends(turn) {
        return;
      }
      TurnCounts(turns, taken, Deadline);
      TurnCounts(turns, taken, Other);
      match turn {
        case Tick =>
          h, at := OnTick(o, h, turns, taken, at);
        case Failed(Deadline) =>
          OnFailure(o, h, turns, taken, at);
          if deadlineAttempt < 6 {
            deadlineAttempt := deadlineAttempt + 1;
          }
        case Failed(Other) =>
          OnFailure(o, h, turns, taken, at);
          if errorAttempt < 6 {
            errorAttempt := errorAttempt + 1;
          }
        case Fetched(m) =>
          deadlineAttempt, errorAttempt := 0, 0;
          h, at := OnFetch(o, h, m, turns, taken, at);
      }
      taken := taken + 1;
    }
  }

  // ---------------------------------------------------------------------------
  // Backoff
  // ---------------------------------------------------------------------------

  const TWO_64 := 0x1_0000_0000_0000_0000
  const DEFAULT_MIN := 50000000

  /** The value of a signed 64-bit word. */
  function Wrap(n: int): (w: int)
    ensures Fits(w)
    ensures Fits(n) ==> w == n
  {
    (n + TWO_63) % TWO_64 - TWO_63
  }

  function Pow2(n: nat): nat {
    if n == 0 then 1 else 2 * Pow2(n - 1)
  }

  /** The time slept: exponential in the attempt, kept between the bounds even when the shift overflows,
      and jittered over its upper half. */
  method BackoffSleep(attempt: nat, min: int, max: int, jitter: nat -> nat) returns (slept: int)
    requires min < TWO_63 && max < TWO_63
    requires forall n: nat :: n > 0 ==> jitter(n) < n
    ensures var lo := if min <= 0 then DEFAULT_MIN else min;
            var hi := if max < lo then lo else max;
            && lo / 2 <= slept <= hi
            && (lo * Pow2(attempt) < TWO_63 ==>
                  var d := if lo * Pow2(attempt) > hi then hi else lo * Pow2(attempt);
                  d / 2 <= slept <= d)
    ensures var lo := if min <= 0 then DEFAULT_MIN else min;
            var hi := if max < lo then lo else max;
            var d := Wrap(lo * Pow2(attempt));
            var half := (if d < lo then lo else if d > hi then hi else d) / 2;
            slept == half + jitter(half + 1)
  {
    var lo := if min <= 0 then DEFAULT_MIN else min;
    var hi := if max < lo then lo else max;
    var d := Wrap(lo * Pow2(attempt));
    PowPositive(lo, attempt);
    if d < lo {
      d := lo;
    }
    if d > hi {
      d := hi;
    }
    slept := d / 2 + jitter(d / 2 + 1);
  }

  lemma {:induction false} PowPositive(lo: nat, n: nat)
    requires lo > 0
    ensures lo * Pow2(n) >= lo
  {
    if n > 0 {
      PowPositive(lo, n - 1);
      assert lo * Pow2(n) == 2 * (lo * Pow2(n - 1));
    }
  }
}
