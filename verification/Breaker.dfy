/**
 * The circuit breaker of the API client (apps/agent/internal/sync/client.go).
 * Times are nanoseconds on a clock that only advances.
 */
module Breaker {
  import opened Events

  const OPEN_THRESHOLD := 3
  const RESET_AFTER := 60 * SECOND

  datatype CircuitState = Closed | Open | HalfOpen

  datatype Circuit = Circuit(state: CircuitState, failures: nat, openedAt: int, resetTimeout: int, probeInFlight: bool)

  const INITIAL := Circuit(Closed, 0, 0, RESET_AFTER, false)

  predicate Blocked(c: Circuit, now: int) {
    c.state.Open? && now - c.openedAt < c.resetTimeout
  }

  function Ask(c: Circuit, now: int): (Circuit, bool) {
    match c.state
    case Closed => (c, true)
    case Open => if now - c.openedAt >= c.resetTimeout then (c.(state := HalfOpen), true) else (c, false)
    case HalfOpen => if c.probeInFlight then (c, false) else (c.(probeInFlight := true), true)
  }

  function Fail(c: Circuit, now: int): Circuit {
    if c.state.HalfOpen? then
      var doubled := c.resetTimeout * 2;
      Circuit(Open, c.failures + 1, now, if doubled > 4 * RESET_AFTER then 4 * RESET_AFTER else doubled, false)
    else if c.failures + 1 >= OPEN_THRESHOLD then
      c.(state := Open, failures := c.failures + 1, openedAt := now)
    else
      c.(failures := c.failures + 1)
  }

  /** A success and ResetCircuit leave the same state. */
  function Recover(c: Circuit): Circuit {
    Circuit(Closed, 0, c.openedAt, RESET_AFTER, false)
  }

  /** A permanent HTTP status gives a probe slot back and says nothing about availability. */
  function Release(c: Circuit): Circuit {
    if c.state.HalfOpen? then c.(probeInFlight := false) else c
  }

  class Client {
    var state: CircuitState
    var failures: nat
    var openedAt: int
    var resetTimeout: int
    var probeInFlight: bool

    ghost function View(): Circuit reads this {
      Circuit(state, failures, openedAt, resetTimeout, probeInFlight)
    }

    constructor ()
      ensures View() == INITIAL
    {
      state, failures, openedAt := Closed, 0, 0;
      resetTimeout, probeInFlight := RESET_AFTER, false;
    }

    method IsBlocked(now: int) returns (blocked: bool)
      ensures blocked == Blocked(View(), now)
    {
      if state != Open {
        return false;
      }
      return now - openedAt < resetTimeout;
    }

    method IsAvailable(now: int) returns (available: bool)
      modifies this
      ensures (View(), available) == Ask(old(View()), now)
    {
      match state
      case Closed =>
        return true;
      case Open =>
        if now - openedAt >= resetTimeout {
          state := HalfOpen;
          return true;
        }
        return false;
      case HalfOpen =>
        if probeInFlight {
          return false;
        }
        probeInFlight := true;
        return true;
    }

    method RecordFailure(now: int)
      modifies this
      ensures View() == Fail(old(View()), now)
    {
      failures := failures + 1;
      if state == HalfOpen {
        probeInFlight := false;
        resetTimeout := resetTimeout * 2;
        var maxReset := 4 * RESET_AFTER;
        if resetTimeout > maxReset {
          resetTimeout := maxReset;
        }
        state := Open;
        openedAt := now;
        return;
      }
      if failures >= OPEN_THRESHOLD {
        state := Open;
        openedAt := now;
      }
    }

    method RecordSuccess()
      modifies this
      ensures View() == Recover(old(View()))
    {
      probeInFlight := false;
      state := Closed;
      failures := 0;
      resetTimeout := RESET_AFTER;
    }

    method ResetCircuit()
      modifies this
      ensures View() == Recover(old(View()))
    {
      probeInFlight := false;
      state := Closed;
      failures := 0;
      resetTimeout := RESET_AFTER;
    }

    method ReleaseProbe()
      modifies this
      ensures View() == Release(old(View()))
    {
      if state == HalfOpen {
        probeInFlight := false;
      }
    }
  }

  // ---------------------------------------------------------------- histories

  datatype Op = Asked(now: int) | Failed(now: int) | Succeeded | WasReset | PermanentStatus

  function Step(c: Circuit, op: Op): Circuit {
    match op
    case Asked(now) => Ask(c, now).0
    case Failed(now) => Fail(c, now)
    case Succeeded => Recover(c)
    case WasReset => Recover(c)
    case PermanentStatus => Release(c)
  }

  function Run(ops: seq<Op>): Circuit {
    if ops == [] then INITIAL else Step(Run(ops[..|ops| - 1]), ops[|ops| - 1])
  }

  predicate Recovers(op: Op) { op.Succeeded? || op.WasReset? }

  /** Failures recorded since the last success or reset. */
  function FailureCount(ops: seq<Op>): nat {
    if ops == [] || Recovers(ops[|ops| - 1]) then 0
    else FailureCount(ops[..|ops| - 1]) + (if ops[|ops| - 1].Failed? then 1 else 0)
  }

  /** Those of them that were recorded while the breaker was half-open. */
  function ProbeFailureCount(ops: seq<Op>): nat {
    if ops == [] || Recovers(ops[|ops| - 1]) then 0
    else
      var before := ops[..|ops| - 1];
      ProbeFailureCount(before) + (if ops[|ops| - 1].Failed? && Run(before).state.HalfOpen? then 1 else 0)
  }

  function LastFailure(ops: seq<Op>): int {
    if ops == [] then 0
    else if ops[|ops| - 1].Failed? then ops[|ops| - 1].now
    else LastFailure(ops[..|ops| - 1])
  }

  /** 60 s, 120 s, then 240 s. */
  function Backoff(k: nat): int {
    if k == 0 then 60_000_000_000 else if k == 1 then 120_000_000_000 else 240_000_000_000
  }

  /** The breaker is a function of the outcome history. */
  lemma {:induction false} BreakerIsItsHistory(ops: seq<Op>)
    ensures var c := Run(ops);
            && c.failures == FailureCount(ops)
            && (c.state.Closed? <==> FailureCount(ops) < 3)
            && c.resetTimeout == Backoff(ProbeFailureCount(ops))
            && (c.probeInFlight ==> c.state.HalfOpen?)
            && (!c.state.Closed? ==> c.openedAt == LastFailure(ops))
            && (c.state.Closed? ==> ProbeFailureCount(ops) == 0)
  {
    if ops != [] {
      BreakerIsItsHistory(ops[..|ops| - 1]);
    }
  }

  /** An open breaker admits a caller exactly when the back-off since the last failure has passed. */
  lemma OpenAdmitsAfterBackoff(ops: seq<Op>, now: int)
    requires Run(ops).state.Open?
    ensures Ask(Run(ops), now).1 <==> now >= LastFailure(ops) + Backoff(ProbeFailureCount(ops))
    ensures Ask(Run(ops), now).1 <==> !Blocked(Run(ops), now)
  {
    BreakerIsItsHistory(ops);
  }

  // ---------------------------------------------------------------- the probe slot

  predicate IsOutcome(op: Op) { op.Failed? || Recovers(op) }

  /** Caller i asked after the back-off, and no outcome has arrived since. */
  ghost predicate TurnsHalfOpen(ops: seq<Op>, i: int) {
    && 0 <= i < |ops| && ops[i].Asked? && ops[i].now >= LastFailure(ops) + Backoff(ProbeFailureCount(ops))
    && forall k :: i < k < |ops| ==> !IsOutcome(ops[k])
  }

  ghost predicate IsHalfOpen(ops: seq<Op>) {
    FailureCount(ops) >= 3 && exists i :: TurnsHalfOpen(ops, i)
  }

  /** Caller j asked after one who turned the breaker half-open, and neither an outcome nor a permanent status
      has arrived since. */
  ghost predicate TakesSlot(ops: seq<Op>, j: int) {
    && 0 <= j < |ops| && ops[j].Asked? && (exists i :: i < j && TurnsHalfOpen(ops, i))
    && forall k :: j < k < |ops| ==> !IsOutcome(ops[k]) && !ops[k].PermanentStatus?
  }

  ghost predicate SlotTaken(ops: seq<Op>) {
    FailureCount(ops) >= 3 && exists j :: TakesSlot(ops, j)
  }

  /** Without an outcome the counts stay, and who turned the breaker half-open still did. */
  lemma QuietOp(ops: seq<Op>, op: Op)
    requires !IsOutcome(op)
    ensures var more := ops + [op];
            && FailureCount(more) == FailureCount(ops) && LastFailure(more) == LastFailure(ops)
            && ProbeFailureCount(more) == ProbeFailureCount(ops)
            && forall i :: 0 <= i < |ops| ==> (TurnsHalfOpen(more, i) <==> TurnsHalfOpen(ops, i))
  {
    var more := ops + [op];
    assert more[..|ops|] == ops && more[|ops|] == op;
    forall i | 0 <= i < |ops| ensures TurnsHalfOpen(more, i) <==> TurnsHalfOpen(ops, i) {
      assert forall k :: i < k < |ops| ==> more[k] == ops[k];
      if TurnsHalfOpen(more, i) {
        assert forall k :: i < k < |ops| ==> !IsOutcome(more[k]);
      }
    }
  }

  lemma OutcomeEndsHalfOpen(ops: seq<Op>, op: Op)
    requires IsOutcome(op)
    ensures !IsHalfOpen(ops + [op]) && !SlotTaken(ops + [op])
  {
    assert (ops + [op])[|ops|] == op;
  }

  lemma SlotAfter(ops: seq<Op>, op: Op)
    requires !IsOutcome(op)
    ensures SlotTaken(ops + [op]) <==>
              if op.PermanentStatus? then false else SlotTaken(ops) || (IsHalfOpen(ops) && op.Asked?)
  {
    var more, n := ops + [op], |ops|;
    QuietOp(ops, op);
    assert more[n] == op;
    forall j | 0 <= j < n ensures TakesSlot(more, j) <==> TakesSlot(ops, j) && !op.PermanentStatus? {
      assert forall k :: j < k < n ==> more[k] == ops[k];
      if TakesSlot(more, j) {
        assert forall k :: j < k < n ==> !IsOutcome(more[k]) && !more[k].PermanentStatus?;
      }
    }
    if IsHalfOpen(ops) && op.Asked? {
      var i :| TurnsHalfOpen(ops, i);
      assert TurnsHalfOpen(more, i) && i < n;
      assert TakesSlot(more, n);
    }
    if !op.PermanentStatus? && SlotTaken(ops) {
      var j :| TakesSlot(ops, j);
      assert TakesSlot(more, j);
    }
    if j :| TakesSlot(more, j) {
      var i :| i < j && TurnsHalfOpen(more, i);
      assert TurnsHalfOpen(ops, i);
      assert j < n ==> TakesSlot(ops, j);
    }
  }

  lemma HalfOpenAfter(ops: seq<Op>, op: Op)
    requires !IsOutcome(op)
    ensures IsHalfOpen(ops + [op]) <==>
              IsHalfOpen(ops) || (FailureCount(ops) >= 3 && op.Asked?
                                  && op.now >= LastFailure(ops) + Backoff(ProbeFailureCount(ops)))
  {
    QuietOp(ops, op);
    assert (ops + [op])[|ops|] == op;
    if i :| TurnsHalfOpen(ops, i) {
      assert TurnsHalfOpen(ops + [op], i);
    }
    if op.Asked? && op.now >= LastFailure(ops) + Backoff(ProbeFailureCount(ops)) {
      assert TurnsHalfOpen(ops + [op], |ops|);
    }
  }

  /** Half-open and the probe slot, read off the operations: the breaker is half-open exactly if somebody asked after the
      back-off and no outcome followed; its slot is taken exactly if somebody asked after that one and neither an
      outcome nor a permanent status followed. */
  lemma {:induction false} SlotIsItsHistory(ops: seq<Op>)
    ensures Run(ops).state.HalfOpen? <==> IsHalfOpen(ops)
    ensures Run(ops).probeInFlight <==> SlotTaken(ops)
  {
    if ops != [] {
      var before, op := ops[..|ops| - 1], ops[|ops| - 1];
      assert ops == before + [op];
      SlotIsItsHistory(before);
      BreakerIsItsHistory(before);
      if IsOutcome(op) {
        OutcomeEndsHalfOpen(before, op);
        BreakerIsItsHistory(ops);
      } else {
        HalfOpenAfter(before, op);
        SlotAfter(before, op);
      }
    }
  }

  /** Who is admitted, and who is told before asking that it is no use, read off the operations. */
  lemma AdmitsExactly(ops: seq<Op>, now: int)
    ensures Blocked(Run(ops), now) <==>
              FailureCount(ops) >= 3 && !IsHalfOpen(ops) && now < LastFailure(ops) + Backoff(ProbeFailureCount(ops))
    ensures Ask(Run(ops), now).1 <==>
              if FailureCount(ops) < 3 then true
              else if IsHalfOpen(ops) then !SlotTaken(ops)
              else now >= LastFailure(ops) + Backoff(ProbeFailureCount(ops))
  {
    BreakerIsItsHistory(ops);
    SlotIsItsHistory(ops);
  }

  /** A permanent status gives the slot back: whoever asks next is admitted. */
  lemma PermanentStatusFreesSlot(ops: seq<Op>, now: int)
    requires FailureCount(ops) < 3 || IsHalfOpen(ops)
    ensures Ask(Run(ops + [PermanentStatus]), now).1
  {
    if IsHalfOpen(ops) {
      HalfOpenAfter(ops, PermanentStatus);
      SlotAfter(ops, PermanentStatus);
    }
    QuietOp(ops, PermanentStatus);
    AdmitsExactly(ops + [PermanentStatus], now);
  }

  /** How many of a stretch of callers are admitted, no outcome arriving in between. */
  function Admitted(c: Circuit, asks: seq<int>): nat
    decreases |asks|
  {
    if asks == [] then 0
    else (if Ask(c, asks[0]).1 then 1 else 0) + Admitted(Ask(c, asks[0]).0, asks[1..])
  }

  lemma {:induction false} HalfOpenAdmits(c: Circuit, asks: seq<int>)
    requires c.state.HalfOpen?
    ensures Admitted(c, asks) == if c.probeInFlight || asks == [] then 0 else 1
    decreases |asks|
  {
    if asks != [] {
      HalfOpenAdmits(Ask(c, asks[0]).0, asks[1..]);
    }
  }

  /** Between two outcomes an opened breaker admits at most two callers, because the one that turns it half-open does
      not take the probe slot; and it admits two exactly if one but the last of them asks after the back-off. */
  lemma StretchAdmitsAtMostTwo(ops: seq<Op>, asks: seq<int>)
    requires Run(ops).state.Open?
    ensures Admitted(Run(ops), asks) <= 2
    ensures Admitted(Run(ops), asks) == 2 <==> exists i :: 0 <= i < |asks| - 1 && !Blocked(Run(ops), asks[i])
  {
    BreakerIsItsHistory(ops);
    OpenAdmits(Run(ops), asks);
  }

  lemma {:induction false} OpenAdmits(c: Circuit, asks: seq<int>)
    requires c.state.Open? && !c.probeInFlight
    ensures Admitted(c, asks) <= 2
    ensures Admitted(c, asks) == 2 <==> exists i :: 0 <= i < |asks| - 1 && !Blocked(c, asks[i])
    decreases |asks|
  {
    if asks != [] {
      var c' := Ask(c, asks[0]).0;
      if c'.state.HalfOpen? {
        HalfOpenAdmits(c', asks[1..]);
        assert |asks| > 1 ==> 0 <= 0 < |asks| - 1 && !Blocked(c, asks[0]);
      } else {
        OpenAdmits(c', asks[1..]);
        assert forall i :: 0 <= i < |asks| - 1 && !Blocked(c, asks[i]) ==> i > 0 && asks[1..][i - 1] == asks[i];
        assert forall i :: 0 <= i < |asks[1..]| - 1 ==> asks[1..][i] == asks[i + 1];
      }
    }
  }
}
