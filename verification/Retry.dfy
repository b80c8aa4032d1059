/**
 * WithRetryTag (apps/agent/internal/sync/retry.go) around a function with state, and
 * Client.Post (apps/agent/internal/sync/client.go), which retries through the breaker.
 * The random jitter, the time each call takes and the scheduling delays are given per attempt.
 */
module Retry {
  import opened Breaker
  import opened Events

  datatype RetryConfig = RetryConfig(initialInterval: int, maxInterval: int, multiplier: real, maxElapsedTime: int)

  const DEFAULT_RETRY := RetryConfig(2 * SECOND, 300 * SECOND, 2.0, 1800 * SECOND)

  predicate IsPermanentStatus(code: int) { code == 400 || code == 401 || code == 403 || code == 404 || code == 422 }

  datatype FnResult = Fine | Permanent | Transient

  /** One turn of the loop as its surroundings decide it: the input of the call, how long it takes,
      the clock's advance between the two budget checks, the jitter, and how late the sleeper wakes. */
  datatype Turn<A> = Turn(input: A, took: nat, checked: nat, jitter: real, late: nat)

  predicate ValidTurn<A>(t: Turn<A>) { 0.0 <= t.jitter < 1.0 }

  type Fn<!S, !A> = (S, int, Turn<A>) -> (S, FnResult)

  datatype Result = Success | Failure | StillRunning

  datatype Sleep = Sleep(at: int, length: int)

  datatype Trace<S> = Trace(state: S, result: Result, calls: seq<FnResult>, sleeps: seq<Sleep>)

  function Guarded(cfg: RetryConfig): RetryConfig {
    cfg.(initialInterval := if cfg.initialInterval <= 0 then SECOND else cfg.initialInterval,
         multiplier := if cfg.multiplier < 1.0 then 1.0 else cfg.multiplier)
  }

  function Jittered(jitter: real, interval: int): int {
    (jitter * interval as real).Floor
  }

  function Grown(interval: int, cfg: RetryConfig): int {
    var next := (interval as real * cfg.multiplier).Floor;
    if next < cfg.maxInterval then next else cfg.maxInterval
  }

  /** The sleep after a transient failure seen at `now`, or None when the budget is spent. */
  function NextSleep<A>(cfg: RetryConfig, t: Turn<A>, interval: int, start: int, now: int): (r: (bool, int)) {
    var sleep := Jittered(t.jitter, interval);
    if cfg.maxElapsedTime <= 0 then (true, sleep)
    else if now - start >= cfg.maxElapsedTime then (false, 0)
    else
      var remaining := cfg.maxElapsedTime - (now + t.checked - start);
      if remaining <= 0 then (false, 0) else (true, if sleep > remaining then remaining else sleep)
  }

  function Max0(n: int): nat { if n < 0 then 0 else n }

  /** What one turn of the loop leads to; StillRunning asks for another one. */
  datatype TurnEnd<S> = TurnEnd(state: S, result: Result, call: FnResult, sleeps: seq<Sleep>, interval: int, now: int)

  function OneTurn<S, A>(cfg: RetryConfig, fn: Fn<S, A>, s: S, t: Turn<A>, interval: int, start: int,
                         now: int): TurnEnd<S> {
    var (s', r) := fn(s, now, t);
    var ended := now + t.took;
    match r
    case Fine => TurnEnd(s', Success, r, [], interval, ended)
    case Permanent => TurnEnd(s', Failure, r, [], interval, ended)
    case Transient =>
      var (again, sleep) := NextSleep(cfg, t, interval, start, ended);
      if !again then TurnEnd(s', Failure, r, [], interval, ended)
      else
        var at := ended + t.checked;
        TurnEnd(s', StillRunning, r, [Sleep(at, sleep)], Grown(interval, cfg), at + Max0(sleep) + t.late)
  }

  /** Everything WithRetryTag does from one turn on. */
  function RetryFrom<S, A>(cfg: RetryConfig, fn: Fn<S, A>, s: S, turns: seq<Turn<A>>, interval: int, start: int,
                           now: int): Trace<S>
    decreases |turns|
  {
    if turns == [] then Trace(s, StillRunning, [], [])
    else
      var end := OneTurn(cfg, fn, s, turns[0], interval, start, now);
      if end.result != StillRunning then Trace(end.state, end.result, [end.call], end.sleeps)
      else
        var rest := RetryFrom(cfg, fn, end.state, turns[1..], end.interval, start, end.now);
        Trace(rest.state, rest.result, [end.call] + rest.calls, end.sleeps + rest.sleeps)
  }

  function RetrySpec<S, A>(cfg: RetryConfig, fn: Fn<S, A>, s: S, turns: seq<Turn<A>>, now: int): Trace<S> {
    RetryFrom(Guarded(cfg), fn, s, turns, Guarded(cfg).initialInterval, now, now)
  }

  /** The whole trace is what was logged so far followed by `rest`. */
  ghost predicate Resumes<S>(whole: Trace<S>, calls: seq<FnResult>, sleeps: seq<Sleep>, rest: Trace<S>) {
    whole == Trace(rest.state, rest.result, calls + rest.calls, sleeps + rest.sleeps)
  }

  /** One more turn is logged. */
  lemma TurnResumes<S, A>(whole: Trace<S>, calls: seq<FnResult>, sleeps: seq<Sleep>, cfg: RetryConfig, fn: Fn<S, A>,
                          s: S, turns: seq<Turn<A>>, attempt: nat, interval: int, start: int, now: int)
    requires attempt < |turns|
    requires Resumes(whole, calls, sleeps, RetryFrom(cfg, fn, s, turns[attempt..], interval, start, now))
    ensures var end := OneTurn(cfg, fn, s, turns[attempt], interval, start, now);
            if end.result == StillRunning
            then Resumes(whole, calls + [end.call], sleeps + end.sleeps,
                         RetryFrom(cfg, fn, end.state, turns[attempt + 1..], end.interval, start, end.now))
            else whole == Trace(end.state, end.result, calls + [end.call], sleeps + end.sleeps)
  {
    var end := OneTurn(cfg, fn, s, turns[attempt], interval, start, now);
    assert turns[attempt..][0] == turns[attempt] && turns[attempt..][1..] == turns[attempt + 1..];
    if end.result == StillRunning {
      var rest := RetryFrom(cfg, fn, end.state, turns[attempt + 1..], end.interval, start, end.now);
      assert calls + ([end.call] + rest.calls) == (calls + [end.call]) + rest.calls;
      assert sleeps + (end.sleeps + rest.sleeps) == (sleeps + end.sleeps) + rest.sleeps;
    }
  }

  method WithRetryTag<S, A>(config: RetryConfig, fn: Fn<S, A>, s0: S, turns: seq<Turn<A>>, now0: int)
      returns (s: S, result: Result, ghost calls: seq<FnResult>, ghost sleeps: seq<Sleep>)
    ensures var tr := RetrySpec(config, fn, s0, turns, now0); s == tr.state && result == tr.result
    ensures Trace(s, result, calls, sleeps) == RetrySpec(config, fn, s0, turns, now0)
  {
    var cfg := config;
    if cfg.initialInterval <= 0 {
      cfg := cfg.(initialInterval := SECOND);
    }
    if cfg.multiplier < 1.0 {
      cfg := cfg.(multiplier := 1.0);
    }
    assert cfg == Guarded(config);
    ghost var goal := RetrySpec(config, fn, s0, turns, now0);
    s, calls, sleeps, result := s0, [], [], StillRunning;
    var interval, now, attempt := cfg.initialInterval, now0, 0;
    while attempt < |turns|
      invariant attempt <= |turns| && result == StillRunning
      invariant Resumes(goal, calls, sleeps, RetryFrom(cfg, fn, s, turns[attempt..], interval, now0, now))
    {
      TurnResumes(goal, calls, sleeps, cfg, fn, s, turns, attempt, interval, now0, now);
      ghost var call, slept;
      s, result, call, slept, interval, now := Attempt(cfg, fn, s, turns[attempt], interval, now0, now);
      calls, sleeps, attempt := calls + [call], sleeps + slept, attempt + 1;
      if result != StillRunning {
        return;
      }
    }
  }

  /** The body of the loop. */
  method Attempt<S, A>(cfg: RetryConfig, fn: Fn<S, A>, s: S, t: Turn<A>, interval: int, start: int, now: int)
      returns (s': S, result: Result, ghost call: FnResult, ghost slept: seq<Sleep>, interval': int, now': int)
    ensures var end := OneTurn(cfg, fn, s, t, interval, start, now);
            s' == end.state && result == end.result && interval' == end.interval && now' == end.now
    ensures TurnEnd(s', result, call, slept, interval', now') == OneTurn(cfg, fn, s, t, interval, start, now)
  {
    var (out, r) := fn(s, now, t);
    s', call, slept, interval', now' := out, r, [], interval, now + t.took;
    if r == Fine {
      result := Success;
      return;
    }
    if r == Permanent {
      result := Failure;
      return;
    }
    var again, sleep := SleepFor(cfg, t, interval, start, now');
    if !again {
      result := Failure;
      return;
    }
    result, slept := StillRunning, [Sleep(now' + t.checked, sleep)];
    now' := now' + t.checked + Max0(sleep) + t.late;
    interval' := Grown(interval, cfg);
  }

  /** The budget check, the jittered sleep and its clamp to the remaining budget. */
  method SleepFor<A>(cfg: RetryConfig, t: Turn<A>, interval: int, start: int, failedAt: int)
      returns (again: bool, sleep: int)
    ensures (again, sleep) == NextSleep(cfg, t, interval, start, failedAt)
  {
    if cfg.maxElapsedTime > 0 && failedAt - start >= cfg.maxElapsedTime {
      return false, 0;
    }
    sleep := Jittered(t.jitter, interval);
    if cfg.maxElapsedTime > 0 {
      var remaining := cfg.maxElapsedTime - (failedAt + t.checked - start);
      if remaining <= 0 {
        return false, 0;
      }
      if sleep > remaining {
        sleep := remaining;
      }
    }
    return true, sleep;
  }

  // ---------------------------------------------------------------- the retry loop

  lemma JitterIsWithinInterval(jitter: real, interval: int)
    requires 0.0 <= jitter < 1.0 && interval >= 0
    ensures 0 <= Jittered(jitter, interval) <= interval
  {
    PartOf(jitter, interval as real);
    FloorWithin(jitter * interval as real, interval);
  }

  lemma PartOf(a: real, x: real)
    requires 0.0 <= a < 1.0 && x >= 0.0
    ensures 0.0 <= a * x <= x
  {}

  lemma FloorWithin(y: real, n: int)
    requires 0.0 <= y <= n as real
    ensures 0 <= y.Floor <= n
  {}

  lemma {:induction false} SleepsWithinBudget<S, A>(cfg: RetryConfig, fn: Fn<S, A>, s: S, turns: seq<Turn<A>>,
                                                  interval: int, start: int, now: int, k: nat)
    requires cfg.maxElapsedTime > 0 && k < |RetryFrom(cfg, fn, s, turns, interval, start, now).sleeps|
    ensures var sleep := RetryFrom(cfg, fn, s, turns, interval, start, now).sleeps[k];
            sleep.at + sleep.length <= start + cfg.maxElapsedTime
    decreases |turns|
  {
    var t := turns[0];
    var end := OneTurn(cfg, fn, s, t, interval, start, now);
    if k > 0 {
      SleepsWithinBudget(cfg, fn, end.state, turns[1..], end.interval, start, end.now, k - 1);
    }
  }

  /** No sleep reaches past the budget, whatever the function does. */
  lemma NeverSleepsPastBudget<S, A>(cfg: RetryConfig, fn: Fn<S, A>, s: S, turns: seq<Turn<A>>, now: int, k: nat)
    requires cfg.maxElapsedTime > 0 && k < |RetrySpec(cfg, fn, s, turns, now).sleeps|
    ensures var sleep := RetrySpec(cfg, fn, s, turns, now).sleeps[k];
            sleep.at + sleep.length <= now + cfg.maxElapsedTime
  {
    SleepsWithinBudget(Guarded(cfg), fn, s, turns, Guarded(cfg).initialInterval, now, now, k);
  }

  ghost predicate OnlyLastDecides(calls: seq<FnResult>, result: Result) {
    && (forall k :: 0 <= k < |calls| - 1 ==> calls[k] == Transient)
    && (result == Success <==> calls != [] && calls[|calls| - 1] == Fine)
    && (calls != [] && calls[|calls| - 1] == Permanent ==> result == Failure)
  }

  /** The loop goes on only after transient failures, and reports success exactly for a last call that succeeded. */
  lemma {:induction false} RetriesOnlyTransientFailures<S, A>(cfg: RetryConfig, fn: Fn<S, A>, s: S,
                                                  turns: seq<Turn<A>>, interval: int, start: int, now: int)
    ensures var tr := RetryFrom(cfg, fn, s, turns, interval, start, now);
            OnlyLastDecides(tr.calls, tr.result) && |tr.calls| <= |turns|
    decreases |turns|
  {
    if turns != [] {
      var end := OneTurn(cfg, fn, s, turns[0], interval, start, now);
      if end.result == StillRunning {
        RetriesOnlyTransientFailures(cfg, fn, end.state, turns[1..], end.interval, start, end.now);
      }
    }
  }

  // ---------------------------------------------------------------- when it calls, sleeps and gives up

  /** The interval after k growths: multiplied, rounded down and capped each time. */
  function IntervalAfter(interval: int, multiplier: real, cap: int, k: nat): int
    decreases k
  {
    if k == 0 then interval
    else
      var next := (interval as real * multiplier).Floor;
      IntervalAfter(if next < cap then next else cap, multiplier, cap, k - 1)
  }

  /** When attempt k has failed and both budget checks are done: `now` for the first attempt is when the loop began,
      later ones begin when the sleeper wakes. */
  function CheckedAt<A>(turns: seq<Turn<A>>, sleeps: seq<Sleep>, now: int, k: nat): int
    requires k < |turns| && k <= |sleeps|
  {
    var begins := if k == 0 then now
                  else sleeps[k - 1].at + (if sleeps[k - 1].length < 0 then 0 else sleeps[k - 1].length) + turns[k - 1].late;
    begins + turns[k].took + turns[k].checked
  }

  /** The jittered interval, or what is left of the budget (0: there is none) if that is less. */
  ghost predicate IsSleep(sleep: Sleep, at: int, jitter: real, interval: int, deadline: int, budget: int) {
    var length := (jitter * interval as real).Floor;
    && sleep.at == at
    && sleep.length == if budget > 0 && length > deadline - at then deadline - at else length
  }

  /** Attempt k is followed by a sleep exactly if it failed for the moment and the budget is not spent. */
  ghost predicate Scheduled<S, A>(tr: Trace<S>, cfg: RetryConfig, turns: seq<Turn<A>>, interval: int, start: int,
                                  now: int, k: nat) {
    && |tr.sleeps| <= |tr.calls| <= |tr.sleeps| + 1 && |tr.calls| <= |turns|
    && (k < |tr.calls| ==>
          && (k < |tr.sleeps| <==>
                tr.calls[k] == Transient
                && (cfg.maxElapsedTime <= 0 || CheckedAt(turns, tr.sleeps, now, k) < start + cfg.maxElapsedTime))
          && (k < |tr.sleeps| ==>
                IsSleep(tr.sleeps[k], CheckedAt(turns, tr.sleeps, now, k), turns[k].jitter,
                        IntervalAfter(interval, cfg.multiplier, cfg.maxInterval, k),
                        start + cfg.maxElapsedTime, cfg.maxElapsedTime)))
  }

  lemma {:induction false} LoopIsScheduled<S, A>(cfg: RetryConfig, fn: Fn<S, A>, s: S, turns: seq<Turn<A>>,
                                                 interval: int, start: int, now: int, k: nat)
    ensures Scheduled(RetryFrom(cfg, fn, s, turns, interval, start, now), cfg, turns, interval, start, now, k)
    decreases |turns|
  {
    if turns != [] {
      var end := OneTurn(cfg, fn, s, turns[0], interval, start, now);
      FirstTurnIsScheduled(cfg, fn, s, turns, interval, start, now);
      if end.result == StillRunning {
        var rest := RetryFrom(cfg, fn, end.state, turns[1..], end.interval, start, end.now);
        LoopIsScheduled(cfg, fn, end.state, turns[1..], end.interval, start, end.now, if k == 0 then 0 else k - 1);
        if k > 0 {
          LaterTurnIsScheduled(end, rest, cfg, turns, interval, start, now, k);
        }
      }
    }
  }

  lemma FirstTurnIsScheduled<S, A>(cfg: RetryConfig, fn: Fn<S, A>, s: S, turns: seq<Turn<A>>, interval: int,
                                   start: int, now: int)
    requires turns != []
    ensures var end := OneTurn(cfg, fn, s, turns[0], interval, start, now);
            var at := now + turns[0].took + turns[0].checked;
            && (end.result == StillRunning <==>
                  end.call == Transient && (cfg.maxElapsedTime <= 0 || at < start + cfg.maxElapsedTime))
            && (end.result != StillRunning ==> end.sleeps == [])
            && (end.result == StillRunning ==>
                  && |end.sleeps| == 1
                  && IsSleep(end.sleeps[0], at, turns[0].jitter, interval, start + cfg.maxElapsedTime, cfg.maxElapsedTime)
                  && end.now == at + Max0(end.sleeps[0].length) + turns[0].late
                  && end.interval == IntervalAfter(interval, cfg.multiplier, cfg.maxInterval, 1))
  {}

  lemma LaterInterval(interval: int, multiplier: real, cap: int, k: nat)
    requires k > 0
    ensures IntervalAfter(interval, multiplier, cap, k)
         == IntervalAfter(IntervalAfter(interval, multiplier, cap, 1), multiplier, cap, k - 1)
  {}

  lemma LaterTurnIsScheduled<S, A>(end: TurnEnd<S>, rest: Trace<S>, cfg: RetryConfig, turns: seq<Turn<A>>,
                                   interval: int, start: int, now: int, k: nat)
    requires turns != [] && k > 0 && |end.sleeps| == 1
    requires end.now == end.sleeps[0].at + Max0(end.sleeps[0].length) + turns[0].late
    requires end.interval == IntervalAfter(interval, cfg.multiplier, cfg.maxInterval, 1)
    requires Scheduled(rest, cfg, turns[1..], end.interval, start, end.now, k - 1)
    ensures Scheduled(Trace(rest.state, rest.result, [end.call] + rest.calls, end.sleeps + rest.sleeps),
                      cfg, turns, interval, start, now, k)
  {
    var calls, sleeps := [end.call] + rest.calls, end.sleeps + rest.sleeps;
    if k < |calls| {
      CheckedLater(turns, end.sleeps[0], rest.sleeps, now, k);
      assert sleeps == [end.sleeps[0]] + rest.sleeps;
      assert calls[k] == rest.calls[k - 1] && turns[k] == turns[1..][k - 1];
      LaterInterval(interval, cfg.multiplier, cfg.maxInterval, k);
      assert k < |sleeps| ==> sleeps[k] == rest.sleeps[k - 1];
    }
  }

  lemma CheckedLater<A>(turns: seq<Turn<A>>, first: Sleep, rest: seq<Sleep>, now: int, k: nat)
    requires 0 < k < |turns| && k - 1 <= |rest|
    ensures CheckedAt(turns, [first] + rest, now, k)
         == CheckedAt(turns[1..], rest, first.at + Max0(first.length) + turns[0].late, k - 1)
  {
    if k > 1 {
      assert ([first] + rest)[k - 1] == rest[k - 2];
    }
  }

  /** The whole schedule of a run, for any configuration and any behaviour of the function: when each attempt is over,
      whether it is followed by a sleep, and how long that is. A missing initial interval counts as one second, a
      multiplier below one as one. */
  lemma ScheduleExactly<S, A>(cfg: RetryConfig, fn: Fn<S, A>, s: S, turns: seq<Turn<A>>, now: int, k: nat)
    ensures var first := if cfg.initialInterval <= 0 then 1_000_000_000 else cfg.initialInterval;
            var multiplier := if cfg.multiplier < 1.0 then 1.0 else cfg.multiplier;
            Scheduled(RetrySpec(cfg, fn, s, turns, now), cfg.(initialInterval := first, multiplier := multiplier),
                      turns, first, now, now, k)
  {
    LoopIsScheduled(Guarded(cfg), fn, s, turns, Guarded(cfg).initialInterval, now, now, k);
  }

  /** Seconds of the k-th interval under the default configuration. */
  function DefaultSeconds(k: nat): int {
    if k < 8 then [2, 4, 8, 16, 32, 64, 128, 256][k] else 300
  }

  lemma {:induction false} DefaultIntervals(j: nat, k: nat)
    ensures IntervalAfter(DefaultSeconds(j) * 1_000_000_000, DEFAULT_RETRY.multiplier, DEFAULT_RETRY.maxInterval, k)
         == DefaultSeconds(j + k) * 1_000_000_000
    decreases k
  {
    if k > 0 {
      var n := DefaultSeconds(j) * 1_000_000_000;
      assert n as real * 2.0 == (2 * n) as real;
      assert (2 * n < 300_000_000_000) == (j < 7);
      DefaultIntervals(j + 1, k - 1);
    }
  }

  /** By default the waits double from 2 s up to five minutes, for half an hour. */
  lemma DefaultSchedule<S, A>(fn: Fn<S, A>, s: S, turns: seq<Turn<A>>, now: int, k: nat)
    requires k < |RetrySpec(DEFAULT_RETRY, fn, s, turns, now).sleeps|
    ensures var tr := RetrySpec(DEFAULT_RETRY, fn, s, turns, now);
            && |tr.sleeps| <= |turns|
            && IsSleep(tr.sleeps[k], CheckedAt(turns, tr.sleeps, now, k), turns[k].jitter,
                       DefaultSeconds(k) * 1_000_000_000, now + 1_800_000_000_000, 1_800_000_000_000)
  {
    ScheduleExactly(DEFAULT_RETRY, fn, s, turns, now, k);
    DefaultIntervals(0, k);
  }

  // ---------------------------------------------------------------- Post

  datatype Reply = TransportError | Status(code: int)

  /** The breaker together with the number of requests put on the wire. */
  datatype PostState = PostState(circuit: Circuit, sent: nat)

  /** The function Post retries: one request, unless the breaker has tripped meanwhile. */
  function Request(s: PostState, now: int, t: Turn<Reply>): (PostState, FnResult) {
    if Blocked(s.circuit, now) then (s, Permanent)
    else
      var sent := s.sent + 1;
      match t.input
      case TransportError => (PostState(Fail(s.circuit, now + t.took), sent), Transient)
      case Status(code) =>
        if IsPermanentStatus(code) then (PostState(Release(s.circuit), sent), Permanent)
        else if code >= 400 then (PostState(Fail(s.circuit, now + t.took), sent), Transient)
        else (PostState(Recover(s.circuit), sent), Fine)
  }

  function PostSpec(c: Circuit, cfg: RetryConfig, turns: seq<Turn<Reply>>, now: int): Trace<PostState> {
    var (c', available) := Ask(c, now);
    if !available then Trace(PostState(c', 0), Failure, [], [])
    else RetrySpec(cfg, Request, PostState(c', 0), turns, now)
  }

  method Post(client: Client, cfg: RetryConfig, turns: seq<Turn<Reply>>, now: int) returns (result: Result, sent: nat)
    modifies client
    ensures var tr := PostSpec(old(client.View()), cfg, turns, now);
            client.View() == tr.state.circuit && result == tr.result && sent == tr.state.sent
  {
    var available := client.IsAvailable(now);
    if !available {
      return Failure, 0;
    }
    var circuit := Circuit(client.state, client.failures, client.openedAt, client.resetTimeout, client.probeInFlight);
    var s, r, _, _ := WithRetryTag(cfg, Request, PostState(circuit, 0), turns, now);
    client.state, client.failures, client.openedAt := s.circuit.state, s.circuit.failures, s.circuit.openedAt;
    client.resetTimeout, client.probeInFlight := s.circuit.resetTimeout, s.circuit.probeInFlight;
    return r, s.sent;
  }

  // ---------------------------------------------------------------- what a Post tells the breaker

  /** A success closes, a permanent status gives the slot back, anything else counts as a failure. */
  ghost predicate Tells(op: Op, reply: Reply) {
    if reply.TransportError? then op.Failed?
    else if reply.code in {400, 401, 403, 404, 422} then op.PermanentStatus?
    else if reply.code >= 400 then op.Failed?
    else op.Succeeded?
  }

  /** `log` is what the breaker heard of these turns, one operation for each request, at the time the request ended, and
      only failures are followed by another one. */
  ghost predicate Heard(log: seq<Op>, turns: seq<Turn<Reply>>, sleeps: seq<Sleep>, now: int) {
    && |log| <= |turns| && |log| <= |sleeps| + 1
    && (forall k :: 0 <= k < |log| ==> Tells(log[k], turns[k].input))
    && (forall k :: 0 <= k < |log| && log[k].Failed? ==> log[k].now == CheckedAt(turns, sleeps, now, k) - turns[k].checked)
    && (forall k :: 0 <= k < |log| - 1 ==> log[k].Failed?)
  }

  ghost predicate Reported(ops: seq<Op>, log: seq<Op>, turns: seq<Turn<Reply>>, tr: Trace<PostState>,
                           sentBefore: nat, now: int) {
    && Heard(log, turns, tr.sleeps, now) && tr.state == PostState(Run(ops + log), sentBefore + |log|)
    && (tr.result == Success <==> log != [] && log[|log| - 1].Succeeded?)
    && (log != [] && log[|log| - 1].PermanentStatus? ==> tr.result == Failure)
  }

  lemma RequestIsHeard(ops: seq<Op>, sent: nat, t: Turn<Reply>, now: int) returns (op: Op)
    requires !Blocked(Run(ops), now)
    ensures Tells(op, t.input) && (op.Failed? ==> op.now == now + t.took)
    ensures var (s', r) := Request(PostState(Run(ops), sent), now, t);
            && s' == PostState(Run(ops + [op]), sent + 1)
            && r == if op.Failed? then Transient else if op.Succeeded? then Fine else Permanent
  {
    op := match t.input
      case TransportError => Failed(now + t.took)
      case Status(code) =>
        if IsPermanentStatus(code) then PermanentStatus else if code >= 400 then Failed(now + t.took) else Succeeded;
    assert (ops + [op])[..|ops|] == ops;
  }

  lemma HeardOneMore(op: Op, log: seq<Op>, turns: seq<Turn<Reply>>, first: Sleep, rest: seq<Sleep>, now: int)
    requires turns != [] && Tells(op, turns[0].input) && op.Failed? && op.now == now + turns[0].took
    requires Heard(log, turns[1..], rest, first.at + Max0(first.length) + turns[0].late)
    ensures Heard([op] + log, turns, [first] + rest, now)
  {
    var all := [op] + log;
    forall k | 0 <= k < |all|
      ensures Tells(all[k], turns[k].input) && (k < |all| - 1 ==> all[k].Failed?)
      ensures all[k].Failed? ==> all[k].now == CheckedAt(turns, [first] + rest, now, k) - turns[k].checked
    {
      if k > 0 {
        assert all[k] == log[k - 1] && turns[1..][k - 1] == turns[k];
        CheckedLater(turns, first, rest, now, k);
      }
    }
  }

  lemma ReportedOneMore(ops: seq<Op>, op: Op, log: seq<Op>, turns: seq<Turn<Reply>>, rest: Trace<PostState>,
                        calls: seq<FnResult>, first: Sleep, sent: nat, now: int)
    requires turns != [] && Tells(op, turns[0].input) && op.Failed? && op.now == now + turns[0].took
    requires Reported(ops + [op], log, turns[1..], rest, sent + 1, first.at + Max0(first.length) + turns[0].late)
    ensures Reported(ops, [op] + log, turns, Trace(rest.state, rest.result, calls, [first] + rest.sleeps), sent, now)
  {
    HeardOneMore(op, log, turns, first, rest.sleeps, now);
    assert ops + [op] + log == ops + ([op] + log);
  }

  lemma {:induction false} LoopIsReported(cfg: RetryConfig, ops: seq<Op>, sent: nat, turns: seq<Turn<Reply>>,
                                          interval: int, start: int, now: int)
      returns (log: seq<Op>)
    ensures Reported(ops, log, turns, RetryFrom(cfg, Request, PostState(Run(ops), sent), turns, interval, start, now),
                     sent, now)
    ensures turns != [] && !Blocked(Run(ops), now) ==> log != []
    decreases |turns|
  {
    if turns == [] || Blocked(Run(ops), now) {
      assert ops + [] == ops;
      log := [];
    } else {
      var op := RequestIsHeard(ops, sent, turns[0], now);
      var end := OneTurn(cfg, Request, PostState(Run(ops), sent), turns[0], interval, start, now);
      FirstTurnIsScheduled(cfg, Request, PostState(Run(ops), sent), turns, interval, start, now);
      if end.result == StillRunning {
        var more := LoopIsReported(cfg, ops + [op], sent + 1, turns[1..], end.interval, start, end.now);
        var rest := RetryFrom(cfg, Request, end.state, turns[1..], end.interval, start, end.now);
        assert end.sleeps == [end.sleeps[0]];
        ReportedOneMore(ops, op, more, turns, rest, [end.call] + rest.calls, end.sleeps[0], sent, now);
        log := [op] + more;
      } else {
        log := [op];
      }
    }
  }

  /** What the breaker hears of a Post: first that somebody asks, then `log`. */
  ghost predicate IsLog(ops: seq<Op>, log: seq<Op>, cfg: RetryConfig, turns: seq<Turn<Reply>>, now: int) {
    && Reported(ops + [Asked(now)], log, turns, PostSpec(Run(ops), cfg, turns, now), 0, now)
    && (log != [] <==> turns != [] && Ask(Run(ops), now).1)
  }

  /** A Post is to the breaker one Asked and then, for each request it sends, what the reply says about the API. So with
      Breaker.AdmitsExactly a permanent status leaves a free slot behind. */
  lemma PostIsBreakerHistory(ops: seq<Op>, cfg: RetryConfig, turns: seq<Turn<Reply>>, now: int)
    ensures exists log :: IsLog(ops, log, cfg, turns, now)
  {
    var asked := ops + [Asked(now)];
    assert asked[..|ops|] == ops;
    if Ask(Run(ops), now).1 {
      BreakerIsItsHistory(ops);
      var log := LoopIsReported(Guarded(cfg), asked, 0, turns, Guarded(cfg).initialInterval, now, now);
      assert IsLog(ops, log, cfg, turns, now);
    } else {
      assert asked + [] == asked;
      assert IsLog(ops, [], cfg, turns, now);
    }
  }

  /** A permanent status ends the Post at once, and the next caller is admitted. */
  lemma PermanentStatusIsFinal(ops: seq<Op>, cfg: RetryConfig, turns: seq<Turn<Reply>>, now: int, later: int)
    requires turns != [] && turns[0].input.Status? && turns[0].input.code in {400, 401, 403, 404, 422}
    requires Ask(Run(ops), now).1
    ensures var tr := PostSpec(Run(ops), cfg, turns, now);
            tr.result == Failure && tr.state.sent == 1 && Ask(tr.state.circuit, later).1
  {
    var asked, tr := ops + [Asked(now)], PostSpec(Run(ops), cfg, turns, now);
    assert asked[..|ops|] == ops;
    PostIsBreakerHistory(ops, cfg, turns, now);
    var log :| IsLog(ops, log, cfg, turns, now);
    assert Tells(log[0], turns[0].input);
    assert log == [PermanentStatus];
    BreakerIsItsHistory(asked);
    SlotIsItsHistory(asked);
    PermanentStatusFreesSlot(asked, later);
  }

  // ---------------------------------------------------------------- how many requests a failing Post sends

  predicate TransientReply(r: Reply) {
    r.Status? ==> r.code >= 400 && !IsPermanentStatus(r.code)
  }

  predicate OnlyTransient(turns: seq<Turn<Reply>>) {
    forall k :: 0 <= k < |turns| ==> TransientReply(turns[k].input)
  }

  /** Where the loop is after its first n turns, if it is still running then. */
  datatype Place = Place(state: PostState, running: bool, interval: int, now: int)

  function PlaceAfter(cfg: RetryConfig, s: PostState, turns: seq<Turn<Reply>>, n: nat, interval: int, start: int,
                      now: int): Place
    requires n <= |turns|
    decreases n
  {
    if n == 0 then Place(s, true, interval, now)
    else
      var end := OneTurn(cfg, Request, s, turns[0], interval, start, now);
      if end.result != StillRunning then Place(end.state, false, end.interval, end.now)
      else PlaceAfter(cfg, end.state, turns[1..], n - 1, end.interval, start, end.now)
  }

  /** The loop lives to see turn number n, and by then the back-off of the breaker is over. */
  predicate OutlivesBackoff(cfg: RetryConfig, s: PostState, turns: seq<Turn<Reply>>, n: nat, interval: int,
                            start: int, now: int) {
    n < |turns| &&
    var place := PlaceAfter(cfg, s, turns, n, interval, start, now);
    place.running && !Blocked(place.state.circuit, place.now)
  }

  lemma {:induction false} SentOnlyGrows(cfg: RetryConfig, s: PostState, turns: seq<Turn<Reply>>, interval: int,
                                         start: int, now: int)
    ensures RetryFrom(cfg, Request, s, turns, interval, start, now).state.sent >= s.sent
    decreases |turns|
  {
    if turns != [] {
      var end := OneTurn(cfg, Request, s, turns[0], interval, start, now);
      if end.result == StillRunning {
        SentOnlyGrows(cfg, end.state, turns[1..], end.interval, start, end.now);
      }
    }
  }

  /** A loop that is about to take a turn sends something exactly if the breaker does not block that turn. */
  lemma SendsUnlessBlocked(cfg: RetryConfig, s: PostState, turns: seq<Turn<Reply>>, interval: int, start: int, now: int)
    requires OnlyTransient(turns)
    ensures var tr := RetryFrom(cfg, Request, s, turns, interval, start, now);
            tr.state.sent > s.sent <==> turns != [] && !Blocked(s.circuit, now)
  {
    if turns != [] {
      var end := OneTurn(cfg, Request, s, turns[0], interval, start, now);
      if end.result == StillRunning {
        SentOnlyGrows(cfg, end.state, turns[1..], end.interval, start, end.now);
      }
    }
  }

  /** With the breaker open after this turn's failure, more than one request goes out exactly if the loop then outlives
      the back-off. */
  lemma LastTurn(cfg: RetryConfig, s: PostState, turns: seq<Turn<Reply>>, interval: int, start: int, now: int)
    requires OnlyTransient(turns) && !Blocked(s.circuit, now) && turns != []
    ensures var tr := RetryFrom(cfg, Request, s, turns, interval, start, now);
            && tr.state.sent >= s.sent + 1
            && (tr.state.sent > s.sent + 1 <==> OutlivesBackoff(cfg, s, turns, 1, interval, start, now))
  {
    var end := OneTurn(cfg, Request, s, turns[0], interval, start, now);
    assert end.state == PostState(Fail(s.circuit, now + turns[0].took), s.sent + 1);
    if end.result == StillRunning {
      assert OnlyTransient(turns[1..]);
      SendsUnlessBlocked(cfg, end.state, turns[1..], end.interval, start, end.now);
      SentOnlyGrows(cfg, end.state, turns[1..], end.interval, start, end.now);
      assert PlaceAfter(cfg, s, turns, 1, interval, start, now) == Place(end.state, true, end.interval, end.now);
    }
  }

  /** Whatever the configuration and however long everything takes: a loop that starts with f < 3 failures sends more
      than 3 - f requests if and only if it outlives the back-off that its own failures started. */
  lemma {:induction false} ClosedSendsMoreExactly(cfg: RetryConfig, s: PostState, turns: seq<Turn<Reply>>,
                                                  interval: int, start: int, now: int)
    requires s.circuit.state.Closed? && s.circuit.failures < OPEN_THRESHOLD && OnlyTransient(turns)
    ensures var left := OPEN_THRESHOLD - s.circuit.failures;
            RetryFrom(cfg, Request, s, turns, interval, start, now).state.sent > s.sent + left
            <==> OutlivesBackoff(cfg, s, turns, left, interval, start, now)
    decreases |turns|
  {
    if turns != [] {
      if s.circuit.failures == OPEN_THRESHOLD - 1 {
        LastTurn(cfg, s, turns, interval, start, now);
      } else {
        var end := OneTurn(cfg, Request, s, turns[0], interval, start, now);
        assert end.state == PostState(Fail(s.circuit, now + turns[0].took), s.sent + 1);
        if end.result == StillRunning {
          assert OnlyTransient(turns[1..]);
          ClosedSendsMoreExactly(cfg, end.state, turns[1..], end.interval, start, end.now);
        }
      }
    }
  }

  /** What the breaker looks like once the failures of a loop have opened it. */
  lemma {:induction false} PlaceIsOpen(cfg: RetryConfig, s: PostState, turns: seq<Turn<Reply>>, interval: int,
                                       start: int, now: int)
    requires s.circuit.state.Closed? && s.circuit.failures < OPEN_THRESHOLD && OnlyTransient(turns)
    requires var left := OPEN_THRESHOLD - s.circuit.failures;
             left <= |turns| && PlaceAfter(cfg, s, turns, left, interval, start, now).running
    ensures var place := PlaceAfter(cfg, s, turns, OPEN_THRESHOLD - s.circuit.failures, interval, start, now);
            && place.state.sent == s.sent + OPEN_THRESHOLD - s.circuit.failures
            && place.state.circuit.state.Open? && place.state.circuit.resetTimeout == s.circuit.resetTimeout
    decreases |turns|
  {
    var end := OneTurn(cfg, Request, s, turns[0], interval, start, now);
    assert end.state == PostState(Fail(s.circuit, now + turns[0].took), s.sent + 1);
    if end.state.circuit.state.Closed? {
      PlaceIsOpen(cfg, end.state, turns[1..], end.interval, start, end.now);
    }
  }

  /** A sequential Post started closed with f failures, meeting only transient failures, under any configuration and
      timing, sends more than 3 - f requests if and only if its loop is still running after the first 3 - f and takes
      its next turn 60 s or more after the failure that opened the breaker. */
  lemma PostFromClosedExactly(ops: seq<Op>, config: RetryConfig, turns: seq<Turn<Reply>>, now: int)
    requires Run(ops).state.Closed? && OnlyTransient(turns)
    ensures var left, cfg := OPEN_THRESHOLD - FailureCount(ops), Guarded(config);
            && left > 0
            && (PostSpec(Run(ops), config, turns, now).state.sent > left
                <==> |turns| > left
                     && var place := PlaceAfter(cfg, PostState(Run(ops), 0), turns, left, cfg.initialInterval, now, now);
                        place.running && place.now >= place.state.circuit.openedAt + RESET_AFTER)
  {
    BreakerIsItsHistory(ops);
    var left, cfg, s := OPEN_THRESHOLD - FailureCount(ops), Guarded(config), PostState(Run(ops), 0);
    ClosedSendsMoreExactly(cfg, s, turns, cfg.initialInterval, now, now);
    if |turns| > left && PlaceAfter(cfg, s, turns, left, cfg.initialInterval, now, now).running {
      PlaceIsOpen(cfg, s, turns, cfg.initialInterval, now, now);
    }
  }

  /** The same from an open or half-open breaker: one request if admitted, and more if and only if the loop takes its
      next turn after the doubled back-off. */
  lemma PostFromHalfOpenExactly(ops: seq<Op>, config: RetryConfig, turns: seq<Turn<Reply>>, now: int)
    requires !Run(ops).state.Closed? && OnlyTransient(turns) && turns != []
    ensures var (c, admitted) := Ask(Run(ops), now);
            var cfg, sent := Guarded(config), PostSpec(Run(ops), config, turns, now).state.sent;
            if !admitted then sent == 0
            else
              && sent >= 1
              && (sent > 1 <==>
                    |turns| > 1
                    && var place := PlaceAfter(cfg, PostState(c, 0), turns, 1, cfg.initialInterval, now, now);
                       place.running && place.now >= place.state.circuit.openedAt + Backoff(ProbeFailureCount(ops) + 1))
  {
    BreakerIsItsHistory(ops);
    var (c, admitted) := Ask(Run(ops), now);
    if admitted {
      LastTurn(Guarded(config), PostState(c, 0), turns, Guarded(config).initialInterval, now, now);
    }
  }

  /** A turn whose request fails at once, and whose sleeper wakes `late`. */
  function FailsAtOnce(late: nat): Turn<Reply> {
    Turn(TransportError, 0, 0, 0.0, late)
  }

  /** Such a run, under the default configuration: the machine is suspended for at least a minute after the third
      failure, and the fourth request goes out. */
  lemma LateWakeSendsMore(late: nat)
    requires late >= RESET_AFTER
    ensures PostSpec(INITIAL, DEFAULT_RETRY, [FailsAtOnce(0), FailsAtOnce(0), FailsAtOnce(late), FailsAtOnce(0)], 0).state.sent > 3
  {
    var turns := [FailsAtOnce(0), FailsAtOnce(0), FailsAtOnce(late), FailsAtOnce(0)];
    var s0 := PostState(INITIAL, 0);
    assert Guarded(DEFAULT_RETRY) == DEFAULT_RETRY;
    NoSleepTurn(s0, 0, 2 * SECOND);
    var s1 := PostState(Fail(INITIAL, 0), 1);
    DefaultGrows(2 * SECOND);
    NoSleepTurn(s1, 0, 4 * SECOND);
    DefaultGrows(4 * SECOND);
    var s2 := PostState(Fail(s1.circuit, 0), 2);
    NoSleepTurn(s2, late, 8 * SECOND);
    var s3 := PostState(Fail(s2.circuit, 0), 3);
    assert turns[1..][1..][1..] == [FailsAtOnce(0)];
    assert PlaceAfter(DEFAULT_RETRY, s2, turns[1..][1..], 1, 8 * SECOND, 0, 0)
        == Place(s3, true, Grown(8 * SECOND, DEFAULT_RETRY), late);
    assert PlaceAfter(DEFAULT_RETRY, s1, turns[1..], 2, 4 * SECOND, 0, 0).state == s3;
    ClosedSendsMoreExactly(DEFAULT_RETRY, s0, turns, 2 * SECOND, 0, 0);
  }

  lemma NoSleepTurn(s: PostState, late: nat, interval: int)
    requires !Blocked(s.circuit, 0)
    ensures OneTurn(DEFAULT_RETRY, Request, s, FailsAtOnce(late), interval, 0, 0)
         == TurnEnd(PostState(Fail(s.circuit, 0), s.sent + 1), StillRunning, Transient, [Sleep(0, 0)],
                    Grown(interval, DEFAULT_RETRY), late)
  {
    assert Jittered(0.0, interval) == 0;
  }

  // ---------------------------------------------------------------- with prompt wake-ups, exact counts

  /** Only transient failures, each within the 60 s HTTP timeout, and no delay of 50 s or more besides the sleeps. */
  ghost predicate Failing(t: Turn<Reply>) {
    && ValidTurn(t)
    && (t.input.Status? ==> t.input.code >= 400 && !IsPermanentStatus(t.input.code))
    && t.took <= 60 * SECOND && t.checked + t.late < 50 * SECOND
  }

  ghost predicate AllFailing(turns: seq<Turn<Reply>>) {
    forall k :: 0 <= k < |turns| ==> Failing(turns[k])
  }

  lemma DefaultGrows(n: int)
    requires 0 <= n <= 8 * SECOND
    ensures Grown(n, DEFAULT_RETRY) == 2 * n
  {
    assert (n as real * 2.0) == (2 * n) as real;
  }

  /** With the breaker just opened, the next turn gives up without a request. */
  lemma OpenBreakerStopsRetry(s: PostState, turns: seq<Turn<Reply>>, interval: int, start: int, now: int)
    requires s.circuit.state.Open? && s.circuit.resetTimeout >= RESET_AFTER && now < s.circuit.openedAt + RESET_AFTER
    ensures var tr := RetryFrom(DEFAULT_RETRY, Request, s, turns, interval, start, now);
            tr.state == s && tr.result == if turns == [] then StillRunning else Failure
  {}

  /** One failing turn, well within the budget: the request is sent, the failure recorded, and the loop sleeps. */
  lemma FailingTurn(s: PostState, turns: seq<Turn<Reply>>, interval: int, start: int, now: int)
      returns (s': PostState, next: int)
    requires turns != [] && Failing(turns[0]) && !Blocked(s.circuit, now)
    requires 0 <= interval <= 8 * SECOND && start <= now <= start + 400 * SECOND
    ensures s' == PostState(Fail(s.circuit, now + turns[0].took), s.sent + 1)
    ensures now + turns[0].took <= next < now + turns[0].took + interval + 50 * SECOND
    ensures var tr := RetryFrom(DEFAULT_RETRY, Request, s, turns, interval, start, now);
            var rest := RetryFrom(DEFAULT_RETRY, Request, s', turns[1..], 2 * interval, start, next);
            tr.state == rest.state && tr.result == rest.result
  {
    var t := turns[0];
    JitterIsWithinInterval(t.jitter, interval);
    DefaultGrows(interval);
    s' := Request(s, now, t).0;
    var (again, sleep) := NextSleep(DEFAULT_RETRY, t, interval, start, now + t.took);
    next := now + t.took + t.checked + Max0(sleep) + t.late;
  }

  /** What a sequential Post leaves behind when every request fails: closed with f failures it sends
      3 - f requests, or one per turn if interrupted earlier, and then stops at the opened breaker. */
  lemma {:induction false} ClosedPostSends(s: PostState, turns: seq<Turn<Reply>>, interval: int, start: int, now: int)
    requires s.circuit.state.Closed? && s.circuit.failures < OPEN_THRESHOLD && s.circuit.resetTimeout == RESET_AFTER
    requires AllFailing(turns)
    requires 0 <= interval <= if s.circuit.failures == 0 then 2 * SECOND else if s.circuit.failures == 1 then 4 * SECOND else 8 * SECOND
    requires start <= now <= start + s.circuit.failures * 120 * SECOND
    ensures var left := OPEN_THRESHOLD - s.circuit.failures;
            var tr := RetryFrom(DEFAULT_RETRY, Request, s, turns, interval, start, now);
            && tr.state.sent == s.sent + (if |turns| < left then |turns| else left)
            && tr.result == (if |turns| <= left then StillRunning else Failure)
            && (|turns| >= left ==> tr.state.circuit.state.Open?)
    decreases |turns|
  {
    if turns != [] {
      var s', next := FailingTurn(s, turns, interval, start, now);
      assert AllFailing(turns[1..]);
      if s'.circuit.state.Open? {
        OpenBreakerStopsRetry(s', turns[1..], 2 * interval, start, next);
      } else {
        ClosedPostSends(s', turns[1..], 2 * interval, start, next);
      }
    }
  }

  /** A Post started with a closed breaker that has seen f failures. */
  lemma PostFromClosed(ops: seq<Op>, turns: seq<Turn<Reply>>, now: int)
    requires Run(ops).state.Closed? && AllFailing(turns)
    ensures var left := OPEN_THRESHOLD - FailureCount(ops);
            var tr := PostSpec(Run(ops), DEFAULT_RETRY, turns, now);
            && tr.state.sent == (if |turns| < left then |turns| else left) <= OPEN_THRESHOLD - FailureCount(ops)
            && (|turns| > left ==> tr.result == Failure)
  {
    BreakerIsItsHistory(ops);
    ClosedPostSends(PostState(Run(ops), 0), turns, 2 * SECOND, now, now);
  }

  /** A Post let through an opened breaker, as its first probe or as the second caller, sends one request. */
  lemma PostFromHalfOpen(ops: seq<Op>, turns: seq<Turn<Reply>>, now: int)
    requires !Run(ops).state.Closed? && AllFailing(turns) && turns != []
    ensures var tr := PostSpec(Run(ops), DEFAULT_RETRY, turns, now);
            && tr.state.sent == (if Ask(Run(ops), now).1 then 1 else 0)
            && (Ask(Run(ops), now).1 ==> tr.state.circuit.state.Open?)
  {
    BreakerIsItsHistory(ops);
    var (c, available) := Ask(Run(ops), now);
    if available {
      var s := PostState(c, 0);
      var s', next := FailingTurn(s, turns, 2 * SECOND, now, now);
      OpenBreakerStopsRetry(s', turns[1..], 4 * SECOND, now, next);
    }
  }
}
