/**
 * The crash limiter of the non-Windows watchdog (apps/agent/cmd/watchdog/main_other.go).
 * How the agent's runs end, how long they last and how late the sleeper wakes is given per turn.
 */
module Watchdog {
  import opened Events

  const RESTART_DELAY := 3 * SECOND
  const MAX_CRASH_WINDOW := 60 * SECOND
  const MAX_CRASH_COUNT := 5
  const BACKOFF := 300 * SECOND

  datatype Turn =
    | StartFails(late: nat)
    | ExitsCleanly(ran: nat)
    | Crashes(ran: nat, late: nat)

  /** `log` has the time of every crash so far. */
  datatype State = State(now: int, crashes: nat, firstCrash: int, stopped: bool, log: seq<int>)

  function Initial(now: int): State { State(now, 0, 0, false, []) }

  function Apply(s: State, turn: Turn): State {
    if s.stopped then s
    else
      match turn
      case StartFails(late) => s.(now := s.now + RESTART_DELAY + late)
      case ExitsCleanly(ran) => s.(now := s.now + ran, stopped := true)
      case Crashes(ran, late) =>
        var at := s.now + ran;
        var newWindow := s.crashes == 0 || at - s.firstCrash > MAX_CRASH_WINDOW;
        var crashes := if newWindow then 1 else s.crashes + 1;
        var firstCrash := if newWindow then at else s.firstCrash;
        if crashes >= MAX_CRASH_COUNT then State(at + BACKOFF + late, 0, firstCrash, false, s.log + [at])
        else State(at + RESTART_DELAY + late, crashes, firstCrash, false, s.log + [at])
  }

  function Run(s: State, turns: seq<Turn>): State {
    if turns == [] then s else Apply(Run(s, turns[..|turns| - 1]), turns[|turns| - 1])
  }

  method RunWatchdogLoop(start: int, turns: seq<Turn>) returns (log: seq<int>)
    ensures log == Run(Initial(start), turns).log
    ensures AtMostEightPerMinute(log)
  {
    var crashes, firstCrash, now := 0, 0, start;
    log := [];
    RateHolds(start, turns);
    for k := 0 to |turns|
      invariant Run(Initial(start), turns[..k]) == State(now, crashes, firstCrash, false, log)
    {
      assert turns[..k + 1][..k] == turns[..k];
      match turns[k]
      case StartFails(late) =>
        now := now + RESTART_DELAY + late;
      case ExitsCleanly(ran) =>
        now := now + ran;
        StoppedStays(start, turns, k + 1);
        return;
      case Crashes(ran, late) =>
        now := now + ran;
        log := log + [now];
        if crashes == 0 || now - firstCrash > MAX_CRASH_WINDOW {
          crashes := 1;
          firstCrash := now;
        } else {
          crashes := crashes + 1;
        }
        if crashes >= MAX_CRASH_COUNT {
          now := now + BACKOFF + late;
          crashes := 0;
        } else {
          now := now + RESTART_DELAY + late;
        }
    }
    assert turns[..|turns|] == turns;
  }

  lemma {:induction false} StoppedStays(start: int, turns: seq<Turn>, k: nat)
    requires k <= |turns| && Run(Initial(start), turns[..k]).stopped
    ensures Run(Initial(start), turns) == Run(Initial(start), turns[..k])
    decreases |turns| - k
  {
    if k < |turns| {
      assert turns[..k + 1][..k] == turns[..k];
      StoppedStays(start, turns, k + 1);
    } else {
      assert turns[..k] == turns;
    }
  }

  // ---------------------------------------------------------------- the rate

  ghost predicate Increasing(log: seq<int>) {
    forall i, j :: 0 <= i < j < |log| ==> log[i] <= log[j]
  }

  /** Nine consecutive crashes always span more than the window. */
  ghost predicate NineSpanMore(log: seq<int>) {
    forall i :: 0 <= i < |log| - 8 ==> log[i + 8] - log[i] > MAX_CRASH_WINDOW
  }

  ghost predicate Inv(s: State) {
    var n := |s.log|;
    && Increasing(s.log) && NineSpanMore(s.log) && s.crashes <= n && s.crashes < MAX_CRASH_COUNT
    && (n > 0 ==> s.log[n - 1] <= s.now)
    && (s.crashes > 0 ==> s.log[n - s.crashes] == s.firstCrash)
    // the fourth crash before the current window is more than a window older than its start
    && (s.crashes > 0 && n - s.crashes >= 4 ==> s.firstCrash - s.log[n - s.crashes - 4] > MAX_CRASH_WINDOW)
    && (s.crashes == 0 && n > 0 && !s.stopped ==> s.now - s.log[n - 1] >= BACKOFF)
  }

  lemma OneMoreCrash(log: seq<int>, at: int)
    requires Increasing(log) && NineSpanMore(log) && (log != [] ==> log[|log| - 1] <= at)
    requires |log| >= 8 ==> at - log[|log| - 8] > MAX_CRASH_WINDOW
    ensures Increasing(log + [at]) && NineSpanMore(log + [at])
  {}

  /** The eighth crash before a new one is old: it came before the fourth one ahead of the current window. */
  lemma EighthIsOld(s: State, ran: nat)
    requires Inv(s) && !s.stopped && |s.log| >= 8
    ensures s.now + ran - s.log[|s.log| - 8] > MAX_CRASH_WINDOW
  {
    var n, at := |s.log|, s.now + ran;
    if s.crashes > 0 {
      assert s.log[n - 8] <= s.log[n - s.crashes - 4];
    } else {
      assert s.log[n - 8] <= s.log[n - 1];
    }
  }

  lemma FirstOfWindowKeepsInv(s: State, ran: nat, late: nat)
    requires Inv(s) && !s.stopped && (s.crashes == 0 || s.now + ran - s.firstCrash > MAX_CRASH_WINDOW)
    requires Increasing(s.log + [s.now + ran]) && NineSpanMore(s.log + [s.now + ran])
    ensures Inv(Apply(s, Crashes(ran, late)))
  {
    var n, at := |s.log|, s.now + ran;
    assert (s.log + [at])[n] == at;
    if n >= 4 {
      assert (s.log + [at])[n - 4] == s.log[n - 4];
      assert s.log[n - 4] <= s.log[if s.crashes > 0 then n - s.crashes else n - 1];
    }
  }

  lemma NextOfWindowKeepsInv(s: State, ran: nat, late: nat)
    requires Inv(s) && !s.stopped && s.crashes > 0 && s.now + ran - s.firstCrash <= MAX_CRASH_WINDOW
    requires Increasing(s.log + [s.now + ran]) && NineSpanMore(s.log + [s.now + ran])
    ensures Inv(Apply(s, Crashes(ran, late)))
  {
    var n, log' := |s.log|, s.log + [s.now + ran];
    assert log'[n] == s.now + ran && log'[n - s.crashes] == s.firstCrash;
    if n - s.crashes >= 4 {
      assert log'[n - s.crashes - 4] == s.log[n - s.crashes - 4];
    }
  }

  lemma CrashKeepsInv(s: State, ran: nat, late: nat)
    requires Inv(s) && !s.stopped
    ensures Inv(Apply(s, Crashes(ran, late)))
  {
    if |s.log| >= 8 {
      EighthIsOld(s, ran);
    }
    OneMoreCrash(s.log, s.now + ran);
    if s.crashes == 0 || s.now + ran - s.firstCrash > MAX_CRASH_WINDOW {
      FirstOfWindowKeepsInv(s, ran, late);
    } else {
      NextOfWindowKeepsInv(s, ran, late);
    }
  }

  lemma OtherTurnKeepsInv(s: State, turn: Turn)
    requires Inv(s) && (s.stopped || !turn.Crashes?)
    ensures Inv(Apply(s, turn))
  {}

  lemma {:induction false} RunKeepsInv(start: int, turns: seq<Turn>)
    ensures Inv(Run(Initial(start), turns))
  {
    if turns != [] {
      var s, turn := Run(Initial(start), turns[..|turns| - 1]), turns[|turns| - 1];
      RunKeepsInv(start, turns[..|turns| - 1]);
      if turn.Crashes? && !s.stopped {
        CrashKeepsInv(s, turn.ran, turn.late);
      } else {
        OtherTurnKeepsInv(s, turn);
      }
    }
  }

  function CountWithin(log: seq<int>, from: int): nat {
    if log == [] then 0
    else CountWithin(log[..|log| - 1], from) + (if from <= log[|log| - 1] <= from + 60_000_000_000 then 1 else 0)
  }

  ghost predicate AtMostEightPerMinute(log: seq<int>) {
    forall from: int :: CountWithin(log, from) <= 8
  }

  lemma {:induction false} CountIsBetween(log: seq<int>, from: int, lo: nat, hi: nat)
    requires lo <= hi <= |log|
    requires forall i :: 0 <= i < |log| && from <= log[i] <= from + MAX_CRASH_WINDOW ==> lo <= i < hi
    ensures CountWithin(log, from) <= hi - lo
  {
    if log != [] {
      var n := |log| - 1;
      if lo > n {
        CountIsBetween(log[..n], from, n, n);
      } else {
        CountIsBetween(log[..n], from, lo, if hi > n then n else hi);
      }
    }
  }

  lemma FirstWithin(log: seq<int>, from: int) returns (lo: nat)
    ensures lo <= |log|
    ensures forall i :: 0 <= i < lo ==> !(from <= log[i] <= from + MAX_CRASH_WINDOW)
    ensures lo < |log| ==> from <= log[lo] <= from + MAX_CRASH_WINDOW
  {
    lo := 0;
    while lo < |log| && !(from <= log[lo] <= from + MAX_CRASH_WINDOW)
      invariant lo <= |log|
      invariant forall i :: 0 <= i < lo ==> !(from <= log[i] <= from + MAX_CRASH_WINDOW)
    {
      lo := lo + 1;
    }
  }

  /** In every run any closed interval of 60 s holds at most eight crashes: three left over from
      one tumbling window and five from the next. */
  lemma RateHolds(start: int, turns: seq<Turn>)
    ensures AtMostEightPerMinute(Run(Initial(start), turns).log)
  {
    RunKeepsInv(start, turns);
    var log := Run(Initial(start), turns).log;
    forall from: int ensures CountWithin(log, from) <= 8 {
      var lo := FirstWithin(log, from);
      var hi := if lo + 8 < |log| then lo + 8 else |log|;
      if hi < |log| {
        assert log[hi] - log[lo] > MAX_CRASH_WINDOW;
        assert forall i :: hi < i < |log| ==> log[hi] <= log[i];
      }
      CountIsBetween(log, from, lo, hi);
    }
  }

  // ---------------------------------------------------------------- how long it waits

  /** Which crash began the window of the last one: a window ends with its fifth crash, or when a crash comes more than
      a minute after its first. */
  function WindowBegin(log: seq<int>): (b: nat)
    requires log != []
    ensures b < |log| <= b + 5
  {
    var n := |log| - 1;
    if n == 0 then 0
    else
      var b := WindowBegin(log[..n]);
      if n - b == 5 || log[n] - log[b] > 60_000_000_000 then n else b
  }

  /** The counter counts the crashes of the current window. */
  ghost predicate CountsWindow(s: State) {
    if s.log == [] then s.crashes == 0
    else
      var b := WindowBegin(s.log);
      if |s.log| - b == 5 then s.crashes == 0 else s.crashes == |s.log| - b && s.firstCrash == s.log[b]
  }

  lemma CrashCounts(s: State, ran: nat, late: nat)
    requires CountsWindow(s) && !s.stopped
    ensures var s', at := Apply(s, Crashes(ran, late)), s.now + ran;
            && CountsWindow(s') && s'.log == s.log + [at] && !s'.stopped
            && s'.now == at + late + (if |s'.log| - WindowBegin(s'.log) == 5 then 300_000_000_000 else 3_000_000_000)
  {
    var s' := Apply(s, Crashes(ran, late));
    assert s'.log[..|s.log|] == s.log;
  }

  lemma {:induction false} RunCountsWindow(start: int, turns: seq<Turn>)
    ensures CountsWindow(Run(Initial(start), turns))
  {
    if turns != [] {
      var s, turn := Run(Initial(start), turns[..|turns| - 1]), turns[|turns| - 1];
      RunCountsWindow(start, turns[..|turns| - 1]);
      if turn.Crashes? && !s.stopped {
        CrashCounts(s, turn.ran, turn.late);
      }
    }
  }

  /** When the agent is started again, in every run: three seconds after it could not be started, never after a clean
      exit, and after a crash in five minutes or three seconds, depending on whether it was the fifth of its window. */
  lemma RestartsExactly(start: int, turns: seq<Turn>, turn: Turn)
    requires !Run(Initial(start), turns).stopped
    ensures var s, s' := Run(Initial(start), turns), Run(Initial(start), turns + [turn]);
            match turn
            case StartFails(late) => !s'.stopped && s'.now == s.now + 3_000_000_000 + late && s'.log == s.log
            case ExitsCleanly(_) => s'.stopped && s'.log == s.log
            case Crashes(ran, late) =>
              && !s'.stopped && s'.log == s.log + [s.now + ran]
              && s'.now == s.now + ran + late
                           + (if |s'.log| - WindowBegin(s'.log) == 5 then 300_000_000_000 else 3_000_000_000)
  {
    assert (turns + [turn])[..|turns|] == turns;
    RunCountsWindow(start, turns);
    if turn.Crashes? {
      CrashCounts(Run(Initial(start), turns), turn.ran, turn.late);
    }
  }

  // ---------------------------------------------------------------- the bound is reached

  /** The agent runs for 49 s once and otherwise dies at once. */
  function Flapping(n: nat): seq<Turn> {
    if n == 0 then [] else Flapping(n - 1) + [Crashes(if n == 2 then 49 * SECOND else 0, 0)]
  }

  lemma FlappingStep(n: nat, before: State)
    requires n > 0 && Run(Initial(0), Flapping(n - 1)) == before
    ensures Run(Initial(0), Flapping(n)) == Apply(before, Crashes(if n == 2 then 49 * SECOND else 0, 0))
  {
    assert Flapping(n)[..|Flapping(n)| - 1] == Flapping(n - 1);
  }

  function FlappingLog(n: nat): seq<int> {
    if n == 0 then [] else FlappingLog(n - 1) + [if n == 1 then 0 else (46 + 3 * n) * SECOND]
  }

  /** The state after n of the crashes: four in the first window, the others in a new one. */
  function FlappingState(n: nat): State
    requires 1 <= n <= 8
  {
    var restarted := (if n == 1 then 0 else (46 + 3 * n) * SECOND) + RESTART_DELAY;
    if n <= 4 then State(restarted, n, 0, false, FlappingLog(n))
    else State(restarted, n - 4, 61 * SECOND, false, FlappingLog(n))
  }

  lemma {:induction false} FlappingRun(n: nat)
    requires 1 <= n <= 8
    ensures Run(Initial(0), Flapping(n)) == FlappingState(n)
  {
    if n == 1 {
      FlappingStep(1, Initial(0));
    } else {
      FlappingRun(n - 1);
      FlappingStep(n, FlappingState(n - 1));
      NextFlappingState(n);
    }
  }

  lemma NextFlappingState(n: nat)
    requires 2 <= n <= 8
    ensures Apply(FlappingState(n - 1), Crashes(if n == 2 then 49 * SECOND else 0, 0)) == FlappingState(n)
  {}

  /** The bound is reached: of nine crashes the last eight come within 21 s. */
  lemma EightIsReached()
    ensures var log := Run(Initial(0), Flapping(9)).log;
            |log| == 9 && log[1] == 52_000_000_000 && log[8] == 73_000_000_000
  {
    FlappingRun(8);
    FlappingStep(9, FlappingState(8));
    FlappingLogAt(8, 1);
  }

  lemma {:induction false} FlappingLogAt(n: nat, k: nat)
    requires k < n
    ensures |FlappingLog(n)| == n && FlappingLog(n)[k] == if k == 0 then 0 else (49 + 3 * k) * SECOND
  {
    if n > 1 {
      FlappingLogAt(n - 1, if k < n - 1 then k else 0);
    }
  }
}
