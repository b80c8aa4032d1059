/**
 * The AFK machine of the agent's event loop (apps/agent/cmd/agent/main.go and idle_filter.go)
 * together with the heartbeat queue it pauses and flushes.
 */
module Afk {
  import opened Events
  import HQ = HeartbeatQueue

  const WINDOW_STREAM := "window"
  const PULSETIME := 2 * SECOND
  const COMMIT_THRESHOLD := 60 * SECOND

  function Uint32(n: int): nat { n % 0x1_0000_0000 }

  // ---------------------------------------------------------------- the median filter

  function Low(x: nat, y: nat): nat { if x < y then x else y }
  function High(x: nat, y: nat): nat { if x < y then y else x }

  function Median(x: nat, y: nat, z: nat): nat {
    High(Low(x, y), Low(High(x, y), z))
  }

  /** How many of three samples are below t. */
  function Below(x: nat, y: nat, z: nat, t: nat): nat {
    (if x < t then 1 else 0) + (if y < t then 1 else 0) + (if z < t then 1 else 0)
  }

  /** The three conditional swaps give a sample with two samples at or below it and two at or above it. */
  method MedianUint32(a: seq<nat>) returns (y: nat)
    requires |a| == 3
    ensures y == Median(a[0], a[1], a[2]) && y in a
    ensures Below(a[0], a[1], a[2], y) <= 1 && Below(a[0], a[1], a[2], y + 1) >= 2
  {
    var x, z;
    x, y, z := a[0], a[1], a[2];
    if x > y {
      x, y := y, x;
    }
    if y > z {
      z, y := y, z;
    }
    if x > y {
      x, y := y, x;
    }
  }

  /** The median is below a threshold exactly when two of the samples are. */
  lemma MedianByMajority(x: nat, y: nat, z: nat, t: nat)
    ensures Median(x, y, z) < t <==> Below(x, y, z, t) >= 2
  {}

  // ---------------------------------------------------------------- the event loop

  datatype State = State(isAFK: bool, ring: seq<nat>, idx: nat, confirm: nat, window: HQ.Stream)

  const INITIAL := State(false, [0, 0, 0], 0, 0, HQ.EMPTY)

  datatype Op =
    | IdleTick(rawIdle: int)
    | Suspend
    | Resume
    | WindowEvent(app: string, ts: int, data: Data)
    | SyncTick

  function MedianOf(ring: seq<nat>): nat
    requires |ring| == 3
  {
    Median(ring[0], ring[1], ring[2])
  }

  function Tick(s: State, rawIdle: int, threshold: nat): State
    requires |s.ring| == 3
  {
    var ring := s.ring[s.idx % 3 := Uint32(rawIdle)];
    var idle := MedianOf(ring);
    var confirm := if idle < threshold then s.confirm + 1 else 0;
    if s.isAFK && confirm >= 2 then State(false, ring, s.idx + 1, confirm, s.window)
    else if !s.isAFK && idle >= threshold then State(true, ring, s.idx + 1, confirm, HQ.FlushAllStep(s.window))
    else State(s.isAFK, ring, s.idx + 1, confirm, s.window)
  }

  function Step(s: State, op: Op, threshold: nat): State
    requires |s.ring| == 3
  {
    match op
    case IdleTick(rawIdle) => Tick(s, rawIdle, threshold)
    case Suspend => s.(window := HQ.FlushAllStep(s.window))
    case Resume => s.(isAFK := false, window := HQ.FlushAllStep(s.window))
    case WindowEvent(app, ts, data) =>
      if s.isAFK || app == "" then s
      else s.(window := HQ.PushStep(s.window, Event(ts, SECOND, data), PULSETIME, COMMIT_THRESHOLD))
    case SyncTick => s.(window := HQ.FlushAllStep(s.window))
  }

  class EventLoop {
    const hq: HQ.Queue
    const threshold: nat
    var isAFK: bool
    var idleSamples: array<nat>
    var idleSampleIdx: nat
    var activeConfirmCount: nat

    ghost predicate Valid() reads this, hq {
      idleSamples.Length == 3 && hq.Valid() && hq.commitInterval == COMMIT_THRESHOLD
    }

    ghost function View(): State
      requires Valid()
      reads this, hq, idleSamples, hq.lastHeartbeat.Values
    {
      State(isAFK, idleSamples[..], idleSampleIdx, activeConfirmCount, hq.View(WINDOW_STREAM))
    }

    constructor (hq: HQ.Queue, idleThreshold: int)
      requires hq.Valid() && hq.commitInterval == COMMIT_THRESHOLD && hq.View(WINDOW_STREAM) == HQ.EMPTY
      ensures Valid() && View() == INITIAL && this.hq == hq && threshold == idleThreshold % 0x1_0000_0000
      ensures fresh(idleSamples)
    {
      this.hq, threshold := hq, Uint32(idleThreshold);
      isAFK, idleSampleIdx, activeConfirmCount := false, 0, 0;
      idleSamples := new nat[3](_ => 0);
      new;
      assert idleSamples[..] == [0, 0, 0];
    }

    method OnIdleTick(rawIdle: int)
      requires Valid()
      modifies this, idleSamples, hq
      ensures Valid() && idleSamples == old(idleSamples)
      ensures View() == Step(old(View()), IdleTick(rawIdle), threshold)
    {
      idleSamples[idleSampleIdx % 3] := Uint32(rawIdle);
      idleSampleIdx := idleSampleIdx + 1;
      var idleSec := MedianUint32(idleSamples[..]);
      if idleSec < threshold {
        activeConfirmCount := activeConfirmCount + 1;
      } else {
        activeConfirmCount := 0;
      }
      var prevAFK := isAFK;
      if isAFK && activeConfirmCount >= 2 {
        isAFK := false;
      } else if !isAFK && idleSec >= threshold {
        isAFK := true;
      }
      if prevAFK != isAFK {
        if isAFK {
          hq.FlushAll();
        }
      }
    }

    method OnSuspend()
      requires Valid()
      modifies hq
      ensures Valid() && View() == Step(old(View()), Suspend, threshold)
    {
      hq.FlushAll();
    }

    method OnResume()
      requires Valid()
      modifies this, hq
      ensures Valid() && idleSamples == old(idleSamples) && View() == Step(old(View()), Resume, threshold)
    {
      isAFK := false;
      hq.FlushAll();
    }

    method OnWindowEvent(app: string, ts: int, data: Data)
      requires Valid()
      modifies hq, hq.lastHeartbeat.Values
      ensures Valid() && View() == Step(old(View()), WindowEvent(app, ts, data), threshold)
    {
      if isAFK || app == "" {
        return;
      }
      hq.Push(WINDOW_STREAM, Event(ts, SECOND, data), PULSETIME);
    }
  }

  // ---------------------------------------------------------------- runs

  function Run(s: State, ops: seq<Op>, threshold: nat): (r: State)
    requires |s.ring| == 3
    ensures |r.ring| == 3
  {
    if ops == [] then s else Step(Run(s, ops[..|ops| - 1], threshold), ops[|ops| - 1], threshold)
  }

  /** The idle samples taken, oldest first. */
  function Samples(ops: seq<Op>): seq<nat> {
    if ops == [] then []
    else
      var op := ops[|ops| - 1];
      Samples(ops[..|ops| - 1]) + (if op.IdleTick? then [op.rawIdle % 0x1_0000_0000] else [])
  }

  /** Sample number k; the ring starts out as if zeros had been sampled before. */
  function SampleAt(samples: seq<nat>, k: int): nat {
    if 0 <= k < |samples| then samples[k] else 0
  }

  /** The filtered idle time after sample number k. */
  function Filtered(samples: seq<nat>, k: int): nat {
    Median(SampleAt(samples, k), SampleAt(samples, k - 1), SampleAt(samples, k - 2))
  }

  /** How many filtered readings up to the newest were below the threshold without interruption. */
  function Streak(samples: seq<nat>, threshold: nat): nat {
    if samples == [] || Filtered(samples, |samples| - 1) >= threshold then 0
    else Streak(samples[..|samples| - 1], threshold) + 1
  }

  /** The last three samples, each in the slot of its number. */
  ghost predicate RingHolds(ring: seq<nat>, samples: seq<nat>) {
    var n := |samples|;
    && |ring| == 3
    && ring[n % 3] == SampleAt(samples, n - 3)
    && ring[(n + 1) % 3] == SampleAt(samples, n - 2)
    && ring[(n + 2) % 3] == SampleAt(samples, n - 1)
  }

  ghost predicate Inv(s: State, samples: seq<nat>, threshold: nat) {
    && s.idx == |samples| && RingHolds(s.ring, samples)
    && s.confirm == Streak(samples, threshold)
    && (s.isAFK ==> s.window.cached.None?)
  }

  lemma RingStep(ring: seq<nat>, samples: seq<nat>, sample: nat)
    requires RingHolds(ring, samples)
    ensures var ring', samples' := ring[|samples| % 3 := sample], samples + [sample];
            RingHolds(ring', samples') && MedianOf(ring') == Filtered(samples', |samples|)
  {
    var n, r := |samples|, |samples| % 3;
    var ring', samples' := ring[r := sample], samples + [sample];
    assert SampleAt(samples', n) == sample;
    assert SampleAt(samples', n - 1) == SampleAt(samples, n - 1) && SampleAt(samples', n - 2) == SampleAt(samples, n - 2);
    if r == 0 {
      assert (n + 1) % 3 == 1 && (n + 2) % 3 == 2 && (n + 3) % 3 == 0;
    } else if r == 1 {
      assert (n + 1) % 3 == 2 && (n + 2) % 3 == 0 && (n + 3) % 3 == 1;
    } else {
      assert (n + 1) % 3 == 0 && (n + 2) % 3 == 1 && (n + 3) % 3 == 2;
    }
  }

  lemma TickKeepsInv(s: State, samples: seq<nat>, rawIdle: int, threshold: nat)
    requires Inv(s, samples, threshold)
    ensures var samples' := samples + [Uint32(rawIdle)];
            && Inv(Tick(s, rawIdle, threshold), samples', threshold)
            && MedianOf(Tick(s, rawIdle, threshold).ring) == Filtered(samples', |samples|)
  {
    RingStep(s.ring, samples, Uint32(rawIdle));
    assert (samples + [Uint32(rawIdle)])[..|samples|] == samples;
  }

  /** The ring holds the last three samples, the confirmation counter the current streak,
      and the queue holds nothing while the user is away. */
  lemma {:induction false} RunKeepsInv(ops: seq<Op>, threshold: nat)
    ensures Inv(Run(INITIAL, ops, threshold), Samples(ops), threshold)
  {
    if ops != [] {
      var before, op := ops[..|ops| - 1], ops[|ops| - 1];
      RunKeepsInv(before, threshold);
      if op.IdleTick? {
        TickKeepsInv(Run(INITIAL, before, threshold), Samples(before), op.rawIdle, threshold);
      } else {
        assert Samples(before) + [] == Samples(before);
      }
    }
  }

  /** Nothing is cached while AFK. */
  lemma {:induction false} QueueIsEmptyWhileAway(ops: seq<Op>, threshold: nat)
    requires Run(INITIAL, ops, threshold).isAFK
    ensures Run(INITIAL, ops, threshold).window.cached.None?
  {
    RunKeepsInv(ops, threshold);
  }

  /** AFK is left exactly at the second of two consecutive filtered readings below the threshold,
      and entered exactly at a filtered reading at or above it. */
  ghost predicate FlipsRightly(away: bool, away': bool, samples: seq<nat>, n: int, threshold: nat) {
    && (away ==> (!away' <==> n >= 1 && Filtered(samples, n) < threshold && Filtered(samples, n - 1) < threshold))
    && (!away ==> (away' <==> Filtered(samples, n) >= threshold))
  }

  lemma TickFlipsRightly(s: State, before: seq<nat>, rawIdle: int, threshold: nat)
    requires Inv(s, before, threshold)
    ensures FlipsRightly(s.isAFK, Tick(s, rawIdle, threshold).isAFK, before + [Uint32(rawIdle)], |before|, threshold)
  {
    var samples, n := before + [Uint32(rawIdle)], |before|;
    RingStep(s.ring, before, Uint32(rawIdle));
    if n >= 1 {
      assert Filtered(samples, n - 1) == Filtered(before, n - 1);
    }
  }

  lemma TickOutcome(ops: seq<Op>, rawIdle: int, threshold: nat)
    ensures var s, s' := Run(INITIAL, ops, threshold), Run(INITIAL, ops + [IdleTick(rawIdle)], threshold);
            && s' == Tick(s, rawIdle, threshold)
            && Samples(ops + [IdleTick(rawIdle)]) == Samples(ops) + [Uint32(rawIdle)]
            && FlipsRightly(s.isAFK, s'.isAFK, Samples(ops + [IdleTick(rawIdle)]), |Samples(ops)|, threshold)
  {
    assert (ops + [IdleTick(rawIdle)])[..|ops|] == ops;
    RunKeepsInv(ops, threshold);
    TickFlipsRightly(Run(INITIAL, ops, threshold), Samples(ops), rawIdle, threshold);
  }

  // ---------------------------------------------------------------- single outliers

  /** From sample `from` on, every three consecutive samples hold at most one at or above the threshold. */
  ghost predicate MostlyActive(samples: seq<nat>, from: nat, threshold: nat) {
    forall k :: from <= k < |samples| ==>
      Below(SampleAt(samples, k), SampleAt(samples, k - 1), SampleAt(samples, k - 2), threshold) >= 2
  }

  ghost predicate MostlyIdle(samples: seq<nat>, from: nat, threshold: nat) {
    forall k :: from <= k < |samples| ==>
      Below(SampleAt(samples, k), SampleAt(samples, k - 1), SampleAt(samples, k - 2), threshold) <= 1
  }

  lemma {:induction false} SamplesConcat(ops: seq<Op>, more: seq<Op>)
    ensures Samples(ops + more) == Samples(ops) + Samples(more)
  {
    if more == [] {
      assert ops + more == ops;
    } else {
      var n := |more| - 1;
      assert (ops + more)[..|ops| + n] == ops + more[..n];
      SamplesConcat(ops, more[..n]);
    }
  }

  /** One more sample that leaves the majority of the last three where the state says it is. */
  lemma OutlierTickKeepsState(ops: seq<Op>, rawIdle: int, threshold: nat)
    ensures var away, away' := Run(INITIAL, ops, threshold).isAFK, Run(INITIAL, ops + [IdleTick(rawIdle)], threshold).isAFK;
            var samples, k := Samples(ops) + [Uint32(rawIdle)], |Samples(ops)|;
            var below := Below(SampleAt(samples, k), SampleAt(samples, k - 1), SampleAt(samples, k - 2), threshold);
            (!away && below >= 2 ==> !away') && (away && below <= 1 ==> away')
  {
    TickOutcome(ops, rawIdle, threshold);
    var samples, k := Samples(ops) + [Uint32(rawIdle)], |Samples(ops)|;
    MedianByMajority(SampleAt(samples, k), SampleAt(samples, k - 1), SampleAt(samples, k - 2), threshold);
  }

  lemma MajorityPrefix(samples: seq<nat>, sample: nat, from: nat, threshold: nat)
    ensures MostlyActive(samples + [sample], from, threshold) ==> MostlyActive(samples, from, threshold)
    ensures MostlyIdle(samples + [sample], from, threshold) ==> MostlyIdle(samples, from, threshold)
  {
    assert forall j :: j < |samples| ==> SampleAt(samples + [sample], j) == SampleAt(samples, j);
  }

  /** The state `away` survives as long as the samples are mostly on its side. */
  ghost predicate Holds(away: bool, away': bool, samples: seq<nat>, from: nat, threshold: nat) {
    && (!away && MostlyActive(samples, from, threshold) ==> !away')
    && (away && MostlyIdle(samples, from, threshold) ==> away')
  }

  lemma TickHolds(ops: seq<Op>, rawIdle: int, away: bool, from: nat, threshold: nat)
    requires from <= |Samples(ops)| && Holds(away, Run(INITIAL, ops, threshold).isAFK, Samples(ops), from, threshold)
    ensures Holds(away, Run(INITIAL, ops + [IdleTick(rawIdle)], threshold).isAFK,
                  Samples(ops) + [Uint32(rawIdle)], from, threshold)
  {
    OutlierTickKeepsState(ops, rawIdle, threshold);
    MajorityPrefix(Samples(ops), Uint32(rawIdle), from, threshold);
  }

  /** Single outliers never flip the state, in either direction (resume aside). */
  lemma {:induction false} OutliersNeverFlip(ops: seq<Op>, more: seq<Op>, threshold: nat)
    requires forall k :: 0 <= k < |more| ==> !more[k].Resume?
    ensures Holds(Run(INITIAL, ops, threshold).isAFK, Run(INITIAL, ops + more, threshold).isAFK,
                  Samples(ops + more), |Samples(ops)|, threshold)
  {
    if more == [] {
      assert ops + more == ops;
    } else {
      var n := |more| - 1;
      var before, op := ops + more[..n], more[n];
      OutliersNeverFlip(ops, more[..n], threshold);
      assert ops + more == before + [op] && (ops + more)[..|before|] == before;
      SamplesConcat(ops, more[..n]);
      if op.IdleTick? {
        TickHolds(before, op.rawIdle, Run(INITIAL, ops, threshold).isAFK, |Samples(ops)|, threshold);
        assert Samples(ops + more) == Samples(before) + [Uint32(op.rawIdle)];
      } else {
        assert Samples(ops + more) == Samples(before);
      }
    }
  }

  // ---------------------------------------------------------------- what is recorded, and when it is written

  /** Event number i shows a window while the user is active. */
  ghost predicate IsSeen(ops: seq<Op>, i: nat, threshold: nat) {
    i < |ops| && ops[i].WindowEvent? && ops[i].app != "" && !Run(INITIAL, ops[..i], threshold).isAFK
  }

  /** In every run each window seen while active lies, as a heartbeat of one second, in a cached or committed event. */
  lemma {:induction false} SeenIsKept(ops: seq<Op>, i: nat, threshold: nat)
    requires IsSeen(ops, i, threshold)
    ensures HQ.Kept(Event(ops[i].ts, 1_000_000_000, ops[i].data), Run(INITIAL, ops, threshold).window)
  {
    var n := |ops| - 1;
    var s, hb := Run(INITIAL, ops[..n], threshold), Event(ops[i].ts, 1_000_000_000, ops[i].data);
    if i < n {
      assert ops[..n][..i] == ops[..i];
      SeenIsKept(ops[..n], i, threshold);
    }
    QueueOpKeeps(hb, s, ops[n], threshold);
  }

  lemma QueueOpKeeps(hb: Event, s: State, op: Op, threshold: nat)
    requires |s.ring| == 3 && hb.dur > 0
    requires HQ.Kept(hb, s.window)
             || (op.WindowEvent? && op.app != "" && !s.isAFK && hb == Event(op.ts, 1_000_000_000, op.data))
    ensures HQ.Kept(hb, Step(s, op, threshold).window)
  {
    if op.WindowEvent? {
      if !s.isAFK && op.app != "" {
        HQ.StepKeeps(hb, s.window, HQ.Push(Event(op.ts, 1_000_000_000, op.data), PULSETIME), COMMIT_THRESHOLD);
      }
    } else {
      HQ.StepKeeps(hb, s.window, HQ.FlushAll, COMMIT_THRESHOLD);
    }
  }

  /** Suspend, resume and the sync tick, and a tick that finds the user away, leave nothing waiting in memory: every
      window seen before lies in a committed event. */
  lemma NothingWaits(ops: seq<Op>, op: Op, i: nat, threshold: nat)
    requires IsSeen(ops, i, threshold)
    requires op.Suspend? || op.Resume? || op.SyncTick? || (op.IdleTick? && Run(INITIAL, ops + [op], threshold).isAFK)
    ensures var committed := Run(INITIAL, ops + [op], threshold).window.committed;
            exists k :: 0 <= k < |committed| && Inside(Event(ops[i].ts, 1_000_000_000, ops[i].data), committed[k])
  {
    var all := ops + [op];
    assert all[..|ops|] == ops && all[..i] == ops[..i] && all[i] == ops[i];
    SeenIsKept(all, i, threshold);
    RunKeepsInv(all, threshold);
    assert Run(INITIAL, all, threshold) == Step(Run(INITIAL, ops, threshold), op, threshold);
    assert Run(INITIAL, all, threshold).window.cached.None?;
    var hb := Event(ops[i].ts, 1_000_000_000, ops[i].data);
    var committed := Run(INITIAL, all, threshold).window.committed;
    var k :| 0 <= k < |committed| && Inside(hb, committed[k]);
  }

  /** Resume ends the absence, whatever the samples say, and an active user is tracked at once. */
  lemma ResumeEndsAbsence(ops: seq<Op>, app: string, ts: int, data: Data, threshold: nat)
    ensures var s := Run(INITIAL, ops + [Resume], threshold);
            && !s.isAFK && s.window.cached.None?
            && (app != "" ==> Step(s, WindowEvent(app, ts, data), threshold).window
                              == HQ.Stream(Some(Event(ts, 1_000_000_000, data)), s.window.committed))
  {
    assert (ops + [Resume])[..|ops|] == ops;
  }

  /** While the user is away, or without an application name, a window event changes nothing. Otherwise it commits the
      cached event exactly if the data differ, or it comes before it or more than two seconds after it, or the two
      together span a minute. */
  lemma WindowEventCommitsExactly(s: State, app: string, ts: int, data: Data, threshold: nat)
    requires |s.ring| == 3 && s.window.cached.Some?
    ensures var last, s' := s.window.cached.value, Step(s, WindowEvent(app, ts, data), threshold);
            s'.window.committed == s.window.committed
            <==> s.isAFK || app == ""
                 || (last.data == data && last.ts <= ts <= last.ts + last.dur + 2_000_000_000
                     && ts + 1_000_000_000 - last.ts < 60_000_000_000 && last.dur < 60_000_000_000)
    ensures s.isAFK || app == "" ==> Step(s, WindowEvent(app, ts, data), threshold) == s
  {
    HQ.PushCommitsExactly(s.window, Event(ts, 1_000_000_000, data), 2_000_000_000, 60_000_000_000);
  }

  // ---------------------------------------------------------------- commits on both sides of an absence

  /** What the loop asks of the queue. */
  function QueueOps(s: State, ops: seq<Op>, threshold: nat): seq<HQ.Op>
    requires |s.ring| == 3
  {
    if ops == [] then []
    else
      var before := ops[..|ops| - 1];
      QueueOps(s, before, threshold) + QueueOp(Run(s, before, threshold), ops[|ops| - 1], threshold)
  }

  function QueueOp(s: State, op: Op, threshold: nat): seq<HQ.Op>
    requires |s.ring| == 3
  {
    match op
    case IdleTick(rawIdle) => if !s.isAFK && Tick(s, rawIdle, threshold).isAFK then [HQ.FlushAll] else []
    case WindowEvent(app, ts, data) =>
      if s.isAFK || app == "" then [] else [HQ.Push(Event(ts, SECOND, data), PULSETIME)]
    case Suspend => [HQ.FlushAll]
    case Resume => [HQ.FlushAll]
    case SyncTick => [HQ.FlushAll]
  }

  lemma {:induction false} WindowIsQueueRun(s: State, ops: seq<Op>, threshold: nat)
    requires |s.ring| == 3
    ensures Run(s, ops, threshold).window == HQ.Run(s.window, QueueOps(s, ops, threshold), COMMIT_THRESHOLD)
  {
    if ops != [] {
      var before := ops[..|ops| - 1];
      var earlier, asked := QueueOps(s, before, threshold), QueueOp(Run(s, before, threshold), ops[|ops| - 1], threshold);
      WindowIsQueueRun(s, before, threshold);
      if asked == [] {
        assert earlier + asked == earlier;
      } else {
        assert (earlier + asked)[..|earlier|] == earlier;
      }
    }
  }

  /** From an AFK state on, commits are those of a queue that starts empty and sees only what is pushed
      from then on: no committed event mixes heartbeats from both sides of an absence. */
  lemma {:induction false} NoCommitSpansAbsence(ops: seq<Op>, later: seq<Op>, threshold: nat)
    requires Run(INITIAL, ops, threshold).isAFK
    ensures var s := Run(INITIAL, ops, threshold);
            (Run(s, later, threshold).window.committed
             == s.window.committed + HQ.Run(HQ.EMPTY, QueueOps(s, later, threshold), COMMIT_THRESHOLD).committed)
  {
    var s := Run(INITIAL, ops, threshold);
    QueueIsEmptyWhileAway(ops, threshold);
    WindowIsQueueRun(s, later, threshold);
    HQ.CommittedIsOnlyAppended(s.window, QueueOps(s, later, threshold), COMMIT_THRESHOLD);
  }
}
