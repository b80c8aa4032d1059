/**
 * The write-behind heartbeat buffer of the API (apps/api/src/modules/agent/heartbeat-buffer.service.ts).
 * A flush is two atomic pieces around the awaited UPDATE, so flushes and records interleave.
 */
module HeartbeatBuffer {

  type Device = string

  type Stamps = map<Device, int>

  /** What is pushed back after a failed UPDATE: never over a newer heartbeat. */
  function PutBack(pending: Stamps, snapshot: Stamps): Stamps {
    map d | d in pending.Keys + snapshot.Keys ::
      if d in snapshot && (d !in pending || pending[d] < snapshot[d]) then snapshot[d] else pending[d]
  }

  class HeartbeatBufferService {
    var pending: Stamps

    constructor ()
      ensures pending == map[]
    {
      pending := map[];
    }

    /** Heartbeats without a device id (absent or empty) are dropped. */
    method Record(deviceId: Device, lastSeenAt: int)
      modifies this
      ensures pending == if deviceId == "" then old(pending) else old(pending)[deviceId := lastSeenAt]
    {
      if deviceId == "" {
        return;
      }
      pending := pending[deviceId := lastSeenAt];
    }

    /** The part of flush before the UPDATE. */
    method TakeSnapshot() returns (snapshot: Stamps)
      modifies this
      ensures snapshot == old(pending) && pending == map[]
    {
      snapshot := pending;
      if |pending| == 0 {
        return;
      }
      pending := map[];
    }

    /** The catch block: a loop over the snapshot's entries, in whatever order. */
    method RestoreFailed(snapshot: Stamps)
      modifies this
      ensures pending == PutBack(old(pending), snapshot)
    {
      var left := snapshot.Keys;
      while left != {}
        invariant left <= snapshot.Keys
        invariant pending == PutBack(old(pending), snapshot - left)
        decreases left
      {
        var id :| id in left;
        var ts := snapshot[id];
        if id !in pending || pending[id] < ts {
          pending := pending[id := ts];
        }
        left := left - {id};
      }
      assert snapshot - {} == snapshot;
    }
  }

  // ---------------------------------------------------------------- interleaved flushes

  /** `stored` is last_seen_at of the devices in `active`, the only ones the UPDATE touches. */
  datatype State = State(
    pending: Stamps, inFlight: seq<Stamps>, stored: Stamps,
    newest: Stamps,                 // the latest heartbeat recorded for each device
    written: set<(Device, int)>)    // every pair some successful UPDATE carried

  const INITIAL := State(map[], [], map[], map[], {})

  datatype Step =
    | Record(device: Device, ts: int)
    | BeginFlush
    | FlushSucceeds(i: nat)
    | FlushFails(i: nat)

  predicate Enabled(s: State, step: Step) {
    match step
    case Record(d, ts) => d != "" && (d in s.newest ==> s.newest[d] <= ts)
    case BeginFlush => s.pending != map[]
    case FlushSucceeds(i) => i < |s.inFlight|
    case FlushFails(i) => i < |s.inFlight|
  }

  function Without<T>(xs: seq<T>, i: nat): seq<T>
    requires i < |xs|
  {
    xs[..i] + xs[i + 1..]
  }

  function Update(stored: Stamps, snapshot: Stamps, active: set<Device>): Stamps {
    stored + (map d | d in snapshot && d in active :: snapshot[d])
  }

  function Apply(s: State, step: Step, active: set<Device>): State {
    if !Enabled(s, step) then s
    else
      match step
      case Record(d, ts) => s.(pending := s.pending[d := ts], newest := s.newest[d := ts])
      case BeginFlush => s.(pending := map[], inFlight := s.inFlight + [s.pending])
      case FlushSucceeds(i) =>
        var snapshot := s.inFlight[i];
        s.(inFlight := Without(s.inFlight, i), stored := Update(s.stored, snapshot, active),
           written := s.written + set d | d in snapshot :: (d, snapshot[d]))
      case FlushFails(i) =>
        s.(inFlight := Without(s.inFlight, i), pending := PutBack(s.pending, s.inFlight[i]))
  }

  function Run(steps: seq<Step>, active: set<Device>): State {
    if steps == [] then INITIAL
    else Apply(Run(steps[..|steps| - 1], active), steps[|steps| - 1], active)
  }

  ghost predicate CarriedBy(inFlight: seq<Stamps>, d: Device, ts: int) {
    exists i :: 0 <= i < |inFlight| && d in inFlight[i] && inFlight[i][d] == ts
  }

  /** Where the newest heartbeat of d is. */
  ghost predicate NewestKept(s: State, d: Device)
    requires d in s.newest
  {
    || (d in s.pending && s.pending[d] == s.newest[d])
    || CarriedBy(s.inFlight, d, s.newest[d])
    || (d, s.newest[d]) in s.written
  }

  ghost predicate UpTo(m: Stamps, newest: Stamps) {
    forall d :: d in m ==> d in newest && m[d] <= newest[d]
  }

  ghost predicate Inv(s: State) {
    && UpTo(s.pending, s.newest)
    && (forall i :: 0 <= i < |s.inFlight| ==> UpTo(s.inFlight[i], s.newest))
    && (forall d :: d in s.newest ==> NewestKept(s, d))
  }

  lemma CarriedByOthers(xs: seq<Stamps>, i: nat, d: Device, ts: int)
    requires i < |xs| && CarriedBy(xs, d, ts)
    ensures CarriedBy(Without(xs, i), d, ts) || (d in xs[i] && xs[i][d] == ts)
  {
    var j :| 0 <= j < |xs| && d in xs[j] && xs[j][d] == ts;
    if j < i {
      assert Without(xs, i)[j] == xs[j];
    } else if j > i {
      assert Without(xs, i)[j - 1] == xs[j];
    }
  }

  lemma StepKeepsInv(s: State, step: Step, active: set<Device>)
    requires Inv(s)
    ensures Inv(Apply(s, step, active))
  {
    if Enabled(s, step) {
      var s' := Apply(s, step, active);
      if step.FlushSucceeds? || step.FlushFails? {
        forall j | 0 <= j < |s'.inFlight| ensures s'.inFlight[j] in s.inFlight {}
      }
      forall d | d in s'.newest ensures NewestKept(s', d) {
        if d in s.newest && s'.newest[d] == s.newest[d] {
          assert NewestKept(s, d);
          if CarriedBy(s.inFlight, d, s.newest[d]) {
            match step
            case Record(_, _) =>
            case BeginFlush =>
              var j :| 0 <= j < |s.inFlight| && d in s.inFlight[j] && s.inFlight[j][d] == s.newest[d];
              assert s'.inFlight[j] == s.inFlight[j];
            case FlushSucceeds(i) => CarriedByOthers(s.inFlight, i, d, s.newest[d]);
            case FlushFails(i) => CarriedByOthers(s.inFlight, i, d, s.newest[d]);
          } else if step.BeginFlush? {
            assert s'.inFlight[|s.inFlight|] == s.pending;
          }
        }
      }
    }
  }

  /** Under arbitrarily overlapping and failing flushes no device's newest heartbeat is ever lost. */
  lemma {:induction false} NewestIsNeverLost(steps: seq<Step>, active: set<Device>)
    ensures Inv(Run(steps, active))
    ensures forall d :: d in Run(steps, active).newest ==> NewestKept(Run(steps, active), d)
  {
    if steps != [] {
      NewestIsNeverLost(steps[..|steps| - 1], active);
      StepKeepsInv(Run(steps[..|steps| - 1], active), steps[|steps| - 1], active);
    }
  }

  /** What an undisturbed flush does, whatever else is in flight: if the UPDATE succeeds, every pending heartbeat of an
      active device is stored and no other stamp changes; if it fails, everything is as before. */
  lemma FlushExactly(s: State, active: set<Device>)
    requires s.pending != map[]
    ensures var n, begun := |s.inFlight|, Apply(s, BeginFlush, active);
            var done, failed := Apply(begun, FlushSucceeds(n), active), Apply(begun, FlushFails(n), active);
            && done.pending == map[] && done.inFlight == s.inFlight && done.newest == s.newest
            && (forall d :: d in done.stored <==> d in s.stored || (d in s.pending && d in active))
            && (forall d :: d in done.stored ==>
                  done.stored[d] == if d in s.pending && d in active then s.pending[d] else s.stored[d])
            && failed == s
  {
    var n, begun := |s.inFlight|, Apply(s, BeginFlush, active);
    assert begun.inFlight[n] == s.pending && Without(begun.inFlight, n) == s.inFlight;
    assert PutBack(map[], s.pending) == s.pending;
  }

  // ---------------------------------------------------------------- which overlaps do harm

  /** Beginning a flush while a snapshot in flight holds an older heartbeat of some active device than `pending`. */
  predicate Overtakes(s: State, i: nat, d: Device, active: set<Device>) {
    i < |s.inFlight| && d in active && d in s.inFlight[i] && d in s.pending && s.inFlight[i][d] < s.pending[d]
  }

  ghost predicate Dangerous(s: State, step: Step, active: set<Device>) {
    step.BeginFlush? && Enabled(s, step) && exists i: nat, d :: Overtakes(s, i, d, active)
  }

  ghost predicate HarmlessRun(steps: seq<Step>, active: set<Device>) {
    steps == []
    || (HarmlessRun(steps[..|steps| - 1], active)
        && !Dangerous(Run(steps[..|steps| - 1], active), steps[|steps| - 1], active))
  }

  /** No later stage holds an older heartbeat of an active device. */
  ghost predicate NotAfter(a: Stamps, b: Stamps, active: set<Device>) {
    forall d :: d in active && d in a && d in b ==> a[d] <= b[d]
  }

  /** Where the newest heartbeat of an active device is. */
  ghost predicate NewestAhead(s: State, d: Device)
    requires d in s.newest
  {
    || (d in s.pending && s.pending[d] == s.newest[d])
    || CarriedBy(s.inFlight, d, s.newest[d])
    || (d in s.stored && s.stored[d] == s.newest[d])
  }

  /** One snapshot in flight, between what is stored and what is pending. */
  ghost predicate Between(s: State, snapshot: Stamps, active: set<Device>) {
    UpTo(snapshot, s.newest) && NotAfter(s.stored, snapshot, active) && NotAfter(snapshot, s.pending, active)
  }

  ghost predicate AllBetween(s: State, active: set<Device>) {
    forall i :: 0 <= i < |s.inFlight| ==> Between(s, s.inFlight[i], active)
  }

  ghost predicate AllAgree(inFlight: seq<Stamps>, active: set<Device>) {
    forall i, j :: 0 <= i < |inFlight| && 0 <= j < |inFlight| ==> NotAfter(inFlight[i], inFlight[j], active)
  }

  ghost predicate EndsStaged(s: State, active: set<Device>) {
    && s.stored.Keys <= active && UpTo(s.pending, s.newest) && UpTo(s.stored, s.newest)
    && NotAfter(s.stored, s.pending, active)
  }

  /** Stored, then in flight, then pending; snapshots in flight together agree. */
  ghost predicate Staged(s: State, active: set<Device>) {
    && EndsStaged(s, active) && AllBetween(s, active) && AllAgree(s.inFlight, active)
    && forall d :: d in s.newest && d in active ==> NewestAhead(s, d)
  }

  lemma RecordStaysStaged(s: State, step: Step, active: set<Device>)
    requires Staged(s, active) && Enabled(s, step) && step.Record?
    ensures Staged(Apply(s, step, active), active)
  {
    var s' := Apply(s, step, active);
    forall d | d in s'.newest && d in active ensures NewestAhead(s', d) {
      if d != step.device {
        assert NewestAhead(s, d);
      }
    }
  }

  lemma BeginStaysStaged(s: State, active: set<Device>)
    requires Staged(s, active) && Enabled(s, BeginFlush) && !Dangerous(s, BeginFlush, active)
    ensures Staged(Apply(s, BeginFlush, active), active)
  {
    var s', n := Apply(s, BeginFlush, active), |s.inFlight|;
    forall i | 0 <= i < n ensures NotAfter(s.pending, s.inFlight[i], active) {
      forall d | d in active && d in s.pending && d in s.inFlight[i] ensures s.pending[d] <= s.inFlight[i][d] {
        assert !Overtakes(s, i, d, active);
      }
    }
    assert s'.inFlight[n] == s.pending;
    forall d | d in s'.newest && d in active ensures NewestAhead(s', d) {
      assert NewestAhead(s, d);
      if CarriedBy(s.inFlight, d, s.newest[d]) {
        var j :| 0 <= j < n && d in s.inFlight[j] && s.inFlight[j][d] == s.newest[d];
        assert s'.inFlight[j] == s.inFlight[j];
      }
    }
  }

  lemma EndedNewest(s: State, i: nat, step: Step, active: set<Device>, d: Device)
    requires Staged(s, active) && (step == FlushSucceeds(i) || step == FlushFails(i)) && i < |s.inFlight|
    requires d in s.newest && d in active
    ensures NewestAhead(Apply(s, step, active), d)
  {
    assert NewestAhead(s, d);
    if CarriedBy(s.inFlight, d, s.newest[d]) {
      CarriedByOthers(s.inFlight, i, d, s.newest[d]);
    }
  }

  lemma EndedBetween(s: State, i: nat, step: Step, active: set<Device>, snapshot: Stamps)
    requires (step == FlushSucceeds(i) || step == FlushFails(i)) && i < |s.inFlight|
    requires Between(s, s.inFlight[i], active) && Between(s, snapshot, active)
    requires NotAfter(s.inFlight[i], snapshot, active) && NotAfter(snapshot, s.inFlight[i], active)
    ensures Between(Apply(s, step, active), snapshot, active)
  {}

  lemma EndedEnds(s: State, i: nat, step: Step, active: set<Device>)
    requires EndsStaged(s, active) && (step == FlushSucceeds(i) || step == FlushFails(i)) && i < |s.inFlight|
    requires Between(s, s.inFlight[i], active)
    ensures EndsStaged(Apply(s, step, active), active)
  {}

  lemma EndedAllBetween(s: State, i: nat, step: Step, active: set<Device>)
    requires AllBetween(s, active) && AllAgree(s.inFlight, active)
    requires (step == FlushSucceeds(i) || step == FlushFails(i)) && i < |s.inFlight|
    ensures AllBetween(Apply(s, step, active), active)
  {
    var s' := Apply(s, step, active);
    forall j | 0 <= j < |s'.inFlight| ensures Between(s', s'.inFlight[j], active) {
      EndedBetween(s, i, step, active, s.inFlight[if j < i then j else j + 1]);
    }
  }

  lemma OthersAgree(inFlight: seq<Stamps>, i: nat, active: set<Device>)
    requires AllAgree(inFlight, active) && i < |inFlight|
    ensures AllAgree(Without(inFlight, i), active)
  {
    var others := Without(inFlight, i);
    forall j, k | 0 <= j < |others| && 0 <= k < |others| ensures NotAfter(others[j], others[k], active) {
      assert others[j] == inFlight[if j < i then j else j + 1];
      assert others[k] == inFlight[if k < i then k else k + 1];
    }
  }

  lemma EndStaysStaged(s: State, i: nat, step: Step, active: set<Device>)
    requires Staged(s, active) && (step == FlushSucceeds(i) || step == FlushFails(i)) && i < |s.inFlight|
    ensures Staged(Apply(s, step, active), active)
  {
    EndedEnds(s, i, step, active);
    EndedAllBetween(s, i, step, active);
    OthersAgree(s.inFlight, i, active);
    forall d | d in s.newest && d in active ensures NewestAhead(Apply(s, step, active), d) {
      EndedNewest(s, i, step, active, d);
    }
  }

  lemma StepStaysStaged(s: State, step: Step, active: set<Device>)
    requires Staged(s, active) && !Dangerous(s, step, active)
    ensures Staged(Apply(s, step, active), active)
  {
    if Enabled(s, step) {
      match step
      case Record(_, _) => RecordStaysStaged(s, step, active);
      case BeginFlush => BeginStaysStaged(s, active);
      case FlushSucceeds(i) => EndStaysStaged(s, i, step, active);
      case FlushFails(i) => EndStaysStaged(s, i, step, active);
    }
  }

  lemma {:induction false} StaysStaged(steps: seq<Step>, active: set<Device>)
    requires HarmlessRun(steps, active)
    ensures Staged(Run(steps, active), active)
  {
    if steps != [] {
      StaysStaged(steps[..|steps| - 1], active);
      StepStaysStaged(Run(steps[..|steps| - 1], active), steps[|steps| - 1], active);
    }
  }

  ghost predicate Lowers(s: State, step: Step, active: set<Device>) {
    var s' := Apply(s, step, active);
    exists d :: d in s.stored && d in s'.stored && s'.stored[d] < s.stored[d]
  }

  lemma StagedIsNotLowered(s: State, step: Step, active: set<Device>, d: Device)
    requires Staged(s, active) && d in s.stored
    ensures var s' := Apply(s, step, active);
            d in s'.stored && s.stored[d] <= s'.stored[d]
  {}

  /** As long as no overlap was dangerous the stored value never goes back... */
  lemma StoredNeverGoesBack(steps: seq<Step>, step: Step, active: set<Device>, d: Device)
    requires HarmlessRun(steps, active) && d in Run(steps, active).stored
    ensures var s, s' := Run(steps, active), Apply(Run(steps, active), step, active);
            d in s'.stored && s.stored[d] <= s'.stored[d]
  {
    StaysStaged(steps, active);
    StagedIsNotLowered(Run(steps, active), step, active, d);
  }

  /** ...and once nothing is pending or in flight it is the newest heartbeat of every active device. */
  lemma QuiescentIsNewest(steps: seq<Step>, active: set<Device>, d: Device)
    requires HarmlessRun(steps, active) && d in Run(steps, active).newest && d in active
    requires Run(steps, active).pending == map[] && Run(steps, active).inFlight == []
    ensures var s := Run(steps, active);
            d in s.stored && s.stored[d] == s.newest[d]
  {
    StaysStaged(steps, active);
    assert NewestAhead(Run(steps, active), d);
  }

  /** No flush begins while another is in flight. */
  predicate NeverOverlaps(steps: seq<Step>, active: set<Device>) {
    steps == []
    || (NeverOverlaps(steps[..|steps| - 1], active)
        && (steps[|steps| - 1].BeginFlush? ==> Run(steps[..|steps| - 1], active).inFlight == []))
  }

  lemma {:induction false} NoOverlapIsHarmless(steps: seq<Step>, active: set<Device>)
    requires NeverOverlaps(steps, active)
    ensures HarmlessRun(steps, active)
  {
    if steps != [] {
      NoOverlapIsHarmless(steps[..|steps| - 1], active);
    }
  }

  // ---------------------------------------------------------------- exactly when a stored value goes back

  function RunFrom(s: State, steps: seq<Step>, active: set<Device>): State {
    if steps == [] then s else Apply(RunFrom(s, steps[..|steps| - 1], active), steps[|steps| - 1], active)
  }

  predicate Beginless(steps: seq<Step>) {
    forall i :: 0 <= i < |steps| ==> !steps[i].BeginFlush?
  }

  /** Without any further flush beginning, some stored value can still go back. */
  ghost predicate WillGoBack(s: State, active: set<Device>) {
    exists steps, step :: Beginless(steps + [step]) && Lowers(RunFrom(s, steps, active), step, active)
  }

  lemma {:induction false} BeginlessStaysStaged(s: State, steps: seq<Step>, active: set<Device>)
    requires Staged(s, active) && Beginless(steps)
    ensures Staged(RunFrom(s, steps, active), active)
  {
    if steps != [] {
      BeginlessStaysStaged(s, steps[..|steps| - 1], active);
      StepStaysStaged(RunFrom(s, steps[..|steps| - 1], active), steps[|steps| - 1], active);
    }
  }

  lemma StagedWillNotGoBack(s: State, active: set<Device>)
    requires Staged(s, active)
    ensures !WillGoBack(s, active)
  {
    forall steps: seq<Step>, step: Step | Beginless(steps + [step]) ensures !Lowers(RunFrom(s, steps, active), step, active) {
      forall i | 0 <= i < |steps| ensures !steps[i].BeginFlush? {
        assert (steps + [step])[i] == steps[i];
      }
      BeginlessStaysStaged(s, steps, active);
      forall d | d in RunFrom(s, steps, active).stored
        ensures var s1, s2 := RunFrom(s, steps, active), Apply(RunFrom(s, steps, active), step, active);
                d in s2.stored && s1.stored[d] <= s2.stored[d]
      {
        StagedIsNotLowered(RunFrom(s, steps, active), step, active, d);
      }
    }
  }

  /** The new flush writes first, then the overtaken one. */
  lemma OvertakenLowers(s: State, active: set<Device>, i: nat, d: Device)
    requires Overtakes(s, i, d, active)
    ensures WillGoBack(Apply(s, BeginFlush, active), active)
  {
    var begun, n := Apply(s, BeginFlush, active), |s.inFlight|;
    var first := [FlushSucceeds(n)];
    var s1 := Apply(begun, FlushSucceeds(n), active);
    assert begun.inFlight[n] == s.pending;
    assert s1.inFlight[i] == s.inFlight[i];
    assert first[..0] == [] && RunFrom(begun, first, active) == s1;
    assert s1.stored[d] == s.pending[d] && Apply(s1, FlushSucceeds(i), active).stored[d] == s.inFlight[i][d];
    assert Lowers(s1, FlushSucceeds(i), active);
    assert Beginless(first + [FlushSucceeds(i)]);
  }

  /** The exact condition, to be looked up before each step: after any run without a dangerous overlap, with any number
      of flushes in flight, failing or succeeding in any order, the step makes it possible for a stored value to go
      back if and only if it begins a flush that is dangerous. */
  lemma OverlapCanGoBack(steps: seq<Step>, step: Step, active: set<Device>)
    requires HarmlessRun(steps, active)
    ensures WillGoBack(Apply(Run(steps, active), step, active), active) <==> Dangerous(Run(steps, active), step, active)
  {
    var s := Run(steps, active);
    StaysStaged(steps, active);
    if Dangerous(s, step, active) {
      var i: nat, d :| Overtakes(s, i, d, active);
      OvertakenLowers(s, active, i, d);
    } else {
      StepStaysStaged(s, step, active);
      StagedWillNotGoBack(Apply(s, step, active), active);
    }
  }
}
