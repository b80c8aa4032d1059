/**
 * The client-side pre-merge queue (apps/agent/internal/heartbeat/merge.go).
 * Queue is the source's object; Stream is what one of its streams looks like,
 * and Run is the whole history of one stream.
 */
module HeartbeatQueue {
  import opened Events

  const MAX_EVENT_DURATION := HOUR

  /** One stream of the queue: the cached event and everything committed so far. */
  datatype Stream = Stream(cached: Option<Event>, committed: seq<Event>)

  const EMPTY := Stream(None, [])

  function PushStep(s: Stream, hb: Event, pulse: int, commitInterval: int): Stream {
    match s.cached
    case None => s.(cached := Some(hb))
    case Some(last) =>
      if CanMerge(last, hb, pulse) then
        var merged := Extend(last, hb);
        if merged.dur >= commitInterval || merged.dur >= MAX_EVENT_DURATION then
          Stream(Some(hb), s.committed + [merged])
        else
          Stream(Some(merged), s.committed)
      else
        Stream(Some(hb), s.committed + [last])
  }

  function FlushStep(s: Stream): Stream {
    if s.cached.Some? && s.cached.value.dur > 0
    then Stream(None, s.committed + [s.cached.value])
    else s
  }

  function FlushAllStep(s: Stream): Stream {
    FlushStep(s).(cached := None)
  }

  /** The calls of the commit handler that concern one stream. */
  ghost function CommitsOf(log: seq<(string, Event)>, stream: string): seq<Event> {
    if log == [] then []
    else
      var last := log[|log| - 1];
      CommitsOf(log[..|log| - 1], stream) + (if last.0 == stream then [last.1] else [])
  }

  lemma CommitsOfAppend(log: seq<(string, Event)>, stream: string, e: Event, other: string)
    ensures CommitsOf(log + [(stream, e)], other)
         == CommitsOf(log, other) + (if stream == other then [e] else [])
  {
    assert (log + [(stream, e)])[..|log|] == log;
  }

  class Queue {
    const commitInterval: int
    var lastHeartbeat: map<string, EventRef>
    /** The calls of onCommit, oldest first, each tagged with the stream it came from. */
    var commits: seq<(string, Event)>

    /** No two streams share a cached event. */
    ghost predicate Valid() reads this {
      forall s, t :: s in lastHeartbeat && t in lastHeartbeat && lastHeartbeat[s] == lastHeartbeat[t] ==> s == t
    }

    ghost function View(stream: string): Stream
      reads this, lastHeartbeat.Values
    {
      Stream(
        if stream in lastHeartbeat then Some(lastHeartbeat[stream].event) else None,
        CommitsOf(commits, stream))
    }

    constructor (commitInterval: int)
      ensures Valid() && this.commitInterval == commitInterval
      ensures forall s :: View(s) == EMPTY
    {
      this.commitInterval := commitInterval;
      lastHeartbeat := map[];
      commits := [];
    }

    method Commit(stream: string, e: Event)
      modifies this`commits
      ensures forall s :: CommitsOf(commits, s)
                       == old(CommitsOf(commits, s)) + (if s == stream then [e] else [])
    {
      forall s ensures CommitsOf(commits + [(stream, e)], s)
                    == CommitsOf(commits, s) + (if s == stream then [e] else []) {
        CommitsOfAppend(commits, stream, e, s);
      }
      commits := commits + [(stream, e)];
    }

    method Push(stream: string, event: Event, pulse: int)
      requires Valid()
      modifies this`lastHeartbeat, this`commits, lastHeartbeat.Values
      ensures Valid()
      ensures View(stream) == PushStep(old(View(stream)), event, pulse, commitInterval)
      ensures forall s :: s != stream ==> View(s) == old(View(s))
      ensures fresh(lastHeartbeat.Values - old(lastHeartbeat.Values))
    {
      if stream !in lastHeartbeat {
        var e := new EventRef(event);
        lastHeartbeat := lastHeartbeat[stream := e];
        return;
      }
      var last := lastHeartbeat[stream];
      var hb := new EventRef(event);
      var merged := HeartbeatMerge(last, hb, pulse);
      if merged != null {
        if merged.event.dur >= commitInterval {
          CommitAndRenew(stream, merged.event, event);
        } else if merged.event.dur >= MAX_EVENT_DURATION {
          CommitAndRenew(stream, merged.event, event);
        }
        return;
      }
      CommitAndRenew(stream, last.event, event);
    }

    /** Commits one event of a stream and caches a copy of the heartbeat that starts the next one. */
    method CommitAndRenew(stream: string, done: Event, next: Event)
      requires Valid()
      modifies this`lastHeartbeat, this`commits
      ensures Valid()
      ensures View(stream) == Stream(Some(next), old(View(stream)).committed + [done])
      ensures forall s :: s != stream ==> View(s) == old(View(s))
      ensures fresh(lastHeartbeat.Values - old(lastHeartbeat.Values))
    {
      Commit(stream, done);
      var e := new EventRef(next);
      lastHeartbeat := lastHeartbeat[stream := e];
    }

    method Flush(stream: string)
      requires Valid()
      modifies this`lastHeartbeat, this`commits
      ensures Valid()
      ensures View(stream) == FlushStep(old(View(stream)))
      ensures forall s :: s != stream ==> View(s) == old(View(s))
      ensures lastHeartbeat.Values <= old(lastHeartbeat.Values)
    {
      if stream in lastHeartbeat && lastHeartbeat[stream].event.dur > 0 {
        Commit(stream, lastHeartbeat[stream].event);
        lastHeartbeat := lastHeartbeat - {stream};
      }
    }

    /** Go ranges over the map in an arbitrary order; no stream can tell. */
    method FlushAll()
      requires Valid()
      modifies this`lastHeartbeat, this`commits
      ensures Valid() && lastHeartbeat == map[]
      ensures forall s :: View(s) == FlushAllStep(old(View(s)))
    {
      ghost var cached, log := map s | s in lastHeartbeat :: lastHeartbeat[s].event, commits;
      var left := lastHeartbeat.Keys;
      while left != {}
        invariant left == lastHeartbeat.Keys <= cached.Keys
        invariant forall s :: s in left ==> lastHeartbeat[s] == old(lastHeartbeat[s])
        invariant forall s :: CommitsOf(commits, s) == CommitsOf(log, s) + FlushedBy(cached, left, s)
        decreases left
      {
        var stream :| stream in left;
        var last := lastHeartbeat[stream];
        assert last.event == cached[stream];
        if last.event.dur > 0 {
          Commit(stream, last.event);
        }
        forall s ensures CommitsOf(commits, s) == CommitsOf(log, s) + FlushedBy(cached, left - {stream}, s) {
          OneMoreFlushed(CommitsOf(log, s), cached, left, stream, s);
        }
        lastHeartbeat := lastHeartbeat - {stream};
        left := left - {stream};
      }
    }
  }

  /** What FlushAll has committed of stream `s` when `left` is still to come. */
  ghost function FlushedBy(cached: map<string, Event>, left: set<string>, s: string): seq<Event> {
    if s in cached && s !in left && cached[s].dur > 0 then [cached[s]] else []
  }

  lemma OneMoreFlushed(log: seq<Event>, cached: map<string, Event>, left: set<string>, stream: string, s: string)
    requires stream in cached && stream in left
    ensures log + FlushedBy(cached, left - {stream}, s)
         == log + FlushedBy(cached, left, s) + (if s == stream && cached[s].dur > 0 then [cached[s]] else [])
  {}

  /** What one stream sees: its own pushes and flushes, and every FlushAll. */
  datatype Op = Push(hb: Event, pulse: int) | Flush | FlushAll

  function Step(s: Stream, op: Op, commitInterval: int): Stream {
    match op
    case Push(hb, pulse) => PushStep(s, hb, pulse, commitInterval)
    case Flush => FlushStep(s)
    case FlushAll => FlushAllStep(s)
  }

  function Run(s: Stream, ops: seq<Op>, commitInterval: int): Stream {
    if ops == [] then s
    else Step(Run(s, ops[..|ops| - 1], commitInterval), ops[|ops| - 1], commitInterval)
  }

  // ---------------------------------------------------------------- what coalesces

  /** A push onto a cached event commits exactly if the data differ, or it starts outside the event and its merge
      window, or the merged span reaches the commit interval or an hour. */
  lemma PushCommitsExactly(s: Stream, hb: Event, pulse: int, ci: int)
    requires s.cached.Some?
    ensures var last, s' := s.cached.value, PushStep(s, hb, pulse, ci);
            var apart := last.data != hb.data || hb.ts < last.ts || hb.ts > last.ts + last.dur + pulse;
            var end := if hb.ts + hb.dur > last.ts + last.dur then hb.ts + hb.dur else last.ts + last.dur;
            var joined := Event(last.ts, end - last.ts, last.data);
            && (s'.committed != s.committed <==> apart || end - last.ts >= ci || end - last.ts >= 3_600_000_000_000)
            && (s'.committed == s.committed ==> s'.cached == Some(joined))
            && (s'.committed != s.committed ==>
                  s' == Stream(Some(hb), s.committed + [if apart then last else joined]))
  {
    assert |s.committed + [s.cached.value]| > |s.committed|;
  }

  /** The latest end among an event and the pushes after it (LatestEndIsMaximum). */
  function LatestEnd(first: Event, pushes: seq<(Event, int)>): int {
    if pushes == [] then first.ts + first.dur
    else
      var before, hb := LatestEnd(first, pushes[..|pushes| - 1]), pushes[|pushes| - 1].0;
      if hb.ts + hb.dur > before then hb.ts + hb.dur else before
  }

  lemma {:induction false} LatestEndIsMaximum(first: Event, pushes: seq<(Event, int)>)
    ensures var end := LatestEnd(first, pushes);
            && first.ts + first.dur <= end
            && (forall i :: 0 <= i < |pushes| ==> pushes[i].0.ts + pushes[i].0.dur <= end)
            && (end == first.ts + first.dur || exists i :: 0 <= i < |pushes| && end == pushes[i].0.ts + pushes[i].0.dur)
  {
    if pushes != [] {
      var n := |pushes| - 1;
      LatestEndIsMaximum(first, pushes[..n]);
      assert forall i :: 0 <= i < n ==> pushes[..n][i] == pushes[i];
    }
  }

  function Pushes(pushes: seq<(Event, int)>): seq<Op> {
    seq(|pushes|, i requires 0 <= i < |pushes| => Op.Push(pushes[i].0, pushes[i].1))
  }

  /** Push number i has the data of `first` and starts within it and its successors, or at most its merge window later. */
  ghost predicate Continues(first: Event, pushes: seq<(Event, int)>, i: nat)
    requires i < |pushes|
  {
    && pushes[i].0.data == first.data
    && first.ts <= pushes[i].0.ts <= LatestEnd(first, pushes[..i]) + pushes[i].1
  }

  ghost predicate OneSession(first: Event, pushes: seq<(Event, int)>, ci: int) {
    && (forall i :: 0 <= i < |pushes| ==> Continues(first, pushes, i))
    && (pushes != [] ==> LatestEnd(first, pushes) - first.ts < ci
                         && LatestEnd(first, pushes) - first.ts < 3_600_000_000_000)
  }

  lemma OneSessionStep(first: Event, pushes: seq<(Event, int)>, ci: int)
    requires pushes != []
    ensures OneSession(first, pushes, ci) <==>
              var n := |pushes| - 1;
              && OneSession(first, pushes[..n], ci) && Continues(first, pushes, n)
              && LatestEnd(first, pushes) - first.ts < ci
              && LatestEnd(first, pushes) - first.ts < 3_600_000_000_000
  {
    var n := |pushes| - 1;
    forall i | 0 <= i < n ensures Continues(first, pushes[..n], i) == Continues(first, pushes, i) {
      assert pushes[..n][..i] == pushes[..i];
    }
    if OneSession(first, pushes, ci) {
      assert forall i :: 0 <= i < n ==> Continues(first, pushes[..n], i);
    }
  }

  /** Pushes onto a cached event coalesce exactly if they are one session: equal data, each starting no earlier than the
      first and no later than its merge window after all that came before, the whole span below the commit interval
      and an hour. Then nothing is committed and one event from the first start to the latest end is cached. */
  lemma {:induction false} CoalescesExactly(s: Stream, first: Event, pushes: seq<(Event, int)>, ci: int)
    requires s.cached == Some(first)
    ensures var s' := Run(s, Pushes(pushes), ci);
            && s.committed <= s'.committed && s'.cached.Some?
            && (s'.committed == s.committed <==> OneSession(first, pushes, ci))
            && (s'.committed == s.committed ==>
                  s'.cached == Some(Event(first.ts, LatestEnd(first, pushes) - first.ts, first.data)))
  {
    if pushes != [] {
      var n := |pushes| - 1;
      CoalescesExactly(s, first, pushes[..n], ci);
      OneSessionStep(first, pushes, ci);
      assert Pushes(pushes)[..n] == Pushes(pushes[..n]);
      var before := Run(s, Pushes(pushes[..n]), ci);
      PushCommitsExactly(before, pushes[n].0, pushes[n].1, ci);
    }
  }

  /** What the queue is for: the heartbeats of one session of activity become one committed event. */
  lemma SessionIsOneEvent(first: Event, pulse: int, pushes: seq<(Event, int)>, ci: int)
    requires OneSession(first, pushes, ci)
    ensures var s := Run(EMPTY, [Op.Push(first, pulse)] + Pushes(pushes), ci);
            var whole := Event(first.ts, LatestEnd(first, pushes) - first.ts, first.data);
            && s == Stream(Some(whole), [])
            && FlushStep(s) == if whole.dur > 0 then Stream(None, [whole]) else s
  {
    var start := [Op.Push(first, pulse)];
    assert start[..0] == [];
    assert Run(EMPTY, start, ci) == Stream(Some(first), []);
    RunConcat(EMPTY, start, Pushes(pushes), ci);
    CoalescesExactly(Run(EMPTY, start, ci), first, pushes, ci);
  }

  // ---------------------------------------------------------------- coverage

  ghost predicate Kept(hb: Event, s: Stream) {
    (exists k :: 0 <= k < |s.committed| && Inside(hb, s.committed[k]))
    || (s.cached.Some? && Inside(hb, s.cached.value))
  }

  lemma StepKeeps(hb: Event, s: Stream, op: Op, ci: int)
    requires hb.dur > 0
    requires Kept(hb, s) || (op.Push? && op.hb == hb)
    ensures Kept(hb, Step(s, op, ci))
  {
    var s' := Step(s, op, ci);
    if k :| 0 <= k < |s.committed| && Inside(hb, s.committed[k]) {
      assert s'.committed[k] == s.committed[k];
    } else if |s'.committed| > |s.committed| {
      assert s'.committed[|s.committed|] == s'.committed[|s'.committed| - 1];
    }
  }

  lemma {:induction false} PushedIsKept(ops: seq<Op>, i: nat, ci: int)
    requires i < |ops| && ops[i].Push? && ops[i].hb.dur > 0
    ensures Kept(ops[i].hb, Run(EMPTY, ops, ci))
  {
    var n := |ops| - 1;
    if i < n {
      PushedIsKept(ops[..n], i, ci);
    }
    StepKeeps(ops[i].hb, Run(EMPTY, ops[..n], ci), ops[n], ci);
  }

  /** After a FlushAll, every pushed heartbeat of positive duration lies in a committed event with its data. */
  lemma NothingIsLost(ops: seq<Op>, i: nat, ci: int)
    requires i < |ops| && ops[i].Push? && ops[i].hb.dur > 0
    ensures var s := Run(EMPTY, ops + [FlushAll], ci);
            s.cached.None? && exists k :: 0 <= k < |s.committed| && Inside(ops[i].hb, s.committed[k])
  {
    var all := ops + [FlushAll];
    assert all[..|ops|] == ops;
    PushedIsKept(all, i, ci);
  }

  ghost predicate IsPush(ops: seq<Op>, i: int, data: Data) {
    0 <= i < |ops| && ops[i].Push? && ops[i].hb.data == data
  }

  /** Instant `t` lies in a heartbeat pushed with this data, or in a gap between
      two of them that is no longer than the merge window of the second. */
  ghost predicate Observed(ops: seq<Op>, data: Data, t: int) {
    (exists i :: IsPush(ops, i, data) && ops[i].hb.ts <= t < ops[i].hb.End())
    || (exists i, j :: IsPush(ops, i, data) && IsPush(ops, j, data) && i < j
          && ops[i].hb.End() <= t < ops[j].hb.ts <= ops[i].hb.End() + ops[j].pulse)
  }

  lemma ObservedGrows(ops: seq<Op>, op: Op, data: Data, t: int)
    requires Observed(ops, data, t)
    ensures Observed(ops + [op], data, t)
  {
    var more := ops + [op];
    if i :| IsPush(ops, i, data) && ops[i].hb.ts <= t < ops[i].hb.End() {
      assert IsPush(more, i, data);
    } else {
      var i, j :| IsPush(ops, i, data) && IsPush(ops, j, data) && i < j
                  && ops[i].hb.End() <= t < ops[j].hb.ts <= ops[i].hb.End() + ops[j].pulse;
      assert IsPush(more, i, data) && IsPush(more, j, data);
    }
  }

  /** Every instant of `e` was observed, and its end is the end of a pushed heartbeat. */
  ghost predicate Justified(ops: seq<Op>, e: Event) {
    && (exists i :: IsPush(ops, i, e.data) && ops[i].hb.End() == e.End())
    && forall t :: e.ts <= t < e.End() ==> Observed(ops, e.data, t)
  }

  lemma JustifiedGrows(ops: seq<Op>, op: Op, e: Event)
    requires Justified(ops, e)
    ensures Justified(ops + [op], e)
  {
    var more := ops + [op];
    var i :| IsPush(ops, i, e.data) && ops[i].hb.End() == e.End();
    assert IsPush(more, i, e.data);
    forall t | e.ts <= t < e.End() ensures Observed(more, e.data, t) {
      ObservedGrows(ops, op, e.data, t);
    }
  }

  lemma PushIsJustified(ops: seq<Op>, op: Op)
    requires op.Push?
    ensures Justified(ops + [op], op.hb)
  {
    assert IsPush(ops + [op], |ops|, op.hb.data);
  }

  lemma MergeIsJustified(ops: seq<Op>, op: Op, last: Event)
    requires op.Push? && Justified(ops, last) && CanMerge(last, op.hb, op.pulse)
    ensures Justified(ops + [op], Extend(last, op.hb))
  {
    var more, n := ops + [op], |ops|;
    JustifiedGrows(ops, op, last);
    PushIsJustified(ops, op);
    assert IsPush(more, n, last.data);
    var i :| IsPush(ops, i, last.data) && ops[i].hb.End() == last.End();
    assert IsPush(more, i, last.data);
    var e := Extend(last, op.hb);
    forall t | e.ts <= t < e.End() ensures Observed(more, e.data, t) {
      MergeCoversBoth(last, op.hb, op.pulse, t);
      assert more[n].hb == op.hb && more[i].hb.End() == last.End();
    }
  }

  ghost predicate AllJustified(ops: seq<Op>, s: Stream) {
    && (s.cached.Some? ==> Justified(ops, s.cached.value))
    && forall k :: 0 <= k < |s.committed| ==> Justified(ops, s.committed[k])
  }

  /** Nothing is invented: each instant of a committed (or cached) event was observed. */
  lemma {:induction false} NothingIsInvented(ops: seq<Op>, ci: int)
    ensures AllJustified(ops, Run(EMPTY, ops, ci))
  {
    if ops != [] {
      var n := |ops| - 1;
      var before, op := ops[..n], ops[n];
      assert ops == before + [op];
      NothingIsInvented(before, ci);
      var s, s' := Run(EMPTY, before, ci), Run(EMPTY, ops, ci);
      assert s' == Step(s, op, ci);
      if s.cached.Some? {
        JustifiedGrows(before, op, s.cached.value);
        if op.Push? && CanMerge(s.cached.value, op.hb, op.pulse) {
          MergeIsJustified(before, op, s.cached.value);
        }
      }
      if op.Push? {
        PushIsJustified(before, op);
      }
      forall k | 0 <= k < |s'.committed| ensures Justified(ops, s'.committed[k]) {
        if k < |s.committed| {
          assert s'.committed[k] == s.committed[k];
          JustifiedGrows(before, op, s.committed[k]);
        }
      }
    }
  }

  // ---------------------------------------------------------------- time bounds

  function Min(a: int, b: int): int { if a < b then a else b }

  /** Pushes come in timestamp order with durations in (0, d] and merge windows up to p. */
  ghost predicate WellTimed(ops: seq<Op>, d: int, p: int) {
    && (forall i :: 0 <= i < |ops| && ops[i].Push? ==> 0 < ops[i].hb.dur <= d && ops[i].pulse <= p)
    && (forall i, j :: 0 <= i < j < |ops| && ops[i].Push? && ops[j].Push? ==> ops[i].hb.ts <= ops[j].hb.ts)
  }

  /** Latest pushed timestamp so far (meaningful once something was pushed). */
  ghost predicate NoLaterThan(ops: seq<Op>, t: int) {
    forall i :: 0 <= i < |ops| && ops[i].Push? ==> ops[i].hb.ts <= t
  }

  function Last(s: seq<Event>): Event
    requires s != []
  {
    s[|s| - 1]
  }

  /** `e` starts no earlier than `d` before the end of the newest committed event. */
  ghost predicate Follows(s: Stream, start: int, d: int) {
    s.committed != [] ==> Last(s.committed).End() - d <= start
  }

  ghost predicate Bounded(s: Stream, d: int, p: int, ci: int) {
    && (forall k :: 0 <= k < |s.committed| ==>
          0 < s.committed[k].dur < Min(ci, MAX_EVENT_DURATION) + p + d)
    && (forall k :: 0 <= k < |s.committed| - 1 ==>
          s.committed[k].End() - d <= s.committed[k + 1].ts)
    && (s.cached.Some? ==> 0 < s.cached.value.dur < Min(ci, MAX_EVENT_DURATION)
                           && Follows(s, s.cached.value.ts, d))
  }

  /** Nothing cached or committed ends more than `d` after `t`. */
  ghost predicate EndsBy(s: Stream, t: int, d: int) {
    && (s.cached.Some? ==> s.cached.value.End() <= t + d)
    && (s.committed != [] ==> Last(s.committed).End() <= t + d)
  }

  lemma {:induction false} EndsByLatestPush(ops: seq<Op>, d: int, p: int, ci: int, t: int)
    requires WellTimed(ops, d, p) && NoLaterThan(ops, t)
    ensures EndsBy(Run(EMPTY, ops, ci), t, d)
  {
    if ops != [] {
      assert ops[|ops| - 1] in ops;
      EndsByLatestPush(ops[..|ops| - 1], d, p, ci, t);
    }
  }

  lemma AppendKeepsBounds(s: Stream, e: Event, d: int, p: int, ci: int)
    requires Bounded(s, d, p, ci) && Follows(s, e.ts, d)
    requires 0 < e.dur < Min(ci, MAX_EVENT_DURATION) + p + d
    ensures Bounded(Stream(None, s.committed + [e]), d, p, ci)
  {}

  lemma FlushKeepsBounds(s: Stream, d: int, p: int, ci: int)
    requires Bounded(s, d, p, ci) && 0 <= p && 0 < d
    ensures Bounded(FlushStep(s), d, p, ci) && Bounded(FlushAllStep(s), d, p, ci)
  {
    if s.cached.Some? {
      AppendKeepsBounds(s, s.cached.value, d, p, ci);
    }
  }

  lemma PushKeepsBounds(s: Stream, hb: Event, pulse: int, d: int, p: int, ci: int)
    requires Bounded(s, d, p, ci) && EndsBy(s, hb.ts, d)
    requires 0 < hb.dur <= d < Min(ci, MAX_EVENT_DURATION) && pulse <= p && 0 <= p
    ensures Bounded(PushStep(s, hb, pulse, ci), d, p, ci)
  {
    if s.cached.Some? {
      var last := s.cached.value;
      var closing := if CanMerge(last, hb, pulse) then Extend(last, hb) else last;
      AppendKeepsBounds(s, closing, d, p, ci);
      assert Last(s.committed + [closing]) == closing;
    }
  }

  /** Every commit is shorter than min(commitInterval, 1h) + pulsetime + D, and
      consecutive commits of a stream overlap by at most D. */
  lemma {:induction false} CommitsAreBounded(ops: seq<Op>, d: int, p: int, ci: int)
    requires WellTimed(ops, d, p) && 0 <= p && 0 < d < Min(ci, MAX_EVENT_DURATION)
    ensures Bounded(Run(EMPTY, ops, ci), d, p, ci)
  {
    if ops != [] {
      var n := |ops| - 1;
      var before, op := ops[..n], ops[n];
      CommitsAreBounded(before, d, p, ci);
      if op.Push? {
        EndsByLatestPush(before, d, p, ci, op.hb.ts);
        PushKeepsBounds(Run(EMPTY, before, ci), op.hb, op.pulse, d, p, ci);
      } else {
        FlushKeepsBounds(Run(EMPTY, before, ci), d, p, ci);
      }
    }
  }

  lemma {:induction false} OverlapBoundsTotal(s: seq<Event>, d: int)
    requires s != [] && forall k :: 0 <= k < |s| - 1 ==> s[k].End() - d <= s[k + 1].ts
    ensures TotalTime(s) <= Last(s).End() - s[0].ts + (|s| - 1) * d
  {
    if |s| == 1 {
      assert TotalTime(s[..0]) == 0;
    } else {
      OverlapBoundsTotal(s[..|s| - 1], d);
    }
  }

  /** k commits total at most their span plus (k - 1) * D. */
  lemma TotalIsBounded(ops: seq<Op>, d: int, p: int, ci: int)
    requires WellTimed(ops, d, p) && 0 <= p && 0 < d < Min(ci, MAX_EVENT_DURATION)
    ensures var s := Run(EMPTY, ops, ci).committed;
            s != [] ==> TotalTime(s) <= Last(s).End() - s[0].ts + (|s| - 1) * d
  {
    CommitsAreBounded(ops, d, p, ci);
    var s := Run(EMPTY, ops, ci).committed;
    if s != [] {
      OverlapBoundsTotal(s, d);
    }
  }

  // ---------------------------------------------------------------- which commits overlap

  ghost predicate PositivePushes(ops: seq<Op>) {
    forall i :: 0 <= i < |ops| && ops[i].Push? ==> ops[i].hb.dur > 0
  }

  /** Which push started the cached event, which one started each commit, and which operation committed it. */
  datatype Trail = Trail(seed: Option<nat>, seeds: seq<nat>, closers: seq<nat>)

  function TrailOf(ops: seq<Op>, ci: int): Trail {
    if ops == [] then Trail(None, [], [])
    else
      var n := |ops| - 1;
      var t, s, s' := TrailOf(ops[..n], ci), Run(EMPTY, ops[..n], ci), Run(EMPTY, ops, ci);
      if |s'.committed| > |s.committed| && t.seed.Some? then
        Trail(if ops[n].Push? then Some(n) else None, t.seeds + [t.seed.value], t.closers + [n])
      else
        t.(seed := if s'.cached.None? then None else if s.cached.None? then Some(n) else t.seed)
  }

  /** What operation `op` commits of the cached event. */
  function Closing(last: Event, op: Op): Event {
    if op.Push? && CanMerge(last, op.hb, op.pulse) then Extend(last, op.hb) else last
  }

  ghost predicate Starts(ops: seq<Op>, seed: nat, e: Event) {
    seed < |ops| && ops[seed].Push? && e.ts == ops[seed].hb.ts
  }

  ghost predicate Closes(ops: seq<Op>, closer: nat, e: Event, ci: int) {
    closer < |ops| && var s := Run(EMPTY, ops[..closer], ci);
    s.cached.Some? && s.cached.value.dur > 0 && e == Closing(s.cached.value, ops[closer])
  }

  /** After a commit by a push, that push starts the next event; after one by a flush, the first push to come does. */
  ghost predicate FirstPushFrom(ops: seq<Op>, closer: nat, seed: nat) {
    && closer <= seed < |ops| && ops[seed].Push?
    && forall i :: closer <= i < seed ==> !ops[i].Push?
  }

  ghost predicate CommitsTraced(ops: seq<Op>, committed: seq<Event>, seeds: seq<nat>, closers: seq<nat>, ci: int) {
    && |seeds| == |closers| == |committed|
    && (forall j :: 0 <= j < |committed| ==> Starts(ops, seeds[j], committed[j]) && Closes(ops, closers[j], committed[j], ci))
    && (forall j :: 0 <= j < |committed| - 1 ==> FirstPushFrom(ops, closers[j], seeds[j + 1]))
  }

  ghost predicate TrailInv(ops: seq<Op>, s: Stream, t: Trail, ci: int) {
    var k := |s.committed|;
    && CommitsTraced(ops, s.committed, t.seeds, t.closers, ci)
    && (s.cached.Some? <==> t.seed.Some?)
    && (s.cached.Some? ==> s.cached.value.dur > 0 && Starts(ops, t.seed.value, s.cached.value)
                           && (k > 0 ==> FirstPushFrom(ops, t.closers[k - 1], t.seed.value)))
    && (s.cached.None? && k > 0 ==> forall i :: t.closers[k - 1] <= i < |ops| ==> !ops[i].Push?)
  }

  lemma TrailFactsGrow(ops: seq<Op>, op: Op, ci: int)
    ensures forall seed: nat, e :: Starts(ops, seed, e) ==> Starts(ops + [op], seed, e)
    ensures forall c: nat, e :: Closes(ops, c, e, ci) ==> Closes(ops + [op], c, e, ci)
    ensures forall c: nat, seed: nat :: FirstPushFrom(ops, c, seed) ==> FirstPushFrom(ops + [op], c, seed)
  {
    forall c: nat, e | Closes(ops, c, e, ci) ensures Closes(ops + [op], c, e, ci) {
      assert (ops + [op])[..c] == ops[..c];
    }
  }

  lemma OneMoreTraced(ops: seq<Op>, committed: seq<Event>, seeds: seq<nat>, closers: seq<nat>, ci: int,
                      e: Event, seed: nat, closer: nat)
    requires CommitsTraced(ops, committed, seeds, closers, ci) && Starts(ops, seed, e) && Closes(ops, closer, e, ci)
    requires committed != [] ==> FirstPushFrom(ops, closers[|closers| - 1], seed)
    ensures CommitsTraced(ops, committed + [e], seeds + [seed], closers + [closer], ci)
  {}

  lemma CommitIsClosing(s: Stream, op: Op, ci: int)
    requires |Step(s, op, ci).committed| > |s.committed|
    ensures s.cached.Some?
    ensures Step(s, op, ci) == Stream(if op.Push? then Some(op.hb) else None, s.committed + [Closing(s.cached.value, op)])
  {}

  /** What holds of the next event's seed right after a commit. */
  lemma NextSeed(ops: seq<Op>, op: Op)
    ensures op.Push? ==> Starts(ops + [op], |ops|, op.hb) && FirstPushFrom(ops + [op], |ops|, |ops|)
    ensures !op.Push? ==> forall i :: |ops| <= i < |ops + [op]| ==> !(ops + [op])[i].Push?
  {
    assert (ops + [op])[|ops|] == op;
  }

  /** A step that commits: the cached event is closed, and the next one is seeded by the same push or not at all yet. */
  lemma CommittingStep(ops: seq<Op>, op: Op, s: Stream, t: Trail, ci: int)
    requires s == Run(EMPTY, ops, ci) && TrailInv(ops, s, t, ci) && |Step(s, op, ci).committed| > |s.committed|
    requires op.Push? ==> op.hb.dur > 0
    ensures s.cached.Some?
    ensures TrailInv(ops + [op], Step(s, op, ci),
                     Trail(if op.Push? then Some(|ops|) else None, t.seeds + [t.seed.value], t.closers + [|ops|]), ci)
  {
    CommitIsClosing(s, op, ci);
    TrailFactsGrow(ops, op, ci);
    var all, e := ops + [op], Closing(s.cached.value, op);
    assert all[..|ops|] == ops && all[|ops|] == op;
    NextSeed(ops, op);
    assert Closes(all, |ops|, e, ci) && Starts(all, t.seed.value, e);
    OneMoreTraced(all, s.committed, t.seeds, t.closers, ci, e, t.seed.value, |ops|);
  }

  lemma SeedingStep(ops: seq<Op>, op: Op, s: Stream, t: Trail, ci: int)
    requires s == Run(EMPTY, ops, ci) && TrailInv(ops, s, t, ci) && s.cached.None? && op.Push? && op.hb.dur > 0
    ensures TrailInv(ops + [op], Step(s, op, ci), t.(seed := Some(|ops|)), ci)
  {
    TrailFactsGrow(ops, op, ci);
    var all, k := ops + [op], |s.committed|;
    assert Starts(all, |ops|, op.hb);
    if k > 0 {
      assert Closes(ops, t.closers[k - 1], s.committed[k - 1], ci);
      assert forall i :: t.closers[k - 1] <= i < |ops| ==> all[i] == ops[i];
      assert FirstPushFrom(all, t.closers[k - 1], |ops|);
    }
  }

  lemma KeepingSeedStep(ops: seq<Op>, op: Op, s: Stream, t: Trail, ci: int)
    requires s == Run(EMPTY, ops, ci) && TrailInv(ops, s, t, ci) && |Step(s, op, ci).committed| == |s.committed|
    requires if op.Push? then s.cached.Some? && op.hb.dur > 0 else s.cached.None?
    ensures TrailInv(ops + [op], Step(s, op, ci), t, ci)
  {
    TrailFactsGrow(ops, op, ci);
    assert forall i :: 0 <= i < |ops| ==> (ops + [op])[i] == ops[i];
  }

  lemma QuietStep(ops: seq<Op>, op: Op, s: Stream, t: Trail, ci: int)
    requires s == Run(EMPTY, ops, ci) && TrailInv(ops, s, t, ci) && |Step(s, op, ci).committed| == |s.committed|
    requires op.Push? ==> op.hb.dur > 0
    ensures var s' := Step(s, op, ci);
            TrailInv(ops + [op], s', t.(seed := if s'.cached.None? then None else if s.cached.None? then Some(|ops|) else t.seed), ci)
  {
    if op.Push? && s.cached.None? {
      SeedingStep(ops, op, s, t, ci);
    } else {
      KeepingSeedStep(ops, op, s, t, ci);
    }
  }

  lemma {:induction false} TrailIsTrue(ops: seq<Op>, ci: int)
    requires PositivePushes(ops)
    ensures TrailInv(ops, Run(EMPTY, ops, ci), TrailOf(ops, ci), ci)
  {
    if ops != [] {
      var n := |ops| - 1;
      var s, t := Run(EMPTY, ops[..n], ci), TrailOf(ops[..n], ci);
      assert ops == ops[..n] + [ops[n]];
      TrailIsTrue(ops[..n], ci);
      if |Step(s, ops[n], ci).committed| > |s.committed| {
        CommittingStep(ops[..n], ops[n], s, t, ci);
      } else {
        QuietStep(ops[..n], ops[n], s, t, ci);
      }
    }
  }

  /** Exactly which consecutive commits of a run overlap. A commit made by a push overlaps the next one if and only if
      that push merged into it (it is the heartbeat that crossed the threshold, committed twice) or came before its
      end; a commit made by a flush, if and only if the first push after the flush came before its end. */
  lemma CommitsOverlapExactly(ops: seq<Op>, k: nat, ci: int)
    requires PositivePushes(ops) && k + 1 < |Run(EMPTY, ops, ci).committed|
    ensures TrailInv(ops, Run(EMPTY, ops, ci), TrailOf(ops, ci), ci)
    ensures var s, closer, seed := Run(EMPTY, ops, ci), TrailOf(ops, ci).closers[k], TrailOf(ops, ci).seeds[k + 1];
            var last, push := Run(EMPTY, ops[..closer], ci).cached.value, ops[seed];
            && s.committed[k] == Closing(last, ops[closer])
            && (s.committed[k + 1].ts < s.committed[k].End()
                <==> push.hb.ts < last.End() || (seed == closer && CanMerge(last, push.hb, push.pulse)))
  {
    TrailIsTrue(ops, ci);
  }

  /** In particular commits are not disjoint: whenever a push reaches the threshold its heartbeat is in two events. */
  lemma BoundaryHeartbeatIsCommittedTwice(s: Stream, hb: Event, pulse: int, ci: int)
    requires s.cached.Some? && hb.dur > 0 && CanMerge(s.cached.value, hb, pulse)
    requires |PushStep(s, hb, pulse, ci).committed| > |s.committed|
    ensures var s' := PushStep(s, hb, pulse, ci);
            s'.cached == Some(hb) && Inside(hb, Last(s'.committed)) && hb.ts < Last(s'.committed).End()
  {}

  // ---------------------------------------------------------------- splitting a run

  lemma {:induction false} RunConcat(s: Stream, xs: seq<Op>, ys: seq<Op>, ci: int)
    ensures Run(s, xs + ys, ci) == Run(Run(s, xs, ci), ys, ci)
  {
    if ys == [] {
      assert xs + ys == xs;
    } else {
      var n := |ys| - 1;
      assert (xs + ys)[..|xs| + n] == xs + ys[..n];
      RunConcat(s, xs, ys[..n], ci);
    }
  }

  /** What was committed before never influences what is committed later. */
  lemma {:induction false} CommittedIsOnlyAppended(s: Stream, ops: seq<Op>, ci: int)
    ensures Run(s, ops, ci).committed == s.committed + Run(Stream(s.cached, []), ops, ci).committed
    ensures Run(s, ops, ci).cached == Run(Stream(s.cached, []), ops, ci).cached
  {
    if ops != [] {
      CommittedIsOnlyAppended(s, ops[..|ops| - 1], ci);
    }
  }
}
