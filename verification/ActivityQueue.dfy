/**
 * The pgmq activity queue with its visibility timeout (apps/api/src/modules/agent/activity-queue.service.ts)
 * and any number of workers draining it (apps/api/src/modules/agent/activity-worker.service.ts).
 * Queue, bulk insert and bulk delete are atomic steps of the database; a worker may stop between any two.
 */
module ActivityQueue {

  /** An activity event; `tag` stands for its identity and the fields no step looks at. */
  datatype Activity = Activity(tag: nat, startedAt: int)

  const BATCH_SIZE := 200
  const VISIBILITY_TIMEOUT_SEC := 30

  /** What a worker is in the middle of: the messages it read and when its lease on them ends. */
  datatype Worker = Resting | Holding(ids: set<nat>, until: int) | Inserted(ids: set<nat>, until: int)

  /** sent[m] is the payload of message m; visibleAt has the messages still queued; inserted[m] counts how often a worker
      holding message m did its bulk insert; table is what activity_events contains (TableIsInsertions). */
  datatype Queue = Queue(
    sent: seq<seq<Activity>>, visibleAt: map<nat, int>, inserted: seq<nat>, table: multiset<Activity>,
    workers: seq<Worker>, now: int)

  function Initial(workers: nat): Queue {
    Queue([], map[], [], multiset{}, seq(workers, _ => Resting), 0)
  }

  /** The events of those of the first n messages that are in a batch. */
  function EventsIn(sent: seq<seq<Activity>>, ids: set<nat>, n: nat): multiset<Activity>
    requires n <= |sent|
  {
    if n == 0 then multiset{}
    else EventsIn(sent, ids, n - 1) + (if n - 1 in ids then multiset(sent[n - 1]) else multiset{})
  }

  datatype Step =
    | Enqueue(payload: seq<Activity>)
    | Read(w: nat, ids: set<nat>)
    | Insert(w: nat)
    | Delete(w: nat)
    | GiveUp(w: nat)
    | Wait(seconds: nat)

  function Bump(counts: seq<nat>, ids: set<nat>): seq<nat> {
    seq(|counts|, m requires 0 <= m < |counts| => if m in ids then counts[m] + 1 else counts[m])
  }

  function Lease(visibleAt: map<nat, int>, ids: set<nat>, until: int): map<nat, int> {
    map m | m in visibleAt :: if m in ids then until else visibleAt[m]
  }

  /** A read may take any batch of messages that are visible. */
  predicate Enabled(q: Queue, step: Step) {
    match step
    case Enqueue(_) => true
    case Read(w, ids) =>
      && w < |q.workers| && q.workers[w].Resting? && |ids| <= BATCH_SIZE
      && forall m :: m in ids ==> m in q.visibleAt && q.visibleAt[m] <= q.now
    case Insert(w) => w < |q.workers| && q.workers[w].Holding?
    case Delete(w) => w < |q.workers| && q.workers[w].Inserted?
    case GiveUp(w) => w < |q.workers| && !q.workers[w].Resting?
    case Wait(_) => true
  }

  function Apply(q: Queue, step: Step): Queue {
    if !Enabled(q, step) then q
    else
      match step
      case Enqueue(payload) =>
        q.(sent := q.sent + [payload], inserted := q.inserted + [0], visibleAt := q.visibleAt[|q.sent| := q.now])
      case Read(w, ids) =>
        var until := q.now + VISIBILITY_TIMEOUT_SEC;
        q.(visibleAt := Lease(q.visibleAt, ids, until), workers := q.workers[w := Holding(ids, until)])
      case Insert(w) =>
        q.(inserted := Bump(q.inserted, q.workers[w].ids),
           table := q.table + EventsIn(q.sent, q.workers[w].ids, |q.sent|),
           workers := q.workers[w := Inserted(q.workers[w].ids, q.workers[w].until)])
      case Delete(w) =>
        q.(visibleAt := q.visibleAt - q.workers[w].ids, workers := q.workers[w := Resting])
      case GiveUp(w) => q.(workers := q.workers[w := Resting])
      case Wait(seconds) => q.(now := q.now + seconds)
  }

  function Run(q: Queue, steps: seq<Step>): Queue {
    if steps == [] then q else Apply(Run(q, steps[..|steps| - 1]), steps[|steps| - 1])
  }

  lemma RunAppend(q: Queue, steps: seq<Step>, step: Step)
    ensures Run(q, steps + [step]) == Apply(Run(q, steps), step)
  {
    assert (steps + [step])[..|steps|] == steps;
  }

  // ---------------------------------------------------------------- leases

  predicate Holds(q: Queue, w: nat, m: nat) {
    w < |q.workers| && !q.workers[w].Resting? && m in q.workers[w].ids
  }

  predicate Unexpired(q: Queue, w: nat) {
    w < |q.workers| && !q.workers[w].Resting? && q.now < q.workers[w].until
  }

  /** Worker w has inserted message m and is about to delete it. */
  predicate Finishing(q: Queue, w: nat, m: nat) {
    Holds(q, w, m) && q.workers[w].Inserted?
  }

  ghost predicate Inv(q: Queue) {
    && |q.inserted| == |q.sent|
    && (forall m :: m in q.visibleAt ==> m < |q.sent|)
    && (forall w: nat, m: nat :: Holds(q, w, m) ==>
          m < |q.sent| && (m in q.visibleAt ==> q.workers[w].until <= q.visibleAt[m]))
    && (forall w: nat, m: nat :: Finishing(q, w, m) ==> q.inserted[m] > 0)
    // never lost: a message leaves the queue only once its events are in the table
    && (forall m :: 0 <= m < |q.sent| && m !in q.visibleAt ==> q.inserted[m] > 0)
    // one unexpired lease per message
    && (forall v: nat, w: nat, m: nat :: Holds(q, v, m) && Holds(q, w, m) && Unexpired(q, v) && Unexpired(q, w) ==> v == w)
  }

  /** A step gives leases only to the reader, and only on messages nobody has an unexpired lease on. */
  lemma LeasesAfter(q: Queue, step: Step)
    requires Inv(q) && Enabled(q, step)
    ensures var q' := Apply(q, step);
            && (forall v: nat, m: nat :: Holds(q', v, m) ==> Holds(q, v, m) || (step.Read? && v == step.w && m in step.ids))
            && (forall v: nat, m: nat :: Finishing(q', v, m) ==> Finishing(q, v, m) || (step.Insert? && v == step.w && Holds(q, v, m)))
            && (forall v: nat :: Unexpired(q', v) ==> Unexpired(q, v) || (step.Read? && v == step.w))
            && (forall v: nat, m: nat :: step.Read? && m in step.ids && Holds(q, v, m) ==> !Unexpired(q, v))
            && (forall v: nat, m: nat :: Holds(q, v, m) && Holds(q', v, m) && !(step.Read? && v == step.w) ==>
                  q'.workers[v].until == q.workers[v].until)
  {}

  lemma StepKeepsInv(q: Queue, step: Step)
    requires Inv(q)
    ensures Inv(Apply(q, step))
  {
    if Enabled(q, step) {
      LeasesAfter(q, step);
      var q' := Apply(q, step);
      if step.Delete? {
        assert forall m :: m in q.workers[step.w].ids ==> Finishing(q, step.w, m);
      }
      forall w: nat, m: nat | Holds(q', w, m)
        ensures m < |q'.sent| && (m in q'.visibleAt ==> q'.workers[w].until <= q'.visibleAt[m]) {
        if Holds(q, w, m) {}
      }
    }
  }

  lemma InitialInv(workers: nat)
    ensures TimelyInv(Initial(workers))
  {
    assert forall w :: 0 <= w < workers ==> Initial(workers).workers[w] == Resting;
  }

  lemma {:induction false} RunKeepsInv(workers: nat, steps: seq<Step>)
    ensures Inv(Run(Initial(workers), steps))
  {
    if steps == [] {
      InitialInv(workers);
    } else {
      RunKeepsInv(workers, steps[..|steps| - 1]);
      StepKeepsInv(Run(Initial(workers), steps[..|steps| - 1]), steps[|steps| - 1]);
    }
  }

  /** In every run a message is held by at most one unexpired lease. */
  lemma AtMostOneLease(workers: nat, steps: seq<Step>, v: nat, w: nat, m: nat)
    requires var q := Run(Initial(workers), steps);
             Holds(q, v, m) && Holds(q, w, m) && Unexpired(q, v) && Unexpired(q, w)
    ensures v == w
  {
    RunKeepsInv(workers, steps);
  }

  /** Once read, a message is hidden from everybody for 30 s, and visible again from then on if it is still there. */
  lemma HiddenWhileLeased(q: Queue, w: nat, ids: set<nat>, m: nat, seconds: nat)
    requires Enabled(q, Read(w, ids)) && m in ids
    ensures var later := Apply(Apply(q, Read(w, ids)), Wait(seconds));
            forall v: nat :: v < |later.workers| && later.workers[v].Resting? ==>
              (Enabled(later, Read(v, {m})) <==> seconds >= 30)
  {}

  /** In every run each message is still queued or was inserted at least once. */
  lemma NeverLost(workers: nat, steps: seq<Step>, m: nat)
    requires m < |Run(Initial(workers), steps).sent|
    ensures var q := Run(Initial(workers), steps);
            |q.inserted| == |q.sent| && (m in q.visibleAt || q.inserted[m] >= 1)
  {
    RunKeepsInv(workers, steps);
  }

  // ---------------------------------------------------------------- the table

  /** How often event e was inserted with the first n messages. */
  function InsertedTimes(sent: seq<seq<Activity>>, inserted: seq<nat>, e: Activity, n: nat): nat
    requires n <= |sent| == |inserted|
  {
    if n == 0 then 0 else InsertedTimes(sent, inserted, e, n - 1) + inserted[n - 1] * multiset(sent[n - 1])[e]
  }

  ghost predicate TableInv(q: Queue) {
    |q.inserted| == |q.sent| && forall e :: q.table[e] == InsertedTimes(q.sent, q.inserted, e, |q.sent|)
  }

  lemma {:induction false} BumpInserts(sent: seq<seq<Activity>>, inserted: seq<nat>, ids: set<nat>, e: Activity, n: nat)
    requires n <= |sent| == |inserted|
    ensures InsertedTimes(sent, Bump(inserted, ids), e, n) == InsertedTimes(sent, inserted, e, n) + EventsIn(sent, ids, n)[e]
  {
    if n > 0 {
      BumpInserts(sent, inserted, ids, e, n - 1);
      OneMore(inserted[n - 1], multiset(sent[n - 1])[e]);
    }
  }

  lemma OneMore(k: nat, x: nat)
    ensures (k + 1) * x == k * x + x
  {}

  lemma {:induction false} PrefixInserts(sent: seq<seq<Activity>>, inserted: seq<nat>, payload: seq<Activity>,
                                         e: Activity, n: nat)
    requires n <= |sent| == |inserted|
    ensures InsertedTimes(sent + [payload], inserted + [0], e, n) == InsertedTimes(sent, inserted, e, n)
  {
    if n > 0 {
      PrefixInserts(sent, inserted, payload, e, n - 1);
    }
  }

  lemma StepKeepsTable(q: Queue, step: Step)
    requires TableInv(q)
    ensures TableInv(Apply(q, step))
  {
    var q' := Apply(q, step);
    if Enabled(q, step) && (step.Insert? || step.Enqueue?) {
      forall e ensures q'.table[e] == InsertedTimes(q'.sent, q'.inserted, e, |q'.sent|) {
        match step
        case Insert(w) => BumpInserts(q.sent, q.inserted, q.workers[w].ids, e, |q.sent|);
        case Enqueue(payload) => PrefixInserts(q.sent, q.inserted, payload, e, |q.sent|);
      }
    }
  }

  /** In every run the table contains each event exactly as often as it was inserted with its message. */
  lemma {:induction false} TableIsInsertions(workers: nat, steps: seq<Step>)
    ensures TableInv(Run(Initial(workers), steps))
  {
    if steps != [] {
      TableIsInsertions(workers, steps[..|steps| - 1]);
      StepKeepsTable(Run(Initial(workers), steps[..|steps| - 1]), steps[|steps| - 1]);
    }
  }

  lemma {:induction false} InsertedMembers(sent: seq<seq<Activity>>, inserted: seq<nat>, e: Activity, n: nat)
    requires n <= |sent| == |inserted|
    ensures InsertedTimes(sent, inserted, e, n) > 0 <==> exists m :: 0 <= m < n && inserted[m] > 0 && e in sent[m]
  {
    if n > 0 {
      InsertedMembers(sent, inserted, e, n - 1);
      Positive(inserted[n - 1], multiset(sent[n - 1])[e]);
    }
  }

  lemma Positive(k: nat, x: nat)
    ensures k * x > 0 <==> k > 0 && x > 0
  {}

  /** So it contains the events of exactly the messages that were inserted. */
  lemma TableMembers(q: Queue, e: Activity)
    requires TableInv(q)
    ensures |q.inserted| == |q.sent|
    ensures e in q.table <==> exists m :: 0 <= m < |q.sent| && q.inserted[m] > 0 && e in q.sent[m]
  {
    InsertedMembers(q.sent, q.inserted, e, |q.sent|);
  }

  /** In every run every event of a message that has left the queue is in the table. */
  lemma DeletedIsInTable(workers: nat, steps: seq<Step>, m: nat, j: nat)
    requires var q := Run(Initial(workers), steps); m < |q.sent| && m !in q.visibleAt && j < |q.sent[m]|
    ensures var q := Run(Initial(workers), steps); q.sent[m][j] in q.table
  {
    RunKeepsInv(workers, steps);
    TableIsInsertions(workers, steps);
    TableMembers(Run(Initial(workers), steps), Run(Initial(workers), steps).sent[m][j]);
  }

  // ---------------------------------------------------------------- exactly once

  /** A worker inserts, and then deletes, while its lease lasts. */
  predicate Timely(q: Queue, step: Step) {
    match step
    case Enqueue(_) => true
    case Read(_, _) => true
    case Insert(w) => w < |q.workers| && q.workers[w].Holding? ==> q.now < q.workers[w].until
    case Delete(_) => true
    case GiveUp(w) => w < |q.workers| ==> !q.workers[w].Inserted?
    case Wait(seconds) =>
      forall w :: 0 <= w < |q.workers| && q.workers[w].Inserted? ==> q.now + seconds < q.workers[w].until
  }

  predicate TimelyRun(q: Queue, steps: seq<Step>) {
    steps == []
    || (TimelyRun(q, steps[..|steps| - 1]) && Timely(Run(q, steps[..|steps| - 1]), steps[|steps| - 1]))
  }

  ghost predicate AboutToDelete(q: Queue, m: nat) {
    exists w: nat :: Finishing(q, w, m)
  }

  ghost predicate TimelyInv(q: Queue) {
    && Inv(q)
    && (forall w: nat, m: nat :: Finishing(q, w, m) ==> Unexpired(q, w))
    && (forall w: nat, m: nat :: Holds(q, w, m) && Unexpired(q, w) ==> m in q.visibleAt)
    && (forall m :: 0 <= m < |q.sent| ==>
          q.inserted[m] == if m in q.visibleAt && !AboutToDelete(q, m) then 0 else 1)
  }

  lemma InsertStaysTimely(q: Queue, w: nat)
    requires TimelyInv(q) && w < |q.workers| && q.workers[w].Holding? && q.now < q.workers[w].until
    ensures TimelyInv(Apply(q, Insert(w)))
  {
    StepKeepsInv(q, Insert(w));
    LeasesAfter(q, Insert(w));
    var q' := Apply(q, Insert(w));
    forall m | 0 <= m < |q.sent|
      ensures q'.inserted[m] == if m in q'.visibleAt && !AboutToDelete(q', m) then 0 else 1
    {
      if m in q.workers[w].ids {
        assert Holds(q, w, m) && Unexpired(q, w) && Finishing(q', w, m);
        assert !AboutToDelete(q, m);
      } else {
        assert forall v: nat :: Finishing(q, v, m) ==> Finishing(q', v, m);
      }
    }
  }

  lemma DeleteStaysTimely(q: Queue, w: nat)
    requires TimelyInv(q) && w < |q.workers| && q.workers[w].Inserted?
    ensures TimelyInv(Apply(q, Delete(w)))
  {
    StepKeepsInv(q, Delete(w));
    LeasesAfter(q, Delete(w));
    var q' := Apply(q, Delete(w));
    forall v: nat, m: nat | Holds(q', v, m) && Unexpired(q', v) ensures m in q'.visibleAt {
      assert v != w && Holds(q, v, m) && Unexpired(q, v);
      assert m in q.workers[w].ids ==> Finishing(q, w, m) && Unexpired(q, w);
    }
    forall m | 0 <= m < |q.sent|
      ensures q'.inserted[m] == if m in q'.visibleAt && !AboutToDelete(q', m) then 0 else 1
    {
      if m in q.workers[w].ids {
        assert Finishing(q, w, m);
      } else {
        assert forall v: nat :: Finishing(q, v, m) ==> Finishing(q', v, m);
      }
    }
  }

  lemma OthersStayTimely(q: Queue, step: Step)
    requires TimelyInv(q) && Timely(q, step) && Enabled(q, step) && !step.Insert? && !step.Delete?
    ensures TimelyInv(Apply(q, step))
  {
    StepKeepsInv(q, step);
    LeasesAfter(q, step);
    var q' := Apply(q, step);
    assert forall v: nat, m: nat :: Finishing(q, v, m) ==> Finishing(q', v, m);
    if step.Enqueue? {
      assert forall v: nat :: !Holds(q, v, |q.sent|);
    }
    forall m | 0 <= m < |q.sent| ensures AboutToDelete(q', m) <==> AboutToDelete(q, m) {}
  }

  lemma {:induction false} TimelyRunKeepsInv(workers: nat, steps: seq<Step>)
    requires TimelyRun(Initial(workers), steps)
    ensures TimelyInv(Run(Initial(workers), steps))
  {
    if steps == [] {
      InitialInv(workers);
    } else {
      var q, step := Run(Initial(workers), steps[..|steps| - 1]), steps[|steps| - 1];
      TimelyRunKeepsInv(workers, steps[..|steps| - 1]);
      if Enabled(q, step) {
        match step
        case Insert(w) => InsertStaysTimely(q, w);
        case Delete(w) => DeleteStaysTimely(q, w);
        case _ => OthersStayTimely(q, step);
      }
    }
  }

  /** If every drain inserts and deletes inside its visibility window, no message is inserted twice,
      and one that has left the queue was inserted exactly once. */
  lemma {:induction false} ExactlyOnceWhenTimely(workers: nat, steps: seq<Step>, m: nat)
    requires TimelyRun(Initial(workers), steps) && m < |Run(Initial(workers), steps).sent|
    ensures var q := Run(Initial(workers), steps);
            && |q.inserted| == |q.sent| && q.inserted[m] <= 1
            && (m !in q.visibleAt ==> q.inserted[m] == 1)
  {
    TimelyRunKeepsInv(workers, steps);
  }

  /** How often event e was sent with the first n messages. */
  function SentTimes(sent: seq<seq<Activity>>, e: Activity, n: nat): nat
    requires n <= |sent|
  {
    if n == 0 then 0 else SentTimes(sent, e, n - 1) + multiset(sent[n - 1])[e]
  }

  lemma {:induction false} OnceEach(sent: seq<seq<Activity>>, inserted: seq<nat>, e: Activity, n: nat)
    requires n <= |sent| == |inserted| && forall m :: 0 <= m < n ==> inserted[m] == 1
    ensures InsertedTimes(sent, inserted, e, n) == SentTimes(sent, e, n)
  {
    if n > 0 {
      OnceEach(sent, inserted, e, n - 1);
    }
  }

  /** Once timely drains have emptied the queue, the table contains each event exactly as often as it was sent. */
  lemma DrainedQueueIsInTable(workers: nat, steps: seq<Step>, e: Activity)
    requires TimelyRun(Initial(workers), steps) && Run(Initial(workers), steps).visibleAt == map[]
    ensures var q := Run(Initial(workers), steps); q.table[e] == SentTimes(q.sent, e, |q.sent|)
  {
    var q := Run(Initial(workers), steps);
    TableIsInsertions(workers, steps);
    forall m | 0 <= m < |q.sent| ensures q.inserted[m] == 1 {
      ExactlyOnceWhenTimely(workers, steps, m);
    }
    OnceEach(q.sent, q.inserted, e, |q.sent|);
  }

  /** Which step inserts a message a second time: after a timely run, exactly an insert whose message another worker
      has meanwhile inserted, and deleted or is about to delete; and only if its lease has run out. */
  lemma LateInsertDuplicates(workers: nat, steps: seq<Step>, w: nat, m: nat)
    requires TimelyRun(Initial(workers), steps) && Enabled(Run(Initial(workers), steps), Insert(w))
    ensures var q := Run(Initial(workers), steps);
            var q' := Apply(q, Insert(w));
            && |q'.inserted| == |q'.sent| == |q.sent|
            && (m < |q.sent| ==>
                  (q'.inserted[m] > 1 <==> Holds(q, w, m) && (m !in q.visibleAt || AboutToDelete(q, m)))
                  && (q'.inserted[m] > 1 ==> !Unexpired(q, w)))
  {
    TimelyRunKeepsInv(workers, steps);
  }

  /** Without the assumption a message can be inserted twice: the first worker is too slow. */
  lemma SlowWorkerDuplicates(payload: seq<Activity>)
    ensures var early := [Enqueue(payload), Read(0, {0}), Wait(30)];
            Run(Initial(2), early + [Read(1, {0})] + [Insert(1)] + [Insert(0)]).inserted == [2]
  {
    var early := [Enqueue(payload)] + [Read(0, {0})] + [Wait(30)] + [Read(1, {0})];
    assert [Enqueue(payload), Read(0, {0}), Wait(30)] + [Read(1, {0})] == early;
    BothHold(payload);
    RunAppend(Initial(2), early, Insert(1));
    RunAppend(Initial(2), early + [Insert(1)], Insert(0));
    BothInsert(HeldByBoth(payload));
  }

  /** Worker 1 has read the message after worker 0's lease ran out. */
  function HeldByBoth(payload: seq<Activity>): Queue {
    Queue([payload], map[0 := 60], [0], multiset{}, [Holding({0}, 30), Holding({0}, 60)], 30)
  }

  lemma FirstHolds(payload: seq<Activity>)
    ensures Run(Initial(2), [Enqueue(payload)] + [Read(0, {0})])
         == Queue([payload], map[0 := 30], [0], multiset{}, [Holding({0}, 30), Resting], 0)
  {
    var q0, s1 := Initial(2), [Enqueue(payload)];
    assert s1[..0] == [] && q0.workers == [Resting, Resting];
    var q1 := Queue([payload], map[0 := 0], [0], multiset{}, [Resting, Resting], 0);
    assert Run(q0, s1) == q1;
    RunAppend(q0, s1, Read(0, {0}));
    assert Lease(map[0 := 0], {0}, 30) == map[0 := 30];
  }

  lemma BothHold(payload: seq<Activity>)
    ensures Run(Initial(2), [Enqueue(payload)] + [Read(0, {0})] + [Wait(30)] + [Read(1, {0})]) == HeldByBoth(payload)
  {
    var s2 := [Enqueue(payload)] + [Read(0, {0})];
    FirstHolds(payload);
    RunAppend(Initial(2), s2, Wait(30));
    RunAppend(Initial(2), s2 + [Wait(30)], Read(1, {0}));
    assert Lease(map[0 := 30], {0}, 60) == map[0 := 60];
  }

  lemma BothInsert(q: Queue)
    requires q.inserted == [0] && |q.sent| == 1 && q.workers == [Holding({0}, 30), Holding({0}, 60)]
    ensures Apply(Apply(q, Insert(1)), Insert(0)).inserted == [2]
  {
    var q1 := Apply(q, Insert(1));
    assert q1.inserted == [1] && q1.workers[0] == Holding({0}, 30);
  }
}
