/**
 * The queue service and the draining worker as objects on a shared database
 * (apps/api/src/modules/agent/activity-queue.service.ts, activity-worker.service.ts).
 * One undisturbed drain is a Read, an Insert and a Delete of module ActivityQueue (DrainIsQueueRun).
 */
module ActivityWorker {
  import opened ActivityQueue
  import opened Numbered

  type Message = (nat, seq<Activity>)

  /** All events of all messages, in order. */
  function Flatten(messages: seq<Message>): seq<Activity> {
    if messages == [] then [] else Flatten(messages[..|messages| - 1]) + messages[|messages| - 1].1
  }

  /** How many events the first k messages carry. */
  function Offset(messages: seq<Message>, k: nat): nat
    requires k <= |messages|
  {
    if k == 0 then 0 else Offset(messages, k - 1) + |messages[k - 1].1|
  }

  /** The events of message k stand together, behind all events of the messages before it. */
  ghost predicate StandsIn(events: seq<Activity>, messages: seq<Message>, k: nat)
    requires k < |messages|
  {
    var at, payload := Offset(messages, k), messages[k].1;
    at + |payload| <= |events| && events[at..at + |payload|] == payload
  }

  /** The events of all messages in order, and nothing else. */
  ghost predicate InOrder(events: seq<Activity>, messages: seq<Message>) {
    |events| == Offset(messages, |messages|) && forall k :: 0 <= k < |messages| ==> StandsIn(events, messages, k)
  }

  lemma {:induction false} OffsetOfPrefix(messages: seq<Message>, n: nat, k: nat)
    requires k <= n <= |messages|
    ensures Offset(messages[..n], k) == Offset(messages, k) <= Offset(messages, n)
    decreases n, k
  {
    if k > 0 {
      OffsetOfPrefix(messages, n, k - 1);
    }
    if k < n {
      OffsetOfPrefix(messages, n - 1, k);
    }
  }

  lemma StandsInPrefix(events: seq<Activity>, more: seq<Activity>, messages: seq<Message>, n: nat, k: nat)
    requires k < n <= |messages| && Offset(messages, n) == |events|
    ensures StandsIn(events + more, messages, k) <==> StandsIn(events, messages[..n], k)
  {
    OffsetOfPrefix(messages, n, k);
    OffsetOfPrefix(messages, n, k + 1);
    var at, payload := Offset(messages, k), messages[k].1;
    assert at + |payload| <= |events|;
    assert (events + more)[at..at + |payload|] == events[at..at + |payload|];
  }

  lemma {:induction false} FlattenIsInOrder(messages: seq<Message>)
    ensures InOrder(Flatten(messages), messages)
  {
    if messages != [] {
      var n := |messages| - 1;
      FlattenIsInOrder(messages[..n]);
      OffsetOfPrefix(messages, n, n);
      forall k | 0 <= k < n ensures StandsIn(Flatten(messages), messages, k) {
        StandsInPrefix(Flatten(messages[..n]), messages[n].1, messages, n, k);
      }
    }
  }

  /** The order fixes the sequence. */
  lemma {:induction false} InOrderIsFlatten(events: seq<Activity>, messages: seq<Message>)
    requires InOrder(events, messages)
    ensures events == Flatten(messages)
    decreases |messages|
  {
    if messages != [] {
      var n := |messages| - 1;
      var at := Offset(messages, n);
      assert StandsIn(events, messages, n);
      assert events == events[..at] + messages[n].1;
      OffsetOfPrefix(messages, n, n);
      forall k | 0 <= k < n ensures StandsIn(events[..at], messages[..n], k) {
        assert StandsIn(events, messages, k);
        StandsInPrefix(events[..at], messages[n].1, messages, n, k);
      }
      InOrderIsFlatten(events[..at], messages[..n]);
    }
  }

  predicate IsVisible(message: Message, visibleAt: map<nat, int>, sent: seq<seq<Activity>>, now: int) {
    message.0 in visibleAt && visibleAt[message.0] <= now && message.0 < |sent| && message.1 == sent[message.0]
  }

  /** Different visible messages with their payloads: `size` of them, or all there are. */
  ghost predicate IsBatch(messages: seq<Message>, visibleAt: map<nat, int>, sent: seq<seq<Activity>>, now: int, size: nat) {
    && |messages| <= size && |IdsOf(messages)| == |messages|
    && (forall k :: 0 <= k < |messages| ==> IsVisible(messages[k], visibleAt, sent, now))
    && (|messages| == size || forall m :: m in visibleAt && visibleAt[m] <= now ==> m in IdsOf(messages))
  }

  class Database {
    var sent: seq<seq<Activity>>
    var visibleAt: map<nat, int>
    var activityEvents: seq<Activity>
    var now: int

    ghost predicate Valid() reads this {
      forall m :: m in visibleAt ==> m < |sent|
    }

    constructor ()
      ensures Valid() && sent == [] && visibleAt == map[] && activityEvents == []
    {
      sent, visibleAt, activityEvents, now := [], map[], [], 0;
    }

    method Enqueue(payload: seq<Activity>) returns (id: nat)
      requires Valid()
      modifies this`sent, this`visibleAt
      ensures Valid() && id == |old(sent)| && id !in old(visibleAt)
      ensures sent == old(sent) + [payload] && visibleAt == old(visibleAt)[id := now]
    {
      id := |sent|;
      sent := sent + [payload];
      visibleAt := visibleAt[id := now];
    }

    /** pgmq.read: up to batchSize visible messages, hidden from everybody for vt seconds. */
    method Read(batchSize: nat, vt: nat) returns (messages: seq<Message>)
      requires Valid()
      modifies this`visibleAt
      ensures Valid() && IsBatch(messages, old(visibleAt), sent, now, batchSize)
      ensures visibleAt == Lease(old(visibleAt), IdsOf(messages), now + vt)
    {
      messages := PickVisible(batchSize);
      var taken := set k | 0 <= k < |messages| :: messages[k].0;
      visibleAt := map m | m in visibleAt :: if m in taken then now + vt else visibleAt[m];
    }

    method PickVisible(batchSize: nat) returns (messages: seq<Message>)
      requires Valid()
      ensures IsBatch(messages, visibleAt, sent, now, batchSize)
    {
      messages := [];
      var visible := set m | m in visibleAt && visibleAt[m] <= now;
      assert IdsOf(messages) == {};
      while visible != {} && |messages| < batchSize
        invariant |messages| <= batchSize && |IdsOf(messages)| == |messages| && IdsOf(messages) !! visible
        invariant forall m :: m in visible ==> m in visibleAt && visibleAt[m] <= now
        invariant forall m :: m in visibleAt && visibleAt[m] <= now ==> m in IdsOf(messages) || m in visible
        invariant forall k :: 0 <= k < |messages| ==> IsVisible(messages[k], visibleAt, sent, now)
        decreases visible
      {
        var m :| m in visible;
        IdsOfAppend(messages, m, sent[m]);
        messages := messages + [(m, sent[m])];
        visible := visible - {m};
      }
    }

    method DeleteMany(ids: seq<nat>)
      modifies this`visibleAt
      ensures visibleAt == old(visibleAt) - (set m | m in ids)
    {
      if |ids| == 0 {
        return;
      }
      visibleAt := visibleAt - (set m | m in ids);
    }
  }

  /** The two nested loops that turn the batch into one bulk insert. */
  method AllEntities(messages: seq<Message>) returns (allEntities: seq<Activity>)
    ensures InOrder(allEntities, messages)
  {
    allEntities := [];
    for k := 0 to |messages|
      invariant allEntities == Flatten(messages[..k])
    {
      var payload := messages[k].1;
      for j := 0 to |payload|
        invariant allEntities == Flatten(messages[..k]) + payload[..j]
      {
        allEntities := allEntities + [payload[j]];
      }
      assert messages[..k + 1][..k] == messages[..k] && payload[..|payload|] == payload;
    }
    assert messages[..|messages|] == messages;
    FlattenIsInOrder(messages);
  }

  /** How far a drain gets before something throws. */
  datatype Outcome = ReadFails | InsertFails | DeleteFails | Completes

  class Worker {
    const db: Database
    var flushing: bool

    constructor (db: Database)
      ensures this.db == db && !flushing
    {
      this.db, flushing := db, false;
    }

    /** Skips itself while a drain is running. */
    method Drain(outcome: Outcome) returns (ghost messages: seq<Message>)
      requires db.Valid()
      modifies this, db`visibleAt, db`activityEvents
      ensures db.Valid()
      ensures old(flushing) ==>
        flushing && messages == [] && db.visibleAt == old(db.visibleAt) && db.activityEvents == old(db.activityEvents)
      ensures !old(flushing) ==>
        !flushing && Drained(outcome, messages, old(db.visibleAt), old(db.activityEvents))
    {
      if flushing {
        messages := [];
        return;
      }
      flushing := true;
      messages := DrainBatch(outcome);
      flushing := false;
    }

    ghost predicate Drained(outcome: Outcome, messages: seq<Message>, visible: map<nat, int>, events: seq<Activity>)
      reads this, db
    {
      && (if outcome.ReadFails? then messages == [] else IsBatch(messages, visible, db.sent, db.now, 200))
      && Stored(outcome, messages, Lease(visible, IdsOf(messages), db.now + 30), events)
    }

    /** The events of all messages are inserted in order or not at all, and only inserted messages leave the queue; the
        rest stay leased. */
    ghost predicate Stored(outcome: Outcome, messages: seq<Message>, leased: map<nat, int>, events: seq<Activity>)
      reads this, db
    {
      && events <= db.activityEvents
      && (if outcome.DeleteFails? || outcome.Completes? then InOrder(db.activityEvents[|events|..], messages)
          else db.activityEvents == events)
      && db.visibleAt == if outcome.Completes? then leased - IdsOf(messages) else leased
    }

    method DrainBatch(outcome: Outcome) returns (ghost messages: seq<Message>)
      requires db.Valid()
      modifies db`visibleAt, db`activityEvents
      ensures db.Valid() && Drained(outcome, messages, old(db.visibleAt), old(db.activityEvents))
    {
      messages := [];
      assert IdsOf(messages) == {};
      assert db.visibleAt == Lease(db.visibleAt, {}, db.now + VISIBILITY_TIMEOUT_SEC);
      if outcome == ReadFails {
        return;
      }
      var batch := db.Read(BATCH_SIZE, VISIBILITY_TIMEOUT_SEC);
      messages := batch;
      if |batch| == 0 {
        return;
      }
      StoreBatch(batch, outcome);
    }

    method StoreBatch(batch: seq<Message>, outcome: Outcome)
      requires db.Valid() && !outcome.ReadFails?
      modifies db`visibleAt, db`activityEvents
      ensures db.Valid() && Stored(outcome, batch, old(db.visibleAt), old(db.activityEvents))
    {
      var allEntities := AllEntities(batch);
      if outcome == InsertFails {
        return;
      }
      db.activityEvents := db.activityEvents + allEntities;
      if outcome == Completes {
        var ids := seq(|batch|, k requires 0 <= k < |batch| => batch[k].0);
        SameIds(ids, batch);
        db.DeleteMany(ids);
      }
    }
  }

  // ---------------------------------------------------------------- one undisturbed drain

  /** The steps of worker w's drain of a batch with these ids, as far as it gets. */
  function DrainSteps(w: nat, ids: set<nat>, outcome: Outcome): seq<Step> {
    match outcome
    case ReadFails => []
    case InsertFails => [Read(w, ids)] + [GiveUp(w)]
    case DeleteFails => [Read(w, ids)] + [Insert(w)] + [GiveUp(w)]
    case Completes => [Read(w, ids)] + [Insert(w)] + [Delete(w)]
  }

  lemma {:induction false} BatchOfOneMore(sent: seq<seq<Activity>>, ids: set<nat>, m: nat, n: nat)
    requires n <= |sent| && m !in ids
    ensures EventsIn(sent, ids + {m}, n) == EventsIn(sent, ids, n) + (if m < n then multiset(sent[m]) else multiset{})
  {
    if n > 0 {
      BatchOfOneMore(sent, ids, m, n - 1);
    }
  }

  lemma {:induction false} NoBatch(sent: seq<seq<Activity>>, n: nat)
    requires n <= |sent|
    ensures EventsIn(sent, {}, n) == multiset{}
  {
    if n > 0 {
      NoBatch(sent, n - 1);
    }
  }

  /** Different messages of the queue with their payloads. */
  ghost predicate AreMessages(messages: seq<Message>, sent: seq<seq<Activity>>) {
    && (forall k :: 0 <= k < |messages| ==> messages[k].0 < |sent| && messages[k].1 == sent[messages[k].0])
    && forall j, k :: 0 <= j < k < |messages| ==> messages[j].0 != messages[k].0
  }

  lemma {:induction false} FlattenIsBatch(messages: seq<Message>, sent: seq<seq<Activity>>)
    requires AreMessages(messages, sent)
    ensures multiset(Flatten(messages)) == EventsIn(sent, IdsOf(messages), |sent|)
  {
    if messages == [] {
      assert IdsOf(messages) == {};
      NoBatch(sent, |sent|);
    } else {
      var n := |messages| - 1;
      var m := messages[n].0;
      FlattenIsBatch(messages[..n], sent);
      IdsOfAppend(messages[..n], m, messages[n].1);
      assert messages == messages[..n] + [(m, messages[n].1)];
      BatchOfOneMore(sent, IdsOf(messages[..n]), m, |sent|);
    }
  }

  lemma {:induction false} DistinctIds(messages: seq<Message>)
    requires |IdsOf(messages)| == |messages|
    ensures forall j, k :: 0 <= j < k < |messages| ==> messages[j].0 != messages[k].0
  {
    if messages != [] {
      var n := |messages| - 1;
      IdsOfAppend(messages[..n], messages[n].0, messages[n].1);
      assert messages == messages[..n] + [(messages[n].0, messages[n].1)];
      AtMostAsMany(messages[..n]);
      DistinctIds(messages[..n]);
      forall j | 0 <= j < n ensures messages[j].0 != messages[n].0 {
        assert messages[..n][j].0 in IdsOf(messages[..n]);
      }
    }
  }

  lemma {:induction false} AtMostAsMany(messages: seq<Message>)
    ensures |IdsOf(messages)| <= |messages|
  {
    if messages != [] {
      var n := |messages| - 1;
      AtMostAsMany(messages[..n]);
      IdsOfAppend(messages[..n], messages[n].0, messages[n].1);
      assert messages == messages[..n] + [(messages[n].0, messages[n].1)];
    }
  }

  /** The object's drain (Worker.Drain) leaves the queue as these steps of module ActivityQueue do; the events it adds to
      the table, in whatever order InOrder says, are those that the steps add. */
  lemma DrainIsQueueRun(q: Queue, w: nat, messages: seq<Message>, outcome: Outcome, added: seq<Activity>)
    requires w < |q.workers| && q.workers[w].Resting? && Inv(q)
    requires if outcome.ReadFails? then messages == [] else IsBatch(messages, q.visibleAt, q.sent, q.now, BATCH_SIZE)
    requires if outcome.DeleteFails? || outcome.Completes? then InOrder(added, messages) else added == []
    ensures var leased := Lease(q.visibleAt, IdsOf(messages), q.now + VISIBILITY_TIMEOUT_SEC);
            Run(q, DrainSteps(w, IdsOf(messages), outcome))
            == q.(visibleAt := if outcome.Completes? then leased - IdsOf(messages) else leased,
                  inserted := if outcome.DeleteFails? || outcome.Completes? then Bump(q.inserted, IdsOf(messages))
                              else q.inserted,
                  table := q.table + multiset(added))
  {
    var ids := IdsOf(messages);
    if outcome.ReadFails? {
      assert ids == {};
      assert Lease(q.visibleAt, {}, q.now + VISIBILITY_TIMEOUT_SEC) == q.visibleAt;
    } else {
      VisibleIds(messages, q.visibleAt, q.sent, q.now, BATCH_SIZE);
      Endings(q, w, ids);
      if outcome.DeleteFails? || outcome.Completes? {
        InOrderIsFlatten(added, messages);
        BatchIsMessages(messages, q.visibleAt, q.sent, q.now);
        FlattenIsBatch(messages, q.sent);
      }
    }
  }

  lemma BatchIsMessages(messages: seq<Message>, visibleAt: map<nat, int>, sent: seq<seq<Activity>>, now: int)
    requires IsBatch(messages, visibleAt, sent, now, BATCH_SIZE)
    ensures AreMessages(messages, sent)
  {
    DistinctIds(messages);
    forall k | 0 <= k < |messages| ensures messages[k].0 < |sent| && messages[k].1 == sent[messages[k].0] {
      assert IsVisible(messages[k], visibleAt, sent, now);
    }
  }

  /** The batch has been inserted once more. */
  function WithBatch(q: Queue, ids: set<nat>): Queue {
    q.(inserted := Bump(q.inserted, ids), table := q.table + EventsIn(q.sent, ids, |q.sent|))
  }

  /** How a worker comes to rest. */
  lemma Endings(q: Queue, w: nat, ids: set<nat>)
    requires Enabled(q, Read(w, ids))
    ensures var leased := Lease(q.visibleAt, ids, q.now + VISIBILITY_TIMEOUT_SEC);
            && Run(q, [Read(w, ids)] + [GiveUp(w)]) == q.(visibleAt := leased)
            && Run(q, [Read(w, ids)] + [Insert(w)] + [GiveUp(w)]) == WithBatch(q, ids).(visibleAt := leased)
            && Run(q, [Read(w, ids)] + [Insert(w)] + [Delete(w)])
               == WithBatch(q, ids).(visibleAt := leased - ids)
  {
    ReadAndInsert(q, w, ids);
    RunAppend(q, [Read(w, ids)], GiveUp(w));
    RunAppend(q, [Read(w, ids)] + [Insert(w)], GiveUp(w));
    RunAppend(q, [Read(w, ids)] + [Insert(w)], Delete(w));
    LastSteps(q, w, ids);
  }

  lemma LastSteps(q: Queue, w: nat, ids: set<nat>)
    requires w < |q.workers| && q.workers[w].Resting?
    ensures var leased := Lease(q.visibleAt, ids, q.now + VISIBILITY_TIMEOUT_SEC);
            && Apply(AfterRead(q, w, ids), GiveUp(w)) == q.(visibleAt := leased)
            && Apply(AfterInsert(q, w, ids), GiveUp(w)) == WithBatch(q, ids).(visibleAt := leased)
            && Apply(AfterInsert(q, w, ids), Delete(w)) == WithBatch(q, ids).(visibleAt := leased - ids)
  {
    RestsAgain(q, w, Holding(ids, q.now + VISIBILITY_TIMEOUT_SEC));
    RestsAgain(q, w, Inserted(ids, q.now + VISIBILITY_TIMEOUT_SEC));
  }

  lemma RestsAgain(q: Queue, w: nat, busy: ActivityQueue.Worker)
    requires w < |q.workers| && q.workers[w].Resting?
    ensures q.workers[w := busy][w := Resting] == q.workers
  {}

  function AfterRead(q: Queue, w: nat, ids: set<nat>): Queue
    requires w < |q.workers|
  {
    var until := q.now + VISIBILITY_TIMEOUT_SEC;
    q.(visibleAt := Lease(q.visibleAt, ids, until), workers := q.workers[w := Holding(ids, until)])
  }

  function AfterInsert(q: Queue, w: nat, ids: set<nat>): Queue
    requires w < |q.workers|
  {
    var read := AfterRead(q, w, ids);
    read.(inserted := Bump(q.inserted, ids), table := q.table + EventsIn(q.sent, ids, |q.sent|),
          workers := q.workers[w := Inserted(ids, q.now + VISIBILITY_TIMEOUT_SEC)])
  }

  lemma ReadAndInsert(q: Queue, w: nat, ids: set<nat>)
    requires Enabled(q, Read(w, ids))
    ensures Run(q, [Read(w, ids)]) == AfterRead(q, w, ids)
    ensures Run(q, [Read(w, ids)] + [Insert(w)]) == AfterInsert(q, w, ids)
  {
    assert [Read(w, ids)][..0] == [];
    RunAppend(q, [Read(w, ids)], Insert(w));
    assert AfterRead(q, w, ids).workers[w := Inserted(ids, q.now + VISIBILITY_TIMEOUT_SEC)]
        == q.workers[w := Inserted(ids, q.now + VISIBILITY_TIMEOUT_SEC)];
  }

  lemma VisibleIds(messages: seq<Message>, visibleAt: map<nat, int>, sent: seq<seq<Activity>>, now: int, size: nat)
    requires IsBatch(messages, visibleAt, sent, now, size)
    ensures |IdsOf(messages)| <= size && forall m :: m in IdsOf(messages) ==> m in visibleAt && visibleAt[m] <= now
  {
    forall m | m in IdsOf(messages) ensures m in visibleAt && visibleAt[m] <= now {
      var k :| 0 <= k < |messages| && messages[k].0 == m;
      assert IsVisible(messages[k], visibleAt, sent, now);
    }
  }
}
