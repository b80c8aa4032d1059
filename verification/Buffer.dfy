/**
 * The agent's local buffer: the activity table of db.go and events.go, the WriteBatcher
 * (apps/agent/internal/buffer) and FlushActivity (apps/agent/internal/sync/uploader.go).
 * Whether a database or network operation fails is a parameter of the call.
 */
module Buffer {
  import AQ = ActivityQueue
  import opened Numbered

  type Activity = AQ.Activity

  const UPLOAD_BATCH := 100

  /** The activity_events table. AUTOINCREMENT: nextId never goes back. */
  datatype Table = Table(rows: map<nat, Activity>, nextId: nat)

  ghost predicate ValidTable(t: Table) {
    forall id :: id in t.rows ==> id < t.nextId
  }

  function InsertRow(t: Table, e: Activity): Table {
    Table(t.rows[t.nextId := e], t.nextId + 1)
  }

  function InsertRows(t: Table, events: seq<Activity>): Table {
    if events == [] then t else InsertRow(InsertRows(t, events[..|events| - 1]), events[|events| - 1])
  }

  function DeleteRows(t: Table, ids: set<nat>): Table {
    t.(rows := t.rows - ids)
  }

  function TooOld(t: Table, cutoff: int): set<nat> {
    set id | id in t.rows && t.rows[id].startedAt < cutoff
  }

  /** A batch insert keeps every row and appends the events in order, under fresh consecutive ids. */
  lemma {:induction false} InsertRowsShape(t: Table, events: seq<Activity>)
    requires ValidTable(t)
    ensures var t' := InsertRows(t, events);
            && ValidTable(t') && t'.nextId == t.nextId + |events|
            && (forall id :: id in t.rows ==> id in t'.rows && t'.rows[id] == t.rows[id])
            && (forall id :: t.nextId <= id < t.nextId + |events| ==>
                  id in t'.rows && t'.rows[id] == events[id - t.nextId])
            && (forall id :: id in t'.rows ==> id in t.rows || t.nextId <= id < t.nextId + |events|)
  {
    if events != [] {
      InsertRowsShape(t, events[..|events| - 1]);
    }
  }

  /** `ids` are n rows (or all, if there are fewer) with the smallest ids. */
  ghost predicate AreOldest(t: Table, ids: set<nat>, n: nat) {
    && ids <= t.rows.Keys && |ids| == (if n < |t.rows| then n else |t.rows|)
    && forall a, b :: a in ids && b in t.rows && b !in ids ==> a < b
  }

  function EventsOf(listed: seq<(nat, Activity)>): seq<Activity> {
    seq(|listed|, k requires 0 <= k < |listed| => listed[k].1)
  }

  /** SELECT ... ORDER BY id ASC LIMIT n */
  ghost predicate IsListing(t: Table, listed: seq<(nat, Activity)>, n: nat) {
    ListsInOrder(t, listed) && AreOldest(t, IdsOf(listed), n)
  }

  /** Rows of the table with their ids, in ascending order. */
  ghost predicate ListsInOrder(t: Table, listed: seq<(nat, Activity)>) {
    && (forall k :: 0 <= k < |listed| ==> listed[k].0 in t.rows && t.rows[listed[k].0] == listed[k].1)
    && (forall j, k :: 0 <= j < k < |listed| ==> listed[j].0 < listed[k].0)
  }

  /** A flush sends the events of the listed rows one by one, and what it deletes are those rows and no others. */
  lemma ListedRowsGo(t: Table, listed: seq<(nat, Activity)>, n: nat)
    requires IsListing(t, listed, n)
    ensures |EventsOf(listed)| == |listed| == (if n < |t.rows| then n else |t.rows|)
    ensures forall k :: 0 <= k < |listed| ==> listed[k].0 in t.rows && EventsOf(listed)[k] == t.rows[listed[k].0]
    ensures forall id :: id in DeleteRows(t, IdsOf(listed)).rows <==>
              id in t.rows && forall k :: 0 <= k < |listed| ==> listed[k].0 != id
    ensures forall id :: id in DeleteRows(t, IdsOf(listed)).rows ==> forall k :: 0 <= k < |listed| ==> listed[k].0 < id
  {
    AsManyIds(listed);
    forall k | 0 <= k < |listed| ensures listed[k].0 in IdsOf(listed) {
      assert listed[k].0 == listed[k].0;
    }
  }

  lemma {:induction false} AsManyIds(listed: seq<(nat, Activity)>)
    requires forall j, k :: 0 <= j < k < |listed| ==> listed[j].0 < listed[k].0
    ensures |IdsOf(listed)| == |listed|
  {
    if listed != [] {
      var n := |listed| - 1;
      var before := listed[..n];
      AsManyIds(before);
      IdsOfAppend(before, listed[n].0, listed[n].1);
      assert listed == before + [(listed[n].0, listed[n].1)];
      assert listed[n].0 !in IdsOf(before);
    }
  }

  class DB {
    var rows: map<nat, Activity>
    var nextId: nat
    var droppedEvents: nat

    ghost function View(): Table reads this { Table(rows, nextId) }

    constructor ()
      ensures View() == Table(map[], 0) && droppedEvents == 0
    {
      rows, nextId, droppedEvents := map[], 0, 0;
    }

    /** One transaction; statement number `failAt` fails (|events| is the commit), and everything is rolled back. */
    method InsertActivityBatch(events: seq<Activity>, failAt: nat) returns (ok: bool)
      modifies this`rows, this`nextId
      ensures ok == (events == [] || failAt > |events|)
      ensures View() == if ok then InsertRows(old(View()), events) else old(View())
    {
      if |events| == 0 {
        return true;
      }
      var before, beforeId := rows, nextId;
      for i := 0 to |events|
        invariant failAt >= i && View() == InsertRows(old(View()), events[..i])
        invariant before == old(rows) && beforeId == old(nextId)
      {
        if failAt == i {
          rows, nextId := before, beforeId;
          return false;
        }
        rows, nextId := rows[nextId := events[i]], nextId + 1;
        assert events[..i + 1][..i] == events[..i];
      }
      assert events[..|events|] == events;
      if failAt == |events| {
        rows, nextId := before, beforeId;
        return false;
      }
      return true;
    }

    method ListUnsyncedActivity(limit: nat, fails: bool) returns (ok: bool, listed: seq<(nat, Activity)>)
      ensures ok == !fails
      ensures if ok then IsListing(View(), listed, limit) else listed == []
    {
      if fails {
        return false, [];
      }
      listed := SelectOldest(limit);
      ok := true;
    }

    method SelectOldest(limit: nat) returns (listed: seq<(nat, Activity)>)
      ensures IsListing(View(), listed, limit)
    {
      var left := rows.Keys;
      listed := [];
      assert ListedSoFar(View(), listed, left) by { assert IdsOf(listed) == {}; }
      while left != {} && |listed| < limit
        invariant |listed| <= limit && ListedSoFar(View(), listed, left)
        decreases left
      {
        var id := Smallest(left);
        ListOneMore(View(), listed, left, id);
        listed := listed + [(id, rows[id])];
        left := left - {id};
      }
      ListingDone(View(), listed, left, limit);
    }

    method Smallest(ids: set<nat>) returns (least: nat)
      requires ids != {}
      ensures least in ids && forall b :: b in ids ==> least <= b
    {
      least :| least in ids;
      var left := ids - {least};
      while left != {}
        invariant left <= ids && least in ids
        invariant forall b :: b in ids && b !in left ==> least <= b
        decreases left
      {
        var b :| b in left;
        if b < least {
          least := b;
        }
        left := left - {b};
      }
    }

    method MarkActivitySynced(ids: seq<nat>, fails: bool) returns (ok: bool)
      modifies this`rows
      ensures ok == (ids == [] || !fails)
      ensures View() == if ok then DeleteRows(old(View()), set id | id in ids) else old(View())
    {
      if |ids| == 0 {
        return true;
      }
      if !fails {
        rows := rows - (set id | id in ids);
      }
      return !fails;
    }

    /** Trims the oldest rows until at most maxRows are left; the newest are the ones kept. If the count or the
        delete fails, nothing is trimmed. */
    method CapBuffer(maxRows: nat, countFails: bool, trimFails: bool) returns (ok: bool)
      modifies this`rows
      ensures ok == (!countFails && (|old(rows)| <= maxRows || !trimFails))
      ensures !ok ==> View() == old(View())
      ensures ok ==> |rows| <= maxRows
      ensures ok ==> exists ids :: AreOldest(old(View()), ids, if |old(rows)| > maxRows then |old(rows)| - maxRows else 0)
                                   && View() == DeleteRows(old(View()), ids)
    {
      if countFails {
        return false;
      }
      var overflow := |rows| - maxRows;
      if overflow <= 0 {
        assert AreOldest(View(), {}, 0) && View() == DeleteRows(View(), {});
        return true;
      }
      if trimFails {
        return false;
      }
      TrimOldest(overflow);
      return true;
    }

    method TrimOldest(overflow: nat)
      requires overflow <= |rows|
      modifies this`rows
      ensures |rows| == |old(rows)| - overflow
      ensures exists ids :: AreOldest(old(View()), ids, overflow) && View() == DeleteRows(old(View()), ids)
    {
      var listed := SelectOldest(overflow);
      ghost var before := View();
      ghost var ids := IdsOf(listed);
      rows := rows - (set k | 0 <= k < |listed| :: listed[k].0);
      assert rows.Keys == before.rows.Keys - ids;
      assert |before.rows| == |before.rows.Keys| && |rows| == |rows.Keys|;
      assert AreOldest(before, ids, overflow) && View() == DeleteRows(before, ids);
    }

    method PruneSynced(cutoff: int, fails: bool) returns (ok: bool)
      modifies this`rows
      ensures ok == !fails
      ensures View() == if ok then DeleteRows(old(View()), TooOld(old(View()), cutoff)) else old(View())
      ensures forall id :: id in rows <==> id in old(rows) && (fails || old(rows)[id].startedAt >= cutoff)
      ensures forall id :: id in rows ==> rows[id] == old(rows)[id]
    {
      if !fails {
        rows := map id | id in rows && rows[id].startedAt >= cutoff :: rows[id];
      }
      return !fails;
    }
  }

  /** The smallest ids have been listed in order and `left` is still to come. */
  ghost predicate ListedSoFar(t: Table, listed: seq<(nat, Activity)>, left: set<nat>) {
    SplitAt(t.rows.Keys, IdsOf(listed), left) && |IdsOf(listed)| == |listed| && ListsInOrder(t, listed)
  }

  ghost predicate SplitAt(keys: set<nat>, low: set<nat>, high: set<nat>) {
    low + high == keys && low !! high && forall a, b :: a in low && b in high ==> a < b
  }

  lemma MoveLeast(keys: set<nat>, low: set<nat>, high: set<nat>, id: nat)
    requires SplitAt(keys, low, high) && id in high && forall b :: b in high ==> id <= b
    ensures SplitAt(keys, low + {id}, high - {id}) && |low + {id}| == |low| + 1
  {}

  lemma ListingDone(t: Table, listed: seq<(nat, Activity)>, left: set<nat>, limit: nat)
    requires ListedSoFar(t, listed, left) && |listed| <= limit && (left == {} || |listed| == limit)
    ensures IsListing(t, listed, limit)
  {
    assert |t.rows| == |t.rows.Keys| == |IdsOf(listed) + left| == |listed| + |left|;
  }

  lemma RowsOneMore(t: Table, listed: seq<(nat, Activity)>, id: nat)
    requires ListsInOrder(t, listed) && id in t.rows && forall k :: 0 <= k < |listed| ==> listed[k].0 < id
    ensures ListsInOrder(t, listed + [(id, t.rows[id])])
  {}

  lemma ListOneMore(t: Table, listed: seq<(nat, Activity)>, left: set<nat>, id: nat)
    requires ListedSoFar(t, listed, left) && id in left && forall b :: b in left ==> id <= b
    ensures ListedSoFar(t, listed + [(id, t.rows[id])], left - {id})
  {
    IdsOfAppend(listed, id, t.rows[id]);
    MoveLeast(t.rows.Keys, IdsOf(listed), left, id);
    forall k | 0 <= k < |listed| ensures listed[k].0 < id {
      assert listed[k].0 in IdsOf(listed);
    }
    RowsOneMore(t, listed, id);
  }

  class WriteBatcher {
    const db: DB
    const maxBatch: int
    var pending: seq<Activity>
    var timerArmed: bool

    /** The window timer runs exactly while something is pending. */
    ghost predicate Valid() reads this { timerArmed <==> pending != [] }

    constructor (db: DB, maxBatch: int)
      ensures Valid() && this.db == db && this.maxBatch == maxBatch && pending == []
    {
      this.db, this.maxBatch := db, maxBatch;
      pending, timerArmed := [], false;
    }

    method Add(e: Activity, failAt: nat)
      requires Valid()
      modifies this, db
      ensures Valid()
      ensures if |old(pending)| + 1 >= maxBatch then Flushed(old(pending) + [e], failAt, old(db.View()), old(db.droppedEvents))
              else pending == old(pending) + [e] && db.View() == old(db.View()) && db.droppedEvents == old(db.droppedEvents)
    {
      pending := pending + [e];
      if |pending| >= maxBatch {
        FlushLocked(failAt);
        return;
      }
      if !timerArmed {
        timerArmed := true;
      }
    }

    method Flush(failAt: nat)
      requires Valid()
      modifies this, db
      ensures Valid() && Flushed(old(pending), failAt, old(db.View()), old(db.droppedEvents))
    {
      FlushLocked(failAt);
    }

    /** Nothing stays pending: the events are in the table, in order, or counted as dropped. */
    ghost predicate Flushed(events: seq<Activity>, failAt: nat, before: Table, droppedBefore: nat)
      reads this, db
    {
      && pending == []
      && if failAt > |events| || events == []
         then db.View() == InsertRows(before, events) && db.droppedEvents == droppedBefore
         else db.View() == before && db.droppedEvents == droppedBefore + |events|
    }

    method FlushLocked(failAt: nat)
      modifies this, db
      requires pending == [] ==> !timerArmed
      ensures Valid() && Flushed(old(pending), failAt, old(db.View()), old(db.droppedEvents))
    {
      if |pending| == 0 {
        return;
      }
      var events := pending;
      pending := [];
      if timerArmed {
        timerArmed := false;
      }
      var ok := db.InsertActivityBatch(events, failAt);
      if !ok {
        db.droppedEvents := db.droppedEvents + |events|;
      }
    }
  }

  class Uploader {
    const db: DB
    /** The payloads the API has been sent and has answered positively. */
    var acknowledged: seq<seq<Activity>>

    constructor (db: DB)
      ensures this.db == db && acknowledged == []
    {
      this.db := db;
      acknowledged := [];
    }

    /** Rows leave the buffer only after their batch was acknowledged, and exactly those rows. */
    method FlushActivity(available: bool, listFails: bool, posted: bool, deleteFails: bool)
        returns (flushed: nat, ghost listed: seq<(nat, Activity)>)
      modifies this, db
      ensures IsListing(old(db.View()), listed, if available && !listFails then 100 else 0)
      ensures acknowledged == old(acknowledged) + (if posted && listed != [] then [EventsOf(listed)] else [])
      ensures db.View() == if posted && !deleteFails then DeleteRows(old(db.View()), IdsOf(listed)) else old(db.View())
      ensures flushed == if posted && !deleteFails then |listed| else 0
    {
      if !available {
        listed := [];
        assert IdsOf(listed) == {};
        return 0, listed;
      }
      var listedOk, events := db.ListUnsyncedActivity(UPLOAD_BATCH, listFails);
      listed := events;
      if !listedOk || |events| == 0 {
        assert IdsOf(listed) == {};
        return 0, listed;
      }
      var payload, ids: seq<nat> := [], [];
      for k := 0 to |events|
        invariant |payload| == |ids| == k
        invariant forall j :: 0 <= j < k ==> payload[j] == events[j].1 && ids[j] == events[j].0
      {
        payload := payload + [events[k].1];
        ids := ids + [events[k].0];
      }
      assert payload == EventsOf(events);
      if !posted {
        return 0, listed;
      }
      acknowledged := acknowledged + [payload];
      SameIds(ids, events);
      var ok := db.MarkActivitySynced(ids, deleteFails);
      if !ok {
        return 0, listed;
      }
      return |events|, listed;
    }
  }
}
