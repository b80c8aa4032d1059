/**
 * The store-and-forward path of an activity event, end to end: WriteBatcher, SQLite buffer,
 * concurrent FlushActivity runs (apps/agent/internal/sync/uploader.go), the HTTP call whose reply
 * may be lost, the queue and its workers. One step is one atomic action of one party.
 */
module Pipeline {
  import AQ = ActivityQueue
  import opened Buffer
  import opened Numbered

  /** A FlushActivity run: what it listed, and whether the API has enqueued it at least once. */
  datatype Flusher = Idle | Listed(rows: seq<(nat, Activity)>, enqueued: bool) | Acknowledged(rows: seq<(nat, Activity)>)

  datatype State = State(
    pending: seq<Activity>, table: Table, flushers: seq<Flusher>, queue: AQ.Queue,
    given: set<nat>,     // tags of all events handed to the batcher
    dropped: set<nat>)   // tags lost on purpose: failed batch insert, cap, prune, or pending at a crash

  datatype Step =
    | Add(e: Activity)
    | FlushBatch(ok: bool)
    | ListRows(f: nat, rows: seq<(nat, Activity)>)
    | ApiEnqueues(f: nat)          // one attempt reaches the API; its reply may still be lost
    | PostSucceeds(f: nat)
    | PostFails(f: nat)
    | DeleteListed(f: nat)
    | DeleteFails(f: nat)
    | Cap(maxRows: nat, ids: set<nat>)
    | Prune(cutoff: int)
    | Crash                        // the agent restarts: pending events and flusher runs are gone
    | Server(step: AQ.Step)

  function Initial(flushers: nat, workers: nat): State {
    State([], Table(map[], 0), seq(flushers, _ => Idle), AQ.Initial(workers), {}, {})
  }

  function Tags(events: seq<Activity>): set<nat> {
    set e | e in events :: e.tag
  }

  function TagsOf(t: Table, ids: set<nat>): set<nat> {
    set id | id in t.rows && id in ids :: t.rows[id].tag
  }

  ghost predicate Enabled(s: State, step: Step) {
    match step
    case Add(e) => e.tag !in s.given
    case FlushBatch(_) => true
    case ListRows(f, rows) =>
      f < |s.flushers| && s.flushers[f].Idle? && rows != [] && IsListing(s.table, rows, UPLOAD_BATCH)
    case ApiEnqueues(f) => f < |s.flushers| && s.flushers[f].Listed?
    case PostSucceeds(f) => f < |s.flushers| && s.flushers[f].Listed? && s.flushers[f].enqueued
    case PostFails(f) => f < |s.flushers| && s.flushers[f].Listed?
    case DeleteListed(f) => f < |s.flushers| && s.flushers[f].Acknowledged?
    case DeleteFails(f) => f < |s.flushers| && s.flushers[f].Acknowledged?
    case Cap(maxRows, ids) => |s.table.rows| > maxRows && AreOldest(s.table, ids, |s.table.rows| - maxRows)
    case Prune(_) => true
    case Crash => true
    case Server(step) => !step.Enqueue?
  }

  ghost function Apply(s: State, step: Step): State {
    if !Enabled(s, step) then s
    else
      match step
      case Add(e) => s.(pending := s.pending + [e], given := s.given + {e.tag})
      case FlushBatch(ok) =>
        if ok then s.(pending := [], table := InsertRows(s.table, s.pending))
        else s.(pending := [], dropped := s.dropped + Tags(s.pending))
      case ListRows(f, rows) => s.(flushers := s.flushers[f := Listed(rows, false)])
      case ApiEnqueues(f) =>
        s.(flushers := s.flushers[f := s.flushers[f].(enqueued := true)],
           queue := AQ.Apply(s.queue, AQ.Enqueue(EventsOf(s.flushers[f].rows))))
      case PostSucceeds(f) => s.(flushers := s.flushers[f := Acknowledged(s.flushers[f].rows)])
      case PostFails(f) => s.(flushers := s.flushers[f := Idle])
      case DeleteListed(f) =>
        s.(flushers := s.flushers[f := Idle], table := DeleteRows(s.table, IdsOf(s.flushers[f].rows)))
      case DeleteFails(f) => s.(flushers := s.flushers[f := Idle])
      case Cap(_, ids) => Drop(s, ids)
      case Prune(cutoff) => Drop(s, TooOld(s.table, cutoff))
      case Crash => s.(pending := [], dropped := s.dropped + Tags(s.pending), flushers := seq(|s.flushers|, _ => Idle))
      case Server(step) => s.(queue := AQ.Apply(s.queue, step))
  }

  function Drop(s: State, ids: set<nat>): State {
    s.(table := DeleteRows(s.table, ids), dropped := s.dropped + TagsOf(s.table, ids))
  }

  ghost function Run(s: State, steps: seq<Step>): State {
    if steps == [] then s else Apply(Run(s, steps[..|steps| - 1]), steps[|steps| - 1])
  }

  // ---------------------------------------------------------------- one undisturbed flush

  lemma RunAppend(s: State, steps: seq<Step>, step: Step)
    ensures Run(s, steps + [step]) == Apply(Run(s, steps), step)
  {
    assert (steps + [step])[..|steps|] == steps;
  }

  /** The steps of one FlushActivity that listed `rows`, as its outcome decides them. */
  function FlushSteps(f: nat, rows: seq<(nat, Activity)>, posted: bool, deleteFails: bool): seq<Step> {
    if rows == [] then []
    else if !posted then [ListRows(f, rows)] + [PostFails(f)]
    else [ListRows(f, rows)] + [ApiEnqueues(f)] + [PostSucceeds(f)] + [if deleteFails then DeleteFails(f) else DeleteListed(f)]
  }

  /** The object's FlushActivity (Uploader.FlushActivity) does to the table and the API what these steps do. */
  lemma FlushIsPipelineRun(s: State, f: nat, rows: seq<(nat, Activity)>, posted: bool, deleteFails: bool)
    requires f < |s.flushers| && s.flushers[f].Idle? && IsListing(s.table, rows, if rows == [] then 0 else UPLOAD_BATCH)
    ensures Run(s, FlushSteps(f, rows, posted, deleteFails))
         == s.(table := if posted && !deleteFails then DeleteRows(s.table, IdsOf(rows)) else s.table,
               queue := if posted && rows != [] then AQ.Apply(s.queue, AQ.Enqueue(EventsOf(rows))) else s.queue)
  {
    if rows == [] {
      assert s.table.rows - IdsOf(rows) == s.table.rows;
    } else {
      FlushEndings(s, f, rows);
    }
  }

  lemma FlushEndings(s: State, f: nat, rows: seq<(nat, Activity)>)
    requires Enabled(s, ListRows(f, rows))
    ensures var listed, queue := [ListRows(f, rows)], AQ.Apply(s.queue, AQ.Enqueue(EventsOf(rows)));
            && Run(s, listed + [PostFails(f)]) == s
            && Run(s, listed + [ApiEnqueues(f)] + [PostSucceeds(f)] + [DeleteFails(f)]) == s.(queue := queue)
            && Run(s, listed + [ApiEnqueues(f)] + [PostSucceeds(f)] + [DeleteListed(f)])
               == s.(queue := queue, table := DeleteRows(s.table, IdsOf(rows)))
  {
    var queue := AQ.Apply(s.queue, AQ.Enqueue(EventsOf(rows)));
    var posted := [ListRows(f, rows)] + [ApiEnqueues(f)] + [PostSucceeds(f)];
    ListAndPost(s, f, rows);
    RunAppend(s, [ListRows(f, rows)], PostFails(f));
    GivesUp(s, f, rows);
    RunAppend(s, posted, DeleteFails(f));
    RunAppend(s, posted, DeleteListed(f));
    Finishes(s, f, rows, queue);
  }

  lemma GivesUp(s: State, f: nat, rows: seq<(nat, Activity)>)
    requires f < |s.flushers| && s.flushers[f].Idle?
    ensures Apply(With(s, f, Listed(rows, false)), PostFails(f)) == s
  {
    IdleAgain(s, f, Listed(rows, false));
  }

  lemma Finishes(s: State, f: nat, rows: seq<(nat, Activity)>, queue: AQ.Queue)
    requires f < |s.flushers| && s.flushers[f].Idle?
    ensures var s1 := With(s, f, Acknowledged(rows)).(queue := queue);
            && Apply(s1, DeleteFails(f)) == s.(queue := queue)
            && Apply(s1, DeleteListed(f)) == s.(queue := queue, table := DeleteRows(s.table, IdsOf(rows)))
  {
    IdleAgain(s, f, Acknowledged(rows));
  }

  lemma IdleAgain(s: State, f: nat, busy: Flusher)
    requires f < |s.flushers| && s.flushers[f].Idle?
    ensures s.flushers[f := busy][f := Idle] == s.flushers
  {}

  function With(s: State, f: nat, fl: Flusher): State
    requires f < |s.flushers|
  {
    s.(flushers := s.flushers[f := fl])
  }

  lemma ListAndPost(s: State, f: nat, rows: seq<(nat, Activity)>)
    requires Enabled(s, ListRows(f, rows))
    ensures Run(s, [ListRows(f, rows)]) == With(s, f, Listed(rows, false))
    ensures Run(s, [ListRows(f, rows)] + [ApiEnqueues(f)] + [PostSucceeds(f)])
         == With(s, f, Acknowledged(rows)).(queue := AQ.Apply(s.queue, AQ.Enqueue(EventsOf(rows))))
  {
    var listed, queue := [ListRows(f, rows)], AQ.Apply(s.queue, AQ.Enqueue(EventsOf(rows)));
    assert listed[..0] == [];
    RunAppend(s, listed, ApiEnqueues(f));
    RunAppend(s, listed + [ApiEnqueues(f)], PostSucceeds(f));
    assert Run(s, listed + [ApiEnqueues(f)]) == With(s, f, Listed(rows, true)).(queue := queue);
  }

  // ---------------------------------------------------------------- where an event can be

  ghost predicate InPending(s: State, tag: nat) {
    exists k :: 0 <= k < |s.pending| && s.pending[k].tag == tag
  }

  ghost predicate InTable(t: Table, tag: nat) {
    exists id :: id in t.rows && t.rows[id].tag == tag
  }

  ghost predicate Carries(payload: seq<Activity>, tag: nat) {
    exists k :: 0 <= k < |payload| && payload[k].tag == tag
  }

  /** The API accepted a batch with this event at some time. */
  ghost predicate Delivered(q: AQ.Queue, tag: nat) {
    exists m :: 0 <= m < |q.sent| && Carries(q.sent[m], tag)
  }

  ghost predicate InQueue(q: AQ.Queue, tag: nat) {
    exists m :: m in q.visibleAt && m < |q.sent| && Carries(q.sent[m], tag)
  }

  /** The event is in the activity_events table of the server. */
  ghost predicate InDatabase(q: AQ.Queue, tag: nat) {
    exists e :: e in q.table && e.tag == tag
  }

  /** What the API accepted is still queued or in the table, and nothing else is in the table. */
  lemma DeliveredIsKept(q: AQ.Queue, tag: nat)
    requires AQ.Inv(q) && AQ.TableInv(q)
    ensures Delivered(q, tag) <==> InQueue(q, tag) || InDatabase(q, tag)
  {
    if m :| 0 <= m < |q.sent| && Carries(q.sent[m], tag) {
      var k :| 0 <= k < |q.sent[m]| && q.sent[m][k].tag == tag;
      AQ.TableMembers(q, q.sent[m][k]);
      assert m in q.visibleAt || q.inserted[m] > 0;
    }
    if e :| e in q.table && e.tag == tag {
      AQ.TableMembers(q, e);
      var m :| 0 <= m < |q.sent| && q.inserted[m] > 0 && e in q.sent[m];
      assert Carries(q.sent[m], tag);
    }
  }

  ghost predicate Somewhere(s: State, tag: nat) {
    InPending(s, tag) || InTable(s.table, tag) || Delivered(s.queue, tag) || tag in s.dropped
  }

  /** A listed row is still the same row, if it is still there. */
  ghost predicate Fresh(t: Table, row: (nat, Activity)) {
    row.0 < t.nextId && (row.0 in t.rows ==> t.rows[row.0] == row.1)
  }

  ghost predicate FlusherInv(s: State, fl: Flusher) {
    fl.Idle? ||
    forall k :: 0 <= k < |fl.rows| ==>
      && Fresh(s.table, fl.rows[k])
      && fl.rows[k].1.tag in s.given
      && (fl.Acknowledged? || fl.enqueued ==> Delivered(s.queue, fl.rows[k].1.tag))
  }

  ghost predicate Inv(s: State) {
    && ValidTable(s.table) && AQ.Inv(s.queue) && AQ.TableInv(s.queue)
    && (forall tag :: tag in s.given <==> Somewhere(s, tag))
    && (forall f :: 0 <= f < |s.flushers| ==> FlusherInv(s, s.flushers[f]))
  }

  // ---------------------------------------------------------------- each step keeps the account

  lemma ServerKeepsInv(s: State, step: AQ.Step)
    requires Inv(s) && !step.Enqueue?
    ensures Inv(s.(queue := AQ.Apply(s.queue, step)))
  {
    AQ.StepKeepsInv(s.queue, step);
    AQ.StepKeepsTable(s.queue, step);
    var s' := s.(queue := AQ.Apply(s.queue, step));
    assert s'.queue.sent == s.queue.sent;
    assert forall tag :: Delivered(s'.queue, tag) <==> Delivered(s.queue, tag);
    assert forall tag :: InPending(s', tag) <==> InPending(s, tag);
    forall f | 0 <= f < |s'.flushers| ensures FlusherInv(s', s'.flushers[f]) {
      assert FlusherInv(s, s.flushers[f]);
    }
  }

  lemma AddKeepsInv(s: State, e: Activity)
    requires Inv(s) && Enabled(s, Add(e))
    ensures Inv(Apply(s, Add(e)))
  {
    var s' := Apply(s, Add(e));
    forall tag ensures InPending(s', tag) <==> InPending(s, tag) || tag == e.tag {
      if InPending(s, tag) {
        var k :| 0 <= k < |s.pending| && s.pending[k].tag == tag;
        assert s'.pending[k].tag == tag;
      }
      assert s'.pending[|s.pending|] == e;
    }
    forall f | 0 <= f < |s'.flushers| ensures FlusherInv(s', s'.flushers[f]) {
      assert FlusherInv(s, s.flushers[f]);
    }
  }

  lemma PendingTags(s: State, tag: nat)
    ensures InPending(s, tag) <==> tag in Tags(s.pending)
  {
    if k :| 0 <= k < |s.pending| && s.pending[k].tag == tag {
      assert s.pending[k] in s.pending;
    }
  }

  lemma InsertKeepsInv(s: State)
    requires Inv(s)
    ensures Inv(Apply(s, FlushBatch(true)))
  {
    var s' := Apply(s, FlushBatch(true));
    var t, t' := s.table, s'.table;
    InsertRowsShape(t, s.pending);
    forall tag ensures InTable(t', tag) <==> InTable(t, tag) || InPending(s, tag) {
      if id :| id in t.rows && t.rows[id].tag == tag {
        assert t'.rows[id].tag == tag;
      }
      if k :| 0 <= k < |s.pending| && s.pending[k].tag == tag {
        assert t'.rows[t.nextId + k].tag == tag;
      }
      if id :| id in t'.rows && t'.rows[id].tag == tag {
        if id !in t.rows {
          assert s.pending[id - t.nextId].tag == tag;
        }
      }
    }
    forall tag ensures tag in s'.given <==> Somewhere(s', tag) {
      assert tag in s.given <==> Somewhere(s, tag);
      assert !InPending(s', tag);
    }
    forall f | 0 <= f < |s'.flushers| ensures FlusherInv(s', s'.flushers[f]) {
      assert FlusherInv(s, s.flushers[f]);
    }
  }

  lemma LosePendingKeepsInv(s: State, s': State)
    requires Inv(s) && s' == s.(pending := [], dropped := s.dropped + Tags(s.pending), flushers := s'.flushers)
    requires forall f :: 0 <= f < |s'.flushers| ==> s'.flushers[f].Idle? || (f < |s.flushers| && s'.flushers[f] == s.flushers[f])
    ensures Inv(s')
  {
    forall tag ensures tag in s'.given <==> Somewhere(s', tag) {
      assert tag in s.given <==> Somewhere(s, tag);
      PendingTags(s, tag);
      assert !InPending(s', tag);
    }
    forall f | 0 <= f < |s'.flushers| ensures FlusherInv(s', s'.flushers[f]) {
      if !s'.flushers[f].Idle? {
        assert FlusherInv(s, s.flushers[f]);
      }
    }
  }

  /** Replacing one flusher by one that satisfies its invariant. */
  lemma FlusherStepKeepsInv(s: State, f: nat, fl: Flusher)
    requires Inv(s) && f < |s.flushers| && FlusherInv(s, fl)
    ensures Inv(s.(flushers := s.flushers[f := fl]))
  {
    var s' := s.(flushers := s.flushers[f := fl]);
    forall tag ensures Somewhere(s', tag) <==> Somewhere(s, tag) {
      assert InPending(s', tag) <==> InPending(s, tag);
    }
    forall g | 0 <= g < |s'.flushers| ensures FlusherInv(s', s'.flushers[g]) {
      if g != f {
        assert FlusherInv(s, s.flushers[g]);
      }
    }
  }

  lemma ListingIsFresh(s: State, rows: seq<(nat, Activity)>)
    requires Inv(s) && IsListing(s.table, rows, UPLOAD_BATCH)
    ensures FlusherInv(s, Listed(rows, false))
  {
    forall k | 0 <= k < |rows| ensures Fresh(s.table, rows[k]) && rows[k].1.tag in s.given {
      assert s.table.rows[rows[k].0].tag == rows[k].1.tag;
      assert InTable(s.table, rows[k].1.tag);
      assert Somewhere(s, rows[k].1.tag);
    }
  }

  lemma EnqueueDelivers(q: AQ.Queue, payload: seq<Activity>, tag: nat)
    ensures Delivered(AQ.Apply(q, AQ.Enqueue(payload)), tag) <==> Delivered(q, tag) || Carries(payload, tag)
  {
    var q' := AQ.Apply(q, AQ.Enqueue(payload));
    if m :| 0 <= m < |q.sent| && Carries(q.sent[m], tag) {
      assert q'.sent[m] == q.sent[m];
    }
    assert q'.sent[|q.sent|] == payload;
    if m :| 0 <= m < |q'.sent| && Carries(q'.sent[m], tag) {
      assert m < |q.sent| ==> q'.sent[m] == q.sent[m];
    }
  }

  lemma EnqueueKeepsInv(s: State, f: nat)
    requires Inv(s) && Enabled(s, ApiEnqueues(f))
    ensures Inv(Apply(s, ApiEnqueues(f)))
  {
    var rows := s.flushers[f].rows;
    var payload := EventsOf(rows);
    var q' := AQ.Apply(s.queue, AQ.Enqueue(payload));
    var s1 := s.(queue := q');
    AQ.StepKeepsInv(s.queue, AQ.Enqueue(payload));
    AQ.StepKeepsTable(s.queue, AQ.Enqueue(payload));
    assert FlusherInv(s, s.flushers[f]);
    forall tag ensures tag in s1.given <==> Somewhere(s1, tag) {
      EnqueueDelivers(s.queue, payload, tag);
      assert tag in s.given <==> Somewhere(s, tag);
      assert InPending(s1, tag) <==> InPending(s, tag);
      if k :| 0 <= k < |payload| && payload[k].tag == tag {
        assert rows[k].1.tag in s.given;
      }
    }
    forall g | 0 <= g < |s1.flushers| ensures FlusherInv(s1, s1.flushers[g]) {
      assert FlusherInv(s, s.flushers[g]);
      forall tag | Delivered(s.queue, tag) ensures Delivered(q', tag) {
        EnqueueDelivers(s.queue, payload, tag);
      }
    }
    forall k | 0 <= k < |rows| ensures Delivered(q', rows[k].1.tag) {
      assert payload[k].tag == rows[k].1.tag;
      EnqueueDelivers(s.queue, payload, rows[k].1.tag);
    }
    FlusherStepKeepsInv(s1, f, Listed(rows, true));
  }

  /** Rows may go once their events are delivered or written off. */
  lemma DeleteKeepsInv(s: State, ids: set<nat>, dropped: set<nat>)
    requires Inv(s) && s.dropped <= dropped <= s.given
    requires forall id :: id in ids && id in s.table.rows ==>
               Delivered(s.queue, s.table.rows[id].tag) || s.table.rows[id].tag in dropped
    ensures Inv(s.(table := DeleteRows(s.table, ids), dropped := dropped))
  {
    var s' := s.(table := DeleteRows(s.table, ids), dropped := dropped);
    forall tag ensures tag in s'.given <==> Somewhere(s', tag) {
      assert tag in s.given <==> Somewhere(s, tag);
      assert InPending(s', tag) <==> InPending(s, tag);
      if id :| id in s.table.rows && s.table.rows[id].tag == tag {
        if id !in ids {
          assert id in s'.table.rows && s'.table.rows[id].tag == tag;
        }
      }
      if id :| id in s'.table.rows && s'.table.rows[id].tag == tag {
        assert s.table.rows[id].tag == tag;
      }
    }
    forall f | 0 <= f < |s'.flushers| ensures FlusherInv(s', s'.flushers[f]) {
      assert FlusherInv(s, s.flushers[f]);
    }
  }

  lemma DropKeepsInv(s: State, ids: set<nat>)
    requires Inv(s)
    ensures Inv(Drop(s, ids))
  {
    forall tag | tag in TagsOf(s.table, ids) ensures tag in s.given {
      assert InTable(s.table, tag);
      assert Somewhere(s, tag);
    }
    forall tag | tag in s.dropped ensures tag in s.given {
      assert Somewhere(s, tag);
    }
    DeleteKeepsInv(s, ids, s.dropped + TagsOf(s.table, ids));
  }

  /** Every row a flusher is about to delete was delivered to the server: no id ever names another row. */
  lemma DeletedRowsWereDelivered(s: State, f: nat, id: nat)
    requires Inv(s) && Enabled(s, DeleteListed(f)) && id in IdsOf(s.flushers[f].rows) && id in s.table.rows
    ensures Delivered(s.queue, s.table.rows[id].tag)
  {
    var rows := s.flushers[f].rows;
    assert FlusherInv(s, s.flushers[f]);
    var k :| 0 <= k < |rows| && rows[k].0 == id;
    assert Fresh(s.table, rows[k]);
  }

  lemma DeleteListedKeepsInv(s: State, f: nat)
    requires Inv(s) && Enabled(s, DeleteListed(f))
    ensures Inv(Apply(s, DeleteListed(f)))
  {
    var ids := IdsOf(s.flushers[f].rows);
    forall id | id in ids && id in s.table.rows ensures Delivered(s.queue, s.table.rows[id].tag) {
      DeletedRowsWereDelivered(s, f, id);
    }
    forall tag | tag in s.dropped ensures tag in s.given {
      assert Somewhere(s, tag);
    }
    DeleteKeepsInv(s, ids, s.dropped);
    FlusherStepKeepsInv(s.(table := DeleteRows(s.table, ids)), f, Idle);
  }

  lemma StepKeepsInv(s: State, step: Step)
    requires Inv(s)
    ensures Inv(Apply(s, step))
  {
    if Enabled(s, step) {
      match step
      case Add(e) => AddKeepsInv(s, e);
      case FlushBatch(ok) =>
        if ok {
          InsertKeepsInv(s);
        } else {
          LosePendingKeepsInv(s, Apply(s, step));
        }
      case ListRows(f, rows) =>
        ListingIsFresh(s, rows);
        FlusherStepKeepsInv(s, f, Listed(rows, false));
      case ApiEnqueues(f) => EnqueueKeepsInv(s, f);
      case PostSucceeds(f) =>
        assert FlusherInv(s, s.flushers[f]);
        FlusherStepKeepsInv(s, f, Acknowledged(s.flushers[f].rows));
      case PostFails(f) => FlusherStepKeepsInv(s, f, Idle);
      case DeleteListed(f) => DeleteListedKeepsInv(s, f);
      case DeleteFails(f) => FlusherStepKeepsInv(s, f, Idle);
      case Cap(_, ids) => DropKeepsInv(s, ids);
      case Prune(cutoff) => DropKeepsInv(s, TooOld(s.table, cutoff));
      case Crash => LosePendingKeepsInv(s, Apply(s, step));
      case Server(inner) => ServerKeepsInv(s, inner);
    }
  }

  lemma {:induction false} RunKeepsInv(flushers: nat, workers: nat, steps: seq<Step>)
    ensures Inv(Run(Initial(flushers, workers), steps))
  {
    var s0 := Initial(flushers, workers);
    if steps == [] {
      AQ.InitialInv(workers);
      AQ.TableIsInsertions(workers, []);
      assert forall f :: 0 <= f < |s0.flushers| ==> s0.flushers[f] == Idle;
    } else {
      RunKeepsInv(flushers, workers, steps[..|steps| - 1]);
      StepKeepsInv(Run(s0, steps[..|steps| - 1]), steps[|steps| - 1]);
    }
  }

  // ---------------------------------------------------------------- conservation

  /** End to end, in every run: the events given to the batcher are exactly those pending, in SQLite,
      in the queue, in the server's table, or explicitly dropped. */
  lemma NothingDisappears(flushers: nat, workers: nat, steps: seq<Step>, tag: nat)
    ensures var s := Run(Initial(flushers, workers), steps);
            tag in s.given <==>
              || InPending(s, tag) || InTable(s.table, tag)
              || InQueue(s.queue, tag) || InDatabase(s.queue, tag) || tag in s.dropped
  {
    RunKeepsInv(flushers, workers, steps);
    var s := Run(Initial(flushers, workers), steps);
    assert tag in s.given <==> Somewhere(s, tag);
    DeliveredIsKept(s.queue, tag);
  }

  /** The step gives the event up: a batch insert that fails and a crash those pending, a cap the oldest rows over the
      limit, a prune the rows started before its cutoff. */
  ghost predicate WritesOff(s: State, step: Step, tag: nat) {
    Enabled(s, step) &&
    match step
    case FlushBatch(ok) => !ok && InPending(s, tag)
    case Crash => InPending(s, tag)
    case Cap(maxRows, ids) =>
      && AreOldest(s.table, ids, |s.table.rows| - maxRows)
      && exists id :: id in ids && id in s.table.rows && s.table.rows[id].tag == tag
    case Prune(cutoff) => exists id :: id in s.table.rows && s.table.rows[id].startedAt < cutoff && s.table.rows[id].tag == tag
    case _ => false
  }

  lemma StepDrops(s: State, step: Step, tag: nat)
    ensures tag in Apply(s, step).dropped <==> tag in s.dropped || WritesOff(s, step, tag)
  {
    PendingTags(s, tag);
  }

  /** Step number i of the run gives the event up. */
  ghost predicate WrittenOffAt(s0: State, steps: seq<Step>, i: nat, tag: nat) {
    i < |steps| && WritesOff(Run(s0, steps[..i]), steps[i], tag)
  }

  lemma WrittenOffEarlier(s0: State, steps: seq<Step>, step: Step, i: nat, tag: nat)
    requires i < |steps|
    ensures WrittenOffAt(s0, steps + [step], i, tag) <==> WrittenOffAt(s0, steps, i, tag)
  {
    assert (steps + [step])[..i] == steps[..i] && (steps + [step])[i] == steps[i];
  }

  lemma WrittenOffNow(s0: State, steps: seq<Step>, step: Step, tag: nat)
    ensures WrittenOffAt(s0, steps + [step], |steps|, tag) <==> WritesOff(Run(s0, steps), step, tag)
  {
    assert (steps + [step])[..|steps|] == steps;
  }

  /** In every run `dropped` holds exactly the events that some step has given up: nothing else may get lost. */
  lemma {:induction false} DroppedExactly(flushers: nat, workers: nat, steps: seq<Step>, tag: nat)
    ensures var s0 := Initial(flushers, workers);
            tag in Run(s0, steps).dropped <==> exists i: nat :: WrittenOffAt(s0, steps, i, tag)
  {
    if steps != [] {
      var n, s0 := |steps| - 1, Initial(flushers, workers);
      var before, step := steps[..n], steps[n];
      assert steps == before + [step];
      DroppedExactly(flushers, workers, before, tag);
      StepDrops(Run(s0, before), step, tag);
      WrittenOffNow(s0, before, step, tag);
      forall i: nat | i < n ensures WrittenOffAt(s0, steps, i, tag) <==> WrittenOffAt(s0, before, i, tag) {
        WrittenOffEarlier(s0, before, step, i, tag);
      }
    }
  }

  /** Cap, prune and delete leave the row in the table. */
  ghost predicate Spares(s: State, step: Step, id: nat)
    requires Enabled(s, step) && id in s.table.rows
  {
    match step
    case Cap(_, ids) => id !in ids
    case Prune(cutoff) => s.table.rows[id].startedAt >= cutoff
    case DeleteListed(f) => forall k :: 0 <= k < |s.flushers[f].rows| ==> s.flushers[f].rows[k].0 != id
    case _ => true
  }

  lemma RowsAfter(s: State, step: Step, id: nat)
    requires Enabled(s, step) && (step.Cap? || step.Prune? || step.DeleteListed?)
    ensures var rows, rows' := s.table.rows, Apply(s, step).table.rows;
            && (id in rows' <==> id in rows && Spares(s, step, id))
            && (id in rows' ==> rows'[id] == rows[id])
  {}

  /** In every run, whatever the other flushers did meanwhile, a delete removes no row that was not delivered. */
  lemma DeleteIsSafe(flushers: nat, workers: nat, steps: seq<Step>, f: nat, id: nat)
    requires var s := Run(Initial(flushers, workers), steps);
             && Enabled(s, DeleteListed(f))
             && id in s.table.rows && id !in Apply(s, DeleteListed(f)).table.rows
    ensures var s := Run(Initial(flushers, workers), steps);
            InQueue(s.queue, s.table.rows[id].tag) || InDatabase(s.queue, s.table.rows[id].tag)
  {
    RunKeepsInv(flushers, workers, steps);
    var s := Run(Initial(flushers, workers), steps);
    DeletedRowsWereDelivered(s, f, id);
    DeliveredIsKept(s.queue, s.table.rows[id].tag);
  }

  /** It rests on ids never being reused. Had row 0 (a), sent and deleted by a faster flusher, been
      followed by a new row 0 (b), the slower flusher's delete would lose b. */
  lemma ReusedIdsWouldLoseEvents(a: Activity, b: Activity)
    requires a.tag != b.tag
    ensures var queue := AQ.Apply(AQ.Initial(0), AQ.Enqueue([a]));
            var s := State([], Table(map[0 := b], 1), [Acknowledged([(0, a)])], queue, {a.tag, b.tag}, {});
            && (forall tag :: tag in s.given <==> Somewhere(s, tag))
            && b.tag in Apply(s, DeleteListed(0)).given && !Somewhere(Apply(s, DeleteListed(0)), b.tag)
  {
    var queue := AQ.Apply(AQ.Initial(0), AQ.Enqueue([a]));
    var s := State([], Table(map[0 := b], 1), [Acknowledged([(0, a)])], queue, {a.tag, b.tag}, {});
    assert queue.sent == [[a]] && s.table.rows[0].tag == b.tag;
    forall tag ensures Delivered(queue, tag) <==> tag == a.tag {
      assert Carries(queue.sent[0], tag) <==> tag == a.tag by { assert [a][0] == a; }
    }
    assert [(0, a)][0].0 == 0;
    assert IdsOf([(0, a)]) == {0};
    assert Apply(s, DeleteListed(0)).table.rows == map[];
  }
}
