/**
 * FlushScreenshots (apps/agent/internal/sync/uploader.go) run by any number of concurrent flushers:
 * per record stat, presign, upload, save metadata, delete row, remove file, with retries, lost
 * replies and crashes between any two steps. A screenshot is identified by the path of its file.
 * Object keys are whatever the API hands out (agent.service.ts): a time in milliseconds, so two
 * uploads can be given the same one.
 */
module Screenshots {

  const BATCH := 10

  datatype Stage =
    | Starting                 // before os.Stat
    | Missing                  // os.Stat found no file
    | Attempting               // inside the retried function, before the presign call
    | Presigned(key: nat)
    | Uploaded(key: nat)
    | MetaSaved(key: nat)
    | RowDeleted

  /** The records still to do; the stage is that of the first one. */
  datatype Flusher = Flusher(todo: seq<(nat, nat)>, stage: Stage)

  const IDLE := Flusher([], Starting)

  /** What an object shows: one of this agent's screenshots, or something another device or a burst frame put there. */
  datatype Picture = Ours(path: nat) | Foreign

  datatype State = State(
    files: set<nat>,             // screenshots on disk, by path
    rows: map<nat, nat>,         // screenshots table: id to local path
    nextId: nat,
    objects: map<nat, Picture>,  // the bucket
    metas: set<nat>,             // keys whose metadata the server has saved
    recorded: set<nat>,          // every screenshot ever inserted into the table
    issued: set<(nat, nat)>,     // every key handed out, and the screenshot it was asked for
    foreignKeys: set<nat>,       // every key others have written
    flushers: seq<Flusher>,
    refuses: bool)               // whether the bucket refuses to overwrite an object

  function Initial(flushers: nat, refuses: bool): State {
    State({}, map[], 0, map[], {}, {}, {}, {}, seq(flushers, _ => IDLE), refuses)
  }

  datatype Step =
    | Capture(path: nat)
    | InsertRecord(path: nat)
    | List(f: nat, records: seq<(nat, nat)>)
    | Stat(f: nat)
    | Discard(f: nat)
    | Presign(f: nat, key: nat)
    | Upload(f: nat, replyLost: bool)
    | ForeignUpload(key: nat)
    | SaveMeta(f: nat, replyLost: bool)
    | DeleteRow(f: nat)
    | RemoveFile(f: nat, fails: bool)
    | Retry(f: nat)
    | GiveUp(f: nat)
    | Crash

  predicate Busy(s: State, f: nat) {
    f < |s.flushers| && s.flushers[f].todo != []
  }

  predicate Writable(s: State, key: nat) {
    s.refuses ==> key !in s.objects
  }

  predicate Enabled(s: State, step: Step) {
    match step
    case Capture(path) => path !in s.files && path !in s.recorded
    case InsertRecord(path) => path in s.files && path !in s.recorded
    case List(f, records) =>
      && f < |s.flushers| && s.flushers[f].todo == [] && |records| <= BATCH
      && forall k :: 0 <= k < |records| ==> records[k].0 in s.rows && s.rows[records[k].0] == records[k].1
    case Stat(f) => Busy(s, f) && s.flushers[f].stage.Starting?
    case Discard(f) => Busy(s, f) && s.flushers[f].stage.Missing?
    case Presign(f, _) => Busy(s, f) && s.flushers[f].stage.Attempting?
    case Upload(f, _) =>
      && Busy(s, f) && s.flushers[f].stage.Presigned? && s.flushers[f].todo[0].1 in s.files
      && Writable(s, s.flushers[f].stage.key)
    case ForeignUpload(key) => Writable(s, key)
    case SaveMeta(f, _) => Busy(s, f) && s.flushers[f].stage.Uploaded?
    case DeleteRow(f) => Busy(s, f) && s.flushers[f].stage.MetaSaved?
    case RemoveFile(f, _) => Busy(s, f) && s.flushers[f].stage.RowDeleted?
    case Retry(f) =>
      Busy(s, f) && var st := s.flushers[f].stage; st.Presigned? || st.Uploaded? || st.MetaSaved?
    case GiveUp(f) =>
      Busy(s, f) && var st := s.flushers[f].stage; st.Attempting? || st.Presigned? || st.Uploaded? || st.MetaSaved?
    case Crash => true
  }

  function At(s: State, f: nat, stage: Stage): State
    requires f < |s.flushers|
  {
    s.(flushers := s.flushers[f := s.flushers[f].(stage := stage)])
  }

  function NextRecord(s: State, f: nat): State
    requires Busy(s, f)
  {
    s.(flushers := s.flushers[f := Flusher(s.flushers[f].todo[1..], Starting)])
  }

  /** A successful PUT. */
  function Put(s: State, key: nat, picture: Picture): State {
    s.(objects := s.objects[key := picture])
  }

  function Apply(s: State, step: Step): State {
    if !Enabled(s, step) then s
    else
      match step
      case Capture(path) => s.(files := s.files + {path})
      case InsertRecord(path) =>
        s.(rows := s.rows[s.nextId := path], nextId := s.nextId + 1, recorded := s.recorded + {path})
      case List(f, records) => s.(flushers := s.flushers[f := Flusher(records, Starting)])
      case Stat(f) => At(s, f, if s.flushers[f].todo[0].1 in s.files then Attempting else Missing)
      case Discard(f) => NextRecord(s.(rows := s.rows - {s.flushers[f].todo[0].0}), f)
      case Presign(f, key) => At(s.(issued := s.issued + {(key, s.flushers[f].todo[0].1)}), f, Presigned(key))
      case Upload(f, replyLost) =>
        var key := s.flushers[f].stage.key;
        At(Put(s, key, Ours(s.flushers[f].todo[0].1)), f, if replyLost then Attempting else Uploaded(key))
      case ForeignUpload(key) => Put(s, key, Foreign).(foreignKeys := s.foreignKeys + {key})
      case SaveMeta(f, replyLost) =>
        var key := s.flushers[f].stage.key;
        At(s.(metas := s.metas + {key}), f, if replyLost then Attempting else MetaSaved(key))
      case DeleteRow(f) => At(s.(rows := s.rows - {s.flushers[f].todo[0].0}), f, RowDeleted)
      case RemoveFile(f, fails) =>
        NextRecord(if fails then s else s.(files := s.files - {s.flushers[f].todo[0].1}), f)
      case Retry(f) => At(s, f, Attempting)
      case GiveUp(f) => NextRecord(s, f)
      case Crash => s.(flushers := seq(|s.flushers|, _ => IDLE))
  }

  function Run(s: State, steps: seq<Step>): State {
    if steps == [] then s else Apply(Run(s, steps[..|steps| - 1]), steps[|steps| - 1])
  }

  // ---------------------------------------------------------------- what is safe

  predicate Holds(s: State, key: nat, path: nat) {
    key in s.objects && s.objects[key] == Ours(path)
  }

  /** The server has metadata for this screenshot, and the object it points to shows it. */
  ghost predicate Saved(s: State, path: nat) {
    exists key :: key in s.metas && Holds(s, key, path)
  }

  /** Both the row and the file are still there, so the next flush will find them. */
  ghost predicate StillBuffered(s: State, path: nat) {
    path in s.files && exists id :: id in s.rows && s.rows[id] == path
  }

  ghost predicate Lost(s: State, path: nat) {
    path in s.recorded && !Saved(s, path) && !StillBuffered(s, path)
  }

  // ---------------------------------------------------------------- which PUT is dangerous

  /** Saved under a key other than this one. */
  ghost predicate SavedElsewhere(s: State, path: nat, key: nat) {
    exists k :: k != key && k in s.metas && Holds(s, k, path)
  }

  /** Flusher g will delete the row of `path`, and the only object that could show it is the one under `key`. */
  predicate CountsOn(s: State, g: nat, key: nat, path: nat) {
    && Busy(s, g) && s.flushers[g].todo[0].1 == path
    && var st := s.flushers[g].stage;
       st.MetaSaved? || (st.Uploaded? && (st.key == key || !Holds(s, st.key, path)))
  }

  /** Replacing the object under `key` by `picture` takes a screenshot that has no other copy from somebody who
      already counts on it. Everything here can be looked up before the PUT. */
  ghost predicate Endangers(s: State, key: nat, picture: Picture) {
    && key in s.objects && s.objects[key].Ours? && s.objects[key] != picture
    && var path := s.objects[key].path;
       && !SavedElsewhere(s, path, key)
       && (!StillBuffered(s, path) || exists g: nat :: CountsOn(s, g, key, path))
  }

  ghost predicate Dangerous(s: State, step: Step) {
    Enabled(s, step) &&
    match step
    case Upload(f, _) => Endangers(s, s.flushers[f].stage.key, Ours(s.flushers[f].todo[0].1))
    case ForeignUpload(key) => Endangers(s, key, Foreign)
    case _ => false
  }

  ghost predicate HarmlessRun(s: State, steps: seq<Step>) {
    steps == []
    || (HarmlessRun(s, steps[..|steps| - 1]) && !Dangerous(Run(s, steps[..|steps| - 1]), steps[|steps| - 1]))
  }

  // ---------------------------------------------------------------- the invariant

  /** What a flusher knows about the record it is working on. */
  ghost predicate StageInv(s: State, id: nat, path: nat, stage: Stage) {
    match stage
    case Starting => true
    case Missing => Saved(s, path) && path !in s.files
    case Attempting => true
    case Presigned(_) => true
    case Uploaded(key) => Saved(s, path) || Holds(s, key, path)
    case MetaSaved(_) => Saved(s, path)
    case RowDeleted => Saved(s, path) && id !in s.rows
  }

  /** A listed record is one that was inserted, and no other row has its path. */
  ghost predicate RecordInv(s: State, record: (nat, nat)) {
    && record.1 in s.recorded && record.0 < s.nextId && (record.0 in s.rows ==> s.rows[record.0] == record.1)
    && forall id :: id in s.rows && s.rows[id] == record.1 ==> id == record.0
  }

  ghost predicate FlusherInv(s: State, fl: Flusher) {
    && (forall k :: 0 <= k < |fl.todo| ==> RecordInv(s, fl.todo[k]))
    && (fl.todo != [] ==> StageInv(s, fl.todo[0].0, fl.todo[0].1, fl.stage))
  }

  ghost predicate TablesInv(s: State) {
    && (forall id :: id in s.rows ==> id < s.nextId && s.rows[id] in s.recorded)
    && (forall i, j :: i in s.rows && j in s.rows && s.rows[i] == s.rows[j] ==> i == j)
    && (forall key :: key in s.objects && s.objects[key].Ours? ==> s.objects[key].path in s.recorded)
  }

  ghost predicate AllSafe(s: State) {
    forall path :: path in s.recorded ==> Saved(s, path) || StillBuffered(s, path)
  }

  ghost predicate Inv(s: State) {
    TablesInv(s) && AllSafe(s) && forall f :: 0 <= f < |s.flushers| ==> FlusherInv(s, s.flushers[f])
  }

  /** Nothing that was safe becomes unsafe, and every flusher's knowledge stays true. */
  ghost predicate Keeps(s: State, s': State) {
    && (forall path :: Saved(s, path) ==> Saved(s', path))
    && (forall path :: path in s.recorded ==> path in s'.recorded && (path in s'.files ==> path in s.files))
    && s.nextId <= s'.nextId
    && (forall id :: id in s'.rows && id < s.nextId ==> id in s.rows && s'.rows[id] == s.rows[id])
    && (forall id :: id in s'.rows && id >= s.nextId ==> s'.rows[id] !in s.recorded)
    && (forall key, path :: Holds(s, key, path) ==> Holds(s', key, path) || Saved(s', path))
  }

  lemma KeepsFlusher(s: State, s': State, fl: Flusher)
    requires Keeps(s, s') && FlusherInv(s, fl)
    ensures FlusherInv(s', fl)
  {}

  lemma KeepsInv(s: State, s': State)
    requires Inv(s) && Keeps(s, s') && s'.flushers == s.flushers && TablesInv(s') && AllSafe(s')
    ensures Inv(s')
  {
    forall f | 0 <= f < |s'.flushers| ensures FlusherInv(s', s'.flushers[f]) {
      KeepsFlusher(s, s', s.flushers[f]);
    }
  }

  lemma SetFlusher(s: State, f: nat, fl: Flusher)
    requires Inv(s) && f < |s.flushers| && FlusherInv(s, fl)
    ensures Inv(s.(flushers := s.flushers[f := fl]))
  {
    var s' := s.(flushers := s.flushers[f := fl]);
    assert forall path :: (Saved(s', path) <==> Saved(s, path)) && (StillBuffered(s', path) <==> StillBuffered(s, path));
    KeepsFlusher(s, s', fl);
    forall g | 0 <= g < |s'.flushers| ensures FlusherInv(s', s'.flushers[g]) {
      if g != f {
        KeepsFlusher(s, s', s.flushers[g]);
      }
    }
  }

  lemma RestOfTodo(s: State, fl: Flusher)
    requires FlusherInv(s, fl) && fl.todo != []
    ensures FlusherInv(s, Flusher(fl.todo[1..], Starting)) && FlusherInv(s, fl.(stage := Attempting))
  {}

  // ---------------------------------------------------------------- each step

  /** Steps that only take in or out files, rows, metadata or keys; a screenshot loses its row or file only if saved. */
  lemma KeepingStep(s: State, s': State)
    requires Inv(s) && s'.flushers == s.flushers && s'.objects == s.objects && s.metas <= s'.metas
    requires s.recorded <= s'.recorded && s.nextId <= s'.nextId && TablesInv(s')
    requires forall path :: path in s.recorded && path in s'.files ==> path in s.files
    requires forall id :: id in s'.rows && id < s.nextId ==> id in s.rows && s'.rows[id] == s.rows[id]
    requires forall id :: id in s'.rows && id >= s.nextId ==> s'.rows[id] !in s.recorded
    requires forall path :: path in s'.recorded ==> Saved(s, path) || StillBuffered(s', path)
    ensures Inv(s') && Keeps(s, s')
  {
    forall path | Saved(s, path) ensures Saved(s', path) {
      var key :| key in s.metas && Holds(s, key, path);
      assert key in s'.metas && Holds(s', key, path);
    }
    assert forall key, path :: Holds(s, key, path) ==> Holds(s', key, path);
    KeepsInv(s, s');
  }

  lemma CapturingStep(s: State, step: Step)
    requires Inv(s) && Enabled(s, step) && (step.Capture? || step.InsertRecord?)
    ensures Inv(Apply(s, step))
  {
    var s' := Apply(s, step);
    forall path | path in s'.recorded ensures Saved(s, path) || StillBuffered(s', path) {
      if path in s.recorded {
        if StillBuffered(s, path) {
          var id :| id in s.rows && s.rows[id] == path;
          assert id in s'.rows && s'.rows[id] == path;
        }
      } else {
        assert s'.rows[s.nextId] == path;
      }
    }
    KeepingStep(s, s');
  }

  /** Removing the row or the file of a saved screenshot harms nobody. */
  lemma RemovalKeepsInv(s: State, s': State, id: nat, path: nat)
    requires Inv(s) && Saved(s, path) && (id in s.rows ==> s.rows[id] == path)
    requires s' == s.(rows := s.rows - {id}) || s' == s.(files := s.files - {path})
    ensures Inv(s') && Keeps(s, s')
  {
    forall p | p in s'.recorded ensures Saved(s, p) || StillBuffered(s', p) {
      if p != path && StillBuffered(s, p) {
        var i :| i in s.rows && s.rows[i] == p;
        assert i in s'.rows && s'.rows[i] == p;
      }
    }
    KeepingStep(s, s');
  }

  lemma RemovingStep(s: State, f: nat, step: Step)
    requires Inv(s) && Busy(s, f) && Enabled(s, step)
    requires (step.Discard? || step.DeleteRow? || step.RemoveFile?) && step.f == f
    ensures Inv(Apply(s, step))
  {
    var fl, s' := s.flushers[f], Apply(s, step);
    var (id, path) := fl.todo[0];
    var s1 := s'.(flushers := s.flushers);
    assert FlusherInv(s, fl) && RecordInv(s, fl.todo[0]);
    if s1 != s {
      RemovalKeepsInv(s, s1, id, path);
      KeepsFlusher(s, s1, fl);
    }
    RestOfTodo(s1, fl);
    SetFlusher(s1, f, s'.flushers[f]);
  }

  lemma SavingStep(s: State, f: nat, step: Step)
    requires Inv(s) && Busy(s, f) && Enabled(s, step) && step.SaveMeta? && step.f == f
    ensures Inv(Apply(s, step))
  {
    var fl, s' := s.flushers[f], Apply(s, step);
    var s1, key, path := s'.(flushers := s.flushers), fl.stage.key, fl.todo[0].1;
    assert forall p :: StillBuffered(s1, p) <==> StillBuffered(s, p);
    KeepingStep(s, s1);
    KeepsFlusher(s, s1, fl);
    assert Holds(s, key, path) ==> key in s1.metas && Holds(s1, key, path);
    assert Saved(s1, path);
    SetFlusher(s1, f, s'.flushers[f]);
  }

  lemma PuttingFlusher(s: State, key: nat, picture: Picture, fl: Flusher, f: nat)
    requires Inv(s) && !Endangers(s, key, picture) && f < |s.flushers| && s.flushers[f] == fl
    ensures FlusherInv(Put(s, key, picture), fl)
  {
    var s' := Put(s, key, picture);
    assert FlusherInv(s, fl);
    assert forall k :: 0 <= k < |fl.todo| ==> RecordInv(s, fl.todo[k]) && RecordInv(s', fl.todo[k]);
    if fl.todo != [] {
      var (id, path) := fl.todo[0];
      assert RecordInv(s, fl.todo[0]);
      if !Saved(s', path) {
        if Saved(s, path) {
          OnlyUnder(s, key, picture, path);
          assert StillBuffered(s, path) && !CountsOn(s, f, key, path);
        } else if fl.stage.Uploaded? && fl.stage.key == key {
          assert !SavedElsewhere(s, path, key);
          assert CountsOn(s, f, key, path) && Holds(s, key, path);
        }
      }
    }
  }

  /** A PUT takes away only what was saved under its key alone. */
  lemma OnlyUnder(s: State, key: nat, picture: Picture, path: nat)
    requires Saved(s, path) && !Saved(Put(s, key, picture), path)
    ensures Holds(s, key, path) && key in s.metas && picture != Ours(path) && !SavedElsewhere(s, path, key)
  {
    var s' := Put(s, key, picture);
    var k :| k in s.metas && Holds(s, k, path);
    assert k != key ==> Holds(s', k, path);
    assert Holds(s, key, path) && picture == Ours(path) ==> Holds(s', key, path);
    if k' :| k' != key && k' in s.metas && Holds(s, k', path) {
      assert Holds(s', k', path);
    }
  }

  lemma PutKeepsInv(s: State, key: nat, picture: Picture)
    requires Inv(s) && !Endangers(s, key, picture) && (picture.Ours? ==> picture.path in s.recorded)
    ensures Inv(Put(s, key, picture))
  {
    var s' := Put(s, key, picture);
    forall path | path in s'.recorded ensures Saved(s', path) || StillBuffered(s', path) {
      assert StillBuffered(s', path) <==> StillBuffered(s, path);
      if Saved(s, path) && !Saved(s', path) {
        OnlyUnder(s, key, picture, path);
      }
    }
    forall f | 0 <= f < |s'.flushers| ensures FlusherInv(s', s'.flushers[f]) {
      PuttingFlusher(s, key, picture, s.flushers[f], f);
    }
  }

  lemma UploadingStep(s: State, f: nat, replyLost: bool)
    requires Inv(s) && Enabled(s, Upload(f, replyLost)) && !Dangerous(s, Upload(f, replyLost))
    ensures Inv(Apply(s, Upload(f, replyLost)))
  {
    var fl := s.flushers[f];
    var key, path := fl.stage.key, fl.todo[0].1;
    assert FlusherInv(s, fl) && RecordInv(s, fl.todo[0]);
    PutKeepsInv(s, key, Ours(path));
    var s1 := Put(s, key, Ours(path));
    assert FlusherInv(s1, s1.flushers[f]);
    assert Holds(s1, key, path);
    SetFlusher(s1, f, fl.(stage := if replyLost then Attempting else Uploaded(key)));
  }

  lemma {:induction false} StepKeepsInv(s: State, step: Step)
    requires Inv(s) && !Dangerous(s, step)
    ensures Inv(Apply(s, step))
  {
    if Enabled(s, step) {
      var s' := Apply(s, step);
      match step
      case Capture(_) => CapturingStep(s, step);
      case InsertRecord(_) => CapturingStep(s, step);
      case List(f, records) => SetFlusher(s, f, Flusher(records, Starting));
      case Stat(f) =>
        assert FlusherInv(s, s.flushers[f]) && RecordInv(s, s.flushers[f].todo[0]);
        SetFlusher(s, f, s'.flushers[f]);
      case Discard(f) => RemovingStep(s, f, step);
      case Presign(f, key) =>
        var s1 := s'.(flushers := s.flushers);
        assert forall p :: StillBuffered(s1, p) <==> StillBuffered(s, p);
        KeepingStep(s, s1);
        RestOfTodo(s1, s.flushers[f]);
        SetFlusher(s1, f, s'.flushers[f]);
      case Upload(f, replyLost) => UploadingStep(s, f, replyLost);
      case ForeignUpload(key) =>
        PutKeepsInv(s, key, Foreign);
        var s1 := Put(s, key, Foreign);
        assert forall p :: (StillBuffered(s', p) <==> StillBuffered(s1, p)) && (Saved(s1, p) ==> Saved(s', p)) by {
          assert s'.(foreignKeys := s1.foreignKeys) == s1;
        }
        KeepingStep(s1, s');
      case SaveMeta(f, _) => SavingStep(s, f, step);
      case DeleteRow(f) => RemovingStep(s, f, step);
      case RemoveFile(f, _) => RemovingStep(s, f, step);
      case Retry(f) =>
        RestOfTodo(s, s.flushers[f]);
        SetFlusher(s, f, s'.flushers[f]);
      case GiveUp(f) =>
        RestOfTodo(s, s.flushers[f]);
        SetFlusher(s, f, s'.flushers[f]);
      case Crash => CrashKeepsInv(s);
    }
  }

  lemma CrashKeepsInv(s: State)
    requires Inv(s)
    ensures Inv(Apply(s, Crash))
  {
    var s' := Apply(s, Crash);
    assert forall f :: 0 <= f < |s'.flushers| ==> s'.flushers[f] == IDLE;
    assert forall p :: (StillBuffered(s', p) <==> StillBuffered(s, p)) && (Saved(s, p) <==> Saved(s', p));
  }

  // ---------------------------------------------------------------- exactly when a screenshot is lost

  lemma InitialInv(flushers: nat, refuses: bool)
    ensures Inv(Initial(flushers, refuses))
  {
    assert forall f :: 0 <= f < flushers ==> Initial(flushers, refuses).flushers[f] == IDLE;
  }

  /** In every run without a dangerous PUT, crashes included, each recorded screenshot is saved at the server
      together with an object that shows it, or still has both its row and its file. */
  lemma {:induction false} NoScreenshotIsLost(flushers: nat, refuses: bool, steps: seq<Step>)
    requires HarmlessRun(Initial(flushers, refuses), steps)
    ensures Inv(Run(Initial(flushers, refuses), steps))
    ensures forall path :: !Lost(Run(Initial(flushers, refuses), steps), path)
  {
    if steps == [] {
      InitialInv(flushers, refuses);
    } else {
      NoScreenshotIsLost(flushers, refuses, steps[..|steps| - 1]);
      StepKeepsInv(Run(Initial(flushers, refuses), steps[..|steps| - 1]), steps[|steps| - 1]);
    }
  }

  /** Steps after which nobody writes to the bucket. */
  predicate Quiet(steps: seq<Step>) {
    forall i :: 0 <= i < |steps| ==> !steps[i].Upload? && !steps[i].ForeignUpload?
  }

  /** The damage is done: without any further PUT some recorded screenshot ends up nowhere. */
  ghost predicate WillLose(s: State) {
    exists steps, path :: Quiet(steps) && Lost(Run(s, steps), path)
  }

  lemma {:induction false} QuietKeepsInv(s: State, steps: seq<Step>)
    requires Inv(s) && Quiet(steps)
    ensures Inv(Run(s, steps))
  {
    if steps != [] {
      QuietKeepsInv(s, steps[..|steps| - 1]);
      StepKeepsInv(Run(s, steps[..|steps| - 1]), steps[|steps| - 1]);
    }
  }

  /** Deleting the row of a screenshot that nothing saves loses it. */
  lemma DeletingLoses(s: State, g: nat, path: nat)
    requires Enabled(s, DeleteRow(g)) && s.flushers[g].todo[0].1 == path
    requires RecordInv(s, s.flushers[g].todo[0]) && !Saved(s, path)
    ensures Lost(Apply(s, DeleteRow(g)), path)
  {
    var s' := Apply(s, DeleteRow(g));
    assert forall key :: Holds(s', key, path) ==> Holds(s, key, path);
  }

  lemma PutTakesAway(s: State, key: nat, picture: Picture, path: nat)
    requires !SavedElsewhere(s, path, key) && picture != Ours(path)
    ensures !Saved(Put(s, key, picture), path)
  {
    forall k | k in s.metas ensures !Holds(Put(s, key, picture), k, path) {
      assert k != key && Holds(s, k, path) ==> SavedElsewhere(s, path, key);
    }
  }

  /** A flusher that counts on an object that does not show its screenshot deletes the row all the same. */
  lemma CountingLoses(s: State, g: nat, path: nat) returns (more: seq<Step>)
    requires Busy(s, g) && s.flushers[g].todo[0].1 == path && RecordInv(s, s.flushers[g].todo[0]) && !Saved(s, path)
    requires var st := s.flushers[g].stage;
             st.MetaSaved? || (st.Uploaded? && !Holds(s, st.key, path))
    ensures Quiet(more) && |more| <= 2 && Lost(Run(s, more), path)
  {
    if s.flushers[g].stage.MetaSaved? {
      more := [DeleteRow(g)];
      assert more[..0] == [];
      DeletingLoses(s, g, path);
    } else {
      more := [SaveMeta(g, false), DeleteRow(g)];
      var s1 := Apply(s, SaveMeta(g, false));
      assert more[..1] == [SaveMeta(g, false)] && more[..1][..0] == [];
      assert Run(s, more[..1]) == s1;
      assert forall k :: Holds(s1, k, path) <==> Holds(s, k, path);
      DeletingLoses(s1, g, path);
    }
  }

  /** After a dangerous PUT at most two more steps of the flusher that counted on the object lose the screenshot. */
  lemma DangerLoses(s: State, step: Step) returns (more: seq<Step>, path: nat)
    requires Inv(s) && Dangerous(s, step)
    ensures Quiet(more) && |more| <= 2 && Lost(Run(Apply(s, step), more), path)
  {
    var s' := Apply(s, step);
    var key := if step.Upload? then s.flushers[step.f].stage.key else step.key;
    var picture := if step.Upload? then Ours(s.flushers[step.f].todo[0].1) else Foreign;
    path := s.objects[key].path;
    PutTakesAway(s, key, picture, path);
    assert forall k :: Holds(s', k, path) <==> Holds(Put(s, key, picture), k, path);
    assert !Saved(s', path) && (StillBuffered(s', path) <==> StillBuffered(s, path));
    if StillBuffered(s, path) {
      var g: nat :| CountsOn(s, g, key, path);
      assert FlusherInv(s, s.flushers[g]) && RecordInv(s, s.flushers[g].todo[0]);
      assert s'.flushers[g] == s.flushers[g];
      more := CountingLoses(s', g, path);
    } else {
      more := [];
    }
  }

  /** The exact condition, to be looked up before each step: as long as no PUT was dangerous, the next step dooms
      a recorded screenshot if and only if it is a dangerous PUT. */
  lemma LostExactlyByDanger(flushers: nat, refuses: bool, steps: seq<Step>, step: Step)
    requires HarmlessRun(Initial(flushers, refuses), steps)
    ensures var s := Run(Initial(flushers, refuses), steps);
            WillLose(Apply(s, step)) <==> Dangerous(s, step)
  {
    var s := Run(Initial(flushers, refuses), steps);
    NoScreenshotIsLost(flushers, refuses, steps);
    if Dangerous(s, step) {
      var more, path := DangerLoses(s, step);
    } else {
      StepKeepsInv(s, step);
      forall more | Quiet(more) ensures forall path :: !Lost(Run(Apply(s, step), more), path) {
        QuietKeepsInv(Apply(s, step), more);
      }
    }
  }

  /** The orphan guard only ever discards rows of screenshots that are already saved. */
  lemma DiscardsOnlySaved(flushers: nat, refuses: bool, steps: seq<Step>, f: nat)
    requires HarmlessRun(Initial(flushers, refuses), steps)
    requires Enabled(Run(Initial(flushers, refuses), steps), Discard(f))
    ensures var s := Run(Initial(flushers, refuses), steps);
            Saved(s, s.flushers[f].todo[0].1)
  {
    NoScreenshotIsLost(flushers, refuses, steps);
    var s := Run(Initial(flushers, refuses), steps);
    assert FlusherInv(s, s.flushers[f]);
  }

  // ---------------------------------------------------------------- an undisturbed flush

  function RecordSteps(f: nat, key: nat): seq<Step> {
    [Stat(f)] + [Presign(f, key)] + [Upload(f, false)] + [SaveMeta(f, false)] + [DeleteRow(f)] + [RemoveFile(f, false)]
  }

  /** What is left to do of a record that has been presigned. */
  lemma PresignedIsFinished(s: State, f: nat, key: nat)
    requires Busy(s, f) && s.flushers[f].stage == Presigned(key) && s.flushers[f].todo[0].1 in s.files && key !in s.objects
    ensures var (id, path) := s.flushers[f].todo[0];
            var s1 := Apply(s, Upload(f, false));
            var s2 := Apply(s1, SaveMeta(f, false));
            var s3 := Apply(s2, DeleteRow(f));
            Apply(s3, RemoveFile(f, false))
            == s.(files := s.files - {path}, rows := s.rows - {id}, objects := s.objects[key := Ours(path)],
                  metas := s.metas + {key}, flushers := s.flushers[f := Flusher(s.flushers[f].todo[1..], Starting)])
  {}

  lemma RunSix(s: State, a: Step, b: Step, c: Step, d: Step, e: Step, g: Step)
    ensures Run(s, [a] + [b] + [c] + [d] + [e] + [g]) == Apply(Apply(Apply(Apply(Apply(Apply(s, a), b), c), d), e), g)
  {
    assert [a][..0] == [];
    assert Run(s, [a]) == Apply(s, a);
    RunAppend(s, [a], b);
    RunAppend(s, [a] + [b], c);
    RunAppend(s, [a] + [b] + [c], d);
    RunAppend(s, [a] + [b] + [c] + [d], e);
    RunAppend(s, [a] + [b] + [c] + [d] + [e], g);
  }

  /** The first record of a flusher, with nothing failing and a key of its own. */
  lemma RecordIsFlushed(s: State, f: nat, key: nat)
    requires Busy(s, f) && s.flushers[f].stage.Starting? && s.flushers[f].todo[0].1 in s.files && key !in s.objects
    ensures var (id, path) := s.flushers[f].todo[0];
            Run(s, RecordSteps(f, key))
            == s.(files := s.files - {path}, rows := s.rows - {id}, objects := s.objects[key := Ours(path)],
                  metas := s.metas + {key}, issued := s.issued + {(key, path)},
                  flushers := s.flushers[f := Flusher(s.flushers[f].todo[1..], Starting)])
  {
    RunSix(s, Stat(f), Presign(f, key), Upload(f, false), SaveMeta(f, false), DeleteRow(f), RemoveFile(f, false));
    var s1 := Apply(Apply(s, Stat(f)), Presign(f, key));
    assert s1 == s.(issued := s1.issued, flushers := s.flushers[f := Flusher(s.flushers[f].todo, Presigned(key))]);
    PresignedIsFinished(s1, f, key);
  }

  function BatchSteps(f: nat, keys: seq<nat>): seq<Step> {
    if keys == [] then [] else RecordSteps(f, keys[0]) + BatchSteps(f, keys[1..])
  }

  /** A batch of different records with their files, and a fresh key for each. */
  ghost predicate ReadyToFlush(s: State, f: nat, keys: seq<nat>) {
    && f < |s.flushers| && s.flushers[f].stage.Starting? && |keys| == |s.flushers[f].todo|
    && (forall k :: 0 <= k < |keys| ==> s.flushers[f].todo[k].1 in s.files && keys[k] !in s.objects)
    && forall j, k :: 0 <= j < k < |keys| ==> keys[j] != keys[k] && s.flushers[f].todo[j].1 != s.flushers[f].todo[k].1
  }

  ghost predicate InTodo(todo: seq<(nat, nat)>, path: nat) {
    exists k :: 0 <= k < |todo| && todo[k].1 == path
  }

  ghost predicate IdInTodo(todo: seq<(nat, nat)>, id: nat) {
    exists k :: 0 <= k < |todo| && todo[k].0 == id
  }

  /** The flusher is done; exactly the batch's rows and files are gone, its screenshots are saved, and so is whatever was. */
  ghost predicate Flushed(s: State, s': State, todo: seq<(nat, nat)>, f: nat) {
    && f < |s.flushers| && s'.flushers == s.flushers[f := IDLE]
    && (forall path :: path in s'.files <==> path in s.files && !InTodo(todo, path))
    && (forall id :: id in s'.rows <==> id in s.rows && !IdInTodo(todo, id))
    && (forall path :: InTodo(todo, path) || Saved(s, path) ==> Saved(s', path))
  }

  lemma {:induction false} RunConcat(s: State, xs: seq<Step>, ys: seq<Step>)
    ensures Run(s, xs + ys) == Run(Run(s, xs), ys)
  {
    if ys == [] {
      assert xs + ys == xs;
    } else {
      var n := |ys| - 1;
      assert (xs + ys)[..|xs| + n] == xs + ys[..n];
      RunConcat(s, xs, ys[..n]);
    }
  }

  lemma FirstFlushed(s: State, s1: State, f: nat, key: nat)
    requires Busy(s, f) && key !in s.objects
    requires s1.objects == s.objects[key := Ours(s.flushers[f].todo[0].1)] && s1.metas == s.metas + {key}
    ensures Saved(s1, s.flushers[f].todo[0].1) && forall path :: Saved(s, path) ==> Saved(s1, path)
  {
    assert Holds(s1, key, s.flushers[f].todo[0].1);
    forall path | Saved(s, path) ensures Saved(s1, path) {
      var k :| k in s.metas && Holds(s, k, path);
      assert k in s1.metas && Holds(s1, k, path);
    }
  }

  lemma TailOfBatch(s: State, s1: State, s2: State, todo: seq<(nat, nat)>, f: nat)
    requires f < |s.flushers| && todo != [] && s1.flushers == s.flushers[f := Flusher(todo[1..], Starting)]
    requires s1.files == s.files - {todo[0].1} && s1.rows == s.rows - {todo[0].0}
    requires Saved(s1, todo[0].1) && forall path :: Saved(s, path) ==> Saved(s1, path)
    requires Flushed(s1, s2, todo[1..], f)
    ensures Flushed(s, s2, todo, f)
  {
    assert forall path :: InTodo(todo, path) <==> path == todo[0].1 || InTodo(todo[1..], path) by {
      forall path | InTodo(todo, path) ensures path == todo[0].1 || InTodo(todo[1..], path) {
        var k :| 0 <= k < |todo| && todo[k].1 == path;
        assert k > 0 ==> todo[1..][k - 1].1 == path;
      }
    }
    assert forall id :: IdInTodo(todo, id) <==> id == todo[0].0 || IdInTodo(todo[1..], id) by {
      forall id | IdInTodo(todo, id) ensures id == todo[0].0 || IdInTodo(todo[1..], id) {
        var k :| 0 <= k < |todo| && todo[k].0 == id;
        assert k > 0 ==> todo[1..][k - 1].0 == id;
      }
    }
  }

  /** What a flush is for: undisturbed, it saves every screenshot of its batch and leaves neither row nor file of it. */
  lemma {:induction false} BatchIsFlushed(s: State, f: nat, keys: seq<nat>)
    requires ReadyToFlush(s, f, keys)
    ensures Flushed(s, Run(s, BatchSteps(f, keys)), s.flushers[f].todo, f)
    decreases |keys|
  {
    var todo := s.flushers[f].todo;
    if keys == [] {
      assert s.flushers[f := IDLE] == s.flushers;
    } else {
      var s1 := Run(s, RecordSteps(f, keys[0]));
      RecordIsFlushed(s, f, keys[0]);
      FirstFlushed(s, s1, f, keys[0]);
      BatchIsFlushed(s1, f, keys[1..]);
      RunConcat(s, RecordSteps(f, keys[0]), BatchSteps(f, keys[1..]));
      TailOfBatch(s, s1, Run(s, BatchSteps(f, keys)), todo, f);
    }
  }

  /** A listed record whose file is gone costs its row and nothing else. */
  lemma OrphanIsDiscarded(s: State, f: nat)
    requires Busy(s, f) && s.flushers[f].stage.Starting? && s.flushers[f].todo[0].1 !in s.files
    ensures var (id, path) := s.flushers[f].todo[0];
            Apply(Apply(s, Stat(f)), Discard(f))
            == s.(rows := s.rows - {id}, flushers := s.flushers[f := Flusher(s.flushers[f].todo[1..], Starting)])
  {}

  /** A flush that gives up on a record or crashes leaves rows, files and bucket alone and goes on with the next record,
      or with none; so does a PUT or a metadata call that is tried again, but for its own object or metadata. */
  lemma FailuresKeepRecords(s: State, step: Step)
    requires step.GiveUp? || step.Retry? || step.Crash? || (step.RemoveFile? && step.fails)
             || (step.Upload? && step.replyLost) || (step.SaveMeta? && step.replyLost)
    ensures var s' := Apply(s, step);
            && s'.rows == s.rows && s'.files == s.files && s'.recorded == s.recorded
            && (!step.Upload? ==> s'.objects == s.objects) && (!step.SaveMeta? ==> s'.metas == s.metas)
            && (step.Crash? ==> forall f :: 0 <= f < |s'.flushers| ==> s'.flushers[f] == IDLE)
            && (Enabled(s, step) && (step.GiveUp? || step.RemoveFile?) ==>
                  s'.flushers == s.flushers[step.f := Flusher(s.flushers[step.f].todo[1..], Starting)])
            && (Enabled(s, step) && (step.Upload? || step.SaveMeta? || step.Retry?) ==>
                  s'.flushers == s.flushers[step.f := s.flushers[step.f].(stage := Attempting)])
  {}

  // ---------------------------------------------------------------- two ways to be harmless

  lemma RefusedIsNotDangerous(s: State, step: Step)
    requires s.refuses
    ensures !Dangerous(s, step) && Apply(s, step).refuses
  {}

  /** A bucket that refuses to overwrite makes every run harmless. */
  lemma {:induction false} RefusingIsHarmless(flushers: nat, steps: seq<Step>)
    ensures HarmlessRun(Initial(flushers, true), steps) && Run(Initial(flushers, true), steps).refuses
  {
    if steps != [] {
      RefusingIsHarmless(flushers, steps[..|steps| - 1]);
      RefusedIsNotDangerous(Run(Initial(flushers, true), steps[..|steps| - 1]), steps[|steps| - 1]);
    }
  }

  /** No key was handed out for two screenshots or written by anybody else. */
  ghost predicate OwnKeys(s: State) {
    forall a, b :: a in s.issued && b in s.issued && a.0 == b.0 ==> a.1 == b.1 && a.0 !in s.foreignKeys
  }

  ghost predicate ObjectsKnown(s: State) {
    forall key :: key in s.objects ==>
      if s.objects[key].Ours? then (key, s.objects[key].path) in s.issued else key in s.foreignKeys
  }

  ghost predicate PresignsKnown(s: State) {
    forall f :: 0 <= f < |s.flushers| && s.flushers[f].todo != [] && s.flushers[f].stage.Presigned? ==>
      (s.flushers[f].stage.key, s.flushers[f].todo[0].1) in s.issued
  }

  lemma StepKeepsObjectsKnown(s: State, step: Step)
    requires ObjectsKnown(s) && PresignsKnown(s)
    ensures ObjectsKnown(Apply(s, step))
  {}

  lemma StepKeepsPresignsKnown(s: State, step: Step)
    requires PresignsKnown(s)
    ensures PresignsKnown(Apply(s, step))
  {}

  lemma {:induction false} KeysAreKnown(flushers: nat, refuses: bool, steps: seq<Step>)
    ensures var s := Run(Initial(flushers, refuses), steps); ObjectsKnown(s) && PresignsKnown(s)
  {
    if steps == [] {
      assert forall f :: 0 <= f < flushers ==> Initial(flushers, refuses).flushers[f] == IDLE;
    } else {
      var s := Run(Initial(flushers, refuses), steps[..|steps| - 1]);
      KeysAreKnown(flushers, refuses, steps[..|steps| - 1]);
      StepKeepsObjectsKnown(s, steps[|steps| - 1]);
      StepKeepsPresignsKnown(s, steps[|steps| - 1]);
    }
  }

  lemma OwnKeyStep(s: State, step: Step)
    requires ObjectsKnown(s) && PresignsKnown(s) && OwnKeys(Apply(s, step))
    ensures OwnKeys(s) && !Dangerous(s, step)
  {
    assert s.issued <= Apply(s, step).issued && s.foreignKeys <= Apply(s, step).foreignKeys;
  }

  /** So do keys of which no two screenshots, and nobody else, ever get the same. */
  lemma {:induction false} OwnKeysAreHarmless(flushers: nat, refuses: bool, steps: seq<Step>)
    requires OwnKeys(Run(Initial(flushers, refuses), steps))
    ensures HarmlessRun(Initial(flushers, refuses), steps)
  {
    if steps != [] {
      KeysAreKnown(flushers, refuses, steps[..|steps| - 1]);
      OwnKeyStep(Run(Initial(flushers, refuses), steps[..|steps| - 1]), steps[|steps| - 1]);
      OwnKeysAreHarmless(flushers, refuses, steps[..|steps| - 1]);
    }
  }

  // ---------------------------------------------------------------- colliding keys

  /** Two screenshots are captured, inserted, listed and found on disk. */
  function Listed(a: nat, b: nat): seq<Step> {
    [Capture(a)] + [InsertRecord(a)] + [Capture(b)] + [InsertRecord(b)]
    + [List(0, [(0, a)])] + [List(1, [(1, b)])] + [Stat(0)] + [Stat(1)]
  }

  /** Both flushers presign in the same millisecond, and the first one uploads. */
  function Colliding(a: nat, b: nat, key: nat): seq<Step> {
    Listed(a, b) + [Presign(0, key)] + [Presign(1, key)] + [Upload(0, false)]
  }

  function Collision(a: nat, b: nat, key: nat): State {
    State({a, b}, map[0 := a, 1 := b], 2, map[key := Ours(a)], {}, {a, b}, {(key, a), (key, b)}, {},
          [Flusher([(0, a)], Uploaded(key)), Flusher([(1, b)], Presigned(key))], false)
  }

  lemma RunAppend(s: State, steps: seq<Step>, step: Step)
    ensures Run(s, steps + [step]) == Apply(Run(s, steps), step)
  {
    assert (steps + [step])[..|steps|] == steps;
  }

  lemma CaptureIsReached(a: nat)
    ensures Run(Initial(2, false), [Capture(a)] + [InsertRecord(a)])
         == State({a}, map[0 := a], 1, map[], {}, {a}, {}, {}, [IDLE, IDLE], false)
  {
    var s0 := Initial(2, false);
    assert s0.flushers == [IDLE, IDLE];
    var s1 := Apply(s0, Capture(a));
    assert [Capture(a)][..0] == [];
    assert Run(s0, [Capture(a)]) == s1 && s1.files == {a};
    RunAppend(s0, [Capture(a)], InsertRecord(a));
    assert Apply(s1, InsertRecord(a)).rows == map[0 := a];
  }

  lemma CapturesAreReached(a: nat, b: nat)
    requires a != b
    ensures Run(Initial(2, false), [Capture(a)] + [InsertRecord(a)] + [Capture(b)] + [InsertRecord(b)])
         == State({a, b}, map[0 := a, 1 := b], 2, map[], {}, {a, b}, {}, {}, [IDLE, IDLE], false)
  {
    var s0, steps := Initial(2, false), [Capture(a)] + [InsertRecord(a)];
    CaptureIsReached(a);
    RunAppend(s0, steps, Capture(b));
    RunAppend(s0, steps + [Capture(b)], InsertRecord(b));
  }

  lemma ListingsAreReached(a: nat, b: nat)
    requires a != b
    ensures Run(Initial(2, false), [Capture(a)] + [InsertRecord(a)] + [Capture(b)] + [InsertRecord(b)]
                                   + [List(0, [(0, a)])] + [List(1, [(1, b)])])
         == State({a, b}, map[0 := a, 1 := b], 2, map[], {}, {a, b}, {}, {},
                  [Flusher([(0, a)], Starting), Flusher([(1, b)], Starting)], false)
  {
    var s0, steps := Initial(2, false), [Capture(a)] + [InsertRecord(a)] + [Capture(b)] + [InsertRecord(b)];
    CapturesAreReached(a, b);
    RunAppend(s0, steps, List(0, [(0, a)]));
    RunAppend(s0, steps + [List(0, [(0, a)])], List(1, [(1, b)]));
  }

  lemma StatsAreReached(a: nat, b: nat)
    requires a != b
    ensures Run(Initial(2, false), Listed(a, b))
         == State({a, b}, map[0 := a, 1 := b], 2, map[], {}, {a, b}, {}, {},
                  [Flusher([(0, a)], Attempting), Flusher([(1, b)], Attempting)], false)
  {
    var steps := [Capture(a)] + [InsertRecord(a)] + [Capture(b)] + [InsertRecord(b)]
                 + [List(0, [(0, a)])] + [List(1, [(1, b)])];
    ListingsAreReached(a, b);
    RunAppend(Initial(2, false), steps, Stat(0));
    RunAppend(Initial(2, false), steps + [Stat(0)], Stat(1));
  }

  lemma PresignsAreReached(a: nat, b: nat, key: nat)
    requires a != b
    ensures Run(Initial(2, false), Listed(a, b) + [Presign(0, key)] + [Presign(1, key)])
         == State({a, b}, map[0 := a, 1 := b], 2, map[], {}, {a, b}, {(key, a), (key, b)}, {},
                  [Flusher([(0, a)], Presigned(key)), Flusher([(1, b)], Presigned(key))], false)
  {
    StatsAreReached(a, b);
    RunAppend(Initial(2, false), Listed(a, b), Presign(0, key));
    RunAppend(Initial(2, false), Listed(a, b) + [Presign(0, key)], Presign(1, key));
  }

  lemma CollisionIsReached(a: nat, b: nat, key: nat)
    requires a != b
    ensures Run(Initial(2, false), Colliding(a, b, key)) == Collision(a, b, key)
  {
    PresignsAreReached(a, b, key);
    RunAppend(Initial(2, false), Listed(a, b) + [Presign(0, key)] + [Presign(1, key)], Upload(0, false));
  }

  lemma CollisionInv(a: nat, b: nat, key: nat)
    requires a != b
    ensures Inv(Collision(a, b, key))
  {
    var s := Collision(a, b, key);
    assert s.rows[0] == a && s.rows[1] == b && Holds(s, key, a);
  }

  /** Two screenshots that get the same key: from a state that is reached without any overwriting, the second
      flusher's PUT loses the first one's screenshot, although both do everything right. */
  lemma CollidingKeysLose(a: nat, b: nat, key: nat)
    requires a != b
    ensures var s := Run(Initial(2, false), Colliding(a, b, key));
            AllSafe(s) && Enabled(s, Upload(1, false)) && WillLose(Apply(s, Upload(1, false)))
  {
    var s := Collision(a, b, key);
    CollisionIsReached(a, b, key);
    CollisionInv(a, b, key);
    assert CountsOn(s, 0, key, a);
    var more, path := DangerLoses(s, Upload(1, false));
  }
}
