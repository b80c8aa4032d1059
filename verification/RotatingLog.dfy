/**
 * The rotating log writer (apps/agent/internal/logging/rotate.go) on a file system whose
 * removes, renames, opens and writes may each fail.
 */
module RotatingLog {
  import opened Events

  /** What one call of Write put on disk: the number of the call and how many bytes. */
  datatype Entry = Entry(call: nat, bytes: nat)

  type File = Option<seq<Entry>>

  /** path, path.1, path.2 and path.3. */
  datatype Disk = Disk(current: File, one: File, two: File, three: File)

  /** What goes wrong during one call of Write. `written` is the length the operating system accepts. */
  datatype Faults = Faults(
    written: nat, removeFails: bool, rename2Fails: bool, rename1Fails: bool, rename0Fails: bool,
    openFails: bool, statFails: bool)

  predicate Harmless(f: Faults) {
    !f.removeFails && !f.rename2Fails && !f.rename1Fails && !f.rename0Fails && !f.openFails && !f.statFails
  }

  function Size(entries: seq<Entry>): nat {
    if entries == [] then 0 else Size(entries[..|entries| - 1]) + entries[|entries| - 1].bytes
  }

  function Contents(f: File): seq<Entry> {
    if f.Some? then f.value else []
  }

  /** .3 .2 .1 current, concatenated. */
  function History(d: Disk): seq<Entry> {
    Contents(d.three) + Contents(d.two) + Contents(d.one) + Contents(d.current)
  }

  /** os.Rename: a missing source is an error too. Both files afterwards. */
  function Renamed(source: File, target: File, fails: bool): (File, File) {
    if fails || source.None? then (source, target) else (None, source)
  }

  function Shifted(d: Disk, f: Faults): Disk {
    var three := if f.removeFails then d.three else None;
    var (two, three') := Renamed(d.two, three, f.rename2Fails);
    var (one, two') := Renamed(d.one, two, f.rename1Fails);
    var (current, one') := Renamed(d.current, one, f.rename0Fails);
    Disk(current, one', two', three')
  }

  /** The writer: the disk, whether its file is open, and the size it believes the file has. */
  datatype Writer = Writer(disk: Disk, isOpen: bool, size: nat)

  function Opened(w: Writer, f: Faults): Writer {
    if f.openFails then w
    else
      var d := if w.disk.current.None? then w.disk.(current := Some([])) else w.disk;
      if f.statFails then w.(disk := d) else Writer(d, true, Size(d.current.value))
  }

  /** A closed file accepts nothing. */
  function Appended(w: Writer, call: nat, f: Faults): Writer {
    if w.isOpen && w.disk.current.Some? && f.written > 0
    then w.(disk := w.disk.(current := Some(w.disk.current.value + [Entry(call, f.written)])), size := w.size + f.written)
    else w
  }

  function Rotated(w: Writer, f: Faults): Writer {
    Opened(Writer(Shifted(w.disk, f), false, w.size), f)
  }

  function WriteStep(w: Writer, maxSize: int, call: nat, f: Faults): Writer {
    var w1 := Appended(w, call, f);
    if w1.size >= maxSize then Rotated(w1, f) else w1
  }

  /** os.Rename, on the two files it touches. */
  method Rename(source: File, target: File, fails: bool) returns (source': File, target': File)
    ensures (source', target') == Renamed(source, target, fails)
  {
    if fails || source.None? {
      return source, target;
    }
    return None, source;
  }

  class RotatingWriter {
    const maxSize: int
    var current: File
    var one: File
    var two: File
    var three: File
    var isOpen: bool
    var size: nat

    ghost function View(): Writer reads this {
      Writer(Disk(current, one, two, three), isOpen, size)
    }

    constructor (maxBytes: int, disk: Disk)
      ensures maxSize == maxBytes
      ensures View() == Opened(Writer(disk, false, 0), Faults(0, false, false, false, false, false, false))
    {
      maxSize := maxBytes;
      one, two, three := disk.one, disk.two, disk.three;
      var entries := if disk.current.Some? then disk.current.value else [];
      current := Some(entries);
      isOpen, size := true, Size(entries);
    }

    method Write(call: nat, f: Faults)
      modifies this
      ensures View() == WriteStep(old(View()), maxSize, call, f)
    {
      if isOpen && current.Some? && f.written > 0 {
        current := Some(current.value + [Entry(call, f.written)]);
        size := size + f.written;
      }
      if size >= maxSize {
        Rotate(f);
      }
    }

    method Rotate(f: Faults)
      modifies this
      ensures View() == Rotated(old(View()), f)
    {
      isOpen := false;
      if !f.removeFails {
        three := None;
      }
      two, three := Rename(two, three, f.rename2Fails);
      one, two := Rename(one, two, f.rename1Fails);
      current, one := Rename(current, one, f.rename0Fails);
      Open(f);
    }

    method Open(f: Faults)
      modifies this
      ensures View() == Opened(old(View()), f)
    {
      if f.openFails {
        return;
      }
      if current.None? {
        current := Some([]);
      }
      if f.statFails {
        return;
      }
      isOpen := true;
      size := Size(current.value);
    }
  }

  /** A log directory over the lives of its writers: a Reopen is NewRotatingWriter on whatever is there, at the
      start of the agent or for a crash report; if it fails there is no writer. */
  datatype Op = Write(f: Faults) | Reopen(f: Faults)

  datatype Process = Process(w: Writer, up: bool)

  function Step(p: Process, maxSize: int, call: nat, op: Op): Process {
    match op
    case Write(f) => if p.up then p.(w := WriteStep(p.w, maxSize, call, f)) else p
    case Reopen(f) => var w := Opened(Writer(p.w.disk, false, 0), f); Process(w, w.isOpen)
  }

  function Run(p: Process, maxSize: int, ops: seq<Op>): Process {
    if ops == [] then p
    else
      var n := |ops| - 1;
      Step(Run(p, maxSize, ops[..n]), maxSize, n, ops[n])
  }

  /** What the operating system accepts from one operation; a closed file accepts nothing. */
  function Accepted(p: Process, call: nat, op: Op): seq<Entry> {
    if op.Write? && p.up && p.w.isOpen && p.w.disk.current.Some? && op.f.written > 0
    then [Entry(call, op.f.written)] else []
  }

  /** Everything accepted, in order. */
  function Log(p: Process, maxSize: int, ops: seq<Op>): seq<Entry> {
    if ops == [] then []
    else
      var n := |ops| - 1;
      Log(p, maxSize, ops[..n]) + Accepted(Run(p, maxSize, ops[..n]), n, ops[n])
  }

  // ---------------------------------------------------------------- whatever fails

  ghost predicate Chronological(h: seq<Entry>, calls: nat) {
    && (forall i, j :: 0 <= i < j < |h| ==> h[i].call < h[j].call)
    && (forall i :: 0 <= i < |h| ==> h[i].call < calls)
  }

  /** The entries really are what those calls wrote. */
  ghost predicate Faithful(h: seq<Entry>, ops: seq<Op>) {
    forall i :: 0 <= i < |h| ==> h[i].call < |ops| && ops[h[i].call].Write? && h[i].bytes == ops[h[i].call].f.written
  }

  /** `h'` is `h` with some whole entries left out. */
  ghost predicate Subsequence(h': seq<Entry>, h: seq<Entry>) {
    h' == [] || (h != [] &&
      (Subsequence(h', h[..|h| - 1]) || (h'[|h'| - 1] == h[|h| - 1] && Subsequence(h'[..|h'| - 1], h[..|h| - 1]))))
  }

  lemma {:induction false} SubsequenceReflexive(h: seq<Entry>)
    ensures Subsequence(h, h)
  {
    if h != [] {
      SubsequenceReflexive(h[..|h| - 1]);
    }
  }

  lemma {:induction false} SubsequenceAppend(h': seq<Entry>, h: seq<Entry>, tail: seq<Entry>)
    requires Subsequence(h', h)
    ensures Subsequence(h', h + tail) && Subsequence(h' + tail, h + tail)
  {
    if tail == [] {
      assert h + tail == h && h' + tail == h';
    } else {
      var n := |tail| - 1;
      SubsequenceAppend(h', h, tail[..n]);
      assert (h + tail)[..|h| + n] == h + tail[..n];
      assert (h' + tail)[..|h'| + n] == h' + tail[..n];
    }
  }

  lemma {:induction false} SubsequenceTransitive(a: seq<Entry>, b: seq<Entry>, c: seq<Entry>)
    requires Subsequence(a, b) && Subsequence(b, c)
    ensures Subsequence(a, c)
    decreases |b| + |c|
  {
    if a != [] && b != [] {
      var c' := c[..|c| - 1];
      if Subsequence(b, c') {
        SubsequenceTransitive(a, b, c');
      } else {
        var b' := b[..|b| - 1];
        if Subsequence(a, b') {
          SubsequenceTransitive(a, b', c');
        } else {
          SubsequenceTransitive(a[..|a| - 1], b', c');
        }
      }
    }
  }

  /** Dropping one of four files in a row. */
  lemma DropFile(a: seq<Entry>, b: seq<Entry>, c: seq<Entry>)
    ensures Subsequence(a + c, a + b + c)
  {
    SubsequenceReflexive(a);
    SubsequenceAppend(a, a, b);
    SubsequenceAppend(a, a + b, c);
  }

  /** Where each file ends up: one step further if it is there and its rename works, else where it was; and what is
      left in a place is what nothing replaced. Only .3 can be removed. */
  lemma RotationExactly(d: Disk, f: Faults)
    ensures var d' := Shifted(d, f);
            && d'.three == (if d.two.Some? && !f.rename2Fails then d.two else if f.removeFails then d.three else None)
            && d'.two == (if d.one.Some? && !f.rename1Fails then d.one else if f.rename2Fails then d.two else None)
            && d'.one == (if d.current.Some? && !f.rename0Fails then d.current else if f.rename1Fails then d.one else None)
            && d'.current == (if f.rename0Fails then d.current else None)
  {}

  /** However the removes and renames turn out, a rotation only loses whole files. */
  lemma RotationKeepsOrder(d: Disk, f: Faults)
    ensures Subsequence(History(Shifted(d, f)), History(d))
  {
    var d1 := if f.removeFails then d else d.(three := None);
    var (two, three) := Renamed(d1.two, d1.three, f.rename2Fails);
    var d2 := d1.(two := two, three := three);
    var (one, two') := Renamed(d2.one, d2.two, f.rename1Fails);
    var d3 := d2.(one := one, two := two');
    var (current, one') := Renamed(d3.current, d3.one, f.rename0Fails);
    var d4 := d3.(current := current, one := one');
    assert d4 == Shifted(d, f);
    RemoveKeepsOrder(d);
    Rename2KeepsOrder(d1, f.rename2Fails);
    Rename1KeepsOrder(d2, f.rename1Fails);
    Rename0KeepsOrder(d3, f.rename0Fails);
    SubsequenceReflexive(History(d));
    SubsequenceTransitive(History(d2), History(d1), History(d));
    SubsequenceTransitive(History(d3), History(d2), History(d));
    SubsequenceTransitive(History(d4), History(d3), History(d));
  }

  lemma RemoveKeepsOrder(d: Disk)
    ensures Subsequence(History(d.(three := None)), History(d))
  {
    var rest := Contents(d.two) + Contents(d.one) + Contents(d.current);
    DropFile([], Contents(d.three), rest);
    assert [] + Contents(d.three) + rest == History(d);
    assert [] + rest == History(d.(three := None));
  }

  lemma Rename2KeepsOrder(d: Disk, fails: bool)
    ensures var (two, three) := Renamed(d.two, d.three, fails);
            Subsequence(History(d.(two := two, three := three)), History(d))
  {
    SubsequenceReflexive(History(d));
    if !fails && d.two.Some? {
      var rest := Contents(d.two) + Contents(d.one) + Contents(d.current);
      DropFile([], Contents(d.three), rest);
      FirstOfFour(Contents(d.three), Contents(d.two), Contents(d.one), Contents(d.current));
      assert [] + Contents(d.three) + rest == Contents(d.three) + rest;
      assert [] + rest == rest == History(d.(two := None, three := d.two));
    }
  }

  lemma Rename1KeepsOrder(d: Disk, fails: bool)
    ensures var (one, two) := Renamed(d.one, d.two, fails);
            Subsequence(History(d.(one := one, two := two)), History(d))
  {
    var (one, two) := Renamed(d.one, d.two, fails);
    var d', rest := d.(one := one, two := two), Contents(d.one) + Contents(d.current);
    SubsequenceReflexive(History(d));
    if d' != d {
      DropFile(Contents(d.three), Contents(d.two), rest);
      assert Contents(d.three) + Contents(d.two) + rest == History(d);
      assert Contents(d.three) + rest == History(d');
    }
  }

  lemma Rename0KeepsOrder(d: Disk, fails: bool)
    ensures var (current, one) := Renamed(d.current, d.one, fails);
            Subsequence(History(d.(current := current, one := one)), History(d))
  {
    var (current, one) := Renamed(d.current, d.one, fails);
    var d', older := d.(current := current, one := one), Contents(d.three) + Contents(d.two);
    SubsequenceReflexive(History(d));
    if d' != d {
      DropFile(older, Contents(d.one), Contents(d.current));
      assert older + Contents(d.current) == History(d');
    }
  }

  lemma OpeningKeepsHistory(w: Writer, f: Faults)
    ensures History(Opened(w, f).disk) == History(w.disk)
    ensures Opened(w, f).isOpen && !w.isOpen ==> Opened(w, f).disk.current.Some?
  {}

  lemma RotatingKeepsOrder(w: Writer, f: Faults, log: seq<Entry>)
    requires Subsequence(History(w.disk), log)
    ensures Subsequence(History(Rotated(w, f).disk), log)
  {
    RotationKeepsOrder(w.disk, f);
    SubsequenceTransitive(History(Shifted(w.disk, f)), History(w.disk), log);
    OpeningKeepsHistory(Writer(Shifted(w.disk, f), false, w.size), f);
  }

  lemma AppendingKeepsOrder(w: Writer, call: nat, f: Faults, log: seq<Entry>)
    requires Subsequence(History(w.disk), log)
    ensures Subsequence(History(Appended(w, call, f).disk), log + Accepted(Process(w, true), call, Write(f)))
  {
    var more := Accepted(Process(w, true), call, Write(f));
    SubsequenceAppend(History(w.disk), log, more);
    var w' := Appended(w, call, f);
    if w' != w {
      assert History(w'.disk) == History(w.disk) + more;
    }
  }

  lemma StepKeepsOrder(p: Process, maxSize: int, call: nat, op: Op, log: seq<Entry>)
    requires Subsequence(History(p.w.disk), log)
    ensures Subsequence(History(Step(p, maxSize, call, op).w.disk), log + Accepted(p, call, op))
  {
    if op.Write? && p.up {
      AppendingKeepsOrder(p.w, call, op.f, log);
      var w1 := Appended(p.w, call, op.f);
      if w1.size >= maxSize {
        RotatingKeepsOrder(w1, op.f, log + Accepted(p, call, op));
      }
    } else {
      assert log + [] == log;
      OpeningKeepsHistory(Writer(p.w.disk, false, 0), op.f);
    }
  }

  /** Whatever was in the directory, and whichever removes, renames, opens and writes fail, over any number of
      reopenings: the four files in order hold a subsequence of what was there and what was accepted since, oldest
      first, with every write in one piece in one file. */
  lemma {:induction false} LogStaysChronological(p: Process, maxSize: int, ops: seq<Op>)
    ensures Subsequence(History(Run(p, maxSize, ops).w.disk), History(p.w.disk) + Log(p, maxSize, ops))
  {
    var h := History(p.w.disk);
    if ops == [] {
      SubsequenceReflexive(h);
      assert h + [] == h;
    } else {
      var n := |ops| - 1;
      var p1 := Run(p, maxSize, ops[..n]);
      LogStaysChronological(p, maxSize, ops[..n]);
      StepKeepsOrder(p1, maxSize, n, ops[n], h + Log(p, maxSize, ops[..n]));
      Reassociate(h, Log(p, maxSize, ops[..n]), Accepted(p1, n, ops[n]));
    }
  }

  lemma Reassociate(a: seq<Entry>, b: seq<Entry>, c: seq<Entry>)
    ensures (a + b) + c == a + (b + c)
  {}

  lemma {:induction false} LogIsChronological(p: Process, maxSize: int, ops: seq<Op>)
    ensures Chronological(Log(p, maxSize, ops), |ops|) && Faithful(Log(p, maxSize, ops), ops)
  {
    if ops != [] {
      LogIsChronological(p, maxSize, ops[..|ops| - 1]);
    }
  }

  /** A writer without a file will try again: it still believes to be over the limit. */
  lemma {:induction false} ClosedIsOver(p: Process, maxSize: int, ops: seq<Op>)
    requires p.up ==> p.w.isOpen
    ensures var p' := Run(p, maxSize, ops); p'.up && !p'.w.isOpen ==> p'.w.size >= maxSize
  {
    if ops != [] {
      ClosedIsOver(p, maxSize, ops[..|ops| - 1]);
    }
  }

  /** Whatever failed before: the next write whose open and stat work leaves the writer with an open file. */
  lemma NextWriteReopens(p: Process, maxSize: int, ops: seq<Op>, f: Faults)
    requires (p.up ==> p.w.isOpen) && Run(p, maxSize, ops).up && !f.openFails && !f.statFails
    ensures Run(p, maxSize, ops + [Write(f)]).w.isOpen
  {
    assert (ops + [Write(f)])[..|ops|] == ops;
    ClosedIsOver(p, maxSize, ops);
  }

  // ---------------------------------------------------------------- nothing fails

  predicate AllHarmless(ops: seq<Op>) {
    forall k :: 0 <= k < |ops| ==> Harmless(ops[k].f)
  }

  /** The file is open, and `size` is its length. */
  ghost predicate Sound(w: Writer) {
    w.isOpen && w.disk.current.Some? && w.size == Size(w.disk.current.value)
  }

  /** A rotated file went over the limit with its last write. */
  ghost predicate JustOver(f: File, maxSize: int) {
    f.Some? ==> f.value != [] && Size(f.value[..|f.value| - 1]) < maxSize <= Size(f.value)
  }

  /** What a directory looks like that only writers with this limit have written: an unfinished current file, and
      backups that exceed the limit by less than their last write. */
  ghost predicate Tidy(d: Disk, maxSize: int) {
    && (d.current.Some? ==> Size(d.current.value) < maxSize)
    && JustOver(d.one, maxSize) && JustOver(d.two, maxSize) && JustOver(d.three, maxSize)
  }

  lemma SoundAppend(w: Writer, call: nat, f: Faults)
    requires Sound(w)
    ensures var w1 := Appended(w, call, f);
            && Sound(w1) && w1.disk == w.disk.(current := w1.disk.current)
            && History(w1.disk) == History(w.disk) + Accepted(Process(w, true), call, Write(f))
  {
    var w1 := Appended(w, call, f);
    if f.written > 0 {
      assert w1.disk.current.value[..|w.disk.current.value|] == w.disk.current.value;
    }
  }

  lemma SoundWrite(w: Writer, maxSize: int, call: nat, f: Faults)
    requires Sound(w) && Harmless(f)
    ensures Sound(WriteStep(w, maxSize, call, f))
  {
    SoundAppend(w, call, f);
    RotatedDisk(Appended(w, call, f).disk, f);
  }

  lemma TidyWrite(w: Writer, maxSize: int, call: nat, f: Faults)
    requires Sound(w) && Tidy(w.disk, maxSize) && Harmless(f) && maxSize > 0
    ensures Tidy(WriteStep(w, maxSize, call, f).disk, maxSize)
  {
    SoundAppend(w, call, f);
    var w1 := Appended(w, call, f);
    if w1.size >= maxSize {
      assert w1.disk.current.value[..|w.disk.current.value|] == w.disk.current.value;
      assert JustOver(w1.disk.current, maxSize);
      RotatedDisk(w1.disk, f);
    }
  }

  /** The backups fill up from .1 to .3. */
  ghost predicate Contiguous(d: Disk) {
    (d.three.Some? ==> d.two.Some?) && (d.two.Some? ==> d.one.Some?)
  }

  /** One write loses nothing, or, if it takes the file to the limit, exactly the oldest file. */
  lemma WriteLoses(w: Writer, maxSize: int, call: nat, f: Faults) returns (lost: seq<Entry>)
    requires Sound(w) && Harmless(f)
    ensures History(w.disk) + Accepted(Process(w, true), call, Write(f))
         == lost + History(WriteStep(w, maxSize, call, f).disk)
    ensures lost == if Size(w.disk.current.value) + f.written >= maxSize then Contents(w.disk.three) else []
    ensures var d' := WriteStep(w, maxSize, call, f).disk;
            Contiguous(w.disk) ==> Contiguous(d') && (w.disk.three.Some? || lost != [] ==> d'.three.Some?)
  {
    SoundAppend(w, call, f);
    var w1 := Appended(w, call, f);
    if w1.size < maxSize {
      lost := [];
    } else {
      var w2 := Writer(Shifted(w1.disk, f), false, w1.size);
      RotatedDisk(w1.disk, f);
      OpeningKeepsHistory(w2, f);
      lost := Contents(w1.disk.three);
    }
  }

  /** With nothing failing, in whatever directory: `size` is the length of the current file, across reopenings. */
  lemma {:induction false} RunIsSound(p: Process, maxSize: int, ops: seq<Op>)
    requires AllHarmless(ops) && (p.up ==> Sound(p.w))
    ensures var p' := Run(p, maxSize, ops); p'.up ==> Sound(p'.w)
  {
    if ops != [] {
      var n := |ops| - 1;
      RunIsSound(p, maxSize, ops[..n]);
      var p1 := Run(p, maxSize, ops[..n]);
      if ops[n].Write? && p1.up {
        SoundWrite(p1.w, maxSize, n, ops[n].f);
      }
    }
  }

  /** With nothing failing, and a tidy directory to begin with (an empty one is): across reopenings the current file
      stays below the limit, and each rotated file exceeds it by less than its last write. */
  lemma {:induction false} RunIsTidy(p: Process, maxSize: int, ops: seq<Op>)
    requires maxSize > 0 && AllHarmless(ops) && (p.up ==> Sound(p.w)) && Tidy(p.w.disk, maxSize)
    ensures Tidy(Run(p, maxSize, ops).w.disk, maxSize)
  {
    if ops != [] {
      var n := |ops| - 1;
      RunIsTidy(p, maxSize, ops[..n]);
      RunIsSound(p, maxSize, ops[..n]);
      var p1 := Run(p, maxSize, ops[..n]);
      if ops[n].Write? && p1.up {
        TidyWrite(p1.w, maxSize, n, ops[n].f);
      }
    }
  }

  /** With nothing failing, in whatever directory and across reopenings, the files hold the most recent of what was
      there and what was accepted since, without a gap: all but the first entries, `lost`; and in a directory whose
      backups fill up from .1 on, nothing is lost before all three are there. */
  lemma {:induction false} LogIsSuffix(p: Process, maxSize: int, ops: seq<Op>) returns (lost: seq<Entry>)
    requires AllHarmless(ops) && (p.up ==> Sound(p.w))
    ensures History(p.w.disk) + Log(p, maxSize, ops) == lost + History(Run(p, maxSize, ops).w.disk)
    ensures var d' := Run(p, maxSize, ops).w.disk;
            Contiguous(p.w.disk) ==> Contiguous(d') && (p.w.disk.three.Some? || lost != [] ==> d'.three.Some?)
  {
    lost := [];
    if ops != [] {
      var n := |ops| - 1;
      var p1 := Run(p, maxSize, ops[..n]);
      RunIsSound(p, maxSize, ops[..n]);
      var before := LogIsSuffix(p, maxSize, ops[..n]);
      var more := StepLoses(p1, maxSize, n, ops[n]);
      lost := before + more;
      LostTogether(before, more, History(p1.w.disk), Accepted(p1, n, ops[n]), History(Step(p1, maxSize, n, ops[n]).w.disk));
      Reassociate(History(p.w.disk), Log(p, maxSize, ops[..n]), Accepted(p1, n, ops[n]));
    }
  }

  /** And every write of a running writer is in the log with all its bytes. */
  lemma {:induction false} EveryWriteIsLogged(p: Process, maxSize: int, ops: seq<Op>, i: nat)
    requires AllHarmless(ops) && p.up && Sound(p.w)
    ensures Run(p, maxSize, ops).up
    ensures i < |ops| && ops[i].Write? && ops[i].f.written > 0 ==> Entry(i, ops[i].f.written) in Log(p, maxSize, ops)
  {
    if ops != [] {
      var n := |ops| - 1;
      EveryWriteIsLogged(p, maxSize, ops[..n], i);
      RunIsSound(p, maxSize, ops[..n]);
    }
  }

  lemma StepLoses(p: Process, maxSize: int, call: nat, op: Op) returns (lost: seq<Entry>)
    requires Harmless(op.f) && (p.up ==> Sound(p.w))
    ensures History(p.w.disk) + Accepted(p, call, op) == lost + History(Step(p, maxSize, call, op).w.disk)
    ensures var d' := Step(p, maxSize, call, op).w.disk;
            Contiguous(p.w.disk) ==> Contiguous(d') && (p.w.disk.three.Some? || lost != [] ==> d'.three.Some?)
  {
    lost := [];
    if op.Write? && p.up {
      lost := WriteLoses(p.w, maxSize, call, op.f);
    } else {
      OpeningKeepsHistory(Writer(p.w.disk, false, 0), op.f);
    }
  }

  lemma LostTogether(before: seq<Entry>, more: seq<Entry>, h: seq<Entry>, written: seq<Entry>, h': seq<Entry>)
    requires h + written == more + h'
    ensures (before + h) + written == (before + more) + h'
  {
    assert (before + h) + written == before + (h + written);
    assert (before + more) + h' == before + (more + h');
  }

  lemma FirstOfFour(a: seq<Entry>, b: seq<Entry>, c: seq<Entry>, d: seq<Entry>)
    ensures a + b + c + d == a + (b + c + d)
  {}

  lemma RotatedDisk(d: Disk, f: Faults)
    requires Harmless(f) && d.current.Some?
    ensures var d' := Shifted(d, f);
            && d'.current.None? && d'.one == d.current && d'.three == d.two && d'.two == d.one
            && History(d) == Contents(d.three) + History(d')
  {
    FirstOfFour(Contents(d.three), Contents(d.two), Contents(d.one), Contents(d.current));
    var rest := Contents(d.two) + Contents(d.one) + Contents(d.current);
    assert History(Shifted(d, f)) == rest + [] == rest;
  }
}
