/**
 * Flood, the in-place gap filler (apps/agent/internal/heartbeat/merge.go):
 * what the two loops compute, and that they lose nothing and invent little.
 */
module Flood {
  import opened Events

  ghost predicate Sorted(s: seq<Event>) {
    forall i, j :: 0 <= i < j < |s| ==> s[i].ts <= s[j].ts
  }

  ghost predicate NonNegative(s: seq<Event>) {
    forall i :: 0 <= i < |s| ==> s[i].dur >= 0
  }

  /** Both events of an adjacent pair after one round of the loop. */
  function FillPair(e1: Event, e2: Event, pulse: int): (Event, Event) {
    var gap := e2.ts - e1.End();
    if gap <= 0 || gap > pulse then (e1, e2)
    else if e1.data == e2.data then (e1.(dur := e2.End() - e1.ts), e2.(dur := 0))
    else if e1.dur >= e2.dur then (e1.(dur := e2.ts - e1.ts), e2)
    else (e1, e2.(ts := e1.End(), dur := e2.End() - e1.End()))
  }

  function Fill(cur: Event, rest: seq<Event>, pulse: int): (r: seq<Event>)
    ensures |r| == 1 + |rest|
    decreases |rest|
  {
    if rest == [] then [cur]
    else
      var (done, next) := FillPair(cur, rest[0], pulse);
      [done] + Fill(next, rest[1..], pulse)
  }

  function KeepPositive(s: seq<Event>): seq<Event> {
    if s == [] then []
    else KeepPositive(s[..|s| - 1]) + (if s[|s| - 1].dur > 0 then [s[|s| - 1]] else [])
  }

  function FloodOf(s: seq<Event>, pulse: int): seq<Event> {
    if |s| < 2 then s else KeepPositive(Fill(s[0], s[1..], pulse))
  }

  /** What becomes of two events of positive duration, in timestamps: a gap of at most `pulse` is closed, by one event for
      both if they are alike, and else by the longer one growing over it. */
  lemma PairExactly(e1: Event, e2: Event, pulse: int)
    requires e1.dur > 0 && e2.dur > 0
    ensures var end1, end2 := e1.ts + e1.dur, e2.ts + e2.dur;
            FloodOf([e1, e2], pulse)
            == if e2.ts <= end1 || e2.ts - end1 > pulse then [e1, e2]
               else if e1.data == e2.data then [Event(e1.ts, end2 - e1.ts, e1.data)]
               else if e1.dur >= e2.dur then [Event(e1.ts, e2.ts - e1.ts, e1.data), e2]
               else [e1, Event(end1, end2 - end1, e2.data)]
  {
    FloodOfTwo(e1, e2, pulse);
  }

  lemma FloodOfTwo(e1: Event, e2: Event, pulse: int)
    ensures var (done, next) := FillPair(e1, e2, pulse);
            FloodOf([e1, e2], pulse) == (if done.dur > 0 then [done] else []) + (if next.dur > 0 then [next] else [])
  {
    var (done, next) := FillPair(e1, e2, pulse);
    assert [e1, e2][1..] == [e2] && [e2][1..] == [];
    assert Fill(e1, [e2], pulse) == [done] + [next];
    KeepTwo(done, next);
  }

  lemma LoneEventStays(e: Event, pulse: int)
    ensures FloodOf([e], pulse) == [e]
  {}

  lemma KeepTwo(e1: Event, e2: Event)
    ensures KeepPositive([e1] + [e2]) == (if e1.dur > 0 then [e1] else []) + (if e2.dur > 0 then [e2] else [])
  {
    assert ([e1] + [e2])[..1] == [e1] && [e1][..0] == [];
    assert KeepPositive([e1]) == if e1.dur > 0 then [e1] else [];
  }

  // ---------------------------------------------------------------- the loops

  function Position(e: Event, s: seq<Event>): (k: nat)
    ensures k <= |s|
    ensures forall i :: 0 <= i < k ==> s[i].ts < e.ts
    ensures k < |s| ==> e.ts <= s[k].ts
  {
    if s == [] || e.ts <= s[0].ts then 0 else 1 + Position(e, s[1..])
  }

  function Insert(e: Event, s: seq<Event>): (r: seq<Event>)
    requires Sorted(s)
    ensures Sorted(r) && multiset(r) == multiset(s) + multiset{e} && |r| == |s| + 1
  {
    var k := Position(e, s);
    InsertedIsPermutation(e, s, k);
    InsertedIsSorted(e, s, k);
    s[..k] + [e] + s[k..]
  }

  lemma InsertedIsPermutation(e: Event, s: seq<Event>, k: nat)
    requires k <= |s|
    ensures multiset(s[..k] + [e] + s[k..]) == multiset(s) + multiset{e}
  {
    assert s == s[..k] + s[k..];
  }

  lemma InsertedIsSorted(e: Event, s: seq<Event>, k: nat)
    requires Sorted(s) && k <= |s| && (forall i :: 0 <= i < k ==> s[i].ts < e.ts) && (k < |s| ==> e.ts <= s[k].ts)
    ensures Sorted(s[..k] + [e] + s[k..])
  {
    var r := s[..k] + [e] + s[k..];
    forall i, j | 0 <= i < j < |r| ensures r[i].ts <= r[j].ts {
      assert r[i] == if i < k then s[i] else if i == k then e else s[i - 1];
      assert r[j] == if j < k then s[j] else if j == k then e else s[j - 1];
    }
  }

  function InsertionSort(s: seq<Event>): (r: seq<Event>)
    ensures Sorted(r) && multiset(r) == multiset(s) && |r| == |s|
  {
    if s == [] then []
    else
      assert s == [s[0]] + s[1..];
      Insert(s[0], InsertionSort(s[1..]))
  }

  /** Stands for sort.Slice; callers rely only on getting some sorted permutation. */
  method SortByTimestamp(a: array<Event>)
    modifies a
    ensures Sorted(a[..]) && multiset(a[..]) == old(multiset(a[..]))
  {
    var sorted := InsertionSort(a[..]);
    forall i | 0 <= i < a.Length { a[i] := sorted[i]; }
    assert a[..] == sorted;
  }

  /** The first loop, on the copied slice. */
  method FillInPlace(result: array<Event>, pulse: int)
    requires result.Length >= 2
    modifies result
    ensures result[..] == old(Fill(result[0], result[1..], pulse))
  {
    ghost var s := result[..];
    var i := 0;
    while i < result.Length - 1
      invariant 0 <= i <= result.Length - 1
      invariant result[i + 1..] == s[i + 1..]
      invariant Fill(s[0], s[1..], pulse) == result[..i] + Fill(result[i], s[i + 1..], pulse)
    {
      ghost var done, rest := result[..i], result[i + 2..];
      assert rest == s[i + 1..][1..] == s[i + 2..];
      FillPairInPlace(result, i, pulse);
      assert result[..i + 1] == done + [result[i]];
      i := i + 1;
    }
    assert result[..] == result[..i] + [result[i]];
  }

  /** One round of the first loop. */
  method FillPairInPlace(result: array<Event>, i: nat, pulse: int)
    requires i + 1 < result.Length
    modifies result
    ensures (result[i], result[i + 1]) == old(FillPair(result[i], result[i + 1], pulse))
    ensures result[..i] == old(result[..i]) && result[i + 2..] == old(result[i + 2..])
  {
    var e1, e2 := result[i], result[i + 1];
    var end1 := e1.ts + e1.dur;
    var gap := e2.ts - end1;
    if gap <= 0 || gap > pulse {
      return;
    }
    if e1.data == e2.data {
      result[i] := e1.(dur := e2.ts + e2.dur - e1.ts);
      result[i + 1] := e2.(dur := 0);
    } else if e1.dur >= e2.dur {
      result[i] := e1.(dur := e2.ts - e1.ts);
    } else {
      result[i + 1] := e2.(ts := end1, dur := e2.ts + e2.dur - end1);
    }
  }

  lemma KeepOneMore(s: seq<Event>, r: nat)
    requires r < |s|
    ensures KeepPositive(s[..r + 1]) == KeepPositive(s[..r]) + (if s[r].dur > 0 then [s[r]] else [])
  {
    assert s[..r + 1][..r] == s[..r] && s[..r + 1][r] == s[r];
  }

  /** The second loop: the kept events are moved to the front of the same array. */
  method DropEmpty(result: array<Event>) returns (n: nat)
    modifies result
    ensures n <= result.Length && result[..n] == old(KeepPositive(result[..]))
  {
    ghost var given := result[..];
    n := 0;
    var r := 0;
    while r < result.Length
      invariant 0 <= n <= r <= result.Length
      invariant result[..n] == KeepPositive(given[..r])
      invariant forall k :: r <= k < result.Length ==> result[k] == given[k]
    {
      var e := result[r];
      KeepOneMore(given, r);
      if e.dur > 0 {
        ghost var kept := result[..n];
        result[n] := e;
        n := n + 1;
        assert result[..n] == kept + [e];
      }
      r := r + 1;
    }
    assert given[..r] == given;
  }

  method Flood(events: array<Event>, pulse: int) returns (out: array<Event>, n: nat)
    modifies events
    ensures multiset(events[..]) == old(multiset(events[..])) && Sorted(events[..])
    ensures n <= out.Length && out[..n] == FloodOf(events[..], pulse)
    ensures NonNegative(old(events[..])) ==> Sound(old(events[..]), out[..n], pulse)
  {
    if events.Length < 2 {
      return events, events.Length;
    }
    ghost var given := events[..];
    SortByTimestamp(events);
    var result := new Event[events.Length](i requires 0 <= i < events.Length reads events => events[i]);
    assert result[..] == events[..];
    FillInPlace(result, pulse);
    n := DropEmpty(result);
    out := result;
    if NonNegative(given) {
      FloodIsSound(given, events[..], pulse);
    }
  }

  // ---------------------------------------------------------------- loses nothing, invents little

  /** Instant `t` is inside an input event, or at most `pulse` before the start of one. */
  ghost predicate NearInput(s: seq<Event>, pulse: int, t: int) {
    exists x :: x in s && (x.ts <= t < x.End() || x.ts - pulse <= t < x.ts)
  }

  lemma KeepPositiveMembers(s: seq<Event>, x: Event)
    ensures x in KeepPositive(s) <==> x in s && x.dur > 0
  {
    if s != [] {
      KeepPositiveMembers(s[..|s| - 1], x);
      assert s == s[..|s| - 1] + [s[|s| - 1]];
    }
  }

  lemma KeepPositiveSorted(s: seq<Event>)
    requires Sorted(s)
    ensures Sorted(KeepPositive(s))
  {
    if s != [] {
      var front := s[..|s| - 1];
      KeepPositiveSorted(front);
      forall i | 0 <= i < |KeepPositive(front)| ensures KeepPositive(front)[i] in front {
        KeepPositiveMembers(front, KeepPositive(front)[i]);
      }
    }
  }

  /** The state of the loop: the event in hand and the untouched events after it. */
  ghost predicate Chain(cur: Event, rest: seq<Event>) {
    && cur.dur >= 0 && NonNegative(rest) && Sorted(rest)
    && forall i :: 0 <= i < |rest| ==> cur.ts <= rest[i].ts
  }

  lemma ChainOf(s: seq<Event>)
    requires s != [] && Sorted(s) && NonNegative(s)
    ensures Chain(s[0], s[1..])
  {}

  lemma ChainStep(cur: Event, rest: seq<Event>, pulse: int)
    requires Chain(cur, rest) && rest != []
    ensures var (done, next) := FillPair(cur, rest[0], pulse);
            Chain(next, rest[1..]) && done.ts == cur.ts <= next.ts
            && Inside(cur, done)
            && (rest[0].dur > 0 ==> Inside(rest[0], done) || Inside(rest[0], next))
  {}

  lemma {:induction false} FillIsSorted(cur: Event, rest: seq<Event>, pulse: int)
    requires Chain(cur, rest)
    ensures Sorted(Fill(cur, rest, pulse)) && Fill(cur, rest, pulse)[0].ts == cur.ts
    decreases |rest|
  {
    if rest != [] {
      ChainStep(cur, rest, pulse);
      var (done, next) := FillPair(cur, rest[0], pulse);
      FillIsSorted(next, rest[1..], pulse);
      var tail := Fill(next, rest[1..], pulse);
      assert Fill(cur, rest, pulse) == [done] + tail;
      assert forall j :: 0 <= j < |tail| ==> tail[0].ts <= tail[j].ts;
    }
  }

  /** The returned slice is sorted by timestamp, for durations that are not negative. */
  lemma FloodIsSorted(s: seq<Event>, pulse: int)
    requires Sorted(s) && NonNegative(s)
    ensures Sorted(FloodOf(s, pulse))
  {
    if |s| >= 2 {
      ChainOf(s);
      FillIsSorted(s[0], s[1..], pulse);
      KeepPositiveSorted(Fill(s[0], s[1..], pulse));
    }
  }

  /** A negative duration can push an event in front of an earlier one. */
  lemma NegativeDurationsCanUnsort(d: Data, e: Data)
    requires d != e
    ensures var s := [Event(0, 10, d), Event(5, -10, e), Event(6, 1, d)];
            Sorted(s) && !Sorted(FloodOf(s, 20))
  {
    var a, b, b', c := Event(0, 10, d), Event(5, -10, e), Event(6, 1, d), Event(-5, 12, d);
    var s := [a, b, b'];
    assert s[1..] == [b, b'] && [b, b'][1..] == [b'] && [b'][1..] == [];
    assert Fill(c, [], 20) == [c];
    assert FillPair(a, b, 20) == (a, b) && FillPair(b, b', 20) == (b, c);
    assert Fill(b, [b'], 20) == [b] + Fill(c, [], 20);
    assert Fill(a, [b, b'], 20) == [a] + Fill(b, [b'], 20);
    assert Fill(s[0], s[1..], 20) == [a, b, c];
    assert [a, b, c][..2] == [a, b] && [a, b][..1] == [a] && [a][..0] == [];
    assert KeepPositive([a]) == [a];
    assert KeepPositive([a, b]) == [a];
    assert KeepPositive([a, b, c]) == [a, c];
    assert FloodOf(s, 20) == [a, c] && [a, c][0].ts > [a, c][1].ts;
  }

  lemma {:induction false} FillLosesNothing(cur: Event, rest: seq<Event>, pulse: int, x: Event)
    requires Chain(cur, rest)
    requires x.dur > 0 && (Inside(x, cur) || x in rest)
    ensures exists y :: y in Fill(cur, rest, pulse) && y.dur > 0 && Inside(x, y)
    decreases |rest|
  {
    if rest == [] {
      assert cur in Fill(cur, rest, pulse);
    } else {
      ChainStep(cur, rest, pulse);
      var (done, next) := FillPair(cur, rest[0], pulse);
      assert rest == [rest[0]] + rest[1..];
      if Inside(x, done) {
        assert done in Fill(cur, rest, pulse);
      } else {
        FillLosesNothing(next, rest[1..], pulse, x);
      }
    }
  }

  /** Every positive-duration input interval lies inside an output event with equal data. */
  lemma FloodLosesNothing(s: seq<Event>, pulse: int, x: Event)
    requires Sorted(s) && NonNegative(s) && x in s && x.dur > 0
    ensures exists y :: y in FloodOf(s, pulse) && Inside(x, y)
  {
    if |s| < 2 {
      assert Inside(x, x);
    } else {
      assert s == [s[0]] + s[1..];
      ChainOf(s);
      FillLosesNothing(s[0], s[1..], pulse, x);
      var y :| y in Fill(s[0], s[1..], pulse) && y.dur > 0 && Inside(x, y);
      KeepPositiveMembers(Fill(s[0], s[1..], pulse), y);
    }
  }

  /** The inputs `s` account for every instant of `e`. */
  ghost predicate Accounted(s: seq<Event>, pulse: int, e: Event) {
    forall t :: e.ts <= t < e.End() ==> NearInput(s, pulse, t)
  }

  lemma PairInventsLittle(s: seq<Event>, cur: Event, e2: Event, pulse: int)
    requires cur.dur >= 0 && e2.dur >= 0 && e2 in s && Accounted(s, pulse, cur)
    ensures Accounted(s, pulse, FillPair(cur, e2, pulse).0) && Accounted(s, pulse, FillPair(cur, e2, pulse).1)
  {
    var (done, next) := FillPair(cur, e2, pulse);
    forall t | done.ts <= t < done.End() || next.ts <= t < next.End() ensures NearInput(s, pulse, t) {
      if !(cur.ts <= t < cur.End()) {
        assert e2.ts <= t < e2.End() || e2.ts - pulse <= t < e2.ts;
      }
    }
  }

  lemma {:induction false} FillInventsLittle(s: seq<Event>, cur: Event, rest: seq<Event>, pulse: int, y: Event)
    requires Chain(cur, rest) && Accounted(s, pulse, cur) && forall x :: x in rest ==> x in s
    requires y in Fill(cur, rest, pulse)
    ensures Accounted(s, pulse, y)
    decreases |rest|
  {
    if rest != [] {
      ChainStep(cur, rest, pulse);
      PairInventsLittle(s, cur, rest[0], pulse);
      var (done, next) := FillPair(cur, rest[0], pulse);
      if y != done {
        FillInventsLittle(s, next, rest[1..], pulse, y);
      }
    }
  }

  /** Every instant of the output is covered by the input or at most pulsetime before an input's start. */
  lemma FloodInventsLittle(s: seq<Event>, pulse: int, y: Event)
    requires Sorted(s) && NonNegative(s) && y in FloodOf(s, pulse)
    ensures Accounted(s, pulse, y)
  {
    if |s| < 2 {
      assert y in s;
    } else {
      ChainOf(s);
      assert s[0] in s;
      KeepPositiveMembers(Fill(s[0], s[1..], pulse), y);
      FillInventsLittle(s, s[0], s[1..], pulse, y);
    }
  }

  /** Sorted, nothing lost, little invented. */
  ghost predicate Sound(given: seq<Event>, out: seq<Event>, pulse: int) {
    && Sorted(out)
    && (forall x :: x in given && x.dur > 0 ==> exists y :: y in out && Inside(x, y))
    && (forall y :: y in out ==> Accounted(given, pulse, y))
  }

  /** All of it for unsorted input, whichever sorted permutation the sort picks. */
  lemma FloodIsSound(given: seq<Event>, s: seq<Event>, pulse: int)
    requires NonNegative(given) && Sorted(s) && multiset(s) == multiset(given)
    ensures Sound(given, FloodOf(s, pulse), pulse)
  {
    forall x ensures x in given <==> x in s {
      assert x in multiset(given) <==> x in multiset(s);
    }
    forall i | 0 <= i < |s| ensures s[i].dur >= 0 {
      assert s[i] in given;
    }
    FloodIsSorted(s, pulse);
    forall x | x in given && x.dur > 0 ensures exists y :: y in FloodOf(s, pulse) && Inside(x, y) {
      FloodLosesNothing(s, pulse, x);
    }
    forall y | y in FloodOf(s, pulse) ensures Accounted(given, pulse, y) {
      FloodInventsLittle(s, pulse, y);
      forall t | y.ts <= t < y.End() ensures NearInput(given, pulse, t) {
        assert NearInput(s, pulse, t);
        var x :| x in s && (x.ts <= t < x.End() || x.ts - pulse <= t < x.ts);
        assert x in given;
      }
    }
  }
}
