/**
 * When Flood (apps/agent/internal/heartbeat/merge.go) keeps disjoint events disjoint,
 * and what else holds then: exact growth, no fillable gap left, idempotence.
 */
module FloodDisjoint {
  import opened Events
  import opened Flood

  /** Positive durations, each event ending before every later one starts. */
  ghost predicate Disjoint(s: seq<Event>) {
    && (forall i :: 0 <= i < |s| ==> s[i].dur > 0)
    && (forall i, j :: 0 <= i < j < |s| ==> s[i].End() <= s[j].ts)
  }

  predicate Fillable(gap: int, pulse: int) { 0 < gap <= pulse }

  /** Whether the loop merges s[i] into its predecessor. A merged-away event stays in
      the slice, empty, so the gap behind it is measured from its start. */
  predicate MergedAway(s: seq<Event>, i: nat, pulse: int)
    requires i < |s|
  {
    i > 0 && s[i - 1].data == s[i].data &&
    Fillable(s[i].ts - (if MergedAway(s, i - 1, pulse) then s[i - 1].ts else s[i - 1].End()), pulse)
  }

  /** The event after a merged-away one starts within the merge window of its old start. */
  ghost predicate RestartsInside(s: seq<Event>, pulse: int) {
    exists i :: 0 <= i < |s| - 1 && MergedAway(s, i, pulse) && s[i + 1].ts - s[i].ts <= pulse
  }

  // ---------------------------------------------------------------- the loop, by index

  /** s[i] as the round for the pair (i, i + 1) finds it. */
  function Carried(s: seq<Event>, i: nat, pulse: int): Event
    requires i < |s|
  {
    if i == 0 then s[0] else FillPair(Carried(s, i - 1, pulse), s[i], pulse).1
  }

  /** s[i] as the loop leaves it. */
  function Final(s: seq<Event>, i: nat, pulse: int): Event
    requires i < |s|
  {
    if i == |s| - 1 then Carried(s, i, pulse) else FillPair(Carried(s, i, pulse), s[i + 1], pulse).0
  }

  lemma {:induction false} FillFrom(s: seq<Event>, i: nat, k: nat, pulse: int)
    requires i + k < |s|
    ensures Fill(Carried(s, i, pulse), s[i + 1..], pulse)[k] == Final(s, i + k, pulse)
    decreases k
  {
    if i + 1 < |s| {
      assert s[i + 1..][0] == s[i + 1] && s[i + 1..][1..] == s[i + 2..];
      if k > 0 {
        FillFrom(s, i + 1, k - 1, pulse);
      }
    }
  }

  /** What the loop holds at position i of disjoint input. */
  lemma {:induction false} CarriedShape(s: seq<Event>, i: nat, pulse: int)
    requires Disjoint(s) && i < |s|
    ensures var c := Carried(s, i, pulse);
            && c.data == s[i].data
            && (if MergedAway(s, i, pulse) then c == s[i].(dur := 0)
                else c.End() == s[i].End() && c.dur > 0
                     && (c.ts == s[i].ts || (i > 0 && c.ts == Carried(s, i - 1, pulse).End() < s[i].ts)))
  {
    if i > 0 {
      CarriedShape(s, i - 1, pulse);
    }
  }

  lemma FinalShape(s: seq<Event>, i: nat, pulse: int)
    requires Disjoint(s) && i < |s| && !RestartsInside(s, pulse)
    ensures var f := Final(s, i, pulse);
            && f.ts == Carried(s, i, pulse).ts
            && (f.dur > 0 <==> !MergedAway(s, i, pulse))
            && (f.dur > 0 && i + 1 < |s| ==>
                  if MergedAway(s, i + 1, pulse) then f.End() == s[i + 1].End()
                  else f.End() <= Carried(s, i + 1, pulse).ts)
            && (i + 1 == |s| && f.dur > 0 ==> f.End() == s[i].End())
  {
    CarriedShape(s, i, pulse);
    if i + 1 < |s| {
      CarriedShape(s, i + 1, pulse);
    }
  }

  lemma SurvivorEndsBySuccessor(s: seq<Event>, i: nat, pulse: int)
    requires Disjoint(s) && i + 1 < |s| && !RestartsInside(s, pulse) && Final(s, i, pulse).dur > 0
    ensures Final(s, i, pulse).End() <= s[i + 1].End()
  {
    FinalShape(s, i, pulse);
    CarriedShape(s, i + 1, pulse);
  }

  lemma SurvivorStartsAfterPredecessor(s: seq<Event>, j: nat, pulse: int)
    requires Disjoint(s) && 0 < j < |s| && !RestartsInside(s, pulse) && !MergedAway(s, j, pulse)
    requires j < 2 || !MergedAway(s, j - 1, pulse) || s[j].ts - s[j - 1].ts > pulse
    ensures s[j - 1].End() <= Carried(s, j, pulse).ts
  {
    CarriedShape(s, j - 1, pulse);
    CarriedShape(s, j, pulse);
  }

  lemma SurvivorsAreSeparated(s: seq<Event>, i: nat, j: nat, pulse: int)
    requires Disjoint(s) && i < j < |s| && !RestartsInside(s, pulse)
    requires Final(s, i, pulse).dur > 0 && Final(s, j, pulse).dur > 0
    ensures Final(s, i, pulse).End() <= Final(s, j, pulse).ts
  {
    FinalShape(s, j, pulse);
    if j == i + 1 {
      FinalShape(s, i, pulse);
    } else {
      SurvivorEndsBySuccessor(s, i, pulse);
      SurvivorStartsAfterPredecessor(s, j, pulse);
      assert s[i + 1].End() <= s[j - 1].End();
    }
  }

  lemma RestartOverlaps(s: seq<Event>, i: nat, pulse: int)
    requires Disjoint(s) && i < |s| - 1 && MergedAway(s, i, pulse) && s[i + 1].ts - s[i].ts <= pulse
    ensures exists a, b :: 0 <= a < b < |s| && Final(s, a, pulse).dur > 0 && Final(s, b, pulse).dur > 0
                             && Final(s, a, pulse).End() > Final(s, b, pulse).ts
  {
    CarriedShape(s, i - 1, pulse);
    CarriedShape(s, i, pulse);
    CarriedShape(s, i + 1, pulse);
    assert Final(s, i - 1, pulse).dur > 0 && Final(s, i - 1, pulse).End() == s[i].End();
    if s[i].data == s[i + 1].data {
      assert Final(s, i, pulse).dur > 0 && Final(s, i, pulse).ts == s[i].ts;
    } else {
      assert Final(s, i + 1, pulse).dur > 0 && Final(s, i + 1, pulse).ts == s[i].ts;
    }
  }

  // ---------------------------------------------------------------- dropping the empty events

  ghost predicate SurvivorsDisjoint(f: seq<Event>) {
    forall i, j :: 0 <= i < j < |f| && f[i].dur > 0 && f[j].dur > 0 ==> f[i].End() <= f[j].ts
  }

  lemma {:induction false} KeptAreDisjoint(f: seq<Event>)
    requires SurvivorsDisjoint(f)
    ensures Disjoint(KeepPositive(f))
  {
    if f != [] {
      var n := |f| - 1;
      var front, kept := f[..n], KeepPositive(f[..n]);
      KeptAreDisjoint(front);
      forall k | 0 <= k < |kept| && f[n].dur > 0 ensures kept[k].End() <= f[n].ts {
        KeepPositiveMembers(front, kept[k]);
        var i :| 0 <= i < n && front[i] == kept[k];
        assert f[i] == kept[k];
      }
    }
  }

  lemma {:induction false} DisjointKeptMeansSurvivors(f: seq<Event>, i: nat, j: nat)
    requires Disjoint(KeepPositive(f)) && i < j < |f| && f[i].dur > 0 && f[j].dur > 0
    ensures f[i].End() <= f[j].ts
  {
    var n := |f| - 1;
    var front, kept := f[..n], KeepPositive(f[..n]);
    assert KeepPositive(f)[..|kept|] == kept;
    if j < n {
      assert forall k :: 0 <= k < |kept| ==> KeepPositive(f)[k] == kept[k];
      DisjointKeptMeansSurvivors(front, i, j);
    } else {
      assert front[i] == f[i];
      KeepPositiveMembers(front, f[i]);
      var k :| 0 <= k < |kept| && kept[k] == f[i];
      assert KeepPositive(f)[k] == f[i] && KeepPositive(f)[|kept|] == f[n];
    }
  }

  lemma FillByIndex(s: seq<Event>, pulse: int)
    requires s != []
    ensures forall i :: 0 <= i < |s| ==> Fill(s[0], s[1..], pulse)[i] == Final(s, i, pulse)
  {
    forall i | 0 <= i < |s| ensures Fill(s[0], s[1..], pulse)[i] == Final(s, i, pulse) {
      FillFrom(s, 0, i, pulse);
    }
  }

  lemma DisjointUnlessRestarted(s: seq<Event>, pulse: int)
    requires Disjoint(s) && |s| >= 2 && !RestartsInside(s, pulse)
    ensures Disjoint(FloodOf(s, pulse))
  {
    var f := Fill(s[0], s[1..], pulse);
    FillByIndex(s, pulse);
    forall i, j | 0 <= i < j < |f| && f[i].dur > 0 && f[j].dur > 0 ensures f[i].End() <= f[j].ts {
      SurvivorsAreSeparated(s, i, j, pulse);
    }
    KeptAreDisjoint(f);
  }

  lemma OverlapOnceRestarted(s: seq<Event>, pulse: int)
    requires Disjoint(s) && RestartsInside(s, pulse)
    ensures !Disjoint(FloodOf(s, pulse))
  {
    var f := Fill(s[0], s[1..], pulse);
    FillByIndex(s, pulse);
    var i :| 0 <= i < |s| - 1 && MergedAway(s, i, pulse) && s[i + 1].ts - s[i].ts <= pulse;
    RestartOverlaps(s, i, pulse);
    var a, b :| 0 <= a < b < |s| && Final(s, a, pulse).dur > 0 && Final(s, b, pulse).dur > 0
                && Final(s, a, pulse).End() > Final(s, b, pulse).ts;
    if Disjoint(KeepPositive(f)) {
      assert f[a] == Final(s, a, pulse) && f[b] == Final(s, b, pulse);
      DisjointKeptMeansSurvivors(f, a, b);
    }
  }

  /** Disjoint events stay disjoint exactly when no event restarts inside a merge. */
  lemma FloodDisjointExactly(s: seq<Event>, pulse: int)
    requires Disjoint(s)
    ensures Disjoint(FloodOf(s, pulse)) <==> !RestartsInside(s, pulse)
  {
    if RestartsInside(s, pulse) {
      OverlapOnceRestarted(s, pulse);
    } else if |s| >= 2 {
      DisjointUnlessRestarted(s, pulse);
    }
  }

  /** In particular when every event is longer than the merge window. */
  lemma LongEventsStayDisjoint(s: seq<Event>, pulse: int)
    requires Disjoint(s) && forall i :: 0 <= i < |s| ==> s[i].dur > pulse
    ensures Disjoint(FloodOf(s, pulse))
  {
    FloodDisjointExactly(s, pulse);
  }

  // ---------------------------------------------------------------- no two adjacent events alike

  ghost predicate NoneAlike(s: seq<Event>) {
    forall i :: 0 <= i < |s| - 1 ==> s[i].data != s[i + 1].data
  }

  /** The gaps of the input that are short enough to be filled. */
  function FilledGaps(s: seq<Event>, pulse: int): int {
    if |s| < 2 then 0
    else
      var gap := s[1].ts - s[0].End();
      (if Fillable(gap, pulse) then gap else 0) + FilledGaps(s[1..], pulse)
  }

  lemma {:induction false} ConsTotal(e: Event, s: seq<Event>)
    ensures TotalTime([e] + s) == e.dur + TotalTime(s)
  {
    if s == [] {
      assert TotalTime([e][..0]) == 0;
    } else {
      assert ([e] + s)[..|s|] == [e] + s[..|s| - 1];
      ConsTotal(e, s[..|s| - 1]);
    }
  }

  lemma ConsGaps(e: Event, s: seq<Event>, pulse: int)
    requires s != []
    ensures var gap := s[0].ts - e.End();
            FilledGaps([e] + s, pulse) == (if Fillable(gap, pulse) then gap else 0) + FilledGaps(s, pulse)
  {
    assert ([e] + s)[1..] == s;
  }

  /** The gaps behind an event depend only on where it ends. */
  lemma SameEndSameGaps(e: Event, e': Event, s: seq<Event>, pulse: int)
    requires e.End() == e'.End()
    ensures FilledGaps([e] + s, pulse) == FilledGaps([e'] + s, pulse)
  {
    if s != [] {
      ConsGaps(e, s, pulse);
      ConsGaps(e', s, pulse);
    }
  }

  lemma NoneAlikeTail(cur: Event, e: Event, e': Event, tail: seq<Event>)
    requires NoneAlike([cur] + ([e] + tail)) && e.data == e'.data
    ensures cur.data != e.data && NoneAlike([e'] + tail)
  {
    var all := [cur] + ([e] + tail);
    assert all[0].data != all[1].data;
    forall i | 0 <= i < |[e'] + tail| - 1 ensures ([e'] + tail)[i].data != ([e'] + tail)[i + 1].data {
      assert all[i + 1].data != all[i + 2].data;
    }
  }

  lemma {:induction false} FillAddsTheGaps(cur: Event, rest: seq<Event>, pulse: int)
    requires cur.dur > 0 && Disjoint(rest) && NoneAlike([cur] + rest)
    requires rest != [] ==> cur.End() <= rest[0].ts
    ensures TotalTime(Fill(cur, rest, pulse)) == TotalTime([cur] + rest) + FilledGaps([cur] + rest, pulse)
    decreases |rest|
  {
    if rest == [] {
      assert [cur] + rest == [cur];
    } else {
      var e2, tail := rest[0], rest[1..];
      var (done, next) := FillPair(cur, e2, pulse);
      assert rest == [e2] + tail;
      NoneAlikeTail(cur, e2, next, tail);
      FillAddsTheGaps(next, tail, pulse);
      ConsTotal(done, Fill(next, tail, pulse));
      ConsTotal(next, tail);
      ConsTotal(cur, rest);
      ConsTotal(e2, tail);
      ConsGaps(cur, rest, pulse);
      SameEndSameGaps(next, e2, tail, pulse);
    }
  }

  lemma {:induction false} KeepPositiveKeepsAll(s: seq<Event>)
    requires forall i :: 0 <= i < |s| ==> s[i].dur > 0
    ensures KeepPositive(s) == s
  {
    if s != [] {
      KeepPositiveKeepsAll(s[..|s| - 1]);
    }
  }

  /** No gap is left that another pass would fill. */
  ghost predicate Flooded(s: seq<Event>, pulse: int) {
    forall i :: 0 <= i < |s| - 1 ==> !Fillable(s[i + 1].ts - s[i].End(), pulse)
  }

  lemma NeverMergedAway(s: seq<Event>, pulse: int)
    requires NoneAlike(s)
    ensures forall i :: 0 <= i < |s| ==> !MergedAway(s, i, pulse)
  {
    forall i | 0 <= i < |s| ensures !MergedAway(s, i, pulse) {}
  }

  lemma UnlikeShape(s: seq<Event>, i: nat, pulse: int)
    requires Disjoint(s) && NoneAlike(s) && i < |s|
    ensures var f := Final(s, i, pulse);
            f.dur > 0 && f.data == s[i].data && Inside(s[i], f)
  {
    NeverMergedAway(s, pulse);
    CarriedShape(s, i, pulse);
    FinalShape(s, i, pulse);
  }

  lemma UnlikeGap(s: seq<Event>, i: nat, pulse: int)
    requires Disjoint(s) && NoneAlike(s) && i + 1 < |s|
    ensures !Fillable(Final(s, i + 1, pulse).ts - Final(s, i, pulse).End(), pulse)
  {
    NeverMergedAway(s, pulse);
    CarriedShape(s, i, pulse);
    FinalShape(s, i + 1, pulse);
  }

  lemma UnlikeFloodKeepsAll(s: seq<Event>, pulse: int)
    requires Disjoint(s) && NoneAlike(s) && |s| >= 2
    ensures FloodOf(s, pulse) == Fill(s[0], s[1..], pulse)
  {
    var f := Fill(s[0], s[1..], pulse);
    FillByIndex(s, pulse);
    forall i | 0 <= i < |s| ensures f[i].dur > 0 {
      UnlikeShape(s, i, pulse);
    }
    KeepPositiveKeepsAll(f);
  }

  lemma UnlikeFloodShape(s: seq<Event>, pulse: int)
    requires Disjoint(s) && NoneAlike(s) && |s| >= 2
    ensures var out := Fill(s[0], s[1..], pulse);
            Flooded(out, pulse) && forall i :: 0 <= i < |s| ==> Inside(s[i], out[i])
  {
    var f := Fill(s[0], s[1..], pulse);
    FillByIndex(s, pulse);
    forall i | 0 <= i < |s|
      ensures Inside(s[i], f[i])
      ensures i + 1 < |s| ==> !Fillable(f[i + 1].ts - f[i].End(), pulse)
    {
      UnlikeShape(s, i, pulse);
      if i + 1 < |s| {
        UnlikeGap(s, i, pulse);
      }
    }
  }

  lemma UnlikeTotal(s: seq<Event>, pulse: int)
    requires Disjoint(s) && NoneAlike(s)
    ensures TotalTime(FloodOf(s, pulse)) == TotalTime(s) + FilledGaps(s, pulse)
  {
    if |s| >= 2 {
      UnlikeFloodKeepsAll(s, pulse);
      assert s == [s[0]] + s[1..];
      FillAddsTheGaps(s[0], s[1..], pulse);
    }
  }

  /** Without alike neighbours: disjoint, same events in the same order, every remaining gap
      is zero or too long, and the total grows by exactly the filled gaps. */
  lemma UnlikeNeighbours(s: seq<Event>, pulse: int)
    requires Disjoint(s) && NoneAlike(s)
    ensures var out := FloodOf(s, pulse);
            && Disjoint(out) && |out| == |s| && Flooded(out, pulse)
            && (forall i :: 0 <= i < |s| ==> Inside(s[i], out[i]))
            && TotalTime(out) == TotalTime(s) + FilledGaps(s, pulse)
  {
    if |s| >= 2 {
      NeverMergedAway(s, pulse);
      FloodDisjointExactly(s, pulse);
      UnlikeFloodKeepsAll(s, pulse);
      UnlikeFloodShape(s, pulse);
    }
    UnlikeTotal(s, pulse);
  }

  lemma {:induction false} FillFloodedIsIdentity(cur: Event, rest: seq<Event>, pulse: int)
    requires Flooded([cur] + rest, pulse)
    ensures Fill(cur, rest, pulse) == [cur] + rest
    decreases |rest|
  {
    if rest != [] {
      var all := [cur] + rest;
      assert !Fillable(all[1].ts - all[0].End(), pulse);
      assert [rest[0]] + rest[1..] == rest;
      forall i | 0 <= i < |rest| - 1 ensures !Fillable(rest[i + 1].ts - rest[i].End(), pulse) {
        assert all[i + 2] == rest[i + 1] && all[i + 1] == rest[i];
      }
      FillFloodedIsIdentity(rest[0], rest[1..], pulse);
    }
  }

  lemma HeadIsFirst(s: seq<Event>, e: Event)
    requires Disjoint(s) && e in s
    ensures e == s[0] || s[0].End() <= e.ts
  {}

  lemma SortedOrderHasSameHead(s: seq<Event>, t: seq<Event>)
    requires Disjoint(s) && Sorted(t) && multiset(s) == multiset(t) && s != [] && t != []
    ensures s[0] == t[0]
  {
    assert s[0] in multiset(t) && t[0] in multiset(s);
    HeadIsFirst(s, t[0]);
    var j :| 0 <= j < |t| && t[j] == s[0];
    assert t[0].ts <= t[j].ts;
  }

  lemma TailsHaveSameMembers(s: seq<Event>, t: seq<Event>)
    requires s != [] && t != [] && s[0] == t[0] && multiset(s) == multiset(t)
    ensures multiset(s[1..]) == multiset(t[1..])
  {
    assert s == [s[0]] + s[1..] && t == [t[0]] + t[1..];
    assert multiset(s[1..]) == multiset(s) - multiset{s[0]};
    assert multiset(t[1..]) == multiset(t) - multiset{t[0]};
  }

  /** Disjoint events have only one sorted order. */
  lemma {:induction false} SortedOrderIsUnique(s: seq<Event>, t: seq<Event>)
    requires Disjoint(s) && Sorted(t) && multiset(s) == multiset(t)
    ensures s == t
  {
    assert |multiset(s)| == |multiset(t)|;
    if s != [] {
      SortedOrderHasSameHead(s, t);
      TailsHaveSameMembers(s, t);
      SortedOrderIsUnique(s[1..], t[1..]);
      assert s == [s[0]] + s[1..] && t == [t[0]] + t[1..];
    }
  }

  lemma FloodedStays(s: seq<Event>, pulse: int)
    requires Flooded(s, pulse) && forall i :: 0 <= i < |s| ==> s[i].dur > 0
    ensures FloodOf(s, pulse) == s
  {
    if |s| >= 2 {
      assert s == [s[0]] + s[1..];
      FillFloodedIsIdentity(s[0], s[1..], pulse);
      KeepPositiveKeepsAll(s);
    }
  }

  /** Flooding a flooded result again, whatever order the sort leaves it in, changes nothing. */
  lemma FloodIsIdempotent(s: seq<Event>, again: seq<Event>, pulse: int)
    requires Disjoint(s) && NoneAlike(s)
    requires Sorted(again) && multiset(again) == multiset(FloodOf(s, pulse))
    ensures FloodOf(again, pulse) == FloodOf(s, pulse)
  {
    var out := FloodOf(s, pulse);
    UnlikeNeighbours(s, pulse);
    SortedOrderIsUnique(out, again);
    FloodedStays(out, pulse);
  }
}
