/**
 * Activity events and the merge of one heartbeat into the previous one
 * (apps/agent/internal/heartbeat/merge.go). Timestamps and durations are
 * nanoseconds; durations may be zero or negative, as in Go.
 */
module Events {

  datatype Option<+T> = None | Some(value: T)

  const SECOND := 1_000_000_000
  const HOUR := 3600 * SECOND

  /** app, title, url, category. */
  type Data = map<string, string>

  datatype Event = Event(ts: int, dur: int, data: Data) {
    function End(): int { ts + dur }
  }

  /** The interval and payload of `h` lie inside `c`. */
  ghost predicate Inside(h: Event, c: Event) {
    c.data == h.data && c.ts <= h.ts && h.End() <= c.End()
  }

  predicate CanMerge(last: Event, hb: Event, pulse: int) {
    last.data == hb.data && last.ts <= hb.ts <= last.End() + pulse
  }

  /** `last` stretched, never shrunk, to the end of `hb`. */
  function Extend(last: Event, hb: Event): Event {
    if hb.End() > last.End() then last.(dur := hb.End() - last.ts) else last
  }

  function TotalTime(s: seq<Event>): int {
    if s == [] then 0 else TotalTime(s[..|s| - 1]) + s[|s| - 1].dur
  }

  /** A Go `*Event`. */
  class EventRef {
    var event: Event

    constructor (e: Event)
      ensures event == e
    {
      event := e;
    }
  }

  method HeartbeatMerge(last: EventRef?, hb: EventRef?, pulse: int) returns (merged: EventRef?)
    modifies last
    ensures merged != null <==> last != null && hb != null && old(
              && last.event.data == hb.event.data
              && last.event.ts <= hb.event.ts <= last.event.ts + last.event.dur + pulse)
    ensures merged != null ==>
              var end, hbEnd := old(last.event.ts + last.event.dur), old(hb.event.ts + hb.event.dur);
              && merged == last && last.event.ts == old(last.event.ts) && last.event.data == old(last.event.data)
              && last.event.ts + last.event.dur == if hbEnd > end then hbEnd else end
    ensures merged == null && last != null ==> last.event == old(last.event)
  {
    if last == null || hb == null {
      return null;
    }
    if last.event.data != hb.event.data {
      return null;
    }
    var pulseEnd := last.event.ts + last.event.dur + pulse;
    if hb.event.ts < last.event.ts || hb.event.ts > pulseEnd {
      return null;
    }
    var newDur := hb.event.ts - last.event.ts + hb.event.dur;
    if newDur > last.event.dur {
      last.event := last.event.(dur := newDur);
    }
    return last;
  }

  /** A merge covers both its inputs, and every instant it adds is at most `pulse` before `hb`. */
  lemma MergeCoversBoth(last: Event, hb: Event, pulse: int, t: int)
    requires CanMerge(last, hb, pulse)
    ensures Inside(last, Extend(last, hb)) && Inside(hb, Extend(last, hb))
    ensures last.ts <= t < Extend(last, hb).End() ==>
              t < last.End() || hb.ts <= t < hb.End() || (last.End() <= t < hb.ts <= last.End() + pulse)
  {}
}
