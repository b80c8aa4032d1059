/**
 * AgentAuthGuard (apps/api/src/modules/agent/agent-auth.guard.ts) over the file-backed store:
 * how stale the validation behind an admitted request can be.
 */
module AuthGuard {
  import opened Events
  import opened TtlStore

  const CACHE_TTL_SECONDS := 300
  const CACHE_PREFIX := "agentauth:v2:"

  /** When the device and then the user of a token were looked up and found active, and when that was cached. */
  datatype Validation = Validation(token: string, deviceAt: int, userAt: int, cachedAt: int)

  /** A cached string: one the guard wrote, or one that does not parse. */
  datatype Cached = Json(v: Validation) | Garbage

  datatype Headers = Headers(authorization: Option<string>, deviceToken: Option<string>)

  const BEARER := "Bearer "

  /** The request presents token t: as its bearer token, or, when its authorization header does not begin with
      "Bearer ", as its x-device-token. An empty token counts as none. */
  ghost predicate Presents(h: Headers, t: string) {
    && t != ""
    && (h.authorization == Some("Bearer " + t)
        || (h.deviceToken == Some(t) && !exists s :: h.authorization == Some("Bearer " + s)))
  }

  /** The database's answers to one cache miss and the times of the three awaits. */
  datatype Database = Database(deviceActive: bool, userActive: bool, deviceAt: int, userAt: int, cachedAt: int, saves: bool)

  datatype Verdict = Admitted(v: Validation) | Unauthorized

  /** What the guard takes out of the headers is the token they present, if there is one. */
  lemma TokenExactly(h: Headers, raw: Option<string>)
    requires raw == if h.authorization.Some? && BEARER <= h.authorization.value
                    then Some(h.authorization.value[|BEARER|..]) else h.deviceToken
    ensures forall t :: Presents(h, t) <==> raw == Some(t) && t != ""
  {
    if h.authorization.Some? && BEARER <= h.authorization.value {
      var header := h.authorization.value;
      assert header[..|BEARER|] == BEARER && header == header[..|BEARER|] + header[|BEARER|..];
      assert forall t :: ("Bearer " + t)[7..] == t;
    } else {
      assert forall s :: BEARER <= "Bearer " + s;
    }
  }

  class AgentAuthGuard {
    const redis: RedisService<Cached>

    constructor (redis: RedisService<Cached>)
      ensures this.redis == redis
    {
      this.redis := redis;
    }

    /** Admits from the cache, or after finding device and user active, and then caches that for 300 s. */
    method CanActivate(headers: Headers, now: int, db: Database) returns (verdict: Verdict)
      modifies redis
      ensures (forall t :: !Presents(headers, t)) ==> verdict == Unauthorized && redis.View() == old(redis.View())
      ensures forall token :: Presents(headers, token) ==>
        var hit := Lookup(old(redis.mem), CACHE_PREFIX + token, now);
        var asked := Apply(old(redis.View()), Ask(token, now, db.saves));
        if hit.Some? && hit.value.Json? then
          verdict == Admitted(hit.value.v) && redis.View() == asked
        else if !db.deviceActive || !db.userActive then
          verdict == Unauthorized && redis.View() == asked
        else
          && verdict == Admitted(Validation(token, db.deviceAt, db.userAt, db.cachedAt))
          && forall miss :: redis.View() == Apply(asked, Fill(token, db.deviceAt, db.userAt, db.cachedAt, db.saves, miss))
    {
      var raw := if headers.authorization.Some? && BEARER <= headers.authorization.value
                 then Some(headers.authorization.value[|BEARER|..]) else headers.deviceToken;
      TokenExactly(headers, raw);
      if raw == None || raw.value == "" {
        return Unauthorized;
      }
      var cacheKey := CACHE_PREFIX + raw.value;
      var cached := redis.Get(cacheKey, now, db.saves);
      if cached.Some? {
        match cached.value
        case Json(v) => return Admitted(v);
        case Garbage =>
      }
      if !db.deviceActive {
        return Unauthorized;
      }
      if !db.userActive {
        return Unauthorized;
      }
      var v := Validation(raw.value, db.deviceAt, db.userAt, db.cachedAt);
      redis.Set(cacheKey, Json(v), CACHE_TTL_SECONDS, db.cachedAt, db.saves);
      return Admitted(v);
    }
  }

  // ---------------------------------------------------------------- staleness over runs

  /** What can happen to the store: the guard reads or fills it, an entry is revoked or damaged, the API restarts.
      A miss is an Ask and, two lookups later, a Fill that names it by its place in the run; anything may happen in
      between. Whether saves succeed is free. */
  datatype Event =
    | Ask(token: string, now: int, saves: bool)
    | Fill(token: string, deviceAt: int, userAt: int, cachedAt: int, saves: bool, miss: nat)
    | Revoke(token: string, at: int, saves: bool)
    | Damage(key: string, expiresAt: Option<int>, at: int, saves: bool)
    | Reload(now: int)
    | LoseFile(at: int)

  function Apply(s: Store<Cached>, e: Event): Store<Cached> {
    match e
    case Ask(token, now, saves) => GetStep(s, CACHE_PREFIX + token, now, saves)
    case Fill(token, deviceAt, userAt, cachedAt, saves, _) =>
      var v := Validation(token, deviceAt, userAt, cachedAt);
      Saved(s, s.mem[CACHE_PREFIX + token := NewEntry(Json(v), CACHE_TTL_SECONDS, cachedAt)], saves)
    case Revoke(token, _, saves) => Saved(s, s.mem - {CACHE_PREFIX + token}, saves)
    case Damage(key, expiresAt, _, saves) => Saved(s, s.mem[key := Entry(Garbage, expiresAt)], saves)
    case Reload(now) => Restarted(s, now)
    case LoseFile(_) => s.(disk := None)
  }

  function Run(events: seq<Event>): Store<Cached> {
    if events == [] then Store(map[], None) else Apply(Run(events[..|events| - 1]), events[|events| - 1])
  }

  /** The lookups of this validation really were made for this token: some miss filled the cache with it. */
  ghost predicate Made(events: seq<Event>, v: Validation) {
    exists i :: 0 <= i < |events| && events[i].Fill? &&
      v == Validation(events[i].token, events[i].deviceAt, events[i].userAt, events[i].cachedAt)
  }

  ghost predicate Sound(m: Entries<Cached>, events: seq<Event>) {
    forall key :: key in m && m[key].value.Json? ==>
      var v := m[key].value.v;
      && key == CACHE_PREFIX + v.token && Made(events, v)
      && m[key].expiresAt == Some(v.cachedAt + 300_000)
  }

  lemma MadeGrows(events: seq<Event>, e: Event, v: Validation)
    requires Made(events, v)
    ensures Made(events + [e], v)
  {
    var i :| 0 <= i < |events| && events[i].Fill? &&
      v == Validation(events[i].token, events[i].deviceAt, events[i].userAt, events[i].cachedAt);
    assert (events + [e])[i] == events[i];
  }

  lemma SoundGrows(m: Entries<Cached>, events: seq<Event>, e: Event)
    requires Sound(m, events)
    ensures Sound(m, events + [e])
  {
    forall key | key in m && m[key].value.Json? ensures Made(events + [e], m[key].value.v) {
      MadeGrows(events, e, m[key].value.v);
    }
  }

  lemma {:induction false} StoreIsSound(events: seq<Event>)
    ensures Sound(Run(events).mem, events) && (Run(events).disk.Some? ==> Sound(Run(events).disk.value, events))
  {
    if events != [] {
      var n := |events| - 1;
      var before, e := events[..n], events[n];
      var s := Run(before);
      assert events == before + [e];
      StoreIsSound(before);
      SoundGrows(s.mem, before, e);
      if s.disk.Some? {
        SoundGrows(s.disk.value, before, e);
      }
      if e.Fill? {
        assert Made(events, Validation(e.token, e.deviceAt, e.userAt, e.cachedAt)) by { assert events[n] == e; }
      }
    }
  }

  lemma PrefixIsInjective(a: string, b: string)
    requires CACHE_PREFIX + a == CACHE_PREFIX + b
    ensures a == b
  {
    assert (CACHE_PREFIX + a)[|CACHE_PREFIX|..] == a;
    assert (CACHE_PREFIX + b)[|CACHE_PREFIX|..] == b;
  }

  /** The validation on which the cache admits this token. */
  function Served(s: Store<Cached>, token: string, now: int): Option<Validation> {
    var hit := Lookup(s.mem, CACHE_PREFIX + token, now);
    if hit.Some? && hit.value.Json? then Some(hit.value.v) else None
  }

  /** In every run, restarts and failed saves included, a request admitted from the cache at `now` stands on a
      lookup of that very token that found device and user active, and was cached at most 300 s before. (The
      lookups precede the caching, so their own age is larger by the time they took.) */
  lemma AdmittedIsRecentlyValidated(events: seq<Event>, token: string, now: int)
    requires Served(Run(events), token, now).Some?
    ensures var v := Served(Run(events), token, now).value;
            v.token == token && Made(events, v) && now - v.cachedAt <= 300_000
  {
    StoreIsSound(events);
    PrefixIsInjective(Run(events).mem[CACHE_PREFIX + token].value.v.token, token);
  }

  lemma RunAppend(events: seq<Event>, e: Event)
    ensures Run(events + [e]) == Apply(Run(events), e)
  {
    assert (events + [e])[..|events|] == events;
  }

  function FillOf(v: Validation, miss: nat): Event {
    Fill(v.token, v.deviceAt, v.userAt, v.cachedAt, true, miss)
  }

  /** A fill is served for exactly 300 s after the caching. */
  lemma BoundIsReached(events: seq<Event>, v: Validation, miss: nat, now: int)
    ensures Served(Run(events + [FillOf(v, miss)]), v.token, now) == Some(v) <==> now <= v.cachedAt + 300_000
  {
    RunAppend(events, FillOf(v, miss));
  }

  // ---------------------------------------------------------------- revocation and deactivation

  function Time(e: Event): int {
    match e
    case Ask(_, now, _) => now
    case Fill(_, _, _, cachedAt, _, _) => cachedAt
    case Revoke(_, at, _) => at
    case Damage(_, _, at, _) => at
    case Reload(now) => now
    case LoseFile(at) => at
  }

  predicate LooksUpFirst(v: Validation) {
    v.deviceAt <= v.userAt <= v.cachedAt
  }

  ghost predicate Timed(events: seq<Event>, now: int) {
    && (forall i, j :: 0 <= i < j < |events| ==> Time(events[i]) <= Time(events[j]))
    && (forall i :: 0 <= i < |events| ==> Time(events[i]) <= now)
    && (forall i :: 0 <= i < |events| && events[i].Fill? ==> events[i].deviceAt <= events[i].userAt <= events[i].cachedAt)
  }

  /** What is stored for this token was filled in by one of these events. */
  ghost predicate FilledBy(m: Entries<Cached>, token: string, events: seq<Event>) {
    var key := CACHE_PREFIX + token;
    key in m && m[key].value.Json? ==> m[key].value.v.token == token && Made(events, m[key].value.v)
  }

  lemma FilledGrows(m: Entries<Cached>, token: string, events: seq<Event>, e: Event)
    requires FilledBy(m, token, events)
    ensures FilledBy(m, token, events + [e])
  {
    var key := CACHE_PREFIX + token;
    if key in m && m[key].value.Json? {
      MadeGrows(events, e, m[key].value.v);
    }
  }

  /** In memory and, if there is one, in the file. */
  ghost predicate StoreFilledBy(s: Store<Cached>, token: string, events: seq<Event>) {
    FilledBy(s.mem, token, events) && (s.disk.Some? ==> FilledBy(s.disk.value, token, events))
  }

  lemma StepKeepsFilled(s: Store<Cached>, token: string, events: seq<Event>, e: Event)
    requires StoreFilledBy(s, token, events)
    ensures StoreFilledBy(Apply(s, e), token, events + [e])
  {
    FilledGrows(s.mem, token, events, e);
    if s.disk.Some? {
      FilledGrows(s.disk.value, token, events, e);
    }
    if e.Fill? {
      assert Made(events + [e], Validation(e.token, e.deviceAt, e.userAt, e.cachedAt)) by {
        assert (events + [e])[|events|] == e;
      }
      if CACHE_PREFIX + e.token == CACHE_PREFIX + token {
        PrefixIsInjective(e.token, token);
      }
    }
  }

  lemma {:induction false} FilledSince(events: seq<Event>, revoke: Event, later: seq<Event>)
    requires revoke.Revoke? && revoke.saves
    ensures StoreFilledBy(Run(events + [revoke] + later), revoke.token, later)
  {
    if later == [] {
      RunAppend(events, revoke);
      assert events + [revoke] + later == events + [revoke];
    } else {
      var before, e := later[..|later| - 1], later[|later| - 1];
      assert events + [revoke] + later == (events + [revoke] + before) + [e] && later == before + [e];
      RunAppend(events + [revoke] + before, e);
      FilledSince(events, revoke, before);
      StepKeepsFilled(Run(events + [revoke] + before), revoke.token, before, e);
    }
  }

  /** After a revocation that reached the file, whatever restarts and failing saves follow, the cache admits the token
      only on a validation that was cached after it. */
  lemma RevocationHolds(events: seq<Event>, revoke: Event, later: seq<Event>, now: int)
    requires revoke.Revoke? && revoke.saves && Timed(events + [revoke] + later, now)
    requires Served(Run(events + [revoke] + later), revoke.token, now).Some?
    ensures var v := Served(Run(events + [revoke] + later), revoke.token, now).value;
            && v.token == revoke.token && Made(later, v) && LooksUpFirst(v)
            && revoke.at <= v.cachedAt <= now <= v.cachedAt + 300_000
  {
    var all := events + [revoke] + later;
    var v := Served(Run(all), revoke.token, now).value;
    FilledSince(events, revoke, later);
    AdmittedIsRecentlyValidated(all, revoke.token, now);
    var i :| 0 <= i < |later| && later[i].Fill? &&
      v == Validation(later[i].token, later[i].deviceAt, later[i].userAt, later[i].cachedAt);
    assert all[|events|] == revoke && all[|events| + 1 + i] == later[i];
  }

  /** Event i is a request with this token that is not admitted from the cache. */
  ghost predicate IsMiss(events: seq<Event>, i: nat, token: string) {
    && i < |events| && events[i].Ask? && events[i].token == token
    && Served(Run(events[..i]), token, events[i].now).None?
  }

  /** Only a miss looks anything up, once: behind every fill there is one of its own, no later than its first lookup. */
  ghost predicate Backed(events: seq<Event>) {
    && (forall j :: 0 <= j < |events| && events[j].Fill? ==> events[j].miss < j && FillsFrom(events, events[j]))
    && (forall j, k :: 0 <= j < k < |events| && events[j].Fill? && events[k].Fill? ==> events[j].miss != events[k].miss)
  }

  ghost predicate FillsFrom(events: seq<Event>, fill: Event)
    requires fill.Fill?
  {
    IsMiss(events, fill.miss, fill.token) && events[fill.miss].now <= fill.deviceAt
  }

  ghost predicate Unfilled(events: seq<Event>, i: nat) {
    forall j :: 0 <= j < |events| && events[j].Fill? ==> events[j].miss != i
  }

  /** A miss that began no later than `at` has not filled the cache so far. */
  ghost predicate InFlight(events: seq<Event>, token: string, at: int) {
    exists i: nat :: IsMiss(events, i, token) && events[i].now <= at && Unfilled(events, i)
  }

  lemma MissStays(events: seq<Event>, e: Event)
    ensures forall i: nat, token :: IsMiss(events, i, token) ==> IsMiss(events + [e], i, token)
  {
    forall i: nat, token | IsMiss(events, i, token) ensures IsMiss(events + [e], i, token) {
      assert (events + [e])[..i] == events[..i];
    }
  }

  lemma BackedGrows(events: seq<Event>, e: Event)
    requires Backed(events) && (e.Fill? ==> FillsFrom(events, e) && Unfilled(events, e.miss))
    ensures Backed(events + [e])
  {
    MissStays(events, e);
    var all := events + [e];
    forall j | 0 <= j < |all| && all[j].Fill? ensures all[j].miss < j && FillsFrom(all, all[j]) {
      if j < |events| {
        assert all[j] == events[j] && FillsFrom(events, events[j]);
      }
    }
  }

  /** Some continuation of the run ends with the token admitted on v. */
  ghost predicate CanBeServed(events: seq<Event>, v: Validation, now: int) {
    exists later :: Timed(events + later, now) && Backed(events + later)
                    && Served(Run(events + later), v.token, now) == Some(v)
  }

  /** The miss behind a later fill began at r or later, or is still in flight in `events`. */
  lemma MissBehind(events: seq<Event>, revoke: Event, later: seq<Event>, v: Validation, now: int)
    requires revoke.Revoke? && revoke.saves && Timed(events + [revoke] + later, now) && Backed(events + [revoke] + later)
    requires Made(later, v)
    ensures revoke.at <= v.deviceAt || InFlight(events, v.token, v.deviceAt)
  {
    var all := events + [revoke] + later;
    var k :| 0 <= k < |later| && later[k].Fill? &&
      v == Validation(later[k].token, later[k].deviceAt, later[k].userAt, later[k].cachedAt);
    var j := |events| + 1 + k;
    assert all[j] == later[k] && all[|events|] == revoke;
    assert FillsFrom(all, all[j]);
    var i := all[j].miss;
    if i < |events| {
      assert all[..i] == events[..i] && all[i] == events[i];
      assert IsMiss(events, i, v.token);
      assert forall h :: 0 <= h < |events| ==> events[h] == all[h];
      assert Unfilled(events, i);
    } else {
      assert Time(all[|events|]) <= Time(all[i]);
    }
  }

  lemma TimedGrows(events: seq<Event>, t: int, e: Event, now: int)
    requires Timed(events, t) && t <= Time(e) <= now && (e.Fill? ==> e.deviceAt <= e.userAt <= e.cachedAt)
    ensures Timed(events + [e], now)
  {}

  lemma FillAfterRevocation(events: seq<Event>, r: int, v: Validation, now: int)
    requires Timed(events, r) && Backed(events) && LooksUpFirst(v) && InFlight(events, v.token, v.deviceAt)
    requires r <= v.cachedAt <= now <= v.cachedAt + 300_000
    ensures CanBeServed(events + [Revoke(v.token, r, true)], v, now)
  {
    var revoke := Revoke(v.token, r, true);
    var i: nat :| IsMiss(events, i, v.token) && events[i].now <= v.deviceAt && Unfilled(events, i);
    MissStays(events, revoke);
    BackedGrows(events, revoke);
    BackedGrows(events + [revoke], FillOf(v, i));
    TimedGrows(events, r, revoke, r);
    TimedGrows(events + [revoke], r, FillOf(v, i), now);
    BoundIsReached(events + [revoke], v, i, now);
    ServedBy(events + [revoke], [FillOf(v, i)], events + [revoke] + [FillOf(v, i)], v, now);
  }

  lemma RevokedMisses(events: seq<Event>, token: string, r: int, at: int)
    ensures var base := events + [Revoke(token, r, true)];
            IsMiss(base + [Ask(token, at, false)], |base|, token)
  {
    var base, ask := events + [Revoke(token, r, true)], Ask(token, at, false);
    RunAppend(events, Revoke(token, r, true));
    assert (base + [ask])[..|base|] == base;
  }

  lemma MissAfterRevocation(events: seq<Event>, r: int, v: Validation, now: int)
    requires Timed(events, r) && Backed(events) && LooksUpFirst(v) && r <= v.deviceAt
    requires v.cachedAt <= now <= v.cachedAt + 300_000
    ensures CanBeServed(events + [Revoke(v.token, r, true)], v, now)
  {
    var revoke, ask := Revoke(v.token, r, true), Ask(v.token, v.deviceAt, false);
    var base := events + [revoke];
    RevokedMisses(events, v.token, r, v.deviceAt);
    BackedGrows(events, revoke);
    BackedGrows(base, ask);
    var fill := FillOf(v, |base|);
    assert Unfilled(base + [ask], |base|);
    BackedGrows(base + [ask], fill);
    TimedGrows(events, r, revoke, r);
    TimedGrows(base, r, ask, v.deviceAt);
    TimedGrows(base + [ask], v.deviceAt, fill, now);
    BoundIsReached(base + [ask], v, |base|, now);
    ServedBy(base, [ask] + [fill], base + [ask] + [fill], v, now);
  }

  lemma ServedBy(base: seq<Event>, later: seq<Event>, all: seq<Event>, v: Validation, now: int)
    requires all == base + later && Timed(all, now) && Backed(all) && Served(Run(all), v.token, now) == Some(v)
    ensures CanBeServed(base, v, now)
  {}

  /** Exactly which validations the cache can admit on after a saved revocation: those looked up after it, and those
      of a miss that is in flight when it happens, cached after it. */
  lemma AdmittedAfterRevocation(events: seq<Event>, r: int, v: Validation, now: int)
    requires Timed(events, r) && Backed(events) && LooksUpFirst(v)
    ensures CanBeServed(events + [Revoke(v.token, r, true)], v, now)
       <==> (r <= v.deviceAt || InFlight(events, v.token, v.deviceAt))
            && r <= v.cachedAt <= now <= v.cachedAt + 300_000
  {
    var revoke := Revoke(v.token, r, true);
    if later :| Timed(events + [revoke] + later, now) && Backed(events + [revoke] + later)
                && Served(Run(events + [revoke] + later), v.token, now) == Some(v) {
      RevocationHolds(events, revoke, later, now);
      MissBehind(events, revoke, later, v, now);
    }
    if r <= v.cachedAt <= now <= v.cachedAt + 300_000 {
      if r <= v.deviceAt {
        MissAfterRevocation(events, r, v, now);
      } else if InFlight(events, v.token, v.deviceAt) {
        FillAfterRevocation(events, r, v, now);
      }
    }
  }

  /** No lookup of this token's user at r or later finds him active, and no miss takes longer than `await` from that
      lookup to the caching. */
  ghost predicate DeactivatedAt(events: seq<Event>, token: string, r: int, await: nat) {
    forall i :: 0 <= i < |events| && events[i].Fill? && events[i].token == token ==>
      events[i].userAt < r && events[i].cachedAt - events[i].userAt <= await
  }

  ghost predicate CanBeServedThough(token: string, r: int, await: nat, now: int) {
    exists events :: Timed(events, now) && Backed(events) && DeactivatedAt(events, token, r, await)
                     && Served(Run(events), token, now).Some?
  }

  /** A first request, which misses, and its fill. */
  function MissAndFill(v: Validation): seq<Event> {
    [Ask(v.token, v.deviceAt, false)] + [FillOf(v, 0)]
  }

  lemma OneFill(v: Validation, now: int)
    requires LooksUpFirst(v) && v.cachedAt <= now <= v.cachedAt + 300_000
    ensures Timed(MissAndFill(v), now) && Backed(MissAndFill(v)) && Served(Run(MissAndFill(v)), v.token, now) == Some(v)
  {
    var ask := Ask(v.token, v.deviceAt, false);
    assert [ask][..0] == [] && IsMiss([ask], 0, v.token);
    BackedGrows([], ask);
    assert [] + [ask] == [ask];
    BackedGrows([ask], FillOf(v, 0));
    BoundIsReached([ask], v, 0, now);
  }

  lemma ServedMeansBefore(events: seq<Event>, token: string, r: int, await: nat, now: int)
    requires DeactivatedAt(events, token, r, await) && Served(Run(events), token, now).Some?
    ensures now < r + await + 300_000
  {
    AdmittedIsRecentlyValidated(events, token, now);
  }

  lemma BeforeCanBeServed(token: string, r: int, await: nat, now: int)
    requires now < r + await + 300_000
    ensures CanBeServedThough(token, r, await, now)
  {
    var userAt := if now < r then now else r - 1;
    var cachedAt := if now < userAt + await then now else userAt + await;
    OneFill(Validation(token, userAt, userAt, cachedAt), now);
    WitnessServed(MissAndFill(Validation(token, userAt, userAt, cachedAt)), token, r, await, now);
  }

  lemma WitnessServed(events: seq<Event>, token: string, r: int, await: nat, now: int)
    requires Timed(events, now) && Backed(events) && DeactivatedAt(events, token, r, await)
    requires Served(Run(events), token, now).Some?
    ensures CanBeServedThough(token, r, await, now)
  {}

  /** Deactivating a user leaves the cache alone. How long he is still admitted, exactly: 300 s and the time a miss
      takes from its user lookup to the caching. */
  lemma AdmittedAfterDeactivation(token: string, r: int, await: nat, now: int)
    ensures CanBeServedThough(token, r, await, now) <==> now < r + await + 300_000
  {
    if events :| Timed(events, now) && Backed(events) && DeactivatedAt(events, token, r, await)
                 && Served(Run(events), token, now).Some? {
      ServedMeansBefore(events, token, r, await, now);
    }
    if now < r + await + 300_000 {
      BeforeCanBeServed(token, r, await, now);
    }
  }

  // ---------------------------------------------------------------- a deletion that is not saved

  /** Writes nothing to the file: its save fails, or it is a request for an entry that has not expired, or a reload. */
  predicate LeavesFile(s: Store<Cached>, e: Event) {
    match e
    case Ask(token, now, saves) => GetStep(s, CACHE_PREFIX + token, now, saves).disk == s.disk
    case Reload(_) => true
    case LoseFile(_) => false
    case _ => !e.saves
  }

  predicate AllLeaveFile(events: seq<Event>, mid: seq<Event>) {
    mid == []
    || (AllLeaveFile(events, mid[..|mid| - 1]) && LeavesFile(Run(events + mid[..|mid| - 1]), mid[|mid| - 1]))
  }

  lemma LeavingLeaves(s: Store<Cached>, e: Event)
    requires LeavesFile(s, e)
    ensures Apply(s, e).disk == s.disk
  {}

  lemma {:induction false} FileStays(events: seq<Event>, mid: seq<Event>)
    requires AllLeaveFile(events, mid)
    ensures Run(events + mid).disk == Run(events).disk
  {
    if mid == [] {
      assert events + mid == events;
    } else {
      assert events + mid == (events + mid[..|mid| - 1]) + [mid[|mid| - 1]];
      RunAppend(events + mid[..|mid| - 1], mid[|mid| - 1]);
      LeavingLeaves(Run(events + mid[..|mid| - 1]), mid[|mid| - 1]);
      FileStays(events, mid[..|mid| - 1]);
    }
  }

  ghost predicate FileHolds(s: Store<Cached>, v: Validation) {
    && s.disk.Some? && CACHE_PREFIX + v.token in s.disk.value
    && s.disk.value[CACHE_PREFIX + v.token].value == Json(v)
  }

  /** When a revocation whose save fails is undone by a restart, with nothing written to the file in between: exactly
      if the file held the entry, not expiring before the restart is over nor before the request. */
  lemma UnsavedRevocationReturns(events: seq<Event>, r: int, mid: seq<Event>, t: int, v: Validation, now: int)
    requires AllLeaveFile(events + [Revoke(v.token, r, false)], mid)
    ensures Served(Run(events + [Revoke(v.token, r, false)] + mid + [Reload(t)]), v.token, now) == Some(v)
       <==> FileHolds(Run(events), v)
            && t < v.cachedAt + 300_000 && now <= v.cachedAt + 300_000
  {
    var revoked := events + [Revoke(v.token, r, false)];
    RunAppend(events, Revoke(v.token, r, false));
    FileStays(revoked, mid);
    RunAppend(revoked + mid, Reload(t));
    StoreIsSound(events);
  }
}
