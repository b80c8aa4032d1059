/**
 * The file-backed fallback of RedisService (apps/api/src/infrastructure/redis/redis.service.ts),
 * used when REDIS_URL is not set. Times are milliseconds of Date.now(), taken to advance.
 */
module TtlStore {
  import opened Events

  /** expiresAt None: the entry does not expire. */
  datatype Entry<V> = Entry(value: V, expiresAt: Option<int>)

  type Entries<V> = map<string, Entry<V>>

  /** mem, and what the store file holds (None: no file, or one that does not parse). */
  datatype Store<V> = Store(mem: Entries<V>, disk: Option<Entries<V>>)

  predicate Expired<V>(e: Entry<V>, now: int) {
    e.expiresAt.Some? && now > e.expiresAt.value
  }

  /** A missing or zero TTL means no expiry. */
  function NewEntry<V>(value: V, ttlSeconds: int, now: int): Entry<V> {
    Entry(value, if ttlSeconds == 0 then None else Some(now + ttlSeconds * 1000))
  }

  function Lookup<V>(m: Entries<V>, key: string, now: int): Option<V> {
    if key in m && !Expired(m[key], now) then Some(m[key].value) else None
  }

  function Saved<V>(s: Store<V>, mem: Entries<V>, saves: bool): Store<V> {
    Store(mem, if saves then Some(mem) else s.disk)
  }

  function GetStep<V>(s: Store<V>, key: string, now: int, saves: bool): Store<V> {
    if key in s.mem && Expired(s.mem[key], now) then Saved(s, s.mem - {key}, saves) else s
  }

  /** loadFromDisk drops entries that expire at this very instant, which get would still serve. */
  function Loaded<V>(entries: Entries<V>, now: int): Entries<V> {
    map k | k in entries && (entries[k].expiresAt.None? || entries[k].expiresAt.value > now) :: entries[k]
  }

  function Restarted<V>(s: Store<V>, now: int): Store<V> {
    s.(mem := if s.disk.Some? then Loaded(s.disk.value, now) else map[])
  }

  class RedisService<V(==)> {
    var mem: Entries<V>
    var disk: Option<Entries<V>>

    ghost function View(): Store<V> reads this { Store(mem, disk) }

    /** onModuleInit: a new process reads the file the last one left. */
    constructor (file: Option<Entries<V>>, now: int)
      ensures View() == Restarted(Store(map[], file), now)
    {
      disk := file;
      mem := map[];
      new;
      LoadFromDisk(now);
    }

    method LoadFromDisk(now: int)
      requires mem == map[]
      modifies this`mem
      ensures View() == Restarted(old(View()), now)
    {
      if disk.None? {
        return;
      }
      var entries := disk.value;
      var left := entries.Keys;
      while left != {}
        invariant left <= entries.Keys && disk == Some(entries)
        invariant mem == Loaded(entries - left, now)
        decreases left
      {
        var k :| k in left;
        var v := entries[k];
        if v.expiresAt.None? || v.expiresAt.value > now {
          mem := mem[k := v];
        }
        left := left - {k};
      }
      assert entries - {} == entries;
    }

    method Set(key: string, value: V, ttlSeconds: int, now: int, saves: bool)
      modifies this
      ensures View() == Saved(old(View()), old(mem)[key := NewEntry(value, ttlSeconds, now)], saves)
    {
      mem := mem[key := Entry(value, if ttlSeconds != 0 then Some(now + ttlSeconds * 1000) else None)];
      SaveToDisk(saves);
    }

    method Get(key: string, now: int, saves: bool) returns (value: Option<V>)
      modifies this
      ensures value == Lookup(old(mem), key, now) && View() == GetStep(old(View()), key, now, saves)
      ensures value.Some? <==> key in mem
      ensures key in old(mem) && key !in mem && saves ==> disk == Some(mem)
    {
      if key !in mem {
        return None;
      }
      var entry := mem[key];
      if entry.expiresAt != None && now > entry.expiresAt.value {
        mem := mem - {key};
        SaveToDisk(saves);
        return None;
      }
      return Some(entry.value);
    }

    method Del(key: string, saves: bool)
      modifies this
      ensures View() == Saved(old(View()), old(mem) - {key}, saves)
    {
      mem := mem - {key};
      SaveToDisk(saves);
    }

    method SaveToDisk(saves: bool)
      modifies this`disk
      ensures disk == if saves then Some(mem) else old(disk)
    {
      if saves {
        disk := Some(mem);
      }
    }
  }

  // ---------------------------------------------------------------- against an ideal TTL map

  datatype Op<V> =
    | Set(key: string, value: V, ttlSeconds: int)
    | Get(key: string)
    | Del(key: string)
    | Restart

  /** An operation and when it happens. */
  datatype Timed<V> = Timed(op: Op<V>, now: int)

  function Step<V>(s: Store<V>, t: Timed<V>): Store<V> {
    match t.op
    case Set(key, value, ttl) => Saved(s, s.mem[key := NewEntry(value, ttl, t.now)], true)
    case Get(key) => GetStep(s, key, t.now, true)
    case Del(key) => Saved(s, s.mem - {key}, true)
    case Restart => Restarted(s, t.now)
  }

  /** The ideal map never forgets by itself and does not notice restarts. */
  function IdealStep<V>(m: Entries<V>, t: Timed<V>): Entries<V> {
    match t.op
    case Set(key, value, ttl) => m[key := NewEntry(value, ttl, t.now)]
    case Get(_) => m
    case Del(key) => m - {key}
    case Restart => m
  }

  function Run<V>(ops: seq<Timed<V>>): Store<V> {
    if ops == [] then Store(map[], None) else Step(Run(ops[..|ops| - 1]), ops[|ops| - 1])
  }

  function Ideal<V>(ops: seq<Timed<V>>): Entries<V> {
    if ops == [] then map[] else IdealStep(Ideal(ops[..|ops| - 1]), ops[|ops| - 1])
  }

  ghost predicate InTimeOrder<V>(ops: seq<Timed<V>>) {
    forall i, j :: 0 <= i < j < |ops| ==> ops[i].now <= ops[j].now
  }

  ghost predicate NotAfter<V>(ops: seq<Timed<V>>, now: int) {
    forall i :: 0 <= i < |ops| ==> ops[i].now <= now
  }

  /** Some restart happened at exactly this time. */
  ghost predicate RestartedAt<V>(ops: seq<Timed<V>>, now: int) {
    exists i :: 0 <= i < |ops| && ops[i].op.Restart? && ops[i].now == now
  }

  /** `m` has nothing the ideal map does not have, and everything that has not expired by `now`,
      except that a restart at its last instant may have dropped an entry early. */
  ghost predicate Agrees<V>(m: Entries<V>, ideal: Entries<V>, ops: seq<Timed<V>>, now: int) {
    && (forall k :: k in m ==> k in ideal && ideal[k] == m[k])
    && (forall k :: k in ideal && k !in m ==>
          ideal[k].expiresAt.Some?
          && (ideal[k].expiresAt.value < now
              || (ideal[k].expiresAt.value == now && RestartedAt(ops, now))))
  }

  lemma AgreesLater<V>(m: Entries<V>, ideal: Entries<V>, ops: seq<Timed<V>>, t: Timed<V>, now: int)
    requires Agrees(m, ideal, ops, now) && now <= t.now
    ensures Agrees(m, ideal, ops + [t], t.now)
  {
    if RestartedAt(ops, now) {
      var i :| 0 <= i < |ops| && ops[i].op.Restart? && ops[i].now == now;
      assert (ops + [t])[i] == ops[i];
    }
  }

  lemma StepAgrees<V>(s: Store<V>, ideal: Entries<V>, ops: seq<Timed<V>>, t: Timed<V>, now: int)
    requires Agrees(s.mem, ideal, ops, now) && now <= t.now
    requires if s.disk.None? then s.mem == map[] && ideal == map[] else Agrees(s.disk.value, ideal, ops, now)
    ensures var s', ideal' := Step(s, t), IdealStep(ideal, t);
            && Agrees(s'.mem, ideal', ops + [t], t.now)
            && (if s'.disk.None? then s'.mem == map[] && ideal' == map[] else Agrees(s'.disk.value, ideal', ops + [t], t.now))
  {
    AgreesLater(s.mem, ideal, ops, t, now);
    if s.disk.Some? {
      AgreesLater(s.disk.value, ideal, ops, t, now);
    }
    if t.op.Restart? {
      assert (ops + [t])[|ops|] == t;
      assert RestartedAt(ops + [t], t.now);
    }
  }

  lemma {:induction false} StoreAgreesWithIdeal<V>(ops: seq<Timed<V>>, now: int)
    requires InTimeOrder(ops) && NotAfter(ops, now)
    ensures Agrees(Run(ops).mem, Ideal(ops), ops, now)
    ensures if Run(ops).disk.None? then Run(ops).mem == map[] && Ideal(ops) == map[]
            else Agrees(Run(ops).disk.value, Ideal(ops), ops, now)
  {
    if ops != [] {
      var n := |ops| - 1;
      var before, t := ops[..n], ops[n];
      assert ops == before + [t];
      StoreAgreesWithIdeal(before, t.now);
      StepAgrees(Run(before), Ideal(before), before, t, t.now);
      AgreesAtLaterTime(Run(ops).mem, Ideal(ops), ops, t.now, now);
      if Run(ops).disk.Some? {
        AgreesAtLaterTime(Run(ops).disk.value, Ideal(ops), ops, t.now, now);
      }
    }
  }

  lemma AgreesAtLaterTime<V>(m: Entries<V>, ideal: Entries<V>, ops: seq<Timed<V>>, now: int, later: int)
    requires Agrees(m, ideal, ops, now) && now <= later
    ensures Agrees(m, ideal, ops, later)
  {}

  /** At an instant in which a restart happened, nothing in memory expires. */
  ghost predicate RestartCleared<V>(m: Entries<V>, ops: seq<Timed<V>>, now: int) {
    RestartedAt(ops, now) ==> forall k :: k in m ==> m[k].expiresAt != Some(now)
  }

  lemma {:induction false} RestartsClear<V>(ops: seq<Timed<V>>, now: int)
    requires InTimeOrder(ops) && NotAfter(ops, now)
    ensures RestartCleared(Run(ops).mem, ops, now)
  {
    if RestartedAt(ops, now) {
      var i :| 0 <= i < |ops| && ops[i].op.Restart? && ops[i].now == now;
      var n := |ops| - 1;
      assert ops[i].now <= ops[n].now;
      if i < n {
        assert ops[..n][i] == ops[i];
      }
      RestartsClear(ops[..n], now);
    }
  }

  /** `get` answers as the ideal TTL map does, across restarts, with exactly one exception: an entry asked for
      at its very expiry instant, after a restart in that same instant, is missing. */
  lemma StoreIsIdeal<V>(ops: seq<Timed<V>>, key: string, now: int)
    requires InTimeOrder(ops) && NotAfter(ops, now)
    ensures var answer, ideal := Lookup(Run(ops).mem, key, now), Lookup(Ideal(ops), key, now);
            && (answer != ideal <==> RestartedAt(ops, now) && key in Ideal(ops) && Ideal(ops)[key].expiresAt == Some(now))
            && (answer != ideal ==> answer == None && ideal.Some?)
  {
    StoreAgreesWithIdeal(ops, now);
    RestartsClear(ops, now);
  }

  // ---------------------------------------------------------------- in terms of the calls alone

  predicate Writes<V>(op: Op<V>, key: string) {
    (op.Set? || op.Del?) && op.key == key
  }

  ghost predicate LastWrite<V>(ops: seq<Timed<V>>, key: string, i: nat) {
    i < |ops| && Writes(ops[i].op, key) && forall j :: i < j < |ops| ==> !Writes(ops[j].op, key)
  }

  /** The last call that wrote `key` is number i, a `set`. */
  ghost predicate LastSet<V>(ops: seq<Timed<V>>, key: string, i: nat) {
    LastWrite(ops, key, i) && ops[i].op.Set?
  }

  lemma {:induction false} IdealIsLastSet<V>(ops: seq<Timed<V>>, key: string)
    ensures key in Ideal(ops) <==> exists i: nat :: LastSet(ops, key, i)
    ensures forall i: nat :: LastSet(ops, key, i) ==>
              key in Ideal(ops) && Ideal(ops)[key] == NewEntry(ops[i].op.value, ops[i].op.ttlSeconds, ops[i].now)
  {
    if ops != [] {
      var n := |ops| - 1;
      IdealIsLastSet(ops[..n], key);
      assert LastWrite(ops, key, n) <==> Writes(ops[n].op, key);
      forall i: nat | i < n ensures LastWrite(ops, key, i) <==> LastWrite(ops[..n], key, i) && !Writes(ops[n].op, key) {
        assert forall j :: i < j < n ==> ops[..n][j] == ops[j];
        if LastWrite(ops, key, i) {
          assert forall j :: i < j < n ==> !Writes(ops[..n][j].op, key);
        }
      }
      if Writes(ops[n].op, key) {
        assert ops[n].op.Set? ==> LastSet(ops, key, n);
      } else if key in Ideal(ops[..n]) {
        var i: nat :| LastSet(ops[..n], key, i);
        assert LastSet(ops, key, i);
      }
    }
  }

  /** A zero TTL never ends. Otherwise the entry lives that many seconds, the last instant included unless a restart
      happens in it. */
  ghost predicate Lives<V>(ops: seq<Timed<V>>, i: nat, now: int)
    requires i < |ops| && ops[i].op.Set?
  {
    var end := ops[i].now + ops[i].op.ttlSeconds * 1000;
    ops[i].op.ttlSeconds == 0 || now < end || (now == end && !RestartedAt(ops, now))
  }

  /** In every run with restarts `get` returns the value of the last `set` of the key, if no `del` came after it and it
      still lives; and nothing otherwise. */
  lemma GetReturnsLastSet<V>(ops: seq<Timed<V>>, key: string, now: int, value: V)
    requires InTimeOrder(ops) && NotAfter(ops, now)
    ensures Lookup(Run(ops).mem, key, now) == Some(value)
       <==> exists i: nat :: LastSet(ops, key, i) && ops[i].op.value == value && Lives(ops, i, now)
  {
    StoreIsIdeal(ops, key, now);
    IdealIsLastSet(ops, key);
    if key in Ideal(ops) {
      var i: nat :| LastSet(ops, key, i);
    }
  }
}
