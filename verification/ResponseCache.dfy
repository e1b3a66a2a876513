// The client's response cache, src/detail/ResponseCache.hpp. The clock is a parameter, and all
// times and durations count the same ticks.
module ResponseCache {
  import opened Bytes
  import opened JsonValue

  const SEPARATOR: byte := 0x1F
  const MAX_TTL: int := 24 * 60 * 60 * 1000

  datatype Scope = Public | Private

  datatype Entry = Entry(value: JsonValue, expiresAt: int, storedAt: int, lastAccessed: int)

  type Entries = map<bytes, Entry>

  function PrivateKey(context: bytes, key: bytes): bytes {
    context + ([SEPARATOR] + key)
  }

  function Min(a: int, b: int): int {
    if b < a then b else a
  }

  // ---- Steps on cache values ----------------------------------------------------------------------

  // Eviction order: least recently used first, ties by key.
  predicate Before(entries: Entries, a: bytes, b: bytes)
    requires a in entries && b in entries
  {
    || entries[a].lastAccessed < entries[b].lastAccessed
    || (entries[a].lastAccessed == entries[b].lastAccessed && KeyLess(a, b))
  }

  predicate IsVictim(entries: Entries, victim: bytes) {
    victim in entries && forall k :: k in entries && k != victim ==> Before(entries, victim, k)
  }

  lemma BeforeIsTotal(entries: Entries, a: bytes, b: bytes)
    requires a in entries && b in entries
    ensures a == b || Before(entries, a, b) || Before(entries, b, a)
    ensures !Before(entries, a, a)
  {
    KeyLessTotal(a, b);
    KeyLessIrreflexive(a);
  }

  lemma BeforeIsTransitive(entries: Entries, a: bytes, b: bytes, c: bytes)
    requires a in entries && b in entries && c in entries && Before(entries, a, b) && Before(entries, b, c)
    ensures Before(entries, a, c)
  {
    if KeyLess(a, b) && KeyLess(b, c) { KeyLessTransitive(a, b, c); }
  }

  // EvictLocked
  ghost function Evicted(entries: Entries, capacity: nat): Entries
    decreases |entries|
  {
    if |entries| <= capacity || !exists victim :: IsVictim(entries, victim) then entries
    else
      var victim :| IsVictim(entries, victim);
      Evicted(entries - {victim}, capacity)
  }

  predicate Stale(e: Entry, maxAge: Option<int>, now: int) {
    now >= e.expiresAt || (maxAge.Some? && now - e.storedAt > maxAge.value)
  }

  // Lookup: a stale entry is erased, a good one touched.
  function LookedUp(entries: Entries, key: bytes, maxAge: Option<int>, now: int): (Entries, Option<JsonValue>) {
    if key !in entries then (entries, None)
    else if Stale(entries[key], maxAge, now) then (entries - {key}, None)
    else (entries[key := entries[key].(lastAccessed := now)], Some(entries[key].value))
  }

  ghost function Stored(entries: Entries, capacity: nat, key: bytes, value: JsonValue, ttl: int, now: int): Entries {
    Evicted(entries[key := Entry(value, now + Min(ttl, MAX_TTL), now, now)], capacity)
  }

  datatype Cache = Cache(public: Entries, private: Entries)

  function Got(c: Cache, key: bytes, maxAge: Option<int>, context: bytes, now: int): (Cache, Option<JsonValue>) {
    var (public, found) := LookedUp(c.public, key, maxAge, now);
    if found.Some? then (Cache(public, c.private), found)
    else
      var (private, other) := LookedUp(c.private, PrivateKey(context, key), maxAge, now);
      (Cache(public, private), other)
  }

  function WithoutSuffix(entries: Entries, suffix: bytes): Entries {
    map k | k in entries && !EndsWith(k, suffix) :: entries[k]
  }

  function WithoutPrefix(entries: Entries, prefix: bytes): Entries {
    map k | k in entries && !StartsWith(k, prefix) :: entries[k]
  }

  datatype Op =
    | Store(key: bytes, scope: Scope, value: JsonValue, ttl: int, context: bytes, now: int)
    | Get(key: bytes, maxAge: Option<int>, context: bytes, now: int)
    | Invalidate(key: bytes)
    | Clear
    | ClearPrivate
    | ClearContext(context: bytes)

  ghost function Step(c: Cache, capacity: nat, op: Op): Cache {
    match op
    case Store(key, Public, value, ttl, _, now) => Cache(Stored(c.public, capacity, key, value, ttl, now), c.private)
    case Store(key, Private, value, ttl, context, now) =>
      Cache(c.public, Stored(c.private, capacity, PrivateKey(context, key), value, ttl, now))
    case Get(key, maxAge, context, now) => Got(c, key, maxAge, context, now).0
    case Invalidate(key) => Cache(c.public - {key}, WithoutSuffix(c.private, PrivateKey([], key)))
    case Clear => Cache(map[], map[])
    case ClearPrivate => Cache(c.public, map[])
    case ClearContext(context) => Cache(c.public, WithoutPrefix(c.private, PrivateKey(context, [])))
  }

  // ---- Eviction -----------------------------------------------------------------------------------

  lemma {:induction false} VictimExists(entries: Entries, keys: set<bytes>) returns (victim: bytes)
    requires keys != {} && keys <= entries.Keys
    ensures victim in keys && forall k :: k in keys && k != victim ==> Before(entries, victim, k)
    decreases |keys|
  {
    hide Before;
    victim :| victim in keys;
    if keys != {victim} {
      var best := VictimExists(entries, keys - {victim});
      BeforeIsTotal(entries, victim, best);
      if Before(entries, best, victim) {
        victim := best;
      } else {
        forall k | k in keys && k != victim && k != best ensures Before(entries, victim, k) {
          BeforeIsTransitive(entries, victim, best, k);
        }
      }
    }
  }

  lemma VictimIsUnique(entries: Entries, a: bytes, b: bytes)
    requires IsVictim(entries, a) && IsVictim(entries, b)
    ensures a == b
  {
    hide Before;
    if a != b {
      assert Before(entries, a, b) && Before(entries, b, a);
      BeforeIsTransitive(entries, a, b, a);
      BeforeIsTotal(entries, a, a);
    }
  }

  lemma EvictedStep(entries: Entries, capacity: nat, victim: bytes)
    requires |entries| > capacity && IsVictim(entries, victim)
    ensures Evicted(entries, capacity) == Evicted(entries - {victim}, capacity)
  {
    hide IsVictim;
    forall v | IsVictim(entries, v) ensures v == victim { VictimIsUnique(entries, v, victim); }
  }

  // Eviction drops the least recently used entries, no more than needed, and changes no other.
  lemma {:induction false} EvictedLaws(entries: Entries, capacity: nat)
    ensures var kept := Evicted(entries, capacity);
            && kept.Keys <= entries.Keys && (forall k :: k in kept ==> kept[k] == entries[k])
            && |kept| == (if |entries| <= capacity then |entries| else capacity)
            && (forall k, d :: k in kept && d in entries && d !in kept ==> Before(entries, d, k))
    decreases |entries|
  {
    hide Before;
    if |entries| > capacity {
      var victim := VictimExists(entries, entries.Keys);
      EvictedStep(entries, capacity, victim);
      var rest := entries - {victim};
      assert rest.Keys == entries.Keys - {victim} && |rest| == |rest.Keys| && |entries| == |entries.Keys|;
      EvictedLaws(rest, capacity);
      forall k, d | k in rest && d in rest ensures Before(rest, d, k) == Before(entries, d, k) {
        SameBefore(entries, rest, d, k);
      }
    }
  }

  lemma SameBefore(entries: Entries, rest: Entries, a: bytes, b: bytes)
    requires a in entries && b in entries && a in rest && b in rest && rest[a] == entries[a] && rest[b] == entries[b]
    ensures Before(rest, a, b) == Before(entries, a, b)
  {
  }

  // A store survives its own eviction exactly when there is room, or another entry goes first.
  lemma StoreSurvives(entries: Entries, capacity: nat, key: bytes, value: JsonValue, ttl: int, now: int)
    requires |entries| <= capacity
    ensures var all := entries[key := Entry(value, now + Min(ttl, MAX_TTL), now, now)];
            key in Stored(entries, capacity, key, value, ttl, now) <==>
            |all| <= capacity || exists k :: k in entries && k != key && Before(all, k, key)
  {
    hide Before;
    var all := entries[key := Entry(value, now + Min(ttl, MAX_TTL), now, now)];
    if |all| > capacity {
      var victim := VictimExists(all, all.Keys);
      EvictedStep(all, capacity, victim);
      assert all.Keys <= entries.Keys + {key} && |entries.Keys| == |entries| && |all.Keys| == |all|;
      GrowsByOne(entries, key, all);
      assert |(all - {victim}).Keys| == |all.Keys - {victim}|;
      if victim == key {
        forall k | k in entries && k != key ensures !Before(all, k, key) {
          assert Before(all, key, k);
          if Before(all, k, key) { BeforeIsTransitive(all, k, key, k); BeforeIsTotal(all, k, k); }
        }
      }
    }
  }

  lemma GrowsByOne(entries: Entries, key: bytes, all: Entries)
    requires all.Keys == entries.Keys + {key}
    ensures |all| <= |entries| + 1
  {
    assert |entries| == |entries.Keys| && |all| == |all.Keys|;
    if key in entries { assert all.Keys == entries.Keys; }
  }

  // A hit makes an entry recent: it is evicted next only if every entry was used at that very time.
  lemma HitIsRecent(entries: Entries, key: bytes, maxAge: Option<int>, now: int, victim: bytes)
    requires forall k :: k in entries ==> entries[k].lastAccessed <= now
    requires LookedUp(entries, key, maxAge, now).1.Some? && IsVictim(LookedUp(entries, key, maxAge, now).0, victim)
    ensures victim == key ==> forall k :: k in entries && k != key ==> entries[k].lastAccessed == now && KeyLess(key, k)
  {
    var after := LookedUp(entries, key, maxAge, now).0;
    forall k | victim == key && k in entries && k != key ensures entries[k].lastAccessed == now && KeyLess(key, k) {
      assert Before(after, key, k) && after[k] == entries[k];
    }
  }

  // ---- The mutable cache --------------------------------------------------------------------------

  class ClientCache {
    const capacity: nat
    var public: Entries
    var private: Entries

    constructor (capacity: nat)
      ensures this.capacity == capacity && Contents() == Cache(map[], map[])
    {
      this.capacity := capacity;
      public, private := map[], map[];
    }

    ghost function Contents(): Cache
      reads this
    {
      Cache(public, private)
    }

    static method EvictLocked(entries: Entries, capacity: nat) returns (kept: Entries)
      ensures kept == Evicted(entries, capacity)
    {
      hide Evicted, IsVictim;
      kept := entries;
      while |kept| > capacity
        invariant Evicted(kept, capacity) == Evicted(entries, capacity)
        decreases |kept|
      {
        var victim := FindVictim(kept);
        EvictedStep(kept, capacity, victim);
        assert (kept - {victim}).Keys == kept.Keys - {victim} && |kept.Keys| == |kept|
               && victim in kept by { VictimIsThere(kept, victim); }
        kept := kept - {victim};
      }
      SmallIsKept(kept, capacity);
    }

    // One pass over the map. The source walks in key order with a strict comparison of the access
    // times; taking the lesser key of a tie gives the same entry for every order of the walk.
    static method FindVictim(entries: Entries) returns (victim: bytes)
      requires |entries| > 0
      ensures IsVictim(entries, victim)
    {
      hide Before;
      assert entries.Keys != {} by { assert |entries.Keys| == |entries|; }
      victim :| victim in entries.Keys;
      var left := entries.Keys - {victim};
      while left != {}
        invariant left <= entries.Keys && victim in entries && victim !in left
        invariant forall k :: k in entries && k !in left && k != victim ==> Before(entries, victim, k)
        decreases left
      {
        var candidate :| candidate in left;
        left := left - {candidate};
        BeforeIsTotal(entries, victim, candidate);
        if Before(entries, candidate, victim) {
          forall k | k in entries && k !in left && k != candidate && k != victim ensures Before(entries, candidate, k) {
            BeforeIsTransitive(entries, candidate, victim, k);
          }
          victim := candidate;
        }
      }
    }

    method StoreEntry(key: bytes, scope: Scope, value: JsonValue, ttl: int, context: bytes, now: int)
      modifies this
      ensures Contents() == Step(old(Contents()), capacity, Store(key, scope, value, ttl, context, now))
    {
      hide Evicted;
      var entry := Entry(value, now + Min(ttl, MAX_TTL), now, now);
      if scope == Public {
        public := EvictLocked(public[key := entry], capacity);
      } else {
        private := EvictLocked(private[PrivateKey(context, key) := entry], capacity);
      }
    }

    method GetAny(key: bytes, maxAge: Option<int>, context: bytes, now: int) returns (value: Option<JsonValue>)
      modifies this
      ensures value == Got(old(Contents()), key, maxAge, context, now).1
      ensures Contents() == Step(old(Contents()), capacity, Get(key, maxAge, context, now))
    {
      public, value := Lookup(public, key, maxAge, now);
      if value.Some? { return; }
      private, value := Lookup(private, PrivateKey(context, key), maxAge, now);
    }

    static method Lookup(entries: Entries, key: bytes, maxAge: Option<int>, now: int)
      returns (after: Entries, value: Option<JsonValue>)
      ensures (after, value) == LookedUp(entries, key, maxAge, now)
    {
      if key !in entries { return entries, None; }
      var entry := entries[key];
      if now >= entry.expiresAt || (maxAge.Some? && now - entry.storedAt > maxAge.value) {
        return entries - {key}, None;
      }
      return entries[key := entry.(lastAccessed := now)], Some(entry.value);
    }

    method InvalidateKey(key: bytes)
      modifies this
      ensures Contents() == Step(old(Contents()), capacity, Invalidate(key))
    {
      public := public - {key};
      var suffix := PrivateKey([], key);
      var left := private.Keys;
      while left != {}
        invariant public == old(public) - {key} && left <= private.Keys <= old(private).Keys
        invariant forall k :: k in private ==> private[k] == old(private)[k]
        invariant forall k :: k in old(private) && k !in left ==> (k in private <==> !EndsWith(k, suffix))
        decreases left
      {
        var k :| k in left;
        left := left - {k};
        if EndsWith(k, suffix) { private := private - {k}; }
      }
    }

    method ClearAll()
      modifies this
      ensures Contents() == Step(old(Contents()), capacity, Clear)
    {
      public, private := map[], map[];
    }

    method ClearAllPrivate()
      modifies this
      ensures Contents() == Step(old(Contents()), capacity, ClearPrivate)
    {
      private := map[];
    }

    method ClearPrivateOf(context: bytes)
      modifies this
      ensures Contents() == Step(old(Contents()), capacity, ClearContext(context))
    {
      var prefix := PrivateKey(context, []);
      var left := private.Keys;
      while left != {}
        invariant public == old(public) && left <= private.Keys <= old(private).Keys
        invariant forall k :: k in private ==> private[k] == old(private)[k]
        invariant forall k :: k in old(private) && k !in left ==> (k in private <==> !StartsWith(k, prefix))
        decreases left
      {
        var k :| k in left;
        left := left - {k};
        if StartsWith(k, prefix) { private := private - {k}; }
      }
    }
  }

  lemma VictimIsThere(entries: Entries, victim: bytes)
    requires IsVictim(entries, victim)
    ensures victim in entries
  {
  }

  lemma SmallIsKept(entries: Entries, capacity: nat)
    requires |entries| <= capacity
    ensures Evicted(entries, capacity) == entries
  {
  }
}
