// Whole runs of the response cache: what a hit can be, in terms of the operations before it.
module CacheRuns {
  import opened Bytes
  import opened JsonValue
  import opened ResponseCache

  // ---- The history of a key -----------------------------------------------------------------------

  datatype Deposit = Deposit(value: JsonValue, at: int, ttl: int)

  predicate Fresh(d: Deposit, maxAge: Option<int>, now: int) {
    now < d.at + Min(d.ttl, MAX_TTL) && (maxAge.Some? ==> now - d.at <= maxAge.value)
  }

  // Forgetting by a lookup that finds the deposit too old.
  function Checked(d: Option<Deposit>, maxAge: Option<int>, now: int): Option<Deposit> {
    if d.Some? && !Fresh(d.value, maxAge, now) then None else d
  }

  function PublicAfter(before: Option<Deposit>, op: Op, key: bytes): Option<Deposit> {
    match op
    case Store(k, Public, value, ttl, _, now) => if k == key then Some(Deposit(value, now, ttl)) else before
    case Get(k, maxAge, _, now) => if k == key then Checked(before, maxAge, now) else before
    case Invalidate(k) => if k == key then None else before
    case Clear => None
    case _ => before
  }

  // The latest public store of a key, unless something later covers it.
  function LatestPublic(ops: seq<Op>, key: bytes): Option<Deposit> {
    if ops == [] then None else PublicAfter(LatestPublic(ops[..|ops| - 1], key), ops[|ops| - 1], key)
  }

  // An invalidated key also covers the private keys that end in it, behind a separator.
  predicate Covers(invalidated: bytes, key: bytes) {
    key == invalidated || EndsWith(key, PrivateKey([], invalidated))
  }

  // `shared`: what the public partition has under the key; a lookup that finds it fresh stops there.
  function PrivateAfter(before: Option<Deposit>, shared: Option<Deposit>, op: Op, context: bytes,
                        key: bytes): Option<Deposit> {
    match op
    case Store(k, Private, value, ttl, c, now) => if k == key && c == context then Some(Deposit(value, now, ttl))
      else before
    case Get(k, maxAge, c, now) =>
      if k == key && c == context && Checked(shared, maxAge, now).None? then Checked(before, maxAge, now) else before
    case Invalidate(k) => if Covers(k, key) then None else before
    case Clear => None
    case ClearPrivate => None
    case ClearContext(c) => if c == context then None else before
    case _ => before
  }

  // The same for the private store of one auth context.
  function LatestPrivate(ops: seq<Op>, context: bytes, key: bytes): Option<Deposit> {
    if ops == [] then None
    else
      var before := ops[..|ops| - 1];
      PrivateAfter(LatestPrivate(before, context, key), LatestPublic(before, key), ops[|ops| - 1], context, key)
  }

  predicate SeparatorFree(context: bytes) {
    forall i :: 0 <= i < |context| ==> context[i] != SEPARATOR
  }

  predicate SeparatorFreeOp(op: Op) {
    match op
    case Store(_, Private, _, _, context, _) => SeparatorFree(context)
    case Get(_, _, context, _) => SeparatorFree(context)
    case ClearContext(context) => SeparatorFree(context)
    case _ => true
  }

  predicate SeparatorFreeOps(ops: seq<Op>) {
    forall op :: op in ops ==> SeparatorFreeOp(op)
  }

  ghost function Run(ops: seq<Op>, capacity: nat): Cache {
    if ops == [] then Cache(map[], map[]) else Step(Run(ops[..|ops| - 1], capacity), capacity, ops[|ops| - 1])
  }

  // ---- Keys of the private partition --------------------------------------------------------------

  lemma FirstSeparator(context: bytes, key: bytes)
    requires SeparatorFree(context)
    ensures FindByte(PrivateKey(context, key), 0, SEPARATOR) == |context|
    ensures PrivateKey(context, key)[..|context|] == context && PrivateKey(context, key)[|context| + 1..] == key
  {
    FindByteAt(PrivateKey(context, key), 0, SEPARATOR, |context|);
  }

  lemma PrivateKeyInjective(c: bytes, k: bytes, c': bytes, k': bytes)
    requires SeparatorFree(c) && SeparatorFree(c')
    ensures PrivateKey(c, k) == PrivateKey(c', k') <==> c == c' && k == k'
  {
    FirstSeparator(c, k);
    FirstSeparator(c', k');
  }

  // Without separators in the contexts, a context's prefix finds its keys and no others.
  lemma PrefixIsExact(c: bytes, context: bytes, key: bytes)
    requires SeparatorFree(c) && SeparatorFree(context)
    ensures StartsWith(PrivateKey(context, key), PrivateKey(c, [])) <==> c == context
  {
    var stored, prefix := PrivateKey(context, key), PrivateKey(c, []);
    if StartsWith(stored, prefix) {
      assert stored == prefix + stored[|prefix|..] == PrivateKey(c, stored[|prefix|..]);
      PrivateKeyInjective(c, stored[|prefix|..], context, key);
    }
    if c == context { assert stored == prefix + key; }
  }

  lemma SuffixCovers(invalidated: bytes, context: bytes, key: bytes)
    requires SeparatorFree(context)
    ensures EndsWith(PrivateKey(context, key), PrivateKey([], invalidated)) <==> Covers(invalidated, key)
  {
    var stored, suffix := PrivateKey(context, key), PrivateKey([], invalidated);
    assert suffix == [SEPARATOR] + invalidated;
    var d := |stored| - |suffix|;
    if |suffix| <= |key| {
      assert stored[d..] == key[|key| - |suffix|..];
    } else if |suffix| == |key| + 1 {
      assert stored[d..] == [SEPARATOR] + key;
      assert key == ([SEPARATOR] + key)[1..] && invalidated == suffix[1..];
    } else if d >= 0 {
      assert stored[d..][0] == stored[d] == context[d] && suffix[0] == SEPARATOR;
    }
  }

  // ---- Every entry is its key's latest deposit ------------------------------------------------------

  predicate Matches(e: Entry, d: Option<Deposit>) {
    d.Some? && e.value == d.value.value && e.storedAt == d.value.at
      && e.expiresAt == d.value.at + Min(d.value.ttl, MAX_TTL)
  }

  lemma MatchesFreshness(e: Entry, d: Option<Deposit>, maxAge: Option<int>, now: int)
    requires Matches(e, d)
    ensures Stale(e, maxAge, now) <==> Checked(d, maxAge, now).None?
  {
  }

  ghost predicate PublicMatches(c: Cache, ops: seq<Op>) {
    forall k :: k in c.public ==> Matches(c.public[k], LatestPublic(ops, k))
  }

  ghost predicate PrivateMatches(c: Cache, ops: seq<Op>) {
    forall context, key :: SeparatorFree(context) && PrivateKey(context, key) in c.private ==>
      Matches(c.private[PrivateKey(context, key)], LatestPrivate(ops, context, key))
  }

  lemma LatestPublicMore(ops: seq<Op>, op: Op, key: bytes)
    ensures LatestPublic(ops + [op], key) == PublicAfter(LatestPublic(ops, key), op, key)
  {
    assert (ops + [op])[..|ops|] == ops;
  }

  lemma PublicStepMatches(c: Cache, capacity: nat, ops: seq<Op>, op: Op)
    requires PublicMatches(c, ops)
    ensures PublicMatches(Step(c, capacity, op), ops + [op])
  {
    hide LatestPublic, Evicted, KeyLess, Fresh, Stale;
    var c' := Step(c, capacity, op);
    if op.Store? {
      EvictedLaws(c.public[op.key := Entry(op.value, op.now + Min(op.ttl, MAX_TTL), op.now, op.now)], capacity);
    }
    forall k | k in c'.public ensures Matches(c'.public[k], LatestPublic(ops + [op], k)) {
      LatestPublicMore(ops, op, k);
      if op.Get? && k in c.public { MatchesFreshness(c.public[k], LatestPublic(ops, k), op.maxAge, op.now); }
    }
  }

  lemma LatestPrivateMore(ops: seq<Op>, op: Op, context: bytes, key: bytes)
    ensures LatestPrivate(ops + [op], context, key) ==
            PrivateAfter(LatestPrivate(ops, context, key), LatestPublic(ops, key), op, context, key)
  {
    assert (ops + [op])[..|ops|] == ops;
  }

  // A lookup reaches the private partition at least when the history says so.
  lemma PublicMissIsKnown(c: Cache, ops: seq<Op>, key: bytes, maxAge: Option<int>, now: int)
    requires PublicMatches(c, ops) && Checked(LatestPublic(ops, key), maxAge, now).None?
    ensures LookedUp(c.public, key, maxAge, now).1.None?
  {
    hide LatestPublic;
    if key in c.public { MatchesFreshness(c.public[key], LatestPublic(ops, key), maxAge, now); }
  }

  lemma PrivateStepMatches(c: Cache, capacity: nat, ops: seq<Op>, op: Op)
    requires PublicMatches(c, ops) && PrivateMatches(c, ops) && SeparatorFreeOp(op)
    ensures PrivateMatches(Step(c, capacity, op), ops + [op])
  {
    hide LatestPublic, LatestPrivate, Evicted, KeyLess, Fresh, Stale, SeparatorFree, PrivateKey, Covers, Matches,
         EndsWith, StartsWith, PublicMatches;
    var c' := Step(c, capacity, op);
    forall context, key | SeparatorFree(context) && PrivateKey(context, key) in c'.private
      ensures Matches(c'.private[PrivateKey(context, key)], LatestPrivate(ops + [op], context, key))
    {
      PrivateEntryMatches(c, capacity, ops, op, context, key);
    }
  }

  lemma PrivateEntryMatches(c: Cache, capacity: nat, ops: seq<Op>, op: Op, context: bytes, key: bytes)
    requires PublicMatches(c, ops) && SeparatorFreeOp(op) && SeparatorFree(context)
    requires PrivateKey(context, key) in c.private ==>
               Matches(c.private[PrivateKey(context, key)], LatestPrivate(ops, context, key))
    requires PrivateKey(context, key) in Step(c, capacity, op).private
    ensures Matches(Step(c, capacity, op).private[PrivateKey(context, key)], LatestPrivate(ops + [op], context, key))
  {
    hide LatestPublic, LatestPrivate, Evicted, KeyLess, Fresh, Stale, SeparatorFree, PrivateKey, Covers, EndsWith,
         StartsWith, PublicMatches, Checked, LookedUp;
    LatestPrivateMore(ops, op, context, key);
    match op {
      case Store(k, Private, value, ttl, at, now) =>
        PrivateKeyInjective(at, k, context, key);
        EvictedLaws(c.private[PrivateKey(at, k) := Entry(value, now + Min(ttl, MAX_TTL), now, now)], capacity);
      case Get(k, maxAge, at, now) =>
        PrivateKeyInjective(at, k, context, key);
        GetMatches(c, ops, k, maxAge, at, now, context, key);
      case Invalidate(k) => SuffixCovers(k, context, key);
      case ClearContext(at) => PrefixIsExact(at, context, key);
      case _ =>
    }
  }

  lemma GetMatches(c: Cache, ops: seq<Op>, k: bytes, maxAge: Option<int>, at: bytes, now: int, context: bytes,
                   key: bytes)
    requires PublicMatches(c, ops)
    requires PrivateKey(at, k) == PrivateKey(context, key) <==> at == context && k == key
    requires PrivateKey(context, key) in c.private ==>
               Matches(c.private[PrivateKey(context, key)], LatestPrivate(ops, context, key))
    requires PrivateKey(context, key) in Got(c, k, maxAge, at, now).0.private
    ensures Matches(Got(c, k, maxAge, at, now).0.private[PrivateKey(context, key)],
                    if k == key && at == context && Checked(LatestPublic(ops, key), maxAge, now).None?
                    then Checked(LatestPrivate(ops, context, key), maxAge, now) else LatestPrivate(ops, context, key))
  {
    hide LatestPublic, LatestPrivate, PublicMatches, PrivateKey, Fresh;
    var stored := PrivateKey(context, key);
    assert stored in c.private;
    MatchesFreshness(c.private[stored], LatestPrivate(ops, context, key), maxAge, now);
    if Checked(LatestPublic(ops, k), maxAge, now).None? { PublicMissIsKnown(c, ops, k, maxAge, now); }
  }

  lemma {:induction false} RunMatches(ops: seq<Op>, capacity: nat)
    requires SeparatorFreeOps(ops)
    ensures PublicMatches(Run(ops, capacity), ops) && PrivateMatches(Run(ops, capacity), ops)
    ensures |Run(ops, capacity).public| <= capacity && |Run(ops, capacity).private| <= capacity
  {
    hide SeparatorFreeOp, LatestPublic, LatestPrivate, Matches, PublicMatches, PrivateMatches, Step;
    if ops == [] {
      EmptyMatches();
    } else {
      var before, op := ops[..|ops| - 1], ops[|ops| - 1];
      assert op in ops && forall o :: o in before ==> o in ops;
      RunMatches(before, capacity);
      PublicStepMatches(Run(before, capacity), capacity, before, op);
      PrivateStepMatches(Run(before, capacity), capacity, before, op);
      StepWithinCapacity(Run(before, capacity), capacity, op);
      assert before + [op] == ops;
    }
  }

  lemma EmptyMatches()
    ensures PublicMatches(Cache(map[], map[]), []) && PrivateMatches(Cache(map[], map[]), [])
  {
  }

  lemma Fewer(a: Entries, b: Entries)
    requires a.Keys <= b.Keys
    ensures |a| <= |b|
  {
    KeysFewer(a.Keys, b.Keys);
    assert |a.Keys| == |a| && |b.Keys| == |b|;
  }

  lemma {:induction false} KeysFewer(a: set<bytes>, b: set<bytes>)
    requires a <= b
    ensures |a| <= |b|
  {
    if a != {} {
      var x :| x in a;
      KeysFewer(a - {x}, b - {x});
    }
  }

  lemma StepWithinCapacity(c: Cache, capacity: nat, op: Op)
    requires |c.public| <= capacity && |c.private| <= capacity
    ensures |Step(c, capacity, op).public| <= capacity && |Step(c, capacity, op).private| <= capacity
  {
    hide Step;
    if op.Store? {
      StoreWithinCapacity(c, capacity, op);
    } else {
      OthersShrink(c, capacity, op);
      var c' := Step(c, capacity, op);
      Fewer(c'.public, c.public);
      Fewer(c'.private, c.private);
    }
  }

  lemma StoreWithinCapacity(c: Cache, capacity: nat, op: Op)
    requires op.Store? && |c.public| <= capacity && |c.private| <= capacity
    ensures |Step(c, capacity, op).public| <= capacity && |Step(c, capacity, op).private| <= capacity
  {
    hide Evicted, PrivateKey, Min, Before;
    var e := Entry(op.value, op.now + Min(op.ttl, MAX_TTL), op.now, op.now);
    EvictedLaws(c.public[op.key := e], capacity);
    EvictedLaws(c.private[PrivateKey(op.context, op.key) := e], capacity);
  }

  lemma OthersShrink(c: Cache, capacity: nat, op: Op)
    requires !op.Store?
    ensures Step(c, capacity, op).public.Keys <= c.public.Keys && Step(c, capacity, op).private.Keys <= c.private.Keys
  {
    hide Stale, EndsWith, StartsWith, PrivateKey;
  }

  // A hit, in any run: the value is the latest public store of the key, fresh and not covered by
  // a later invalidation, or else the latest private store under this very auth context.
  lemma HitIsLatestStore(ops: seq<Op>, capacity: nat, key: bytes, maxAge: Option<int>, context: bytes, now: int)
    requires SeparatorFreeOps(ops) && SeparatorFree(context)
    ensures match Got(Run(ops, capacity), key, maxAge, context, now).1
            case None => true
            case Some(value) =>
              var shared, own := LatestPublic(ops, key), LatestPrivate(ops, context, key);
              || (shared.Some? && Fresh(shared.value, maxAge, now) && value == shared.value.value)
              || (own.Some? && Fresh(own.value, maxAge, now) && value == own.value.value)
  {
    RunMatches(ops, capacity);
    var c := Run(ops, capacity);
    hide Run, LatestPublic, LatestPrivate, SeparatorFreeOps, PrivateKey, SeparatorFree, Fresh, Stale;
    if key in c.public { MatchesFreshness(c.public[key], LatestPublic(ops, key), maxAge, now); }
    if PrivateKey(context, key) in c.private {
      MatchesFreshness(c.private[PrivateKey(context, key)], LatestPrivate(ops, context, key), maxAge, now);
    }
  }

  // ---- Below capacity a cache forgets nothing -------------------------------------------------------

  function StoreCount(ops: seq<Op>): nat {
    if ops == [] then 0 else StoreCount(ops[..|ops| - 1]) + if ops[|ops| - 1].Store? then 1 else 0
  }

  ghost predicate PublicHeld(c: Cache, ops: seq<Op>) {
    forall key :: LatestPublic(ops, key).Some? ==> key in c.public
  }

  ghost predicate PrivateHeld(c: Cache, ops: seq<Op>) {
    forall context, key :: SeparatorFree(context) && LatestPrivate(ops, context, key).Some? ==>
      PrivateKey(context, key) in c.private
  }

  lemma PublicStepHeld(c: Cache, capacity: nat, ops: seq<Op>, op: Op)
    requires PublicMatches(c, ops) && PublicHeld(c, ops) && (op.Store? ==> |c.public| < capacity)
    ensures PublicHeld(Step(c, capacity, op), ops + [op])
  {
    hide LatestPublic, Evicted, KeyLess, Fresh, Stale;
    if op.Store? {
      var all := c.public[op.key := Entry(op.value, op.now + Min(op.ttl, MAX_TTL), op.now, op.now)];
      GrowsByOne(c.public, op.key, all);
      SmallIsKept(all, capacity);
    }
    forall key | LatestPublic(ops + [op], key).Some? ensures key in Step(c, capacity, op).public {
      LatestPublicMore(ops, op, key);
      if op.Get? && key in c.public { MatchesFreshness(c.public[key], LatestPublic(ops, key), op.maxAge, op.now); }
    }
  }

  lemma PrivateStepHeld(c: Cache, capacity: nat, ops: seq<Op>, op: Op)
    requires PublicMatches(c, ops) && PublicHeld(c, ops) && PrivateMatches(c, ops) && PrivateHeld(c, ops)
    requires (op.Store? ==> |c.private| < capacity) && SeparatorFreeOp(op)
    ensures PrivateHeld(Step(c, capacity, op), ops + [op])
  {
    hide LatestPublic, LatestPrivate, Evicted, KeyLess, Fresh, Stale, SeparatorFree, PrivateKey, Covers, Matches,
         EndsWith, StartsWith, PublicMatches, PublicHeld;
    forall context, key | SeparatorFree(context) && LatestPrivate(ops + [op], context, key).Some?
      ensures PrivateKey(context, key) in Step(c, capacity, op).private
    {
      PrivateEntryHeld(c, capacity, ops, op, context, key);
    }
  }

  lemma PrivateEntryHeld(c: Cache, capacity: nat, ops: seq<Op>, op: Op, context: bytes, key: bytes)
    requires PublicMatches(c, ops) && PublicHeld(c, ops) && (op.Store? ==> |c.private| < capacity)
             && SeparatorFreeOp(op) && SeparatorFree(context)
    requires LatestPrivate(ops, context, key).Some? ==> PrivateKey(context, key) in c.private
    requires PrivateKey(context, key) in c.private ==>
               Matches(c.private[PrivateKey(context, key)], LatestPrivate(ops, context, key))
    requires LatestPrivate(ops + [op], context, key).Some?
    ensures PrivateKey(context, key) in Step(c, capacity, op).private
  {
    hide LatestPublic, LatestPrivate, Evicted, KeyLess, Fresh, Stale, SeparatorFree, PrivateKey, Covers, EndsWith,
         StartsWith, PublicMatches, PublicHeld, Checked;
    LatestPrivateMore(ops, op, context, key);
    match op {
      case Store(k, Private, value, ttl, at, now) =>
        PrivateKeyInjective(at, k, context, key);
        var all := c.private[PrivateKey(at, k) := Entry(value, now + Min(ttl, MAX_TTL), now, now)];
        GrowsByOne(c.private, PrivateKey(at, k), all);
        SmallIsKept(all, capacity);
      case Get(k, maxAge, at, now) =>
        PrivateKeyInjective(at, k, context, key);
        CheckedOf(LatestPrivate(ops, context, key), maxAge, now);
        var stored := PrivateKey(context, key);
        MatchesFreshness(c.private[stored], LatestPrivate(ops, context, key), maxAge, now);
        if Checked(LatestPublic(ops, k), maxAge, now).Some? { PublicHitIsKnown(c, ops, k, maxAge, now); }
      case Invalidate(k) => SuffixCovers(k, context, key);
      case ClearContext(at) => PrefixIsExact(at, context, key);
      case _ =>
    }
  }

  lemma CheckedOf(d: Option<Deposit>, maxAge: Option<int>, now: int)
    ensures Checked(d, maxAge, now).Some? ==> Checked(d, maxAge, now) == d
  {
  }

  lemma PublicHitIsKnown(c: Cache, ops: seq<Op>, key: bytes, maxAge: Option<int>, now: int)
    requires PublicMatches(c, ops) && PublicHeld(c, ops) && Checked(LatestPublic(ops, key), maxAge, now).Some?
    ensures LookedUp(c.public, key, maxAge, now).1 == Some(LatestPublic(ops, key).value.value)
  {
    hide LatestPublic;
    MatchesFreshness(c.public[key], LatestPublic(ops, key), maxAge, now);
  }

  lemma StepGrows(c: Cache, capacity: nat, op: Op)
    ensures |Step(c, capacity, op).public| <= |c.public| + (if op.Store? then 1 else 0)
    ensures |Step(c, capacity, op).private| <= |c.private| + (if op.Store? then 1 else 0)
  {
    hide Step;
    if op.Store? {
      StoreGrows(c, capacity, op);
    } else {
      OthersShrink(c, capacity, op);
      var c' := Step(c, capacity, op);
      Fewer(c'.public, c.public);
      Fewer(c'.private, c.private);
    }
  }

  lemma StoreGrows(c: Cache, capacity: nat, op: Op)
    requires op.Store?
    ensures |Step(c, capacity, op).public| <= |c.public| + 1 && |Step(c, capacity, op).private| <= |c.private| + 1
  {
    hide Evicted, PrivateKey, Min;
    var e := Entry(op.value, op.now + Min(op.ttl, MAX_TTL), op.now, op.now);
    EvictedGrows(c.public, capacity, op.key, e);
    EvictedGrows(c.private, capacity, PrivateKey(op.context, op.key), e);
  }

  lemma EvictedGrows(entries: Entries, capacity: nat, key: bytes, e: Entry)
    ensures |Evicted(entries[key := e], capacity)| <= |entries| + 1
  {
    hide Evicted, Before;
    EvictedLaws(entries[key := e], capacity);
    GrowsByOne(entries, key, entries[key := e]);
  }

  lemma {:induction false} RunHolds(ops: seq<Op>, capacity: nat)
    requires SeparatorFreeOps(ops) && StoreCount(ops) <= capacity
    ensures PublicHeld(Run(ops, capacity), ops) && PrivateHeld(Run(ops, capacity), ops)
    ensures |Run(ops, capacity).public| <= StoreCount(ops) && |Run(ops, capacity).private| <= StoreCount(ops)
  {
    hide SeparatorFreeOp, PublicMatches, PrivateMatches, PublicHeld, PrivateHeld, Step;
    if ops == [] {
      NothingHeld();
    } else {
      hide LatestPublic, LatestPrivate;
      var before, op := ops[..|ops| - 1], ops[|ops| - 1];
      assert op in ops && forall o :: o in before ==> o in ops;
      RunHolds(before, capacity);
      RunMatches(before, capacity);
      PublicStepHeld(Run(before, capacity), capacity, before, op);
      PrivateStepHeld(Run(before, capacity), capacity, before, op);
      StepGrows(Run(before, capacity), capacity, op);
      assert before + [op] == ops;
    }
  }

  lemma NothingHeld()
    ensures PublicHeld(Cache(map[], map[]), []) && PrivateHeld(Cache(map[], map[]), [])
  {
  }

  // Until as many stores were made as a partition holds, a lookup returns exactly what the history
  // says: the fresh public deposit, else the fresh private one of its context, else nothing.
  lemma BelowCapacityExact(ops: seq<Op>, capacity: nat, key: bytes, maxAge: Option<int>, context: bytes, now: int)
    requires SeparatorFreeOps(ops) && SeparatorFree(context) && StoreCount(ops) <= capacity
    ensures var shared, own := Checked(LatestPublic(ops, key), maxAge, now),
            Checked(LatestPrivate(ops, context, key), maxAge, now);
            Got(Run(ops, capacity), key, maxAge, context, now).1 ==
            if shared.Some? then Some(shared.value.value) else if own.Some? then Some(own.value.value) else None
  {
    RunMatches(ops, capacity);
    RunHolds(ops, capacity);
    var c := Run(ops, capacity);
    hide Run, LatestPublic, LatestPrivate, SeparatorFreeOps, PrivateKey, SeparatorFree, Fresh, Stale;
    if key in c.public { MatchesFreshness(c.public[key], LatestPublic(ops, key), maxAge, now); }
    if PrivateKey(context, key) in c.private {
      MatchesFreshness(c.private[PrivateKey(context, key)], LatestPrivate(ops, context, key), maxAge, now);
    }
  }
}
