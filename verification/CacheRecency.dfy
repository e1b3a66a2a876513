// Which entries a full cache still has: eviction told from the operations since an entry's last use.
module CacheRecency {
  import opened Bytes
  import opened JsonValue
  import opened ResponseCache
  import opened CacheRuns

  function Part(c: Cache, scope: Scope): Entries {
    if scope.Public? then c.public else c.private
  }

  function StoredKey(scope: Scope, context: bytes, key: bytes): bytes {
    if scope.Public? then key else PrivateKey(context, key)
  }

  predicate Hits(entries: Entries, key: bytes, maxAge: Option<int>, now: int) {
    key in entries && !Stale(entries[key], maxAge, now)
  }

  // ---- What an operation does to one partition ------------------------------------------------------

  datatype Touch = Touch(key: bytes, at: int)

  // The entry of a partition that an operation stores or finds. The clock is read before the lock
  // is taken, so the times of successive operations may go backwards.
  function Touched(c: Cache, scope: Scope, op: Op): Option<Touch> {
    match op
    case Store(key, s, _, _, context, now) =>
      if s == scope then Some(Touch(StoredKey(scope, context, key), now)) else None
    case Get(key, maxAge, context, now) =>
      if scope.Private? && Hits(c.public, key, maxAge, now) then None
      else if Hits(Part(c, scope), StoredKey(scope, context, key), maxAge, now)
        then Some(Touch(StoredKey(scope, context, key), now))
      else None
    case _ => None
  }

  // An operation takes an entry out for another reason than room.
  predicate Removes(c: Cache, scope: Scope, op: Op, k: bytes) {
    && k in Part(c, scope)
    && match op
       case Store(_, _, _, _, _, _) => false
       case Get(key, maxAge, context, now) =>
         && k == StoredKey(scope, context, key) && !(scope.Private? && Hits(c.public, key, maxAge, now))
         && Stale(Part(c, scope)[k], maxAge, now)
       case Invalidate(key) => if scope.Public? then k == key else EndsWith(k, PrivateKey([], key))
       case Clear => true
       case ClearPrivate => scope.Private?
       case ClearContext(context) => scope.Private? && StartsWith(k, PrivateKey(context, []))
  }

  lemma UntouchedPart(c: Cache, capacity: nat, scope: Scope, op: Op)
    requires Touched(c, scope, op).None?
    ensures var entries, after := Part(c, scope), Part(Step(c, capacity, op), scope);
            && (forall k :: k in after <==> k in entries && !Removes(c, scope, op, k))
            && (forall k :: k in after ==> after[k] == entries[k])
  {
    hide Stored, Stale, EndsWith, StartsWith, PrivateKey;
  }

  lemma TouchedPart(c: Cache, capacity: nat, scope: Scope, op: Op) returns (e: Entry)
    requires Touched(c, scope, op).Some?
    ensures var entries, t := Part(c, scope), Touched(c, scope, op).value;
            && e.lastAccessed == t.at
            && Part(Step(c, capacity, op), scope) ==
               (if op.Store? then Evicted(entries[t.key := e], capacity) else entries[t.key := e])
            && (!op.Store? ==> t.key in entries)
  {
    hide Evicted, Stale, PrivateKey, Min;
    var key := StoredKey(scope, op.context, op.key);
    e := if op.Store? then Entry(op.value, op.now + Min(op.ttl, MAX_TTL), op.now, op.now)
    else Part(c, scope)[key].(lastAccessed := op.now);
  }

  // ---- Eviction by rank -----------------------------------------------------------------------------

  // Used later, and among equal times of greater key: `a` is evicted after `b`.
  predicate Later(a: Touch, b: Touch) {
    a.at > b.at || (a.at == b.at && KeyLess(b.key, a.key))
  }

  // The entries that go after one that was last used as `mark` says.
  function AheadOf(entries: Entries, mark: Touch): set<bytes> {
    set k | k in entries && k != mark.key && Later(Touch(k, entries[k].lastAccessed), mark)
  }

  lemma SetsCount(a: set<bytes>, entries: Entries, key: bytes)
    requires key in entries
    ensures a <= entries.Keys - {key} ==> |a| < |entries|
    ensures entries.Keys - {key} <= a && key !in a ==> |entries| <= |a| + 1
  {
    assert |entries| == |entries.Keys|;
    if a <= entries.Keys - {key} { KeysFewer(a, entries.Keys - {key}); }
    if entries.Keys - {key} <= a { KeysFewer(entries.Keys - {key}, a); }
  }

  // Eviction keeps an entry exactly if fewer others than there is room for go after it, and then
  // it keeps these, too.
  lemma KeptByRank(entries: Entries, capacity: nat, key: bytes)
    requires key in entries
    ensures var mark := Touch(key, entries[key].lastAccessed);
            var kept := Evicted(entries, capacity);
            && (key in kept <==> |AheadOf(entries, mark)| < capacity)
            && (key in kept ==> kept[key] == entries[key] && AheadOf(kept, mark) == AheadOf(entries, mark))
  {
    hide Evicted, KeyLess;
    EvictedLaws(entries, capacity);
    var mark := Touch(key, entries[key].lastAccessed);
    var kept, ahead := Evicted(entries, capacity), AheadOf(entries, mark);
    if key in kept {
      forall k | k in ahead ensures k in kept {
        if k !in kept { assert Before(entries, k, key); NotBoth(entries, k, key); }
      }
      SetsCount(ahead, kept, key);
    } else {
      if |entries| <= capacity { SmallIsKept(entries, capacity); }
      assert forall k :: k in kept ==> Before(entries, key, k) && k in ahead;
      KeysFewer(kept.Keys, ahead);
    }
  }

  lemma NotBoth(entries: Entries, a: bytes, b: bytes)
    requires a in entries && b in entries && Before(entries, a, b)
    ensures !Before(entries, b, a)
  {
    if Before(entries, b, a) {
      BeforeIsTransitive(entries, a, b, a);
      BeforeIsTotal(entries, a, a);
    }
  }

  // ---- Runs -----------------------------------------------------------------------------------------

  // The cache before operation `i`.
  ghost function Until(ops: seq<Op>, capacity: nat, i: nat): Cache
    requires i <= |ops|
  {
    Run(ops[..i], capacity)
  }

  // Who goes after the entry last used in operation `i` as `mark` says: those that already did at
  // that moment, and every entry used since, unless at an earlier time or taken out meanwhile.
  ghost function Rivals(ops: seq<Op>, capacity: nat, scope: Scope, i: nat, mark: Touch, j: nat): set<bytes>
    requires i < j <= |ops|
  {
    if j == i + 1 then AheadOf(Part(Until(ops, capacity, i), scope), mark)
    else RivalsNext(Until(ops, capacity, j - 1), scope, ops[j - 1], mark, Rivals(ops, capacity, scope, i, mark, j - 1))
  }

  function RivalsNext(c: Cache, scope: Scope, op: Op, mark: Touch, rivals: set<bytes>): set<bytes> {
    match Touched(c, scope, op)
    case Some(t) => if Later(t, mark) then rivals + {t.key} else rivals - {t.key}
    case None => set k | k in rivals && !Removes(c, scope, op, k)
  }

  // Operation `i` used the entry as `mark` says, and none since used it or took it out.
  ghost predicate LastUse(ops: seq<Op>, capacity: nat, scope: Scope, i: nat, mark: Touch) {
    && i < |ops| && Touched(Until(ops, capacity, i), scope, ops[i]) == Some(mark)
    && forall j :: i < j < |ops| ==> Spares(Until(ops, capacity, j), scope, ops[j], mark.key)
  }

  predicate Spares(c: Cache, scope: Scope, op: Op, key: bytes) {
    && (Touched(c, scope, op).Some? ==> Touched(c, scope, op).value.key != key)
    && !Removes(c, scope, op, key)
  }

  // The entry is there, unmoved, and `rivals` are those that go after it.
  predicate Ranked(entries: Entries, mark: Touch, rivals: set<bytes>) {
    mark.key in entries && entries[mark.key].lastAccessed == mark.at && AheadOf(entries, mark) == rivals
  }

  lemma AheadWith(entries: Entries, mark: Touch, t: Touch, e: Entry)
    requires e.lastAccessed == t.at && t.key != mark.key
    ensures AheadOf(entries[t.key := e], mark) ==
            if Later(t, mark) then AheadOf(entries, mark) + {t.key} else AheadOf(entries, mark) - {t.key}
  {
    hide Later;
  }

  lemma AheadWithOwn(entries: Entries, mark: Touch, e: Entry)
    ensures AheadOf(entries[mark.key := e], mark) == AheadOf(entries, mark)
  {
    hide Later;
  }

  // The use itself: it stays exactly if it is not evicted at once.
  lemma RankedAtUse(c: Cache, capacity: nat, scope: Scope, op: Op, mark: Touch)
    requires Touched(c, scope, op) == Some(mark) && |Part(c, scope)| <= capacity
    ensures var rivals, after := AheadOf(Part(c, scope), mark), Part(Step(c, capacity, op), scope);
            if |rivals| < capacity then Ranked(after, mark, rivals) else mark.key !in after
  {
    hide Step, Touched, Evicted, AheadOf;
    var e := TouchedPart(c, capacity, scope, op);
    var entries := Part(c, scope);
    AheadWithOwn(entries, mark, e);
    if op.Store? {
      KeptByRank(entries[mark.key := e], capacity, mark.key);
    } else {
      AheadIsFewer(entries, mark);
    }
  }

  lemma AheadIsFewer(entries: Entries, mark: Touch)
    requires mark.key in entries
    ensures |AheadOf(entries, mark)| < |entries|
  {
    hide Later;
    SetsCount(AheadOf(entries, mark), entries, mark.key);
  }

  lemma RankedStep(c: Cache, capacity: nat, scope: Scope, op: Op, mark: Touch, rivals: set<bytes>)
    requires Ranked(Part(c, scope), mark, rivals) && |Part(c, scope)| <= capacity && Spares(c, scope, op, mark.key)
    ensures var rivals', after := RivalsNext(c, scope, op, mark, rivals), Part(Step(c, capacity, op), scope);
            if |rivals'| < capacity then Ranked(after, mark, rivals') else mark.key !in after
  {
    hide Step, Touched, Removes, Evicted, AheadOf;
    var entries, after := Part(c, scope), Part(Step(c, capacity, op), scope);
    if Touched(c, scope, op).Some? {
      var t := Touched(c, scope, op).value;
      var e := TouchedPart(c, capacity, scope, op);
      AheadWith(entries, mark, t, e);
      var all := entries[t.key := e];
      if op.Store? {
        KeptByRank(all, capacity, mark.key);
      } else {
        AheadIsFewer(all, mark);
        assert all.Keys == entries.Keys && |all.Keys| == |all| && |entries.Keys| == |entries|;
      }
    } else {
      UntouchedPart(c, capacity, scope, op);
      Fewer(after, entries);
      AheadIsFewer(after, mark);
      AheadShrinks(c, scope, op, entries, after, mark);
    }
  }

  lemma AheadShrinks(c: Cache, scope: Scope, op: Op, entries: Entries, after: Entries, mark: Touch)
    requires forall k :: k in after <==> k in entries && !Removes(c, scope, op, k)
    requires forall k :: k in after ==> after[k] == entries[k]
    ensures AheadOf(after, mark) == set k | k in AheadOf(entries, mark) && !Removes(c, scope, op, k)
  {
    hide Removes, Later;
  }

  // An entry that is gone stays away until it is stored again.
  lemma GoneStays(c: Cache, capacity: nat, scope: Scope, op: Op, key: bytes)
    requires key !in Part(c, scope) && Spares(c, scope, op, key)
    ensures key !in Part(Step(c, capacity, op), scope)
  {
    hide Step, Touched, Removes, Evicted;
    if Touched(c, scope, op).Some? {
      var e := TouchedPart(c, capacity, scope, op);
      EvictedLaws(Part(c, scope)[Touched(c, scope, op).value.key := e], capacity);
    } else {
      UntouchedPart(c, capacity, scope, op);
    }
  }

  lemma {:induction false} WithinCapacity(ops: seq<Op>, capacity: nat)
    ensures |Run(ops, capacity).public| <= capacity && |Run(ops, capacity).private| <= capacity
  {
    hide Step;
    if ops != [] {
      WithinCapacity(ops[..|ops| - 1], capacity);
      StepWithinCapacity(Run(ops[..|ops| - 1], capacity), capacity, ops[|ops| - 1]);
    }
  }

  lemma UntilNext(ops: seq<Op>, capacity: nat, j: nat)
    requires j < |ops|
    ensures Until(ops, capacity, j + 1) == Step(Until(ops, capacity, j), capacity, ops[j])
  {
    hide Step;
    assert ops[..j + 1][..j] == ops[..j];
  }

  ghost predicate Room(ops: seq<Op>, capacity: nat, scope: Scope, i: nat, mark: Touch, upTo: nat)
    requires upTo <= |ops|
  {
    forall j :: i < j <= upTo ==> |Rivals(ops, capacity, scope, i, mark, j)| < capacity
  }

  lemma {:induction false} KeptUntil(ops: seq<Op>, capacity: nat, scope: Scope, i: nat, mark: Touch, j: nat)
    requires LastUse(ops, capacity, scope, i, mark) && i < j <= |ops|
    ensures var entries := Part(Until(ops, capacity, j), scope);
            if Room(ops, capacity, scope, i, mark, j)
            then Ranked(entries, mark, Rivals(ops, capacity, scope, i, mark, j)) else mark.key !in entries
  {
    hide Step, Touched, Spares, Ranked, RivalsNext, AheadOf, Run;
    var c := Until(ops, capacity, j - 1);
    UntilNext(ops, capacity, j - 1);
    WithinCapacity(ops[..j - 1], capacity);
    if j == i + 1 {
      RankedAtUse(c, capacity, scope, ops[i], mark);
    } else {
      KeptUntil(ops, capacity, scope, i, mark, j - 1);
      if Room(ops, capacity, scope, i, mark, j - 1) {
        RankedStep(c, capacity, scope, ops[j - 1], mark, Rivals(ops, capacity, scope, i, mark, j - 1));
      } else {
        GoneStays(c, capacity, scope, ops[j - 1], mark.key);
      }
    }
  }

  // In every run, whatever the clock does: an entry that was not used or taken out since its last
  // use is still there exactly if at no moment since as many entries as there is room for were to
  // go after it.
  lemma KeptExactly(ops: seq<Op>, capacity: nat, scope: Scope, i: nat, mark: Touch)
    requires LastUse(ops, capacity, scope, i, mark)
    ensures mark.key in Part(Run(ops, capacity), scope) <==> Room(ops, capacity, scope, i, mark, |ops|)
  {
    hide LastUse, Room, Rivals, Run, AheadOf;
    assert ops[..|ops|] == ops;
    KeptBounds(ops, capacity, scope, i, mark);
    KeptUntil(ops, capacity, scope, i, mark, |ops|);
  }

  lemma KeptBounds(ops: seq<Op>, capacity: nat, scope: Scope, i: nat, mark: Touch)
    requires LastUse(ops, capacity, scope, i, mark)
    ensures i < |ops|
  {
  }

  ghost function LatestDeposit(ops: seq<Op>, scope: Scope, context: bytes, key: bytes): Option<Deposit> {
    if scope.Public? then LatestPublic(ops, key) else LatestPrivate(ops, context, key)
  }

  // What a lookup in one partition of a full cache finds: the latest deposit, if it is still fresh
  // and was never outranked.
  lemma FoundExactly(ops: seq<Op>, capacity: nat, scope: Scope, i: nat, mark: Touch, context: bytes, key: bytes,
                     maxAge: Option<int>, now: int)
    requires LastUse(ops, capacity, scope, i, mark) && mark.key == StoredKey(scope, context, key)
    requires SeparatorFreeOps(ops) && SeparatorFree(context)
    ensures var d := Checked(LatestDeposit(ops, scope, context, key), maxAge, now);
            var room := Room(ops, capacity, scope, i, mark, |ops|);
            && (room ==> LatestDeposit(ops, scope, context, key).Some?)
            && LookedUp(Part(Run(ops, capacity), scope), mark.key, maxAge, now).1 ==
               if room && d.Some? then Some(d.value.value) else None
  {
    KeptExactly(ops, capacity, scope, i, mark);
    RunMatches(ops, capacity);
    var entries, d := Part(Run(ops, capacity), scope), LatestDeposit(ops, scope, context, key);
    hide LastUse, Room, Run, SeparatorFreeOps, SeparatorFree, LatestPublic, LatestPrivate, Fresh, Stale, PrivateKey;
    if mark.key in entries {
      assert Matches(entries[mark.key], d);
      MatchesFreshness(entries[mark.key], d, maxAge, now);
    }
  }

  // ---- Least recently used --------------------------------------------------------------------------

  // The distinct entries of a partition that operations behind `i` and before `j` used.
  ghost function UsedSince(ops: seq<Op>, capacity: nat, scope: Scope, i: nat, j: nat): set<bytes>
    requires i < j <= |ops|
  {
    if j == i + 1 then {}
    else
      var t := Touched(Until(ops, capacity, j - 1), scope, ops[j - 1]);
      UsedSince(ops, capacity, scope, i, j - 1) + if t.Some? then {t.value.key} else {}
  }

  function TimeOf(op: Op): Option<int> {
    match op
    case Store(_, _, _, _, _, now) => Some(now)
    case Get(_, _, _, now) => Some(now)
    case _ => None
  }

  // The clock goes on between any two uses.
  predicate Ticking(ops: seq<Op>) {
    forall i, j :: 0 <= i < j < |ops| && TimeOf(ops[i]).Some? && TimeOf(ops[j]).Some? ==>
      TimeOf(ops[i]).value < TimeOf(ops[j]).value
  }

  ghost predicate NothingRemoved(ops: seq<Op>, capacity: nat, scope: Scope, i: nat) {
    forall j, k :: i < j < |ops| ==> !Removes(Until(ops, capacity, j), scope, ops[j], k)
  }

  lemma TouchedTime(c: Cache, scope: Scope, op: Op)
    ensures Touched(c, scope, op).Some? ==> TimeOf(op) == Some(Touched(c, scope, op).value.at)
  {
    hide Stale;
  }

  predicate UsedBefore(entries: Entries, now: int) {
    forall k :: k in entries ==> entries[k].lastAccessed < now
  }

  lemma {:induction false} AllUsedBefore(ops: seq<Op>, capacity: nat, scope: Scope, now: int)
    requires forall op :: op in ops && TimeOf(op).Some? ==> TimeOf(op).value < now
    ensures UsedBefore(Part(Run(ops, capacity), scope), now)
  {
    hide Step, Touched, TimeOf;
    if ops != [] {
      var before, op := ops[..|ops| - 1], ops[|ops| - 1];
      AllUsedBefore(before, capacity, scope, now);
      UseIsBefore(Run(before, capacity), capacity, scope, op, now);
    }
  }

  lemma UseIsBefore(c: Cache, capacity: nat, scope: Scope, op: Op, now: int)
    requires UsedBefore(Part(c, scope), now) && (TimeOf(op).Some? ==> TimeOf(op).value < now)
    ensures UsedBefore(Part(Step(c, capacity, op), scope), now)
  {
    hide Step, Touched, TimeOf, Removes, Evicted;
    TouchedTime(c, scope, op);
    if Touched(c, scope, op).Some? {
      var e := TouchedPart(c, capacity, scope, op);
      EvictedLaws(Part(c, scope)[Touched(c, scope, op).value.key := e], capacity);
    } else {
      UntouchedPart(c, capacity, scope, op);
    }
  }

  // With a clock that goes on, those that go after an entry are the ones used since.
  lemma {:induction false} RivalsAreUsed(ops: seq<Op>, capacity: nat, scope: Scope, i: nat, mark: Touch, j: nat)
    requires LastUse(ops, capacity, scope, i, mark) && NothingRemoved(ops, capacity, scope, i) && Ticking(ops)
    requires i < j <= |ops|
    ensures Rivals(ops, capacity, scope, i, mark, j) == UsedSince(ops, capacity, scope, i, j)
  {
    hide Touched, Removes, TimeOf, Spares, Run;
    TouchedTime(Until(ops, capacity, i), scope, ops[i]);
    if j == i + 1 {
      assert forall op :: op in ops[..i] ==> exists m :: 0 <= m < i && op == ops[m];
      AllUsedBefore(ops[..i], capacity, scope, mark.at);
    } else {
      RivalsAreUsed(ops, capacity, scope, i, mark, j - 1);
      TouchedTime(Until(ops, capacity, j - 1), scope, ops[j - 1]);
    }
  }

  lemma {:induction false} UsedGrows(ops: seq<Op>, capacity: nat, scope: Scope, i: nat, j: nat, k: nat)
    requires i < j <= k <= |ops|
    ensures |UsedSince(ops, capacity, scope, i, j)| <= |UsedSince(ops, capacity, scope, i, k)|
    decreases k
  {
    hide Touched, Until;
    if j < k {
      UsedGrows(ops, capacity, scope, i, j, k - 1);
      KeysFewer(UsedSince(ops, capacity, scope, i, k - 1), UsedSince(ops, capacity, scope, i, k));
    }
  }

  // As long as nothing of the partition is invalidated or found stale, an entry is still there exactly
  // if fewer distinct others than there is room for were stored or hit since its own last use.
  lemma LeastRecentlyUsed(ops: seq<Op>, capacity: nat, scope: Scope, i: nat, mark: Touch)
    requires LastUse(ops, capacity, scope, i, mark) && NothingRemoved(ops, capacity, scope, i) && Ticking(ops)
    ensures mark.key in Part(Run(ops, capacity), scope) <==> |UsedSince(ops, capacity, scope, i, |ops|)| < capacity
  {
    KeptExactly(ops, capacity, scope, i, mark);
    KeptBounds(ops, capacity, scope, i, mark);
    hide LastUse, NothingRemoved, Ticking, Rivals, UsedSince, Run, Part;
    forall j | i < j <= |ops|
      ensures Rivals(ops, capacity, scope, i, mark, j) == UsedSince(ops, capacity, scope, i, j)
      ensures |UsedSince(ops, capacity, scope, i, j)| <= |UsedSince(ops, capacity, scope, i, |ops|)|
    {
      RivalsAreUsed(ops, capacity, scope, i, mark, j);
      UsedGrows(ops, capacity, scope, i, j, |ops|);
    }
  }
}
