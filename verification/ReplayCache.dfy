// The replay cache for DPoP proofs and the freshness test in front of it, src/ext/DPoP.cpp.
// Times are whole seconds.
module ReplayCache {
  import opened Bytes

  predicate IsNonceFresh(iat: int, now: int, window: int) {
    window >= 0 && iat <= now && now - iat <= window
  }

  type Seen = map<bytes, int>

  function Purged(seen: Seen, window: int, now: int): Seen {
    map jti | jti in seen && now - seen[jti] <= window :: seen[jti]
  }

  function CheckedAndStored(seen: Seen, window: int, jti: bytes, iat: int, now: int): (Seen, bool) {
    if jti == [] then (seen, false)
    else
      var purged := Purged(seen, window, now);
      if jti in purged then (purged, false) else (purged[jti := iat], true)
  }

  class JtiReplayCache {
    const window: int
    var seen: Seen

    constructor (window: int)
      ensures this.window == (if window < 0 then 0 else window) && seen == map[]
    {
      this.window := if window < 0 then 0 else window;
      seen := map[];
    }

    method CheckAndStore(jti: bytes, iat: int, now: int) returns (stored: bool)
      modifies this
      ensures (seen, stored) == CheckedAndStored(old(seen), window, jti, iat, now)
      ensures jti != [] ==> forall k :: k in seen ==> now - seen[k] <= window || (stored && k == jti && seen[k] == iat)
    {
      if jti == [] { return false; }
      var left := seen.Keys;
      while left != {}
        invariant left <= seen.Keys <= old(seen).Keys
        invariant forall k :: k in seen ==> seen[k] == old(seen)[k]
        invariant forall k :: k in old(seen) && k !in left ==> (k in seen <==> now - old(seen)[k] <= window)
        decreases left
      {
        var k :| k in left;
        left := left - {k};
        if now - seen[k] > window { seen := seen - {k}; }
      }
      assert seen == Purged(old(seen), window, now);
      if jti in seen { return false; }
      seen := seen[jti := iat];
      return true;
    }

    method ClearAll()
      modifies this
      ensures seen == map[]
    {
      seen := map[];
    }
  }

  // ---- Runs ---------------------------------------------------------------------------------------

  // One proof presented to the server; `sound` sums up the checks between freshness and storing.
  datatype Attempt = Attempt(jti: bytes, iat: int, now: int, window: int, sound: bool)

  function Verify(seen: Seen, window: int, a: Attempt): (Seen, bool) {
    if IsNonceFresh(a.iat, a.now, a.window) && a.sound then CheckedAndStored(seen, window, a.jti, a.iat, a.now)
    else (seen, false)
  }

  function After(attempts: seq<Attempt>, window: int): Seen {
    if attempts == [] then map[]
    else Verify(After(attempts[..|attempts| - 1], window), window, attempts[|attempts| - 1]).0
  }

  predicate Accepted(attempts: seq<Attempt>, window: int, i: nat)
    requires i < |attempts|
  {
    Verify(After(attempts[..i], window), window, attempts[i]).1
  }

  // The clock does not run backwards, and no verifier uses a wider window than the cache.
  predicate Orderly(attempts: seq<Attempt>, window: int) {
    && (forall i, j :: 0 <= i < j < |attempts| ==> attempts[i].now <= attempts[j].now)
    && (forall i :: 0 <= i < |attempts| ==> attempts[i].window <= window)
  }

  // Attempt `i` blocks its jti up to the end of the cache window.
  predicate Blocks(attempts: seq<Attempt>, window: int, i: nat, jti: bytes, now: int)
    requires i < |attempts|
  {
    Accepted(attempts, window, i) && attempts[i].jti == jti && now - attempts[i].iat <= window
  }

  // What is in the cache was accepted, and what was accepted is in the cache while it blocks.
  ghost predicate Remembers(seen: Seen, attempts: seq<Attempt>, window: int) {
    && (forall jti :: jti in seen ==>
          exists i :: 0 <= i < |attempts| && Accepted(attempts, window, i) && attempts[i].jti == jti
            && attempts[i].iat == seen[jti])
    && (forall i :: 0 <= i < |attempts| && Accepted(attempts, window, i) ==>
          attempts[|attempts| - 1].now - attempts[i].iat > window || (attempts[i].jti, attempts[i].iat) in seen.Items)
  }

  lemma AcceptedMore(attempts: seq<Attempt>, a: Attempt, window: int)
    ensures forall i :: 0 <= i < |attempts| ==> Accepted(attempts + [a], window, i) == Accepted(attempts, window, i)
    ensures Accepted(attempts + [a], window, |attempts|) == Verify(After(attempts, window), window, a).1
    ensures After(attempts + [a], window) == Verify(After(attempts, window), window, a).0
  {
    hide Verify;
    assert (attempts + [a])[..|attempts|] == attempts;
    assert forall i :: 0 <= i < |attempts| ==> (attempts + [a])[..i] == attempts[..i];
  }

  lemma StepRemembers(attempts: seq<Attempt>, a: Attempt, window: int)
    requires Orderly(attempts + [a], window) && Remembers(After(attempts, window), attempts, window)
    ensures Remembers(After(attempts + [a], window), attempts + [a], window)
    ensures Verify(After(attempts, window), window, a).1 <==>
            && IsNonceFresh(a.iat, a.now, a.window) && a.sound && a.jti != []
            && forall i :: 0 <= i < |attempts| ==> !Blocks(attempts, window, i, a.jti, a.now)
  {
    AcceptedMore(attempts, a, window);
    var all, seen := attempts + [a], After(attempts, window);
    assert forall i :: 0 <= i < |attempts| ==> all[i] == attempts[i] && all[i].now <= a.now;
    assert all[|attempts|] == a && all[|all| - 1] == a;
    hide Accepted, After;
    if a.jti in seen && a.now - seen[a.jti] <= window {
      var i :| 0 <= i < |attempts| && Accepted(attempts, window, i) && attempts[i].jti == a.jti
        && attempts[i].iat == seen[a.jti];
      assert Blocks(attempts, window, i, a.jti, a.now);
    }
    StillRemembered(attempts, a, window, seen, Verify(seen, window, a).0);
  }

  lemma StillRemembered(attempts: seq<Attempt>, a: Attempt, window: int, seen: Seen, seen': Seen)
    requires Remembers(seen, attempts, window) && Orderly(attempts + [a], window)
    requires seen' == Verify(seen, window, a).0
    requires forall i :: 0 <= i < |attempts| ==> Accepted(attempts + [a], window, i) == Accepted(attempts, window, i)
    requires Accepted(attempts + [a], window, |attempts|) == Verify(seen, window, a).1
    ensures Remembers(seen', attempts + [a], window)
  {
    hide Accepted;
    var all := attempts + [a];
    assert all[|attempts|] == a;
    assert forall i :: 0 <= i < |attempts| ==> all[i] == attempts[i] && all[i].now <= a.now;
    forall jti | jti in seen'
      ensures exists i :: 0 <= i < |all| && Accepted(all, window, i) && all[i].jti == jti && all[i].iat == seen'[jti]
    {
      if jti in seen && seen'[jti] == seen[jti] {
        var i :| 0 <= i < |attempts| && Accepted(attempts, window, i) && attempts[i].jti == jti
          && attempts[i].iat == seen[jti];
        assert all[i].jti == jti;
      } else {
        assert all[|attempts|].jti == jti;
      }
    }
  }

  lemma {:induction false} RunRemembers(attempts: seq<Attempt>, window: int)
    requires Orderly(attempts, window)
    ensures Remembers(After(attempts, window), attempts, window)
  {
    hide Remembers, After;
    if attempts == [] {
      NothingRemembered(window);
    } else {
      var before, a := attempts[..|attempts| - 1], attempts[|attempts| - 1];
      assert before + [a] == attempts;
      RunRemembers(before, window);
      StepRemembers(before, a, window);
    }
  }

  lemma NothingRemembered(window: int)
    ensures Remembers(After([], window), [], window)
  {
  }

  // Exactly when a proof is accepted: it is fresh and sound, has a jti, and no accepted proof with
  // that jti is still within the cache window.
  lemma AcceptedExactly(attempts: seq<Attempt>, window: int, i: nat)
    requires Orderly(attempts, window) && i < |attempts|
    ensures var a := attempts[i];
            Accepted(attempts, window, i) <==>
            && IsNonceFresh(a.iat, a.now, a.window) && a.sound && a.jti != []
            && forall j :: 0 <= j < i ==> !Blocks(attempts, window, j, a.jti, a.now)
  {
    hide Verify, After, Remembers, Accepted, IsNonceFresh;
    var before := attempts[..i];
    assert before + [attempts[i]] == attempts[..i + 1];
    assert Orderly(before + [attempts[i]], window);
    RunRemembers(before, window);
    StepRemembers(before, attempts[i], window);
    PrefixAccepts(attempts, window, i);
    assert forall j :: 0 <= j < i ==>
           Blocks(before, window, j, attempts[i].jti, attempts[i].now) ==
             Blocks(attempts, window, j, attempts[i].jti, attempts[i].now);
  }

  lemma PrefixAccepts(attempts: seq<Attempt>, window: int, i: nat)
    requires i < |attempts|
    ensures Accepted(attempts, window, i) == Verify(After(attempts[..i], window), window, attempts[i]).1
    ensures forall j :: 0 <= j < i ==>
            attempts[..i][j] == attempts[j] && Accepted(attempts[..i], window, j) == Accepted(attempts, window, j)
  {
    hide Verify, After;
    assert forall j :: 0 <= j < i ==> attempts[..i][..j] == attempts[..j];
  }

  // After a proof reached the cache, that holds exactly the accepted proofs still within the window:
  // nothing older is kept and nothing younger forgotten.
  lemma CacheHoldsExactly(attempts: seq<Attempt>, window: int, jti: bytes, iat: int)
    requires Orderly(attempts, window) && attempts != []
    requires var a := attempts[|attempts| - 1]; IsNonceFresh(a.iat, a.now, a.window) && a.sound && a.jti != []
    ensures var seen := After(attempts, window);
            jti in seen && seen[jti] == iat <==>
            && attempts[|attempts| - 1].now - iat <= window
            && exists i ::
                 && 0 <= i < |attempts| && Accepted(attempts, window, i)
                 && attempts[i].jti == jti && attempts[i].iat == iat
  {
    RunRemembers(attempts, window);
    OnlyFreshKept(attempts, window);
    hide After, Accepted, Orderly, IsNonceFresh;
    var seen := After(attempts, window);
    assert jti in seen && seen[jti] == iat <==> (jti, iat) in seen.Items;
  }

  lemma OnlyFreshKept(attempts: seq<Attempt>, window: int)
    requires Orderly(attempts, window) && attempts != []
    requires var a := attempts[|attempts| - 1]; IsNonceFresh(a.iat, a.now, a.window) && a.sound && a.jti != []
    ensures forall jti :: jti in After(attempts, window) ==>
            attempts[|attempts| - 1].now - After(attempts, window)[jti] <= window
  {
  }

  // So no proof, named by jti and issue time, is accepted twice.
  lemma NeverTwice(attempts: seq<Attempt>, window: int, i: nat, j: nat)
    requires Orderly(attempts, window) && i < j < |attempts|
    requires Accepted(attempts, window, i) && Accepted(attempts, window, j)
    ensures (attempts[i].jti, attempts[i].iat) != (attempts[j].jti, attempts[j].iat)
    ensures attempts[i].jti == attempts[j].jti ==> attempts[j].now > attempts[i].iat + window
  {
    AcceptedExactly(attempts, window, j);
    assert !Blocks(attempts, window, i, attempts[j].jti, attempts[j].now);
    hide Accepted;
  }
}
