// Whole runs of the in-flight tables: any interleaving of requests, responses, notifications,
// timeouts, failed sends and session deletes, one critical section per step.
module InFlightRuns {
  import opened Bytes
  import opened JsonValue
  import opened RequestIds
  import opened InFlight

  // A POST keeps what it registered with; `routed` lists the frames of the notifications that
  // addressed it, and `delivered` what its answer carried once it is finished.
  datatype Phase = Waiting | Delivered(frames: seq<nat>) | Refused

  datatype Post = Post(
    session: bytes, id: RequestId, hold: bool, token: Option<bytes>, filter: Option<ListenFilter>,
    phase: Phase, completions: nat, erased: bool, routed: seq<nat>)

  // `doomed`: promises EraseSession has taken out of the table and not yet completed.
  // `clock` numbers the notifications; it is the frame each of them is rendered to.
  datatype World = World(tables: Tables, posts: seq<Post>, doomed: set<nat>, clock: nat)

  datatype Step =
    | Begin(session: bytes, id: RequestId, hold: bool, token: Option<bytes>, filter: Option<ListenFilter>)
    | Refuse(post: nat)
    | Respond(session: bytes, id: RequestId)
    | Notify(session: bytes, kind: Kind)
    | Delete(session: bytes)
    | Abort(post: nat)
    | Finish(post: nat)

  function KeyOf(p: Post): bytes {
    PendingKey(p.session, IdText(p.id))
  }

  const START := World(Tables(map[], {}, map[], map[], map[]), [], {}, 0)

  // In-flight ids are unique by text within a session, and only held-open requests listen.
  // A timeout may strike any waiting POST, also one whose promise was completed meanwhile.
  ghost predicate Enabled(w: World, step: Step) {
    match step
    case Begin(session, id, hold, _, filter) =>
      && (filter.Some? ==> hold)
      && forall i :: 0 <= i < |w.posts| && w.posts[i].phase.Waiting? ==>
           KeyOf(w.posts[i]) != PendingKey(session, IdText(id))
    case Refuse(i) => i < |w.posts| && w.posts[i].phase.Waiting?
    case Respond(_, _) => true
    case Notify(_, _) => true
    case Delete(session) => session != []
    case Abort(i) => i < |w.posts| && i in w.doomed
    case Finish(i) => i < |w.posts| && w.posts[i].phase.Waiting? && w.posts[i].completions > 0
  }

  predicate Streams(p: Post) {
    p.phase.Waiting? && p.hold && !p.erased
  }

  // A held-open POST behind POST `i` brought the same progress token and took its route over.
  predicate TakenOver(posts: seq<Post>, i: nat, token: bytes) {
    exists j :: i < j < |posts| && posts[j].hold && posts[j].token == Some(token)
  }

  predicate Expects(posts: seq<Post>, i: nat, token: bytes)
    requires i < |posts|
  {
    posts[i].token == Some(token) && !TakenOver(posts, i, token)
  }

  // A notification addresses a POST that is still waiting, holds its answer open, has the right
  // session, and wants this kind; progress goes to the last held-open request with its token.
  predicate Addresses(posts: seq<Post>, n: Notification, i: nat)
    requires i < |posts|
  {
    var p := posts[i];
    && Streams(p)
    && (n.session == [] || n.session == p.session)
    && match n.kind
       case Progress(Some(token)) => Expects(posts, i, token)
       case LogOrAcknowledged => true
       case _ => p.filter.Some? && FilterWants(p.filter.value, n.kind)
  }

  function Complete(posts: seq<Post>, i: nat): seq<Post> {
    if i < |posts| then posts[i := posts[i].(completions := posts[i].completions + 1)] else posts
  }

  ghost function Apply(w: World, step: Step): World
    requires Enabled(w, step)
  {
    match step
    case Begin(session, id, hold, token, filter) =>
      var key := PendingKey(session, IdText(id));
      var p := Post(session, id, hold, token, filter, Waiting, 0, false, []);
      w.(tables := Registered(w.tables, key, Pending(id, |w.posts|), hold, token, filter), posts := w.posts + [p])
    case Refuse(i) =>
      w.(tables := GivenUp(w.tables, KeyOf(w.posts[i])), posts := w.posts[i := w.posts[i].(phase := Refused)])
    case Respond(session, id) =>
      (match Matched(w.tables, session, id)
       case None => w
       case Some(key) =>
         w.(tables := w.tables.(pending := w.tables.pending - {key}),
            posts := if key in w.tables.pending then Complete(w.posts, w.tables.pending[key].promise) else w.posts))
    case Notify(session, kind) =>
      var n := Notification(session, kind, w.clock);
      var posts := seq(|w.posts|, i requires 0 <= i < |w.posts| =>
        if Addresses(w.posts, n, i) then w.posts[i].(routed := w.posts[i].routed + [w.clock]) else w.posts[i]);
      World(if IsBuffered(w.tables, n) then Buffered(w.tables, n) else w.tables, posts, w.doomed, w.clock + 1)
    case Delete(session) =>
      var posts := seq(|w.posts|, i requires 0 <= i < |w.posts| =>
        if w.posts[i].session == session then w.posts[i].(erased := true) else w.posts[i]);
      var taken := AbandonedBy(w.tables, session);
      w.(tables := SessionErased(w.tables, session), posts := posts,
         doomed := w.doomed + set k | k in taken :: taken[k].promise)
    case Abort(i) =>
      w.(posts := Complete(w.posts, i), doomed := w.doomed - {i})
    case Finish(i) =>
      var p := w.posts[i];
      var frames := if p.hold then FramesOf(w.tables, KeyOf(p)) else [];
      w.(tables := if p.hold then StreamErased(w.tables, KeyOf(p)) else w.tables,
         posts := w.posts[i := p.(phase := Delivered(frames))])
  }

  // ---- The invariant ----------------------------------------------------------------------------

  predicate UniqueKeys(w: World) {
    forall i, j :: 0 <= i < j < |w.posts| && w.posts[i].phase.Waiting? && w.posts[j].phase.Waiting? ==>
      KeyOf(w.posts[i]) != KeyOf(w.posts[j])
  }

  // Promises: whoever still holds one finds it uncompleted, and nobody else holds it.
  predicate PromisesHeldOnce(w: World) {
    && (forall k :: k in w.tables.pending ==>
          var i := w.tables.pending[k].promise;
          i < |w.posts| && w.posts[i].phase.Waiting? && w.posts[i].completions == 0 && i !in w.doomed
            && k == KeyOf(w.posts[i]))
    && (forall i :: i in w.doomed ==> i < |w.posts| && w.posts[i].completions == 0 && w.posts[i].erased)
    && (forall i :: 0 <= i < |w.posts| ==> w.posts[i].completions <= 1)
  }

  // A waiting POST whose promise is open will still find someone to complete it.
  predicate NoPromiseLost(w: World) {
    forall i :: 0 <= i < |w.posts| && w.posts[i].phase.Waiting? && w.posts[i].completions == 0 && i !in w.doomed ==>
      KeyOf(w.posts[i]) in w.tables.pending && w.tables.pending[KeyOf(w.posts[i])].promise == i
  }

  // Every held key is the key of a waiting, held-open, not erased POST.
  ghost predicate HoldIsOwned(w: World) {
    forall k :: k in w.tables.hold ==> exists i :: 0 <= i < |w.posts| && Streams(w.posts[i]) && KeyOf(w.posts[i]) == k
  }

  predicate MentionOnlyHeld(t: Tables) {
    && t.frames.Keys <= t.hold
    && t.filters.Keys <= t.hold
    && forall token :: token in t.routes ==> t.routes[token] in t.hold
  }

  predicate Increasing(xs: seq<nat>, bound: nat) {
    && (forall i, j :: 0 <= i < j < |xs| ==> xs[i] < xs[j])
    && (forall i :: 0 <= i < |xs| ==> xs[i] < bound)
  }

  // The tables' entries for a streaming POST: held, with its own filter, and with a buffer that
  // is the list of notifications that addressed it.
  predicate EntriesMatch(t: Tables, p: Post) {
    var key := KeyOf(p);
    && key in t.hold
    && (p.filter.Some? <==> key in t.filters)
    && (p.filter.Some? ==> key in t.filters && t.filters[key] == p.filter.value)
    && FramesOf(t, key) == p.routed
  }

  // An answer carries all that was routed, once and in order, or nothing if the session is gone.
  predicate AnswerMatches(p: Post) {
    p.phase.Delivered? ==> p.phase.frames == p.routed || (p.erased && p.phase.frames == [])
  }

  predicate PostOk(t: Tables, p: Post, clock: nat) {
    && (Streams(p) ==> EntriesMatch(t, p))
    && (p.hold && p.phase.Waiting? && p.erased ==> KeyOf(p) !in t.hold)
    && (!p.hold ==> p.routed == [])
    && AnswerMatches(p)
    && Increasing(p.routed, clock)
  }

  predicate PostsOk(w: World) {
    forall i :: 0 <= i < |w.posts| ==> PostOk(w.tables, w.posts[i], w.clock)
  }

  predicate Routed(t: Tables, p: Post, token: bytes) {
    token in t.routes && t.routes[token] == KeyOf(p)
  }

  // A streaming POST has the route of its own token, unless a later one took it over, and no other.
  ghost predicate RoutesOk(w: World) {
    forall i, token :: 0 <= i < |w.posts| && Streams(w.posts[i]) ==>
      (Routed(w.tables, w.posts[i], token) <==> Expects(w.posts, i, token))
  }

  ghost predicate Inv(w: World) {
    && UniqueKeys(w) && PromisesHeldOnce(w) && NoPromiseLost(w)
    && HoldIsOwned(w) && MentionOnlyHeld(w.tables) && PostsOk(w) && RoutesOk(w)
  }

  // ---- Steps keep the invariant -----------------------------------------------------------------

  lemma BelongsBySession(session: bytes, p: Post)
    ensures Belongs(session, KeyOf(p)) <==> session == [] || session == p.session
  {
    SessionPrefixIsExact(session, p.session, IdText(p.id));
  }

  // The table lookup of a notification's targets finds exactly the POSTs it addresses.
  lemma TargetsAreAddressed(w: World, n: Notification, i: nat)
    requires MentionOnlyHeld(w.tables) && PostsOk(w) && RoutesOk(w) && i < |w.posts| && Streams(w.posts[i])
    ensures KeyOf(w.posts[i]) in Targets(w.tables, n) <==> Addresses(w.posts, n, i)
  {
    var p := w.posts[i];
    assert PostOk(w.tables, p, w.clock);
    BelongsBySession(n.session, p);
    if n.kind.Progress? && n.kind.token.Some? {
      assert Routed(w.tables, p, n.kind.token.value) <==> Expects(w.posts, i, n.kind.token.value);
    }
    hide KeyOf, Belongs, FilterWants, Expects, PostsOk, RoutesOk;
  }

  lemma AddressedStreams(posts: seq<Post>, n: Notification, i: nat)
    requires i < |posts|
    ensures Addresses(posts, n, i) ==> Streams(posts[i])
  {
    hide Expects, FilterWants;
  }

  // ---- Routes of progress tokens ------------------------------------------------------------------

  lemma ExpectsAsBefore(posts: seq<Post>, posts': seq<Post>, i: nat, token: bytes)
    requires |posts'| == |posts| && i < |posts|
    requires forall j :: 0 <= j < |posts| ==> posts'[j].hold == posts[j].hold && posts'[j].token == posts[j].token
    ensures Expects(posts', i, token) <==> Expects(posts, i, token)
  {
  }

  // Steps that neither add a POST nor give or take the route of one that still streams.
  lemma RoutesKept(w: World, w': World)
    requires RoutesOk(w) && |w'.posts| == |w.posts|
    requires forall j :: 0 <= j < |w.posts| ==>
             w'.posts[j].hold == w.posts[j].hold && w'.posts[j].token == w.posts[j].token
    requires forall j :: 0 <= j < |w.posts| && Streams(w'.posts[j]) ==> Streams(w.posts[j])
    requires forall j, token :: 0 <= j < |w.posts| && Streams(w'.posts[j]) ==>
               (Routed(w'.tables, w'.posts[j], token) <==> Routed(w.tables, w.posts[j], token))
    ensures RoutesOk(w')
  {
    hide Expects, Streams, Routed;
    forall i, token | 0 <= i < |w'.posts| && Streams(w'.posts[i])
      ensures Routed(w'.tables, w'.posts[i], token) <==> Expects(w'.posts, i, token)
    {
      ExpectsAsBefore(w.posts, w'.posts, i, token);
    }
  }

  // The same tables of routes and the same keys.
  lemma SameRoutes(w: World, w': World)
    requires RoutesOk(w) && |w'.posts| == |w.posts| && w'.tables.routes == w.tables.routes
    requires forall j :: 0 <= j < |w.posts| ==>
               && w'.posts[j].hold == w.posts[j].hold && w'.posts[j].token == w.posts[j].token
               && w'.posts[j].session == w.posts[j].session && w'.posts[j].id == w.posts[j].id
    requires forall j :: 0 <= j < |w.posts| && Streams(w'.posts[j]) ==> Streams(w.posts[j])
    ensures RoutesOk(w')
  {
    SameKeys(w.posts, w'.posts);
    hide KeyOf, RoutesOk, Streams;
    RoutesKept(w, w');
  }

  lemma BeginRoutes(w: World, w': World, step: Step, key: bytes)
    requires Begins(w, w', step, key) && HoldIsOwned(w) && MentionOnlyHeld(w.tables) && RoutesOk(w)
    ensures RoutesOk(w')
  {
    var n, p := |w.posts|, FreshPost(step);
    BeginHold(w, w', step, key);
    assert forall i :: 0 <= i < n && Streams(w.posts[i]) ==> KeyOf(w.posts[i]) != key;
    hide KeyOf, HoldIsOwned, Streams, FreshPost;
    assert w'.posts[n] == p && forall i :: 0 <= i < n ==> w'.posts[i] == w.posts[i];
    forall i, token | 0 <= i < |w'.posts| && Streams(w'.posts[i])
      ensures Routed(w'.tables, w'.posts[i], token) <==> Expects(w'.posts, i, token)
    {
      if i < n {
        assert Routed(w.tables, w.posts[i], token) <==> Expects(w.posts, i, token);
        hide RoutesOk;
        ExpectsWithOneMore(w.posts, p, i, token);
        OldRoute(w, w', step, key, w.posts[i], token);
      } else {
        assert !TakenOver(w'.posts, n, token);
        NewRoute(w, w', step, key, token);
      }
    }
  }

  lemma OldRoute(w: World, w': World, step: Step, key: bytes, p: Post, token: bytes)
    requires Begins(w, w', step, key) && KeyOf(p) != key
    ensures Routed(w'.tables, p, token) <==> Routed(w.tables, p, token) && !(step.hold && step.token == Some(token))
  {
    hide KeyOf;
  }

  lemma NewRoute(w: World, w': World, step: Step, key: bytes, token: bytes)
    requires Begins(w, w', step, key) && key !in w.tables.hold && MentionOnlyHeld(w.tables) && step.hold
    ensures Routed(w'.tables, FreshPost(step), token) <==> step.token == Some(token)
  {
    hide KeyOf;
  }

  lemma ExpectsWithOneMore(posts: seq<Post>, p: Post, i: nat, token: bytes)
    requires i < |posts|
    ensures Expects(posts + [p], i, token) <==> Expects(posts, i, token) && !(p.hold && p.token == Some(token))
  {
    var posts' := posts + [p];
    if TakenOver(posts, i, token) {
      var j :| i < j < |posts| && posts[j].hold && posts[j].token == Some(token);
      assert posts'[j] == posts[j];
    } else {
      assert forall j :: i < j < |posts| ==>
             posts'[j] == posts[j] && !(posts'[j].hold && posts'[j].token == Some(token));
      assert posts'[|posts|] == p;
    }
  }

  // Held keys stay owned when the table shrinks to the keys of those that still stream.
  lemma HoldShrinks(w: World, w': World)
    requires HoldIsOwned(w) && |w'.posts| == |w.posts| && w'.tables.hold <= w.tables.hold
    requires forall j :: 0 <= j < |w.posts| ==> KeyOf(w'.posts[j]) == KeyOf(w.posts[j])
    requires forall j :: 0 <= j < |w.posts| && Streams(w.posts[j]) && !Streams(w'.posts[j]) ==>
             KeyOf(w.posts[j]) !in w'.tables.hold
    ensures HoldIsOwned(w')
  {
    hide KeyOf, Streams;
    forall k | k in w'.tables.hold
      ensures exists j :: 0 <= j < |w'.posts| && Streams(w'.posts[j]) && KeyOf(w'.posts[j]) == k
    {
      var j :| 0 <= j < |w.posts| && Streams(w.posts[j]) && KeyOf(w.posts[j]) == k;
      assert Streams(w'.posts[j]);
    }
  }

  function FreshPost(step: Step): Post
    requires step.Begin?
  {
    Post(step.session, step.id, step.hold, step.token, step.filter, Waiting, 0, false, [])
  }

  // A new POST behind the others, registered under a key that no waiting POST has.
  ghost predicate Begins(w: World, w': World, step: Step, key: bytes) {
    && step.Begin? && KeyOf(FreshPost(step)) == key && (step.filter.Some? ==> step.hold)
    && w'.tables == Registered(w.tables, key, Pending(step.id, |w.posts|), step.hold, step.token, step.filter)
    && w'.posts == w.posts + [FreshPost(step)] && w'.doomed == w.doomed && w'.clock == w.clock
    && forall i :: 0 <= i < |w.posts| && w.posts[i].phase.Waiting? ==> KeyOf(w.posts[i]) != key
  }

  lemma BeginShape(w: World, step: Step)
    requires step.Begin? && Enabled(w, step)
    ensures Begins(w, Apply(w, step), step, PendingKey(step.session, IdText(step.id)))
  {
    hide PendingKey, IdText, Registered;
  }

  lemma BeginPromises(w: World, w': World, step: Step, key: bytes)
    requires Begins(w, w', step, key) && UniqueKeys(w) && PromisesHeldOnce(w) && NoPromiseLost(w)
    ensures UniqueKeys(w') && PromisesHeldOnce(w') && NoPromiseLost(w')
  {
    hide KeyOf;
    assert w'.posts[|w.posts|] == FreshPost(step) && forall i :: 0 <= i < |w.posts| ==> w'.posts[i] == w.posts[i];
  }

  lemma BeginStreams(w: World, w': World, step: Step, key: bytes)
    requires Begins(w, w', step, key) && HoldIsOwned(w) && MentionOnlyHeld(w.tables) && PostsOk(w)
    ensures HoldIsOwned(w') && MentionOnlyHeld(w'.tables) && PostsOk(w')
  {
    hide KeyOf, PostOk;
    BeginHold(w, w', step, key);
    hide HoldIsOwned, Streams;
    assert w'.posts[|w.posts|] == FreshPost(step) && forall i :: 0 <= i < |w.posts| ==> w'.posts[i] == w.posts[i];
    forall i | 0 <= i < |w.posts| ensures PostOk(w'.tables, w.posts[i], w.clock) {
      assert PostOk(w.tables, w.posts[i], w.clock);
      OtherPost(w, w', step, key, w.posts[i]);
    }
    NewPost(w, w', step, key);
  }

  lemma BeginHold(w: World, w': World, step: Step, key: bytes)
    requires Begins(w, w', step, key) && HoldIsOwned(w)
    ensures HoldIsOwned(w') && key !in w.tables.hold
  {
    hide KeyOf;
    HeldStreams(FreshPost(step), step);
    assert forall i :: 0 <= i < |w.posts| && Streams(w.posts[i]) ==> KeyOf(w.posts[i]) != key;
    hide Streams;
    var n := |w.posts|;
    assert w'.posts[n] == FreshPost(step) && forall i :: 0 <= i < n ==> w'.posts[i] == w.posts[i];
    forall k | k in w'.tables.hold
      ensures exists i :: 0 <= i < |w'.posts| && Streams(w'.posts[i]) && KeyOf(w'.posts[i]) == k
    {
      if k in w.tables.hold {
        var i :| 0 <= i < n && Streams(w.posts[i]) && KeyOf(w.posts[i]) == k;
        assert Streams(w'.posts[i]);
      } else {
        assert Streams(w'.posts[n]) && KeyOf(w'.posts[n]) == k;
      }
    }
  }

  lemma OtherPost(w: World, w': World, step: Step, key: bytes, p: Post)
    requires Begins(w, w', step, key) && PostOk(w.tables, p, w.clock)
    requires p.phase.Waiting? ==> KeyOf(p) != key
    ensures PostOk(w'.tables, p, w.clock)
  {
    hide KeyOf, AnswerMatches, Increasing;
  }

  lemma NewPost(w: World, w': World, step: Step, key: bytes)
    requires Begins(w, w', step, key) && key !in w.tables.hold && MentionOnlyHeld(w.tables)
    ensures PostOk(w'.tables, FreshPost(step), w.clock)
  {
    hide KeyOf;
  }

  lemma HeldStreams(p: Post, step: Step)
    requires step.Begin? && p == FreshPost(step)
    ensures step.hold ==> Streams(p)
  {
  }

  // Ending POST `i` takes its key, and only its key, out of the stream tables.
  ghost predicate Ends(w: World, w': World, i: nat) {
    && i < |w.posts| && w.posts[i].phase.Waiting?
    && |w'.posts| == |w.posts| && w'.doomed == w.doomed && w'.clock == w.clock
    && (forall j :: 0 <= j < |w.posts| && j != i ==> w'.posts[j] == w.posts[j])
    && w'.posts[i] == w.posts[i].(phase := w'.posts[i].phase) && !w'.posts[i].phase.Waiting?
  }

  lemma EndPromises(w: World, w': World, i: nat)
    requires Ends(w, w', i) && UniqueKeys(w) && PromisesHeldOnce(w) && NoPromiseLost(w)
    requires w'.tables.pending == w.tables.pending - {KeyOf(w.posts[i])} ||
             (w'.tables.pending == w.tables.pending && w.posts[i].completions > 0)
    ensures UniqueKeys(w') && PromisesHeldOnce(w') && NoPromiseLost(w')
  {
    hide KeyOf;
    SameKeys(w.posts, w'.posts);
    UniqueStays(w, w');
    OtherKeys(w, i);
    hide UniqueKeys, PromisesHeldOnce, NoPromiseLost, Ends;
    EndHeld(w, w', i);
    EndNotLost(w, w', i);
  }

  lemma OtherKeys(w: World, i: nat)
    requires UniqueKeys(w) && i < |w.posts| && w.posts[i].phase.Waiting?
    ensures forall j :: 0 <= j < |w.posts| && j != i && w.posts[j].phase.Waiting? ==>
              KeyOf(w.posts[j]) != KeyOf(w.posts[i])
  {
    hide KeyOf;
  }

  lemma EndHeld(w: World, w': World, i: nat)
    requires Ends(w, w', i) && PromisesHeldOnce(w)
    requires w'.tables.pending == w.tables.pending - {KeyOf(w.posts[i])} ||
             (w'.tables.pending == w.tables.pending && w.posts[i].completions > 0)
    ensures PromisesHeldOnce(w')
  {
    SameKeys(w.posts, w'.posts);
    hide KeyOf;
  }

  lemma EndNotLost(w: World, w': World, i: nat)
    requires Ends(w, w', i) && NoPromiseLost(w)
    requires forall j :: 0 <= j < |w.posts| && j != i && w.posts[j].phase.Waiting? ==>
               KeyOf(w.posts[j]) != KeyOf(w.posts[i])
    requires w'.tables.pending == w.tables.pending - {KeyOf(w.posts[i])} || w'.tables.pending == w.tables.pending
    ensures NoPromiseLost(w')
  {
    SameKeys(w.posts, w'.posts);
    hide KeyOf;
  }

  lemma SameKeys(posts: seq<Post>, posts': seq<Post>)
    requires |posts'| == |posts|
    requires forall j :: 0 <= j < |posts| ==> posts'[j].session == posts[j].session && posts'[j].id == posts[j].id
    ensures forall j :: 0 <= j < |posts| ==> KeyOf(posts'[j]) == KeyOf(posts[j])
  {
  }

  lemma UniqueStays(w: World, w': World)
    requires UniqueKeys(w) && |w'.posts| == |w.posts|
    requires forall j :: 0 <= j < |w.posts| ==> KeyOf(w'.posts[j]) == KeyOf(w.posts[j])
    requires forall j :: 0 <= j < |w.posts| && w'.posts[j].phase.Waiting? ==> w.posts[j].phase.Waiting?
    ensures UniqueKeys(w')
  {
    hide KeyOf;
  }

  lemma EndStreams(w: World, w': World, i: nat)
    requires Ends(w, w', i) && UniqueKeys(w) && HoldIsOwned(w) && MentionOnlyHeld(w.tables) && PostsOk(w)
    requires w'.tables == StreamErased(w.tables, KeyOf(w.posts[i])).(pending := w'.tables.pending) ||
             (!w.posts[i].hold && w'.tables == w.tables.(pending := w'.tables.pending))
    requires w'.posts[i].phase.Delivered? ==>
               w'.posts[i].phase.frames == if w.posts[i].hold then FramesOf(w.tables, KeyOf(w.posts[i])) else []
    ensures HoldIsOwned(w') && MentionOnlyHeld(w'.tables) && PostsOk(w')
  {
    hide KeyOf, PostOk, HoldIsOwned;
    SameKeys(w.posts, w'.posts);
    OtherKeys(w, i);
    hide UniqueKeys;
    forall j | 0 <= j < |w.posts| ensures PostOk(w'.tables, w'.posts[j], w'.clock) {
      assert PostOk(w.tables, w.posts[j], w.clock);
      EndPost(w.tables, w'.tables, w.posts[i], w.posts[j], w'.posts[j], w.clock, j == i);
    }
    HoldShrinks(w, w');
  }

  lemma EndPost(t: Tables, t': Tables, ended: Post, p: Post, p': Post, clock: nat, same: bool)
    requires PostOk(t, p, clock) && ended.phase.Waiting?
    requires t' == StreamErased(t, KeyOf(ended)).(pending := t'.pending) ||
             (!ended.hold && t' == t.(pending := t'.pending))
    requires if same then ended == p && p' == p.(phase := p'.phase) && !p'.phase.Waiting? else p' == p
    requires !same && p.phase.Waiting? ==> KeyOf(p) != KeyOf(ended)
    requires same && p'.phase.Delivered? ==> p'.phase.frames == if p.hold then FramesOf(t, KeyOf(p)) else []
    requires t.frames.Keys <= t.hold
    ensures PostOk(t', p', clock)
  {
    assert KeyOf(p') == KeyOf(p);
    hide KeyOf;
  }

  lemma EndRoutes(w: World, w': World, i: nat)
    requires Ends(w, w', i) && UniqueKeys(w) && RoutesOk(w)
    requires w'.tables == StreamErased(w.tables, KeyOf(w.posts[i])).(pending := w'.tables.pending) ||
             w'.tables == w.tables.(pending := w'.tables.pending)
    ensures RoutesOk(w')
  {
    SameKeys(w.posts, w'.posts);
    hide KeyOf, RoutesOk;
    assert forall j :: 0 <= j < |w.posts| && j != i && w.posts[j].phase.Waiting? ==>
           KeyOf(w.posts[j]) != KeyOf(w.posts[i]);
    hide UniqueKeys;
    RoutesKept(w, w');
  }

  lemma FinishKeeps(w: World, i: nat)
    requires Inv(w) && Enabled(w, Finish(i))
    ensures Inv(Apply(w, Finish(i)))
  {
    var w' := Apply(w, Finish(i));
    hide KeyOf, UniqueKeys, PromisesHeldOnce, NoPromiseLost, HoldIsOwned, MentionOnlyHeld, PostsOk, RoutesOk;
    assert Ends(w, w', i);
    EndPromises(w, w', i);
    EndStreams(w, w', i);
    EndRoutes(w, w', i);
  }

  lemma RefuseKeeps(w: World, i: nat)
    requires Inv(w) && Enabled(w, Refuse(i))
    ensures Inv(Apply(w, Refuse(i)))
  {
    var w' := Apply(w, Refuse(i));
    hide KeyOf, UniqueKeys, PromisesHeldOnce, NoPromiseLost, HoldIsOwned, MentionOnlyHeld, PostsOk, RoutesOk;
    assert Ends(w, w', i);
    EndPromises(w, w', i);
    EndStreams(w, w', i);
    EndRoutes(w, w', i);
  }

  // Only the completion count of POST `i` changes, and nobody holds its promise any more.
  ghost predicate Completes(w: World, w': World, i: nat) {
    && i < |w.posts| && w'.clock == w.clock && w'.posts == Complete(w.posts, i)
    && w'.tables == w.tables.(pending := w'.tables.pending)
    && (forall k :: k in w'.tables.pending ==> k in w.tables.pending && w'.tables.pending[k] == w.tables.pending[k])
    && (forall k :: k in w.tables.pending && k !in w'.tables.pending ==> w.tables.pending[k].promise == i)
    && (forall k :: k in w'.tables.pending ==> w'.tables.pending[k].promise != i)
    && w'.doomed == w.doomed - {i}
  }

  lemma CompletePromises(w: World, w': World, i: nat)
    requires Completes(w, w', i) && w.posts[i].completions == 0
    requires UniqueKeys(w) && PromisesHeldOnce(w) && NoPromiseLost(w)
    ensures UniqueKeys(w') && PromisesHeldOnce(w') && NoPromiseLost(w')
  {
    hide KeyOf, UniqueKeys;
    SameKeys(w.posts, w'.posts);
    UniqueStays(w, w');
  }

  lemma CompleteStreams(w: World, w': World, i: nat)
    requires Completes(w, w', i) && HoldIsOwned(w) && MentionOnlyHeld(w.tables) && PostsOk(w) && RoutesOk(w)
    ensures HoldIsOwned(w') && MentionOnlyHeld(w'.tables) && PostsOk(w') && RoutesOk(w')
  {
    assert forall j :: 0 <= j < |w.posts| ==> w'.posts[j] == w.posts[j].(completions := w'.posts[j].completions);
    forall j | 0 <= j < |w.posts|
      ensures PostOk(w'.tables, w'.posts[j], w'.clock) && KeyOf(w'.posts[j]) == KeyOf(w.posts[j])
    {
      PostIgnoresPromises(w.tables, w'.tables.pending, w.posts[j], w'.posts[j].completions, w.clock);
    }
    hide PostOk, KeyOf, RoutesOk;
    HoldShrinks(w, w');
    SameRoutes(w, w');
  }

  lemma PostIgnoresPromises(t: Tables, pending: map<bytes, Pending>, p: Post, completions: nat, clock: nat)
    requires PostOk(t, p, clock)
    ensures PostOk(t.(pending := pending), p.(completions := completions), clock)
  {
  }

  lemma RespondKeeps(w: World, session: bytes, id: RequestId)
    requires Inv(w)
    ensures Inv(Apply(w, Respond(session, id)))
  {
    hide Matched, Apply, Inv, Completes, KeyOf, UniqueKeys, PromisesHeldOnce, NoPromiseLost, HoldIsOwned,
         MentionOnlyHeld, PostsOk, RoutesOk;
    if Matched(w.tables, session, id).None? {
      NobodyWaits(w, session, id);
    } else {
      var i := RespondCompletes(w, session, id);
      InvParts(w);
      CompletePromises(w, Apply(w, Respond(session, id)), i);
      CompleteStreams(w, Apply(w, Respond(session, id)), i);
      InvParts(Apply(w, Respond(session, id)));
    }
  }

  lemma InvParts(w: World)
    ensures Inv(w) <==>
            && UniqueKeys(w) && PromisesHeldOnce(w) && NoPromiseLost(w)
            && HoldIsOwned(w) && MentionOnlyHeld(w.tables) && PostsOk(w) && RoutesOk(w)
  {
    hide UniqueKeys, PromisesHeldOnce, NoPromiseLost, HoldIsOwned, MentionOnlyHeld, PostsOk, RoutesOk;
  }

  lemma NobodyWaits(w: World, session: bytes, id: RequestId)
    requires Matched(w.tables, session, id).None?
    ensures Apply(w, Respond(session, id)) == w
  {
    hide Matched;
  }

  lemma RespondCompletes(w: World, session: bytes, id: RequestId) returns (i: nat)
    requires Matched(w.tables, session, id).Some? && Inv(w)
    ensures Completes(w, Apply(w, Respond(session, id)), i) && w.posts[i].completions == 0
  {
    MatchedIsPending(w.tables, session, id);
    hide Matched, KeyOf, UniqueKeys, NoPromiseLost, HoldIsOwned, MentionOnlyHeld, PostsOk, RoutesOk;
    var key := Matched(w.tables, session, id).value;
    i := w.tables.pending[key].promise;
    assert forall k :: k in w.tables.pending && w.tables.pending[k].promise == i ==> k == key;
  }

  lemma AbortKeeps(w: World, i: nat)
    requires Inv(w) && Enabled(w, Abort(i))
    ensures Inv(Apply(w, Abort(i)))
  {
    var w' := Apply(w, Abort(i));
    assert Completes(w, w', i) && w.posts[i].completions == 0;
    hide KeyOf, UniqueKeys, PromisesHeldOnce, NoPromiseLost, HoldIsOwned, MentionOnlyHeld, PostsOk, RoutesOk;
    CompletePromises(w, w', i);
    CompleteStreams(w, w', i);
  }

  lemma MatchedIsPending(t: Tables, session: bytes, id: RequestId)
    ensures Matched(t, session, id).Some? ==> Matched(t, session, id).value in t.pending
  {
  }

  lemma TargetsAreHeld(t: Tables, n: Notification)
    ensures Targets(t, n) <= t.hold
  {
  }

  // A notification changes nothing but buffers, routed lists and the clock.
  ghost predicate Notifies(w: World, w': World, n: Notification) {
    && n.frame == w.clock && w'.clock == w.clock + 1 && w'.doomed == w.doomed && |w'.posts| == |w.posts|
    && w'.tables == (if IsBuffered(w.tables, n) then Buffered(w.tables, n) else w.tables)
    && forall j :: 0 <= j < |w.posts| ==>
         && w'.posts[j] == w.posts[j].(routed := w'.posts[j].routed)
         && w'.posts[j].routed == if Addresses(w.posts, n, j) then w.posts[j].routed + [w.clock] else w.posts[j].routed
  }

  lemma NotifyShape(w: World, step: Step)
    requires step.Notify?
    ensures Notifies(w, Apply(w, step), Notification(step.session, step.kind, w.clock))
  {
    hide Addresses, IsBuffered, Buffered;
  }

  lemma NotifyPromises(w: World, w': World, n: Notification)
    requires Notifies(w, w', n) && UniqueKeys(w) && PromisesHeldOnce(w) && NoPromiseLost(w)
    ensures UniqueKeys(w') && PromisesHeldOnce(w') && NoPromiseLost(w')
  {
    hide Addresses, IsBuffered;
    SameKeys(w.posts, w'.posts);
    hide KeyOf;
    UniqueStays(w, w');
    assert w'.tables.pending == w.tables.pending;
    hide UniqueKeys, Buffered;
  }

  lemma NotifyStreams(w: World, w': World, n: Notification)
    requires Notifies(w, w', n) && HoldIsOwned(w) && MentionOnlyHeld(w.tables) && PostsOk(w) && RoutesOk(w)
    ensures HoldIsOwned(w') && MentionOnlyHeld(w'.tables) && PostsOk(w') && RoutesOk(w')
  {
    hide KeyOf, PostOk, Addresses, Buffered, IsBuffered, RoutesOk, HoldIsOwned, MentionOnlyHeld, PostsOk;
    NotifyTables(w.tables, n);
    SameKeys(w.posts, w'.posts);
    HoldShrinks(w, w');
    SameRoutes(w, w');
    forall j | 0 <= j < |w.posts| ensures PostOk(w'.tables, w'.posts[j], w'.clock) { NotifyPost(w, n, j); }
    AllPostsOk(w');
  }

  lemma AllPostsOk(w: World)
    requires forall j :: 0 <= j < |w.posts| ==> PostOk(w.tables, w.posts[j], w.clock)
    ensures PostsOk(w)
  {
    hide PostOk;
  }

  lemma NotifyTables(t: Tables, n: Notification)
    requires MentionOnlyHeld(t)
    ensures Buffered(t, n).hold == t.hold && Buffered(t, n).routes == t.routes && MentionOnlyHeld(Buffered(t, n))
  {
    TargetsAreHeld(t, n);
    hide Targets;
  }

  lemma NotifyPost(w: World, n: Notification, j: nat)
    requires j < |w.posts| && MentionOnlyHeld(w.tables) && PostsOk(w) && RoutesOk(w) && n.frame == w.clock
    ensures var p := w.posts[j];
            PostOk(if IsBuffered(w.tables, n) then Buffered(w.tables, n) else w.tables,
                   if Addresses(w.posts, n, j) then p.(routed := p.routed + [w.clock]) else p, w.clock + 1)
  {
    var p := w.posts[j];
    assert PostOk(w.tables, p, w.clock);
    AddressedStreams(w.posts, n, j);
    if Streams(p) {
      TargetsAreAddressed(w, n, j);
    }
    assert KeyOf(p.(routed := p.routed + [w.clock])) == KeyOf(p);
    hide KeyOf, Targets, Addresses, PostsOk;
  }

  lemma NotifyKeeps(w: World, session: bytes, kind: Kind)
    requires Inv(w)
    ensures Inv(Apply(w, Notify(session, kind)))
  {
    hide UniqueKeys, PromisesHeldOnce, NoPromiseLost, HoldIsOwned, MentionOnlyHeld, PostsOk, RoutesOk, Apply, Notifies;
    var n := Notification(session, kind, w.clock);
    NotifyShape(w, Notify(session, kind));
    NotifyPromises(w, Apply(w, Notify(session, kind)), n);
    NotifyStreams(w, Apply(w, Notify(session, kind)), n);
  }

  // Deleting a session marks its POSTs and touches no key of another session.
  ghost predicate Deletes(w: World, w': World, session: bytes) {
    var prefix := SessionPrefix(session);
    && |w'.posts| == |w.posts| && w'.clock == w.clock
    && w'.tables == SessionErased(w.tables, session)
    && w'.doomed == w.doomed + (set k | k in w.tables.pending && StartsWith(k, prefix) :: w.tables.pending[k].promise)
    && (forall j :: 0 <= j < |w.posts| ==>
          && w'.posts[j] == (if w.posts[j].session == session then w.posts[j].(erased := true) else w.posts[j])
          && KeyOf(w'.posts[j]) == KeyOf(w.posts[j])
          && (StartsWith(KeyOf(w.posts[j]), prefix) <==> w.posts[j].session == session))
  }

  lemma DoomedPromises(t: Tables, session: bytes)
    ensures (set k | k in AbandonedBy(t, session) :: AbandonedBy(t, session)[k].promise) ==
            (set k | k in t.pending && StartsWith(k, SessionPrefix(session)) :: t.pending[k].promise)
  {
    hide StartsWith, SessionPrefix;
    var taken := AbandonedBy(t, session);
    assert forall k :: k in taken <==> k in t.pending && StartsWith(k, SessionPrefix(session));
    assert forall k :: k in taken ==> taken[k] == t.pending[k];
    var a := set k | k in taken :: taken[k].promise;
    var b := set k | k in t.pending && StartsWith(k, SessionPrefix(session)) :: t.pending[k].promise;
    forall x | x in b ensures x in a {
      var k :| k in t.pending && StartsWith(k, SessionPrefix(session)) && t.pending[k].promise == x;
      assert k in taken && taken[k].promise == x;
    }
  }

  lemma DeleteShape(w: World, session: bytes)
    requires session != []
    ensures Deletes(w, Apply(w, Delete(session)), session)
  {
    var w' := Apply(w, Delete(session));
    forall j | 0 <= j < |w.posts|
      ensures StartsWith(KeyOf(w.posts[j]), SessionPrefix(session)) <==> w.posts[j].session == session
    {
      SessionPrefixIsExact(session, w.posts[j].session, IdText(w.posts[j].id));
    }
    hide StartsWith, SessionPrefix;
    DoomedPromises(w.tables, session);
  }

  lemma DeletePromises(w: World, w': World, session: bytes)
    requires Deletes(w, w', session) && UniqueKeys(w) && PromisesHeldOnce(w) && NoPromiseLost(w)
    ensures UniqueKeys(w') && PromisesHeldOnce(w') && NoPromiseLost(w')
  {
    hide KeyOf, StartsWith, SessionPrefix;
  }

  lemma DeleteStreams(w: World, w': World, session: bytes)
    requires Deletes(w, w', session) && HoldIsOwned(w) && MentionOnlyHeld(w.tables) && PostsOk(w) && RoutesOk(w)
    ensures HoldIsOwned(w') && MentionOnlyHeld(w'.tables) && PostsOk(w') && RoutesOk(w')
  {
    hide KeyOf, StartsWith, SessionPrefix, RoutesOk, PostOk;
    DeleteRoutes(w, w', session);
    forall j | 0 <= j < |w.posts| ensures PostOk(w'.tables, w'.posts[j], w'.clock) {
      assert PostOk(w.tables, w.posts[j], w.clock);
      DeletePost(w, w', session, j);
    }
    HoldShrinks(w, w');
  }

  lemma DeletePost(w: World, w': World, session: bytes, j: nat)
    requires Deletes(w, w', session) && j < |w.posts| && PostOk(w.tables, w.posts[j], w.clock)
    ensures PostOk(w'.tables, w'.posts[j], w'.clock)
  {
    hide KeyOf, StartsWith, SessionPrefix, AnswerMatches, Increasing;
    var p, p' := w.posts[j], w'.posts[j];
    assert AnswerMatches(p') && Increasing(p'.routed, w.clock) by { ErasedAnswer(p, w.clock); }
  }

  lemma ErasedAnswer(p: Post, clock: nat)
    ensures AnswerMatches(p) ==> AnswerMatches(p.(erased := true))
    ensures Increasing(p.routed, clock) ==> Increasing(p.(erased := true).routed, clock)
  {
  }

  lemma DeleteRoutes(w: World, w': World, session: bytes)
    requires Deletes(w, w', session) && RoutesOk(w)
    ensures RoutesOk(w')
  {
    hide KeyOf, StartsWith, SessionPrefix, RoutesOk;
    RoutesKept(w, w');
  }

  lemma DeleteKeeps(w: World, session: bytes)
    requires Inv(w) && session != []
    ensures Inv(Apply(w, Delete(session)))
  {
    DeleteShape(w, session);
    hide UniqueKeys, PromisesHeldOnce, NoPromiseLost, HoldIsOwned, MentionOnlyHeld, PostsOk, RoutesOk, Apply, Deletes;
    DeletePromises(w, Apply(w, Delete(session)), session);
    DeleteStreams(w, Apply(w, Delete(session)), session);
  }

  lemma StepKeeps(w: World, step: Step)
    requires Inv(w) && Enabled(w, step)
    ensures Inv(Apply(w, step))
  {
    hide UniqueKeys, PromisesHeldOnce, NoPromiseLost, HoldIsOwned, MentionOnlyHeld, PostsOk, RoutesOk, Apply, Begins,
         PendingKey;
    match step {
      case Begin(session, id, _, _, _) =>
        var w', key := Apply(w, step), PendingKey(session, IdText(id));
        BeginShape(w, step);
        BeginPromises(w, w', step, key);
        BeginStreams(w, w', step, key);
        BeginRoutes(w, w', step, key);
      case Refuse(i) => RefuseKeeps(w, i);
      case Respond(session, id) => RespondKeeps(w, session, id);
      case Notify(session, kind) => NotifyKeeps(w, session, kind);
      case Delete(session) => DeleteKeeps(w, session);
      case Abort(i) => AbortKeeps(w, i);
      case Finish(i) => FinishKeeps(w, i);
    }
  }

  // ---- Runs -------------------------------------------------------------------------------------

  ghost predicate IsRun(w: World, steps: seq<Step>)
    decreases |steps|
  {
    steps != [] ==> Enabled(w, steps[0]) && IsRun(Apply(w, steps[0]), steps[1..])
  }

  ghost function After(w: World, steps: seq<Step>): World
    requires IsRun(w, steps)
    decreases |steps|
  {
    if steps == [] then w else After(Apply(w, steps[0]), steps[1..])
  }

  lemma {:induction false} RunKeeps(w: World, steps: seq<Step>)
    requires Inv(w) && IsRun(w, steps)
    ensures Inv(After(w, steps))
    decreases |steps|
  {
    hide Inv, Apply, Enabled;
    if steps != [] {
      StepKeeps(w, steps[0]);
      RunKeeps(Apply(w, steps[0]), steps[1..]);
    }
  }

  // In every run: each promise is completed at most once; a waiting POST whose promise is open
  // can still be answered; buffers, filters and routes exist for held-open requests only, and a
  // token is routed to the last held-open request that brought it; and an answer carries the
  // notifications that addressed its POST, each once and in order, or none when the session was
  // deleted meanwhile.
  lemma EveryRun(steps: seq<Step>)
    requires IsRun(START, steps)
    ensures var w := After(START, steps);
            && (forall i :: 0 <= i < |w.posts| ==> w.posts[i].completions <= 1)
            && NoPromiseLost(w)
            && MentionOnlyHeld(w.tables) && HoldIsOwned(w) && RoutesOk(w)
            && (forall i :: 0 <= i < |w.posts| ==> AnswerMatches(w.posts[i]) && Increasing(w.posts[i].routed, w.clock))
  {
    assert Inv(START);
    RunKeeps(START, steps);
    hide IsRun, After, MentionOnlyHeld, HoldIsOwned, RoutesOk, NoPromiseLost, AnswerMatches, Increasing;
    var w := After(START, steps);
    forall i | 0 <= i < |w.posts| ensures AnswerMatches(w.posts[i]) && Increasing(w.posts[i].routed, w.clock) {
      assert PostOk(w.tables, w.posts[i], w.clock);
    }
  }

  // The notification numbered `frame` was sent in this run and addressed POST `i` at that moment.
  ghost predicate AddressedDuring(w: World, steps: seq<Step>, i: nat, frame: nat)
    requires IsRun(w, steps)
    decreases |steps|
  {
    steps != [] &&
    (|| (&& steps[0].Notify? && w.clock == frame && i < |w.posts|
         && Addresses(w.posts, Notification(steps[0].session, steps[0].kind, frame), i))
     || AddressedDuring(Apply(w, steps[0]), steps[1..], i, frame))
  }

  lemma StepRoutes(w: World, step: Step, i: nat, frame: nat)
    requires Enabled(w, step)
    ensures var w' := Apply(w, step);
            && |w.posts| <= |w'.posts|
            && (i < |w'.posts| ==>
                  (frame in w'.posts[i].routed <==>
                     || (i < |w.posts| && frame in w.posts[i].routed)
                     || (&& step.Notify? && w.clock == frame && i < |w.posts|
                         && Addresses(w.posts, Notification(step.session, step.kind, frame), i))))
  {
    hide Addresses, Matched, Registered, GivenUp, Buffered, IsBuffered, SessionErased, AbandonedBy, StreamErased, KeyOf;
  }

  lemma {:induction false} RoutedFrom(w: World, steps: seq<Step>, i: nat, frame: nat)
    requires IsRun(w, steps) && i < |After(w, steps).posts|
    ensures frame in After(w, steps).posts[i].routed <==>
            (i < |w.posts| && frame in w.posts[i].routed) || AddressedDuring(w, steps, i, frame)
    decreases |steps|
  {
    hide Apply, Enabled, Addresses;
    if steps != [] {
      StepRoutes(w, steps[0], i, frame);
      RoutedFrom(Apply(w, steps[0]), steps[1..], i, frame);
      if i >= |Apply(w, steps[0]).posts| { NothingRoutedYet(Apply(w, steps[0]), steps[1..], i, frame); }
    }
  }

  lemma NothingRoutedYet(w: World, steps: seq<Step>, i: nat, frame: nat)
    requires IsRun(w, steps) && i >= |w.posts|
    ensures steps != [] ==>
              AddressedDuring(w, steps, i, frame) == AddressedDuring(Apply(w, steps[0]), steps[1..], i, frame)
  {
  }

  // No frame is lost or invented: a buffer in the tables holds exactly the notifications that
  // addressed its POST, and so does the answer, unless the session was deleted meanwhile.
  lemma RoutedExactly(steps: seq<Step>, i: nat, frame: nat)
    requires IsRun(START, steps) && i < |After(START, steps).posts|
    ensures var w := After(START, steps);
            var p := w.posts[i];
            && (Streams(p) ==> (frame in FramesOf(w.tables, KeyOf(p)) <==> AddressedDuring(START, steps, i, frame)))
            && (p.phase.Delivered? && !p.erased ==>
                  (frame in p.phase.frames <==> AddressedDuring(START, steps, i, frame)))
  {
    assert Inv(START);
    RunKeeps(START, steps);
    RoutedFrom(START, steps, i, frame);
    var w := After(START, steps);
    hide IsRun, After, AddressedDuring, KeyOf, FramesOf, UniqueKeys, PromisesHeldOnce, NoPromiseLost, HoldIsOwned,
         MentionOnlyHeld, RoutesOk, Increasing;
    assert PostOk(w.tables, w.posts[i], w.clock);
  }

  // A response that carries a session completes the waiting request of that session with that
  // id text, if its promise is in the table, and no other.
  lemma ResponseFindsItsRequest(w: World, session: bytes, id: RequestId, i: nat)
    requires Inv(w) && session != [] && i < |w.posts|
    ensures var completed := Apply(w, Respond(session, id)).posts[i].completions > w.posts[i].completions;
            completed <==>
              && w.posts[i].phase.Waiting? && w.posts[i].completions == 0 && i !in w.doomed
              && w.posts[i].session == session && IdText(w.posts[i].id) == IdText(id)
  {
    var key := PendingKey(session, IdText(id));
    assert Matched(w.tables, session, id) == if key in w.tables.pending then Some(key) else None;
    if KeyOf(w.posts[i]) == key {
      PendingKeyInjective(w.posts[i].session, IdText(w.posts[i].id), session, IdText(id));
    }
    hide PendingKey, IdText, Matched, HoldIsOwned, PostsOk;
  }

  // ---- Why ids must be unique by text -----------------------------------------------------------

  // Registering keeps every promise reachable exactly when its key is not in use.
  lemma RegisterKeepsPromises(t: Tables, key: bytes, entry: Pending, hold: bool, token: Option<bytes>,
                              filter: Option<ListenFilter>)
    requires forall k, k' :: k in t.pending && k' in t.pending && t.pending[k].promise == t.pending[k'].promise ==>
             k == k'
    requires forall k :: k in t.pending ==> t.pending[k].promise != entry.promise
    ensures key !in t.pending <==>
            forall k :: k in t.pending ==>
              exists k' :: k' in Registered(t, key, entry, hold, token, filter).pending &&
                           Registered(t, key, entry, hold, token, filter).pending[k'].promise == t.pending[k].promise
  {
    var t' := Registered(t, key, entry, hold, token, filter);
    if key !in t.pending {
      forall k | k in t.pending
        ensures exists k' :: k' in t'.pending && t'.pending[k'].promise == t.pending[k].promise
      {
        assert k in t'.pending && t'.pending[k] == t.pending[k];
      }
    }
  }

  // Two stateless clients using the ids 1 and "1": the first promise is lost, and when the first
  // request times out it removes the entry of the second.
  lemma EqualIdTextsCollide()
    ensures var key := PendingKey([], IdText(IntId(1)));
            var t0 := Tables(map[], {}, map[], map[], map[]);
            var t1 := Registered(t0, key, Pending(IntId(1), 0), false, None, None);
            var t2 := Registered(t1, PendingKey([], IdText(TextId([0x31]))), Pending(TextId([0x31]), 1), false, None,
                                 None);
            && t2.pending == map[key := Pending(TextId([0x31]), 1)]
            && GivenUp(t2, key).pending == map[]
  {
    assert IdText(IntId(1)) == Decimal(1) == [0x31] == IdText(TextId([0x31]));
  }
}
