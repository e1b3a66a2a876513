// The in-flight tables of src/http/StreamableHttpServerTransport.cpp. Every critical section
// under pending_mutex_ is one method of the class and one function on table values.
module InFlight {
  import opened Bytes
  import opened JsonValue
  import opened RequestIds

  // ---- Keys -------------------------------------------------------------------------------------

  function PendingKey(session: bytes, idText: bytes): bytes {
    Decimal(|session|) + [COLON] + session + idText
  }

  function SessionPrefix(session: bytes): bytes {
    PendingKey(session, [])
  }

  // The length field can be read back from what it starts.
  lemma LengthField(n: nat, rest: bytes)
    ensures SkipDigits(Decimal(n) + [COLON] + rest, 0) == |Decimal(n)|
    ensures (Decimal(n) + [COLON] + rest)[..|Decimal(n)|] == Decimal(n)
    ensures (Decimal(n) + [COLON] + rest)[|Decimal(n)| + 1..] == rest
  {
    DecimalLaws(n);
    var d, k := Decimal(n), Decimal(n) + [COLON] + rest;
    hide Decimal;
    assert forall i :: 0 <= i < |d| ==> k[i] == d[i] && IsDigit(k[i]);
    assert k[|d|] == COLON;
  }

  // The length in front, closed by a colon, makes session prefixes prefix-free.
  lemma SessionPrefixIsExact(session: bytes, other: bytes, idText: bytes)
    ensures StartsWith(PendingKey(other, idText), SessionPrefix(session)) <==> session == other
  {
    var p, k := SessionPrefix(session), PendingKey(other, idText);
    var d, e := Decimal(|session|), Decimal(|other|);
    assert p == d + [COLON] + session && k == e + [COLON] + (other + idText);
    LengthField(|other|, other + idText);
    if StartsWith(k, p) {
      var tail := k[|p|..];
      assert k == d + [COLON] + (session + tail);
      LengthField(|session|, session + tail);
      DecimalInjective(|session|, |other|);
      assert session == (session + tail)[..|session|] == (other + idText)[..|session|] == other;
    }
    if session == other { assert k == p + idText; }
  }

  lemma PendingKeyInjective(session: bytes, idText: bytes, session': bytes, idText': bytes)
    requires PendingKey(session, idText) == PendingKey(session', idText')
    ensures session == session' && idText == idText'
  {
    assert PendingKey(session, idText) == SessionPrefix(session) + idText;
    assert PendingKey(session', idText') == SessionPrefix(session') + idText';
    SessionPrefixIsExact(session, session', idText');
    assert PendingKey(session, idText)[..|SessionPrefix(session)|] == SessionPrefix(session);
    assert PendingKey(session, idText)[|SessionPrefix(session)|..] == idText;
  }

  // ---- Tables -----------------------------------------------------------------------------------

  // The shared promise of a request is named by a number.
  datatype Pending = Pending(id: RequestId, promise: nat)

  datatype ListenFilter = ListenFilter(tools: bool, prompts: bool, resources: bool, uris: seq<bytes>)

  datatype Tables = Tables(
    pending: map<bytes, Pending>,
    hold: set<bytes>,
    frames: map<bytes, seq<nat>>,
    filters: map<bytes, ListenFilter>,
    routes: map<bytes, bytes>)

  // Notification methods, as far as TryBufferRequestStreamNotification tells them apart.
  datatype Kind =
    | Progress(token: Option<bytes>)
    | LogOrAcknowledged
    | ToolListChanged
    | PromptListChanged
    | ResourceListChanged
    | ResourceUpdated(uri: Option<bytes>)
    | TaskStream
    | OtherKind

  // `frame` stands for the event text built from the notification.
  datatype Notification = Notification(session: bytes, kind: Kind, frame: nat)

  function Registered(t: Tables, key: bytes, entry: Pending, hold: bool, token: Option<bytes>,
                      filter: Option<ListenFilter>): Tables {
    Tables(
      t.pending[key := entry],
      if hold then t.hold + {key} else t.hold,
      t.frames,
      if filter.Some? then t.filters[key := filter.value] else t.filters,
      if hold && token.Some? then t.routes[token.value := key] else t.routes)
  }

  // EraseRequestStreamStateLocked
  function StreamErased(t: Tables, key: bytes): Tables {
    t.(hold := t.hold - {key},
       frames := t.frames - {key},
       filters := t.filters - {key},
       routes := map token | token in t.routes && t.routes[token] != key :: t.routes[token])
  }

  // The section behind a timeout or a failed send.
  function GivenUp(t: Tables, key: bytes): Tables {
    StreamErased(t.(pending := t.pending - {key}), key)
  }

  // match_pending: the exact key, or for a message without session the only key ending in the id.
  ghost function Matched(t: Tables, session: bytes, id: RequestId): Option<bytes> {
    var key := PendingKey(session, IdText(id));
    if key in t.pending then Some(key)
    else if session != [] then None
    else
      var candidates := set k | k in t.pending && EndsWith(k, IdText(id));
      if exists k :: k in candidates && candidates == {k} then
        var k :| k in candidates && candidates == {k};
        Some(k)
      else None
  }

  predicate Belongs(session: bytes, key: bytes) {
    session == [] || StartsWith(key, SessionPrefix(session))
  }

  predicate FilterWants(filter: ListenFilter, kind: Kind) {
    match kind
    case ToolListChanged => filter.tools
    case PromptListChanged => filter.prompts
    case ResourceListChanged => filter.resources
    case ResourceUpdated(Some(uri)) => uri in filter.uris
    case TaskStream => true
    case _ => false
  }

  // The requests a notification is buffered for.
  function Targets(t: Tables, n: Notification): set<bytes> {
    match n.kind
    case Progress(Some(token)) =>
      if token in t.routes && Belongs(n.session, t.routes[token]) && t.routes[token] in t.hold
      then {t.routes[token]} else {}
    case LogOrAcknowledged => set key | key in t.hold && Belongs(n.session, key)
    case _ =>
      set key | key in t.filters && Belongs(n.session, key) && key in t.hold && FilterWants(t.filters[key], n.kind)
  }

  function FramesOf(t: Tables, key: bytes): seq<nat> {
    if key in t.frames then t.frames[key] else []
  }

  function Buffered(t: Tables, n: Notification): Tables {
    t.(frames := PushedTo(t.frames, Targets(t, n), n.frame))
  }

  // The buffers with one more frame in those of `keys`.
  function PushedTo(frames: map<bytes, seq<nat>>, keys: set<bytes>, frame: nat): map<bytes, seq<nat>> {
    map key | key in frames.Keys + keys ::
      if key in keys then (if key in frames then frames[key] else []) + [frame] else frames[key]
  }

  lemma PushedToOne(frames: map<bytes, seq<nat>>, keys: set<bytes>, key: bytes, frame: nat)
    requires key !in keys
    ensures var pushed := PushedTo(frames, keys, frame);
            PushedTo(frames, keys + {key}, frame) ==
            pushed[key := (if key in pushed then pushed[key] else []) + [frame]]
  {
  }

  lemma PushedToNobody(frames: map<bytes, seq<nat>>, frame: nat)
    ensures PushedTo(frames, {}, frame) == frames
  {
  }

  // What TryBufferRequestStreamNotification returns: true keeps the message from being broadcast.
  predicate IsBuffered(t: Tables, n: Notification) {
    t.hold != {} && (n.kind.LogOrAcknowledged? || Targets(t, n) != {})
  }

  // The table part of EraseSession.
  function SessionErased(t: Tables, session: bytes): Tables {
    var prefix := SessionPrefix(session);
    Tables(
      map k | k in t.pending && !StartsWith(k, prefix) :: t.pending[k],
      set k | k in t.hold && !StartsWith(k, prefix),
      map k | k in t.frames && !StartsWith(k, prefix) :: t.frames[k],
      map k | k in t.filters && !StartsWith(k, prefix) :: t.filters[k],
      map token | token in t.routes && !StartsWith(t.routes[token], prefix) :: t.routes[token])
  }

  function AbandonedBy(t: Tables, session: bytes): map<bytes, Pending> {
    map k | k in t.pending && StartsWith(k, SessionPrefix(session)) :: t.pending[k]
  }

  // ---- The mutable tables -----------------------------------------------------------------------

  class InFlightTables {
    var pending: map<bytes, Pending>
    var hold: set<bytes>
    var frames: map<bytes, seq<nat>>
    var filters: map<bytes, ListenFilter>
    var routes: map<bytes, bytes>

    constructor ()
      ensures Contents() == Tables(map[], {}, map[], map[], map[])
    {
      pending, hold, frames, filters, routes := map[], {}, map[], map[], map[];
    }

    ghost function Contents(): Tables
      reads this
    {
      Tables(pending, hold, frames, filters, routes)
    }

    // HandlePost, before the message is handed to the channel.
    method Register(session: bytes, id: RequestId, promise: nat, holdOpen: bool, token: Option<bytes>,
                    filter: Option<ListenFilter>)
      modifies this
      ensures Contents() ==
              Registered(old(Contents()), PendingKey(session, IdText(id)), Pending(id, promise), holdOpen, token,
                         filter)
    {
      var key := PendingKey(session, IdText(id));
      pending := pending[key := Pending(id, promise)];
      if holdOpen {
        hold := hold + {key};
        if token.Some? { routes := routes[token.value := key]; }
      }
      if filter.Some? { filters := filters[key := filter.value]; }
    }

    method EraseRequestStreamState(key: bytes)
      modifies this
      ensures Contents() == StreamErased(old(Contents()), key)
    {
      hold := hold - {key};
      frames := frames - {key};
      filters := filters - {key};
      var left := routes.Keys;
      while left != {}
        invariant pending == old(pending) && hold == old(hold) - {key}
        invariant frames == old(frames) - {key} && filters == old(filters) - {key}
        invariant left <= routes.Keys <= old(routes).Keys
        invariant forall token :: token in routes ==> routes[token] == old(routes)[token]
        invariant forall token :: token in old(routes) && token !in left ==>
                    (token in routes <==> old(routes)[token] != key)
        decreases left
      {
        var token :| token in left;
        left := left - {token};
        if routes[token] == key { routes := routes - {token}; }
      }
    }

    // HandlePost: the timeout and failed-send sections.
    method GiveUp(key: bytes)
      modifies this
      ensures Contents() == GivenUp(old(Contents()), key)
    {
      pending := pending - {key};
      EraseRequestStreamState(key);
    }

    // HandlePost: the section behind the future; only held-open requests have frames to take.
    method TakeFrames(key: bytes, holdOpen: bool) returns (taken: seq<nat>)
      modifies this
      ensures taken == if holdOpen then FramesOf(old(Contents()), key) else []
      ensures Contents() == if holdOpen then StreamErased(old(Contents()), key) else old(Contents())
    {
      taken := [];
      if holdOpen {
        if key in frames { taken := frames[key]; }
        EraseRequestStreamState(key);
      }
    }

    // match_pending; the loop over the table looks for the only key that ends in the id.
    method MatchPending(session: bytes, id: RequestId) returns (key: Option<bytes>)
      ensures key == Matched(Contents(), session, id)
    {
      var idText := IdText(id);
      var exact := PendingKey(session, idText);
      if exact in pending { return Some(exact); }
      if session != [] { return None; }
      ghost var candidates := set k | k in pending && EndsWith(k, idText);
      key := None;
      var left := pending.Keys;
      while left != {}
        invariant left <= pending.Keys
        invariant key.None? ==> candidates <= left
        invariant key.Some? ==> key.value in candidates && candidates <= left + {key.value} && key.value !in left
        decreases left
      {
        var candidate :| candidate in left;
        left := left - {candidate};
        if EndsWith(candidate, idText) {
          if key.Some? {
            assert {key.value, candidate} <= candidates;
            TwoElements(candidates, key.value, candidate);
            return None;
          }
          key := Some(candidate);
        }
      }
      if key.Some? { assert candidates == {key.value}; } else { assert candidates == {}; }
    }

    // SendMessageAsync, response part: the promise to be completed with the message.
    method TakeResponse(session: bytes, id: RequestId) returns (promise: Option<nat>)
      modifies this
      ensures match Matched(old(Contents()), session, id)
              case Some(key) =>
                && key in old(pending) && promise == Some(old(pending)[key].promise)
                && Contents() == old(Contents()).(pending := old(pending) - {key})
              case None => promise == None && Contents() == old(Contents())
    {
      var key := MatchPending(session, id);
      if key.None? { return None; }
      promise := Some(pending[key.value].promise);
      pending := pending - {key.value};
    }

    // request_stream_frames_[key].push_back(...)
    method PushFrame(key: bytes, frame: nat)
      modifies this`frames
      ensures frames == old(frames)[key := FramesOf(old(Contents()), key) + [frame]]
    {
      frames := frames[key := (if key in frames then frames[key] else []) + [frame]];
    }

    method TryBuffer(n: Notification) returns (buffered: bool)
      modifies this`frames
      ensures buffered == IsBuffered(old(Contents()), n)
      ensures Contents() == if buffered then Buffered(old(Contents()), n) else old(Contents())
    {
      if hold == {} { return false; }
      match n.kind {
        case Progress(token) =>
          if token.None? || token.value !in routes { return false; }
          var key := routes[token.value];
          if !Belongs(n.session, key) || key !in hold { return false; }
          PushFrame(key, n.frame);
          assert Targets(old(Contents()), n) == {key};
          return true;
        case LogOrAcknowledged =>
          var appended := PushToAll(hold, n);
          return true;
        case ResourceUpdated(None) =>
          return false;
        case _ =>
          buffered := PushToAll(filters.Keys, n);
          if !buffered { assert frames == old(frames); }
      }
    }

    // The loops over hold_open_requests_ and over listen_filters_.
    method PushToAll(keys: set<bytes>, n: Notification) returns (appended: bool)
      requires n.kind.LogOrAcknowledged? ==> keys == hold
      requires !n.kind.LogOrAcknowledged? ==> keys == filters.Keys && !n.kind.Progress?
      modifies this`frames
      ensures appended <==> Targets(old(Contents()), n) != {}
      ensures Contents() == Buffered(old(Contents()), n)
    {
      hide FilterWants, Belongs, PushedTo;
      PushedToNobody(frames, n.frame);
      appended := false;
      ghost var targets := Targets(Contents(), n);
      ghost var done: set<bytes> := {};
      var left := keys;
      assert targets <= keys;
      while left != {}
        invariant left <= keys && done == (targets - left)
        invariant appended <==> done != {}
        invariant frames == PushedTo(old(frames), done, n.frame)
        decreases left
      {
        var key :| key in left;
        left := left - {key};
        if Belongs(n.session, key) {
          if n.kind.LogOrAcknowledged? || (key in hold && FilterWants(filters[key], n.kind)) {
            assert key in targets;
            PushedToOne(old(frames), done, key, n.frame);
            PushFrame(key, n.frame);
            done := done + {key};
            appended := true;
          }
        }
      }
      assert done == targets;
    }

    // EraseSession: five loops over five tables. The promises of the returned entries are
    // completed with an error after the lock is released.
    method EraseSession(session: bytes) returns (abandoned: map<bytes, Pending>)
      modifies this
      ensures abandoned == AbandonedBy(old(Contents()), session)
      ensures Contents() == SessionErased(old(Contents()), session)
    {
      var prefix := SessionPrefix(session);
      pending, abandoned := TakeByPrefix(pending, prefix);
      frames := EraseByPrefix(frames, prefix);
      hold := EraseKeys(hold, prefix);
      filters := EraseByPrefix(filters, prefix);
      routes := EraseByTarget(routes, prefix);
    }

    static method TakeByPrefix(m: map<bytes, Pending>, prefix: bytes)
      returns (kept: map<bytes, Pending>, taken: map<bytes, Pending>)
      ensures kept == map k | k in m && !StartsWith(k, prefix) :: m[k]
      ensures taken == map k | k in m && StartsWith(k, prefix) :: m[k]
    {
      kept, taken := m, map[];
      var left := m.Keys;
      while left != {}
        invariant left <= kept.Keys && kept.Keys + taken.Keys == m.Keys
        invariant forall k :: k in kept ==> kept[k] == m[k]
        invariant forall k :: k in taken ==> taken[k] == m[k] && StartsWith(k, prefix)
        invariant forall k :: k in kept && k !in left ==> !StartsWith(k, prefix)
        decreases left
      {
        var k :| k in left;
        left := left - {k};
        if StartsWith(k, prefix) {
          taken := taken[k := kept[k]];
          kept := kept - {k};
        }
      }
    }

    static method EraseKeys(s: set<bytes>, prefix: bytes) returns (r: set<bytes>)
      ensures r == set k | k in s && !StartsWith(k, prefix)
    {
      r := s;
      var left := s;
      while left != {}
        invariant left <= r <= s
        invariant forall k :: k in s && k !in left ==> (k in r <==> !StartsWith(k, prefix))
        decreases left
      {
        var k :| k in left;
        left := left - {k};
        if StartsWith(k, prefix) { r := r - {k}; }
      }
    }

    static method EraseByTarget(m: map<bytes, bytes>, prefix: bytes) returns (r: map<bytes, bytes>)
      ensures r == map token | token in m && !StartsWith(m[token], prefix) :: m[token]
    {
      r := m;
      var left := m.Keys;
      while left != {}
        invariant left <= r.Keys <= m.Keys
        invariant forall token :: token in r ==> r[token] == m[token]
        invariant forall token :: token in m && token !in left ==> (token in r <==> !StartsWith(m[token], prefix))
        decreases left
      {
        var token :| token in left;
        left := left - {token};
        if StartsWith(r[token], prefix) { r := r - {token}; }
      }
    }

    static method EraseByPrefix<V>(m: map<bytes, V>, prefix: bytes) returns (r: map<bytes, V>)
      ensures r == map k | k in m && !StartsWith(k, prefix) :: m[k]
    {
      r := m;
      var left := m.Keys;
      while left != {}
        invariant left <= r.Keys <= m.Keys
        invariant forall k :: k in r ==> r[k] == m[k]
        invariant forall k :: k in m && k !in left ==> (k in r <==> !StartsWith(k, prefix))
        decreases left
      {
        var k :| k in left;
        left := left - {k};
        if StartsWith(k, prefix) { r := r - {k}; }
      }
    }
  }

  lemma TwoElements<T>(s: set<T>, a: T, b: T)
    requires a in s && b in s && a != b
    ensures |s| >= 2
  {
    assert |s - {a}| >= 1 by { assert b in s - {a}; }
  }
}
