// The replay of missed events when a stream is reopened: HandleGet of
// src/http/StreamableHttpServerTransport.cpp on top of an event store.
module EventReplay {
  import opened Bytes
  import opened JsonValue
  import opened JsonDump
  import opened JsonGrammar
  import opened EventLog
  import opened EventStores
  import opened EventRuns

  const MAX_REPLAY_EVENTS := 512
  const ID_FIELD: bytes := [0x69, 0x64, 0x3A, 0x20]

  // The text one event is replayed with: an id line in front of what was stored.
  function Frame(e: Event): bytes {
    (ID_FIELD + (Decimal(e.id) + [LF])) + e.data
  }

  function FrameBytes(events: seq<Event>): nat {
    if events == [] then 0 else |Frame(events[0])| + FrameBytes(events[1..])
  }

  function Frames(events: seq<Event>): bytes {
    if events == [] then [] else Frame(events[0]) + Frames(events[1..])
  }

  // A tail of the events that fits both limits.
  predicate Fits(events: seq<Event>, begin: nat, budget: nat) {
    begin <= |events| && |events| - begin <= MAX_REPLAY_EVENTS && FrameBytes(events[begin..]) <= budget
  }

  // The loop from the newest event backwards: it stops at the longest tail that fits.
  method ReplayStart(events: seq<Event>, budget: nat) returns (begin: nat)
    ensures Fits(events, begin, budget)
    ensures forall other: nat :: Fits(events, other, budget) ==> begin <= other
  {
    hide Frame;
    begin := |events|;
    var used := 0;
    while begin > 0 && |events| - begin < MAX_REPLAY_EVENTS
      invariant begin <= |events| && used == FrameBytes(events[begin..])
      invariant Fits(events, begin, budget)
      decreases begin
    {
      assert events[begin - 1..] == [events[begin - 1]] + events[begin..];
      assert events[begin - 1..][1..] == events[begin..];
      var size := |Frame(events[begin - 1])|;
      if used + size > budget { break; }
      used := used + size;
      begin := begin - 1;
    }
    forall other: nat | Fits(events, other, budget) ensures begin <= other {
      if other < begin { LongerTail(events, other, begin - 1); }
    }
  }

  lemma {:induction false} LongerTail(events: seq<Event>, a: nat, b: nat)
    requires a <= b <= |events|
    ensures FrameBytes(events[a..]) >= FrameBytes(events[b..])
    decreases b - a
  {
    hide Frame;
    if a < b {
      assert events[a..][1..] == events[a + 1..];
      LongerTail(events, a + 1, b);
    }
  }

  method ReplayText(events: seq<Event>, begin: nat) returns (body: bytes)
    requires begin <= |events|
    ensures body == Frames(events[begin..])
  {
    hide Frame;
    body := [];
    var i := begin;
    while i < |events|
      invariant begin <= i <= |events| && body + Frames(events[i..]) == Frames(events[begin..])
    {
      assert events[i..][1..] == events[i + 1..];
      ConcatAssociative(body, Frame(events[i]), Frames(events[i + 1..]));
      body := body + Frame(events[i]);
      i := i + 1;
    }
    assert events[i..] == [] && body + [] == body;
  }

  // What a client that has seen the first `i` events of its session gets from the file store: the
  // newest of the events behind them, numbered as appended, in order and without a gap, and as
  // many as the limits let through.
  method Replay(ghost lib: FloatLib, ghost ops: seq<Op>, ghost session: bytes, ghost i: nat, budget: nat,
                events: seq<Event>)
    returns (begin: nat, body: bytes)
    requires Faithful(lib) && Utf8Payloads(ops) && |ops| < TWO_64 - 2 && i <= |History(ops, session)|
    requires events == FileSince(lib, FilesOf(RunFiles(lib, ops), session), i)
    ensures var h := Renumbered(History(ops, session));
            var first := FirstKept(|h|, i);
            && first + begin <= |h| && body == Frames(h[first + begin..])
            && Fits(events, begin, budget) && (forall other: nat :: Fits(events, other, budget) ==> begin <= other)
  {
    hide RunFiles, FilesOf, FileSince, History, Utf8Payloads, Faithful, Frame, Fits, Renumbered;
    FileStoreRefinesMemory(lib, ops, session, i);
    ghost var h := Renumbered(History(ops, session));
    RenumberedLaws(History(ops, session));
    FirstKeptBound(|h|, i);
    begin := ReplayStart(events, budget);
    assert begin <= |events| by { FitsBound(events, begin, budget); }
    body := ReplayText(events, begin);
    assert events[begin..] == h[FirstKept(|h|, i) + begin..];
  }

  lemma FitsBound(events: seq<Event>, begin: nat, budget: nat)
    ensures Fits(events, begin, budget) ==> begin <= |events|
  {
  }

  lemma FirstKeptBound(n: nat, i: nat)
    ensures i <= n ==> FirstKept(n, i) <= n
  {
  }
}
