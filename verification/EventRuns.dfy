// Whole runs of both event stores: the file store returns what the in-memory store returns, under
// its own numbering; deleting the cursor file changes nothing; and a crash while a line is being
// written costs at most the event of that line.
module EventRuns {
  import opened Bytes
  import opened Utf8
  import opened JsonValue
  import opened JsonGrammar
  import opened JsonReader
  import opened JsonDump
  import opened EventLog
  import opened EventStores

  // ---- What a session holds, by the operations alone ----------------------------------------------

  function AppendCount(ops: seq<Op>): nat {
    if ops == [] then 0
    else AppendCount(ops[..|ops| - 1]) + if ops[|ops| - 1].Append? then 1 else 0
  }

  // The events of a session since it was last cleared, numbered over all sessions.
  function History(ops: seq<Op>, session: bytes): seq<Event> {
    if ops == [] then []
    else
      var before, op := ops[..|ops| - 1], ops[|ops| - 1];
      if op.session != session then History(before, session)
      else match op
        case Append(_, data) => History(before, session) + [Event(AppendCount(before) + 1, data)]
        case Clear(_) => []
        case DropCursor(_) => History(before, session)
  }

  // The same events, numbered within the session.
  function Renumbered(events: seq<Event>): seq<Event> {
    seq(|events|, i requires 0 <= i < |events| => Event(i + 1, events[i].data))
  }

  function Payloads(events: seq<Event>): seq<bytes> {
    seq(|events|, i requires 0 <= i < |events| => events[i].data)
  }

  function RunMemory(ops: seq<Op>): Memory {
    if ops == [] then Memory(map[], 1) else MemoryStep(RunMemory(ops[..|ops| - 1]), ops[|ops| - 1])
  }

  function RunFiles(lib: FloatLib, ops: seq<Op>): Directory {
    if ops == [] then map[] else DirStep(lib, RunFiles(lib, ops[..|ops| - 1]), ops[|ops| - 1])
  }

  ghost predicate Utf8Payloads(ops: seq<Op>) {
    forall op :: op in ops && op.Append? ==> IsUtf8(op.data)
  }

  // The first event not yet trimmed among `n`, of those behind the first `i`.
  function FirstKept(n: nat, i: nat): nat {
    if n <= MAX_EVENTS || i >= n - MAX_EVENTS then i else n - MAX_EVENTS
  }

  // ---- The in-memory store ------------------------------------------------------------------------

  lemma KeptTwice(events: seq<Event>, e: Event)
    ensures Kept(Kept(events) + [e]) == Kept(events + [e])
  {
  }

  lemma {:induction false} AppendCountBound(ops: seq<Op>)
    ensures AppendCount(ops) <= |ops|
  {
    if ops != [] { AppendCountBound(ops[..|ops| - 1]); }
  }

  lemma {:induction false} MemoryIsHistory(ops: seq<Op>, session: bytes)
    requires |ops| < TWO_64 - 1
    ensures RunMemory(ops).nextId == AppendCount(ops) + 1
    ensures MemoryEvents(RunMemory(ops), session) == Kept(History(ops, session))
  {
    hide Kept, MemoryStep, MemoryEvents;
    NothingKept();
    if ops == [] {
      MemoryStarts(session);
    } else {
      var before, op := ops[..|ops| - 1], ops[|ops| - 1];
      MemoryIsHistory(before, session);
      AppendCountBound(before);
      MemoryAfter(RunMemory(before), op, session);
      KeptTwice(History(before, session), Event(AppendCount(before) + 1, if op.Append? then op.data else []));
    }
  }

  lemma MemoryStarts(session: bytes)
    ensures MemoryEvents(Memory(map[], 1), session) == []
  {
  }

  // What one operation does to the count and to the events of one session.
  lemma MemoryAfter(m: Memory, op: Op, session: bytes)
    requires m.nextId < TWO_64 - 1
    ensures MemoryStep(m, op).nextId == m.nextId + if op.Append? then 1 else 0
    ensures op.session != session || op.DropCursor? ==>
            MemoryEvents(MemoryStep(m, op), session) == MemoryEvents(m, session)
    ensures op == Clear(session) ==> MemoryEvents(MemoryStep(m, op), session) == []
    ensures op.Append? && op.session == session ==>
              MemoryEvents(MemoryStep(m, op), session) == Kept(MemoryEvents(m, session) + [Event(m.nextId, op.data)])
  {
    hide Kept;
  }

  lemma NothingKept()
    ensures Kept([]) == []
  {
  }

  lemma {:induction false} HistoryIncreases(ops: seq<Op>, session: bytes)
    ensures forall i, j :: 0 <= i < j < |History(ops, session)| ==>
            History(ops, session)[i].id < History(ops, session)[j].id
    ensures forall i :: 0 <= i < |History(ops, session)| ==> 1 <= History(ops, session)[i].id <= AppendCount(ops)
    ensures |History(ops, session)| <= AppendCount(ops)
  {
    if ops != [] { HistoryIncreases(ops[..|ops| - 1], session); }
  }

  // ---- The file store -----------------------------------------------------------------------------

  // The files of a session with history `h`; a cursor may be there or not.
  ghost predicate Holds(lib: FloatLib, f: Files, h: seq<Event>) {
    && Loaded(lib, Content(f.log)) == Kept(Renumbered(h))
    && Counted(lib, Content(f.log)) == IdsOf(Kept(Renumbered(h)))
    && EndsLine(Content(f.log))
    && (StoredCursor(lib, f.meta).Some? ==> StoredCursor(lib, f.meta) == Some(Cursor(|h| + 1, |Kept(h)|)))
  }

  lemma {:induction false} IdsOfAt(events: seq<Event>, i: nat)
    requires i < |events|
    ensures |IdsOf(events)| == |events| && IdsOf(events)[i] == events[i].id
  {
    if |events| > 1 { IdsOfAt(events[1..], if i > 0 then i - 1 else 0); }
  }

  lemma {:induction false} MaxOfIncreasing(ids: seq<nat>)
    requires ids != [] && forall i :: 0 <= i < |ids| - 1 ==> ids[i] < ids[|ids| - 1]
    ensures MaxOf(ids) == ids[|ids| - 1]
  {
    MaxOfBound(ids[..|ids| - 1], ids[|ids| - 1]);
  }

  lemma {:induction false} MaxOfBound(ids: seq<nat>, bound: nat)
    requires forall i :: 0 <= i < |ids| ==> ids[i] < bound
    ensures MaxOf(ids) < bound || ids == []
  {
    if ids != [] { MaxOfBound(ids[..|ids| - 1], bound); }
  }

  lemma KeptIds(h: seq<Event>)
    ensures var ids := IdsOf(Kept(Renumbered(h))); |ids| == |Kept(h)| && MaxOf(ids) == |h|
  {
    var events := Kept(Renumbered(h));
    var ids := IdsOf(events);
    if h != [] {
      forall i | 0 <= i < |events| ensures |ids| == |events| && ids[i] == events[i].id { IdsOfAt(events, i); }
      assert ids[0] == events[0].id;
      MaxOfIncreasing(ids);
    }
  }

  // With or without a cursor, appending starts at the same place.
  lemma AppendPointOf(lib: FloatLib, f: Files, h: seq<Event>)
    requires Holds(lib, f, h) && |h| < TWO_64 - 1
    ensures AppendPoint(lib, f).0 == Cursor(|h| + 1, |Kept(h)|)
    ensures AppendPoint(lib, f).1 ==> EndsLine(Content(f.log))
  {
    KeptIds(h);
    hide Loaded, Counted, MaxOf, IdsOf, Renumbered, Kept, StoredCursor;
  }

  lemma RenumberedMore(h: seq<Event>, e: Event)
    ensures Renumbered(h + [e]) == Renumbered(h) + [Event(|h| + 1, e.data)]
    ensures |Kept(h + [e])| == if |Kept(h)| + 1 > MAX_EVENTS then MAX_EVENTS else |Kept(h)| + 1
    ensures |Kept(h)| <= MAX_EVENTS && |Kept(Renumbered(h + [e]))| == |Kept(h + [e])|
  {
  }

  // One more event keeps the files in step with the history.
  lemma AppendHolds(lib: FloatLib, f: Files, h: seq<Event>, e: Event)
    requires Faithful(lib) && Holds(lib, f, h) && |h| < TWO_64 - 2 && IsUtf8(e.data)
    ensures Holds(lib, Appended(lib, f, e.data).0, h + [e])
    ensures Appended(lib, f, e.data).1 == |h| + 1
  {
    hide Faithful, Loaded, Counted, AppendPoint, AppendedTo, EventLine, EventLines, CursorText, StoredCursor, IsUtf8,
         EndsLine, IdsOf, Kept, Renumbered;
    var own := Event(|h| + 1, e.data);
    AppendPointOf(lib, f, h);
    RenumberedMore(h, e);
    var log := AppendedTo(Content(f.log), AppendPoint(lib, f).1, EventLine(lib, own));
    AppendedLoads(lib, Content(f.log), AppendPoint(lib, f).1, own);
    AppendedEnds(lib, Content(f.log), AppendPoint(lib, f).1, own);
    StoredCursorOf(lib, Cursor(|h| + 2, |Kept(h + [e])|));
    KeptTwice(Renumbered(h), own);
    if |Kept(h)| + 1 > MAX_EVENTS {
      RewrittenHolds(lib, log, Kept(Loaded(lib, log)));
    } else {
      NothingTrimmed(h, e);
    }
  }

  lemma AppendedEnds(lib: FloatLib, content: bytes, ends: bool, e: Event)
    ensures EndsLine(AppendedTo(content, ends, EventLine(lib, e)))
  {
  }

  lemma RewrittenHolds(lib: FloatLib, log: bytes, kept: seq<Event>)
    requires Faithful(lib) && kept == Kept(Loaded(lib, log))
    ensures Loaded(lib, EventLines(lib, kept)) == kept && Counted(lib, EventLines(lib, kept)) == IdsOf(kept)
    ensures EndsLine(EventLines(lib, kept))
  {
    LoadedStorable(lib, Lines(log));
    assert forall e :: e in kept ==> e in Loaded(lib, log);
    hide Faithful, StorableText, LoadedLines, CountedLines, Lines, EventLine;
    EventLinesLoad(lib, kept);
    EventLinesEnd(lib, kept);
  }

  lemma NothingTrimmed(h: seq<Event>, e: Event)
    requires |Kept(h)| + 1 <= MAX_EVENTS
    ensures Kept(Renumbered(h)) == Renumbered(h) && Kept(Renumbered(h + [e])) == Renumbered(h + [e])
    ensures IdsOf(Kept(Renumbered(h + [e]))) == IdsOf(Kept(Renumbered(h))) + [|h| + 1]
  {
    RenumberedMore(h, e);
    IdsOfMore(Renumbered(h), Event(|h| + 1, e.data));
  }

  lemma {:induction false} IdsOfMore(events: seq<Event>, e: Event)
    ensures IdsOf(events + [e]) == IdsOf(events) + [e.id]
  {
    if events != [] {
      assert (events + [e])[1..] == events[1..] + [e];
      IdsOfMore(events[1..], e);
    }
  }

  lemma NoFilesHold(lib: FloatLib, meta: Option<bytes>)
    requires meta.None?
    ensures Holds(lib, Files(None, meta), [])
  {
    assert Renumbered([]) == [];
  }

  lemma {:induction false} FilesHoldHistory(lib: FloatLib, ops: seq<Op>, session: bytes)
    requires Faithful(lib) && Utf8Payloads(ops) && |ops| < TWO_64 - 2
    ensures Holds(lib, FilesOf(RunFiles(lib, ops), session), History(ops, session))
  {
    hide Faithful, IsUtf8, Holds, Appended, DirStep;
    if ops == [] {
      NoFilesHold(lib, None);
    } else {
      var before, op := ops[..|ops| - 1], ops[|ops| - 1];
      assert op in ops && forall x :: x in before ==> x in ops;
      FilesHoldHistory(lib, before, session);
      HistoryIncreases(before, session);
      AppendCountBound(before);
      var dir, f, h := RunFiles(lib, before), FilesOf(RunFiles(lib, before), session), History(before, session);
      StepLeavesOthers(lib, dir, op, session);
      match op {
        case Append(s, data) =>
          if s == session { AppendHolds(lib, f, h, Event(AppendCount(before) + 1, data)); }
        case Clear(s) =>
          NoFilesHold(lib, None);
        case DropCursor(s) =>
          if s == session { DroppedHolds(lib, f, h); }
      }
    }
  }

  lemma DroppedHolds(lib: FloatLib, f: Files, h: seq<Event>)
    requires Holds(lib, f, h)
    ensures Holds(lib, Files(f.log, None), h)
  {
    hide Loaded, Counted, IdsOf, Kept, Renumbered;
  }

  // A step changes the files of its own session only.
  lemma StepLeavesOthers(lib: FloatLib, dir: Directory, op: Op, session: bytes)
    ensures op.session != session ==> FilesOf(DirStep(lib, dir, op), session) == FilesOf(dir, session)
    ensures op.session == session ==>
              FilesOf(DirStep(lib, dir, op), session) ==
              match op
              case Append(_, data) => Appended(lib, FilesOf(dir, session), data).0
              case Clear(_) => Files(None, None)
              case DropCursor(_) => Files(FilesOf(dir, session).log, None)
  {
    NamesAreDistinct(op.session, session);
    NamesAreDistinct(session, op.session);
    NamesAreDistinct(session, session);
    hide LogName, MetaName, AppendPoint, AppendedTo, EventLine, EventLines, CursorText, Loaded, Kept;
  }

  // ---- Reading ------------------------------------------------------------------------------------

  lemma {:induction false} SinceTail(events: seq<Event>, last: nat, k: nat)
    requires k <= |events|
    requires forall j :: 0 <= j < k ==> events[j].id <= last
    requires forall j :: k <= j < |events| ==> events[j].id > last
    ensures Since(events, last) == events[k..]
  {
    if events != [] {
      SinceTail(events[1..], last, if k > 0 then k - 1 else 0);
      if k == 0 { assert events == [events[0]] + events[1..]; }
    }
  }

  // A reader that has seen the first `i` events gets the rest, as far as it is not yet trimmed.
  lemma SinceKept(h: seq<Event>, i: nat, last: nat)
    requires i <= |h| && forall j, k :: 0 <= j < k < |h| ==> h[j].id < h[k].id
    requires if i == 0 then forall j :: 0 <= j < |h| ==> h[j].id > last else last == h[i - 1].id
    ensures FirstKept(|h|, i) <= |h| && Since(Kept(h), last) == h[FirstKept(|h|, i)..]
  {
    var events := Kept(h);
    var cut := |h| - |events|;
    var k := if i > cut then i - cut else 0;
    SinceTail(events, last, k);
    assert events[k..] == h[FirstKept(|h|, i)..];
  }

  // The refinement: after any run, a reader that has seen the first `i` events of a session gets
  // the same payloads from both stores, and the file store numbers the events of a session 1, 2, 3, ...
  lemma FileStoreRefinesMemory(lib: FloatLib, ops: seq<Op>, session: bytes, i: nat)
    requires Faithful(lib) && Utf8Payloads(ops) && |ops| < TWO_64 - 2 && i <= |History(ops, session)|
    ensures var h := History(ops, session);
            var f := FilesOf(RunFiles(lib, ops), session);
            var memory := MemorySince(RunMemory(ops), session, if i == 0 then 0 else h[i - 1].id);
            var file := FileSince(lib, f, i);
            && memory == h[FirstKept(|h|, i)..]
            && file == Renumbered(h)[FirstKept(|h|, i)..]
            && Payloads(file) == Payloads(memory)
            && forall data :: Appended(lib, f, data).1 == |h| + 1
  {
    hide *;
    var h, f := History(ops, session), FilesOf(RunFiles(lib, ops), session);
    MemoryIsHistory(ops, session);
    HistoryIncreases(ops, session);
    AppendCountBound(ops);
    FilesHoldHistory(lib, ops, session);
    RenumberedLaws(h);
    SinceKept(h, i, if i == 0 then 0 else h[i - 1].id);
    SinceKept(Renumbered(h), i, i);
    HeldReads(lib, f, h, i);
    MemoryReads(RunMemory(ops), session, if i == 0 then 0 else h[i - 1].id);
    SamePayloads(h, FirstKept(|h|, i));
    AppendPointOf(lib, f, h);
    NextId(lib, f);
  }

  lemma RenumberedLaws(h: seq<Event>)
    ensures |Renumbered(h)| == |h| && forall j :: 0 <= j < |h| ==> Renumbered(h)[j].id == j + 1
  {
  }

  lemma HeldReads(lib: FloatLib, f: Files, h: seq<Event>, last: nat)
    requires Holds(lib, f, h)
    ensures FileSince(lib, f, last) == Since(Kept(Renumbered(h)), last)
  {
    hide Loaded, Counted, Kept, Renumbered, Since;
  }

  lemma MemoryReads(m: Memory, session: bytes, last: nat)
    ensures MemorySince(m, session, last) == Since(MemoryEvents(m, session), last)
  {
  }

  lemma SamePayloads(h: seq<Event>, k: nat)
    requires k <= |h|
    ensures Payloads(Renumbered(h)[k..]) == Payloads(h[k..])
  {
  }

  lemma NextId(lib: FloatLib, f: Files)
    ensures forall data :: Appended(lib, f, data).1 == AppendPoint(lib, f).0.nextId
  {
    hide AppendPoint, AppendedTo, EventLine, EventLines, CursorText, Loaded, Kept;
  }

  // ---- Deleting cursors ---------------------------------------------------------------------------

  function WithoutDrops(ops: seq<Op>): seq<Op> {
    if ops == [] then []
    else WithoutDrops(ops[..|ops| - 1]) + if ops[|ops| - 1].DropCursor? then [] else [ops[|ops| - 1]]
  }

  lemma {:induction false} DropsLeaveHistory(ops: seq<Op>, session: bytes)
    ensures History(WithoutDrops(ops), session) == History(ops, session)
    ensures AppendCount(WithoutDrops(ops)) == AppendCount(ops)
  {
    if ops != [] {
      hide History, AppendCount;
      var before, op := ops[..|ops| - 1], ops[|ops| - 1];
      DropsLeaveHistory(before, session);
      assert ops == before + [op];
      HistoryMore(before, op, session);
      HistoryMore(WithoutDrops(before), op, session);
      assert WithoutDrops(ops) == if op.DropCursor? then WithoutDrops(before) else WithoutDrops(before) + [op];
    } else {
      assert WithoutDrops(ops) == ops;
    }
  }

  lemma HistoryMore(ops: seq<Op>, op: Op, session: bytes)
    ensures AppendCount(ops + [op]) == AppendCount(ops) + if op.Append? then 1 else 0
    ensures History(ops + [op], session) ==
            if op.session != session || op.DropCursor? then History(ops, session)
            else if op.Clear? then []
            else History(ops, session) + [Event(AppendCount(ops) + 1, op.data)]
  {
    assert (ops + [op])[..|ops|] == ops;
  }

  lemma {:induction false} DropsOnlyRemove(ops: seq<Op>)
    ensures |WithoutDrops(ops)| <= |ops| && forall op :: op in WithoutDrops(ops) ==> op in ops
  {
    if ops != [] { DropsOnlyRemove(ops[..|ops| - 1]); }
  }

  // Deleting cursor files between operations is unobservable: every read and every id is the same.
  lemma CursorIsUnobservable(lib: FloatLib, ops: seq<Op>, session: bytes, last: nat, data: bytes)
    requires Faithful(lib) && Utf8Payloads(ops) && |ops| < TWO_64 - 2
    ensures var f := FilesOf(RunFiles(lib, ops), session);
            var g := FilesOf(RunFiles(lib, WithoutDrops(ops)), session);
            FileSince(lib, f, last) == FileSince(lib, g, last) && Appended(lib, f, data).1 == Appended(lib, g, data).1
  {
    DropsLeaveHistory(ops, session);
    DropsOnlyRemove(ops);
    FilesHoldHistory(lib, ops, session);
    FilesHoldHistory(lib, WithoutDrops(ops), session);
    HistoryIncreases(ops, session);
    AppendCountBound(ops);
    hide RunFiles, History, Faithful, AppendPoint, Since, Kept, WithoutDrops, Utf8Payloads;
    var f, g := FilesOf(RunFiles(lib, ops), session), FilesOf(RunFiles(lib, WithoutDrops(ops)), session);
    AppendPointOf(lib, f, History(ops, session));
    AppendPointOf(lib, g, History(ops, session));
    NextId(lib, f);
    NextId(lib, g);
  }

  // ---- Crashes ------------------------------------------------------------------------------------

  // Whatever bytes the log and the cursor hold, an append adds exactly its own event.
  lemma AppendAlwaysLands(lib: FloatLib, f: Files, data: bytes)
    requires Faithful(lib) && IsUtf8(data)
    ensures var (g, id) := Appended(lib, f, data);
            var all := Loaded(lib, Content(f.log)) + [Event(id, data)];
            Loaded(lib, Content(g.log)) == if AppendPoint(lib, f).0.count + 1 > MAX_EVENTS then Kept(all) else all
  {
    hide Faithful, Loaded, Counted, AppendedTo, EventLine, EventLines, CursorText, IsUtf8, Kept;
    var (point, ends) := AppendPoint(lib, f);
    IdInRange(lib, f);
    hide AppendPoint;
    var own := Event(point.nextId, data);
    AppendedLoads(lib, Content(f.log), ends, own);
    var log := AppendedTo(Content(f.log), ends, EventLine(lib, own));
    RewrittenHolds(lib, log, Kept(Loaded(lib, log)));
  }

  lemma IdInRange(lib: FloatLib, f: Files)
    ensures AppendPoint(lib, f).0.nextId < TWO_64
    ensures AppendPoint(lib, f).1 ==> EndsLine(Content(f.log))
  {
    hide Counted, MaxOf, ParseText, Lookup;
  }

  // Where the line of an append starts: behind a break, unless no line is open.
  function LineStart(lib: FloatLib, f: Files): bytes {
    if AppendPoint(lib, f).1 then Content(f.log) else Content(f.log) + [LF]
  }

  // The process dies after `k` bytes of an event line, before the cursor is written. Whatever the
  // files held, all earlier events still load, the new one exactly when at most its line break is
  // missing, and the next append adds one event behind them. Its id repeats the torn one's exactly if
  // the old cursor is there, or the torn line does not load, or ids wrap around.
  lemma CrashLosesOneEvent(lib: FloatLib, f: Files, data: bytes, k: nat, later: bytes)
    requires Faithful(lib) && IsUtf8(data) && IsUtf8(later)
    requires k <= |EventLine(lib, Event(Appended(lib, f, data).1, data))|
    ensures var e := Event(Appended(lib, f, data).1, data);
            var whole := k >= |EventLine(lib, e)| - 1;
            var torn := Files(Some(LineStart(lib, f) + EventLine(lib, e)[..k]), f.meta);
            var (g, id) := Appended(lib, torn, later);
            var all := Loaded(lib, Content(torn.log)) + [Event(id, later)];
            && Loaded(lib, Content(torn.log)) == Loaded(lib, Content(f.log)) + (if whole then [e] else [])
            && Loaded(lib, Content(g.log)) ==
              (if AppendPoint(lib, torn).0.count + 1 > MAX_EVENTS then Kept(all) else all)
            && (StoredCursor(lib, f.meta).Some? ==> id == e.id)
            && (StoredCursor(lib, f.meta).None? && whole ==>
                id == (MaxOf(Counted(lib, Content(f.log)) + [e.id]) + 1) % TWO_64)
            && (id == e.id <==>
                  StoredCursor(lib, f.meta).Some? || !whole || e.id <= MaxOf(Counted(lib, Content(f.log))))
  {
    hide Faithful, IsUtf8, Loaded, Counted, MaxOf, StoredCursor, EventLine, EndsLine, Appended, AppendPoint, Kept;
    var e := Event(Appended(lib, f, data).1, data);
    var torn := Files(Some(LineStart(lib, f) + EventLine(lib, e)[..k]), f.meta);
    NextId(lib, f);
    NextId(lib, torn);
    IdInRange(lib, f);
    TornCursor(lib, f, f);
    BreakAdded(lib, Content(f.log));
    TornLine(lib, LineStart(lib, f), e, k);
    TornCursor(lib, f, torn);
    AppendAlwaysLands(lib, torn, later);
    var ids := Counted(lib, Content(f.log));
    assert ids + [] == ids;
    RepeatsExactly(ids, e.id);
  }

  // The id behind the greatest one, taken again when the one it gave is counted, too.
  lemma RepeatsExactly(ids: seq<nat>, id: nat)
    ensures id == (MaxOf(ids) + 1) % TWO_64 ==>
              (id == (MaxOf(ids + [id]) + 1) % TWO_64 <==> id <= MaxOf(ids))
  {
    MaxOfLast(ids + [id]);
    assert (ids + [id])[..|ids|] == ids;
  }

  lemma TornCursor(lib: FloatLib, f: Files, torn: Files)
    requires f.meta == torn.meta
    ensures StoredCursor(lib, f.meta).Some? ==> AppendPoint(lib, torn).0 == AppendPoint(lib, f).0
    ensures StoredCursor(lib, f.meta).None? ==>
              AppendPoint(lib, torn).0.nextId == (MaxOf(Counted(lib, Content(torn.log))) + 1) % TWO_64
  {
    hide Counted, MaxOf, StoredCursor;
  }
}
