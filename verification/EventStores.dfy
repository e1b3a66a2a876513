// The in-memory event store of src/http/EventStore.cpp and the file store of
// src/http/FileEventStore.cpp, step by step; a directory is a map from file names to contents.
module EventStores {
  import opened Bytes
  import opened Utf8
  import opened JsonValue
  import opened JsonGrammar
  import opened JsonReader
  import opened JsonDump
  import opened JsonRoundTrip
  import opened EventLog

  const MAX_EVENTS := 10000

  // What trimming leaves: the last MAX_EVENTS events.
  function Kept(events: seq<Event>): seq<Event> {
    if |events| > MAX_EVENTS then events[|events| - MAX_EVENTS..] else events
  }

  function Since(events: seq<Event>, last: nat): seq<Event> {
    if events == [] then []
    else (if events[0].id > last then [events[0]] else []) + Since(events[1..], last)
  }

  // ---- File names -------------------------------------------------------------------------------

  // std::isalnum in the "C" locale, and the two other bytes SanitizeSessionId copies.
  predicate IsNameByte(c: byte) {
    IsDigit(c) || 0x41 <= c <= 0x5A || 0x61 <= c <= 0x7A || c == 0x2D || c == 0x5F
  }

  const TILDE: byte := 0x7E

  function Escaped(c: byte): bytes {
    if IsNameByte(c) then [c] else [TILDE, LowerHex(c / 16), LowerHex(c % 16)]
  }

  function EscapedName(session: bytes): bytes {
    if session == [] then [] else Escaped(session[0]) + EscapedName(session[1..])
  }

  const SESS: bytes := [0x73, 0x65, 0x73, 0x73, 0x2D]
  const LOG_SUFFIX: bytes := [0x2E, 0x6A, 0x73, 0x6F, 0x6E, 0x6C]
  const META_SUFFIX: bytes := [0x2E, 0x6D, 0x65, 0x74, 0x61, 0x2E, 0x6A, 0x73, 0x6F, 0x6E]

  function LogName(session: bytes): bytes {
    (SESS + EscapedName(session)) + LOG_SUFFIX
  }

  function MetaName(session: bytes): bytes {
    (SESS + EscapedName(session)) + META_SUFFIX
  }

  method SanitizeSessionId(session: bytes) returns (name: bytes)
    ensures name == SESS + EscapedName(session)
  {
    name := SESS;
    var i := 0;
    assert session[0..] == session;
    while i < |session|
      invariant 0 <= i <= |session|
      invariant name + EscapedName(session[i..]) == SESS + EscapedName(session)
    {
      var c := session[i];
      ghost var rest, before := session[i..], name;
      name := if IsNameByte(c) then name + [c] else name + [TILDE, LowerHex(c / 16), LowerHex(c % 16)];
      assert name == before + Escaped(c) && rest[1..] == session[i + 1..];
      ConcatAssociative(before, Escaped(c), EscapedName(rest[1..]));
      i := i + 1;
    }
    assert EscapedName(session[i..]) == [];
  }

  lemma {:induction false} EscapedNameDecodes(a: bytes, b: bytes, x: bytes, y: bytes)
    requires EscapedName(a) + x == EscapedName(b) + y
    requires (x != [] ==> x[0] == 0x2E) && (y != [] ==> y[0] == 0x2E)
    ensures a == b && x == y
  {
    hide *;
    EscapedNameStarts(a, x);
    EscapedNameStarts(b, y);
    if a != [] && b != [] {
      EscapedByteDecodes(a[0], b[0], EscapedName(a[1..]) + x, EscapedName(b[1..]) + y);
      EscapedNameDecodes(a[1..], b[1..], x, y);
      assert a == [a[0]] + a[1..] && b == [b[0]] + b[1..];
    }
  }

  lemma EscapedNameStarts(a: bytes, x: bytes)
    ensures a == [] ==> EscapedName(a) + x == x
    ensures a != [] ==>
              && EscapedName(a) + x == Escaped(a[0]) + (EscapedName(a[1..]) + x)
              && EscapedName(a) + x != [] && (EscapedName(a) + x)[0] != 0x2E
  {
    if a != [] {
      ConcatAssociative(Escaped(a[0]), EscapedName(a[1..]), x);
      assert (EscapedName(a) + x)[0] == Escaped(a[0])[0];
    }
  }

  lemma EscapedByteDecodes(c: byte, d: byte, s: bytes, t: bytes)
    requires Escaped(c) + s == Escaped(d) + t
    ensures c == d && s == t
  {
    var e, f := Escaped(c), Escaped(d);
    assert (e + s)[0] == e[0] && (f + t)[0] == f[0];
    assert |e| == |f|;
    assert e == (e + s)[..|e|] == (f + t)[..|f|] == f;
    assert s == (e + s)[|e|..] == (f + t)[|f|..] == t;
    if !IsNameByte(c) {
      assert e[1] == f[1] && e[2] == f[2];
      assert c / 16 == d / 16 && c % 16 == d % 16;
    }
  }

  // No two sessions share a file, and a log is never a cursor.
  lemma NamesAreDistinct(a: bytes, b: bytes)
    ensures LogName(a) == LogName(b) <==> a == b
    ensures MetaName(a) == MetaName(b) <==> a == b
    ensures LogName(a) != MetaName(b)
  {
    assert |LOG_SUFFIX| != |META_SUFFIX|;
    if LogName(a) == LogName(b) { NameDecodes(a, b, LOG_SUFFIX, LOG_SUFFIX); }
    if MetaName(a) == MetaName(b) { NameDecodes(a, b, META_SUFFIX, META_SUFFIX); }
    if LogName(a) == MetaName(b) { NameDecodes(a, b, LOG_SUFFIX, META_SUFFIX); }
  }

  lemma NameDecodes(a: bytes, b: bytes, x: bytes, y: bytes)
    requires (SESS + EscapedName(a)) + x == (SESS + EscapedName(b)) + y
    requires (x != [] ==> x[0] == 0x2E) && (y != [] ==> y[0] == 0x2E)
    ensures a == b && x == y
  {
    hide EscapedName;
    assert ((SESS + EscapedName(a)) + x)[|SESS|..] == EscapedName(a) + x;
    assert ((SESS + EscapedName(b)) + y)[|SESS|..] == EscapedName(b) + y;
    EscapedNameDecodes(a, b, x, y);
  }

  // ---- Cursors ----------------------------------------------------------------------------------

  const COUNT: bytes := [0x63, 0x6F, 0x75, 0x6E, 0x74]
  const NEXT_ID: bytes := [0x6E, 0x65, 0x78, 0x74, 0x5F, 0x69, 0x64]

  datatype Cursor = Cursor(nextId: nat, count: nat)

  function CursorValue(c: Cursor): JsonValue {
    JObject(Assigned(Assigned([], NEXT_ID, JInt(AsInt64(c.nextId))), COUNT, JInt(AsInt64(c.count))))
  }

  // The text StoreAppendCursor writes.
  function CursorText(lib: FloatLib, c: Cursor): bytes {
    DumpText(lib, CursorValue(c), -1, 0)
  }

  // LoadAppendCursor; an integer below the limit or of another type makes the cursor useless.
  function StoredCursor(lib: FloatLib, meta: Option<bytes>): Option<Cursor> {
    if meta.None? then None
    else match ParseText(lib, meta.value)
      case Err(_, _) => None
      case Ok(v, _) =>
        match (Lookup(v, NEXT_ID), Lookup(v, COUNT))
        case (Some(JInt(n)), Some(JInt(c))) => if n < 1 || c < 0 then None else Some(Cursor(AsUint64(n), AsUint64(c)))
        case _ => None
  }

  lemma CursorMembers(c: Cursor)
    ensures CursorValue(c) == JObject([Member(COUNT, JInt(AsInt64(c.count))), Member(NEXT_ID, JInt(AsInt64(c.nextId)))])
    ensures Lookup(CursorValue(c), NEXT_ID) == Some(JInt(AsInt64(c.nextId)))
    ensures Lookup(CursorValue(c), COUNT) == Some(JInt(AsInt64(c.count)))
  {
    assert KeyLess(COUNT, NEXT_ID);
    assert COUNT != NEXT_ID by { assert |COUNT| != |NEXT_ID|; }
    var n, k := Member(NEXT_ID, JInt(AsInt64(c.nextId))), Member(COUNT, JInt(AsInt64(c.count)));
    assert Assigned([], NEXT_ID, n.value) == [n];
    assert Assigned([n], COUNT, k.value) == [k] + [n] == [k, n];
    assert [k, n][1..] == [n] && Find([n], NEXT_ID) == Some(n.value);
    assert Find([k, n], NEXT_ID) == Find([n], NEXT_ID);
  }

  lemma CursorCarried(c: Cursor)
    requires c.nextId < TWO_64 && c.count < TWO_64
    ensures Carried(CursorValue(c), MAX_DEPTH)
  {
    CursorMembers(c);
    AsciiIsUtf8(COUNT);
    AsciiIsUtf8(NEXT_ID);
    CastsInvert(c.nextId);
    CastsInvert(c.count);
    hide AsInt64, IsUtf8, CursorValue;
    var ms := [Member(COUNT, JInt(AsInt64(c.count))), Member(NEXT_ID, JInt(AsInt64(c.nextId)))];
    assert Sorted(ms) by { assert KeyLess(COUNT, NEXT_ID); }
    hide Sorted, COUNT, NEXT_ID, KeyLess;
  }

  // The cursor that is stored is read back, or ignored once its id no longer fits int64.
  lemma StoredCursorOf(lib: FloatLib, c: Cursor)
    requires Faithful(lib) && 1 <= c.nextId < TWO_64 && c.count < TWO_63
    ensures StoredCursor(lib, Some(CursorText(lib, c))) == if c.nextId < TWO_63 then Some(c) else None
  {
    hide Faithful, Carried, DumpText, ParseText, CursorValue, Lookup;
    CursorCarried(c);
    CursorMembers(c);
    DumpParses(lib, CursorValue(c), -1);
  }

  // ---- One session of the file store ------------------------------------------------------------

  datatype Files = Files(log: Option<bytes>, meta: Option<bytes>)

  function Content(log: Option<bytes>): bytes {
    if log.Some? then log.value else []
  }

  // EndsWithNewline, used when a cursor is there: an empty log counts as ended.
  function EndsWithNewline(log: Option<bytes>): bool {
    log.None? || log.value == [] || log.value[|log.value| - 1] == LF
  }

  // ScanEvents, used without a cursor: an empty log does not.
  function ScanEndsWithNewline(log: Option<bytes>): bool {
    log.None? || (log.value != [] && log.value[|log.value| - 1] == LF)
  }

  function AppendPoint(lib: FloatLib, f: Files): (Cursor, bool) {
    match StoredCursor(lib, f.meta)
    case Some(c) => (c, EndsWithNewline(f.log))
    case None =>
      var ids := Counted(lib, Content(f.log));
      (Cursor((MaxOf(ids) + 1) % TWO_64, |ids|), ScanEndsWithNewline(f.log))
  }

  // Append: the files it leaves and the id it returns.
  function Appended(lib: FloatLib, f: Files, data: bytes): (Files, nat) {
    var (cursor, ends) := AppendPoint(lib, f);
    var log := AppendedTo(Content(f.log), ends, EventLine(lib, Event(cursor.nextId, data)));
    var next := (cursor.nextId + 1) % TWO_64;
    if cursor.count + 1 > MAX_EVENTS then
      var kept := Kept(Loaded(lib, log));
      (Files(Some(EventLines(lib, kept)), Some(CursorText(lib, Cursor(next, |kept|)))), cursor.nextId)
    else
      (Files(Some(log), Some(CursorText(lib, Cursor(next, cursor.count + 1)))), cursor.nextId)
  }

  lemma AppendedIs(lib: FloatLib, f: Files, data: bytes)
    ensures var (cursor, ends) := AppendPoint(lib, f);
            var log := AppendedTo(Content(f.log), ends, EventLine(lib, Event(cursor.nextId, data)));
            var next := (cursor.nextId + 1) % TWO_64;
            var kept := Kept(Loaded(lib, log));
            && Appended(lib, f, data).1 == cursor.nextId
            && Appended(lib, f, data).0 ==
               if cursor.count + 1 > MAX_EVENTS
               then Files(Some(EventLines(lib, kept)), Some(CursorText(lib, Cursor(next, |kept|))))
               else Files(Some(log), Some(CursorText(lib, Cursor(next, cursor.count + 1))))
  {
    hide AppendPoint, AppendedTo, EventLine, EventLines, CursorText, Kept, Loaded;
  }

  // GetEventsSince
  function FileSince(lib: FloatLib, f: Files, last: nat): seq<Event> {
    Since(Loaded(lib, Content(f.log)), last)
  }

  type Directory = map<bytes, bytes>

  function FileAt(dir: Directory, name: bytes): Option<bytes> {
    if name in dir then Some(dir[name]) else None
  }

  function FilesOf(dir: Directory, session: bytes): Files {
    Files(FileAt(dir, LogName(session)), FileAt(dir, MetaName(session)))
  }

  lemma FilesAre(dir: Directory, session: bytes)
    ensures FilesOf(dir, session) == Files(FileAt(dir, LogName(session)), FileAt(dir, MetaName(session)))
  {
    hide LogName, MetaName, FileAt;
  }

  function Written(dir: Directory, session: bytes, log: bytes, meta: bytes): Directory {
    dir[LogName(session) := log][MetaName(session) := meta]
  }

  datatype Op =
    | Append(session: bytes, data: bytes)
    | Clear(session: bytes)
    | DropCursor(session: bytes)

  function DirStep(lib: FloatLib, dir: Directory, op: Op): Directory {
    match op
    case Append(session, data) =>
      var f := Appended(lib, FilesOf(dir, session), data).0;
      Written(dir, session, Content(f.log), Content(f.meta))
    case Clear(session) => dir - {LogName(session), MetaName(session)}
    case DropCursor(session) => dir - {MetaName(session)}
  }

  lemma AppendWrites(lib: FloatLib, dir: Directory, session: bytes, data: bytes)
    ensures var f := Appended(lib, FilesOf(dir, session), data).0;
            DirStep(lib, dir, Append(session, data)) ==
            dir[LogName(session) := Content(f.log)][MetaName(session) := Content(f.meta)]
  {
    hide LogName, MetaName, Appended, FilesOf;
  }

  // ---- The in-memory store ----------------------------------------------------------------------

  datatype Memory = Memory(events: map<bytes, seq<Event>>, nextId: nat)

  function MemoryEvents(m: Memory, session: bytes): seq<Event> {
    if session in m.events then m.events[session] else []
  }

  function MemoryStep(m: Memory, op: Op): Memory {
    match op
    case Append(session, data) =>
      Memory(m.events[session := Kept(MemoryEvents(m, session) + [Event(m.nextId, data)])], (m.nextId + 1) % TWO_64)
    case Clear(session) => m.(events := m.events - {session})
    case DropCursor(_) => m
  }

  function MemorySince(m: Memory, session: bytes, last: nat): seq<Event> {
    Since(MemoryEvents(m, session), last)
  }

  class EventStore {
    var events: map<bytes, seq<Event>>
    var nextId: nat

    constructor ()
      ensures Contents() == Memory(map[], 1)
    {
      events, nextId := map[], 1;
    }

    ghost function Contents(): Memory
      reads this
    {
      Memory(events, nextId)
    }

    method AppendEvent(session: bytes, data: bytes) returns (id: nat)
      modifies this
      ensures id == old(nextId)
      ensures Contents() == MemoryStep(old(Contents()), Append(session, data))
    {
      id := nextId;
      nextId := (nextId + 1) % TWO_64;
      var list := (if session in events then events[session] else []) + [Event(id, data)];
      if |list| > MAX_EVENTS { list := list[|list| - MAX_EVENTS..]; }
      events := events[session := list];
    }

    method GetEventsSince(session: bytes, last: nat) returns (result: seq<Event>)
      ensures result == MemorySince(Contents(), session, last)
    {
      result := [];
      if session !in events { return; }
      result := CollectSince(events[session], last);
    }

    method ClearSession(session: bytes)
      modifies this
      ensures Contents() == MemoryStep(old(Contents()), Clear(session))
    {
      events := events - {session};
    }
  }

  // The filter loop both stores end with.
  method CollectSince(list: seq<Event>, last: nat) returns (result: seq<Event>)
    ensures result == Since(list, last)
  {
    hide Since;
    result := [];
    var i := 0;
    assert list[0..] == list;
    while i < |list|
      invariant 0 <= i <= |list|
      invariant result + Since(list[i..], last) == Since(list, last)
    {
      SinceStep(list, i, last, result);
      if list[i].id > last { result := result + [list[i]]; }
      i := i + 1;
    }
    NothingSince(last);
    assert list[i..] == [] && result + [] == result;
  }

  lemma SinceStep(list: seq<Event>, i: nat, last: nat, before: seq<Event>)
    requires i < |list|
    ensures before + Since(list[i..], last) ==
            (if list[i].id > last then before + [list[i]] else before) + Since(list[i + 1..], last)
  {
    assert list[i..][1..] == list[i + 1..];
  }

  lemma NothingSince(last: nat)
    ensures Since([], last) == []
  {
  }

  // ---- The file store ---------------------------------------------------------------------------

  // LoadEvents over the bytes of a log.
  method LoadEvents(lib: FloatLib, content: bytes) returns (items: seq<Event>)
    ensures items == Loaded(lib, content)
  {
    hide *;
    items := [];
    NothingLoads(lib);
    var rest := content;
    while rest != []
      invariant items + Loaded(lib, rest) == Loaded(lib, content)
      decreases |rest|
    {
      var end := FindByte(rest, 0, LF);
      var line := rest[..end];
      LoadedStep(lib, rest);
      ghost var before := items;
      rest := if end == |rest| then [] else rest[end + 1..];
      var loaded := LoadedLine(lib, line);
      OneOrNone(loaded);
      if loaded.Some? { items := items + [loaded.value]; }
      TakenIn(before, loaded, Loaded(lib, rest));
    }
    assert items + [] == items;
  }

  lemma LoadedStep(lib: FloatLib, rest: bytes)
    requires rest != []
    ensures var end := FindByte(rest, 0, LF);
            var line, next := rest[..end], if end == |rest| then [] else rest[end + 1..];
            && Loaded(lib, rest) == ToSeq(LoadedLine(lib, line)) + Loaded(lib, next)
            && Counted(lib, rest) == ToSeq<nat>(CountedLine(lib, line)) + Counted(lib, next)
  {
    hide LoadedLine, CountedLine, FindByte;
    var end := FindByte(rest, 0, LF);
    if end == |rest| { assert rest[..end] == rest && [rest][1..] == []; }
  }

  datatype Scanned = Scanned(count: nat, maxId: nat)

  // ScanEvents: the count and the largest id, line by line.
  method ScanEvents(lib: FloatLib, content: bytes) returns (scanned: Scanned)
    ensures scanned == Scanned(|Counted(lib, content)|, MaxOf(Counted(lib, content)))
  {
    hide *;
    NothingLoads(lib);
    MaxOfLast([]);
    scanned := Scanned(0, 0);
    var rest := content;
    ghost var ids: seq<nat> := [];
    while rest != []
      invariant ids + Counted(lib, rest) == Counted(lib, content)
      invariant scanned == Scanned(|ids|, MaxOf(ids))
      decreases |rest|
    {
      var end := FindByte(rest, 0, LF);
      var line := rest[..end];
      LoadedStep(lib, rest);
      ghost var before := ids;
      rest := if end == |rest| then [] else rest[end + 1..];
      var id := CountedLine(lib, line);
      OneOrNone<nat>(id);
      if id.Some? {
        scanned := Scanned(scanned.count + 1, if id.value > scanned.maxId then id.value else scanned.maxId);
        ids := ids + [id.value];
        assert ids[..|ids| - 1] == before;
        MaxOfLast(ids);
      }
      assert ids == before + ToSeq<nat>(id);
      assert ids + Counted(lib, rest) == before + (ToSeq<nat>(id) + Counted(lib, rest));
    }
    assert ids + [] == ids;
  }

  lemma TakenIn<T>(before: seq<T>, o: Option<T>, rest: seq<T>)
    ensures before + (ToSeq(o) + rest) == (if o.Some? then before + [o.value] else before) + rest
  {
  }

  lemma OneOrNone<T>(o: Option<T>)
    ensures ToSeq(o) == if o.Some? then [o.value] else []
  {
  }

  lemma MaxOfLast(ids: seq<nat>)
    ensures ids == [] ==> MaxOf(ids) == 0
    ensures ids != [] ==>
              var last, before := ids[|ids| - 1], MaxOf(ids[..|ids| - 1]);
              MaxOf(ids) == if last > before then last else before
  {
  }

  // The text RewriteTrimmed writes.
  method SerializeEvents(lib: FloatLib, events: seq<Event>) returns (content: bytes)
    ensures content == EventLines(lib, events)
  {
    hide EventLine;
    content := [];
    var i := 0;
    assert events[0..] == events;
    while i < |events|
      invariant 0 <= i <= |events|
      invariant content + EventLines(lib, events[i..]) == EventLines(lib, events)
    {
      assert events[i..][1..] == events[i + 1..];
      ConcatAssociative(content, EventLine(lib, events[i]), EventLines(lib, events[i + 1..]));
      content := content + EventLine(lib, events[i]);
      i := i + 1;
    }
    assert content + [] == content;
  }

  class FileEventStore {
    const lib: FloatLib
    var dir: Directory

    constructor (lib: FloatLib)
      ensures this.lib == lib && dir == map[]
    {
      this.lib := lib;
      dir := map[];
    }

    // The cursor file, or else a scan of the log.
    method FindAppendPoint(session: bytes) returns (cursor: Cursor, ends: bool)
      ensures (cursor, ends) == AppendPoint(lib, FilesOf(dir, session))
    {
      hide Counted, MaxOf, LogName, MetaName, StoredCursor;
      var name := SanitizeSessionId(session);
      SessionNames(session);
      var log := FileAt(dir, name + LOG_SUFFIX);
      var stored := StoredCursor(lib, FileAt(dir, name + META_SUFFIX));
      if stored.Some? {
        return stored.value, EndsWithNewline(log);
      }
      var scanned := ScanEvents(lib, Content(log));
      return Cursor((scanned.maxId + 1) % TWO_64, scanned.count), ScanEndsWithNewline(log);
    }

    method AppendEvent(session: bytes, data: bytes) returns (id: nat)
      modifies this
      ensures id == Appended(lib, FilesOf(old(dir), session), data).1
      ensures dir == DirStep(lib, old(dir), Append(session, data))
    {
      hide Loaded, EventLine, EventLines, CursorText, LogName, MetaName, AppendPoint, AppendedTo, Appended, FilesOf,
           FileAt, EscapedName, DirStep;
      AppendWrites(lib, dir, session, data);
      FilesAre(dir, session);
      AppendedIs(lib, FilesOf(dir, session), data);
      var name := SanitizeSessionId(session);
      var logName, metaName := name + LOG_SUFFIX, name + META_SUFFIX;
      SessionNames(session);
      var cursor, ends := FindAppendPoint(session);
      id := cursor.nextId;
      var content := AppendedTo(Content(FileAt(dir, logName)), ends, EventLine(lib, Event(id, data)));
      dir := dir[logName := content];
      var count := cursor.count + 1;
      if count > MAX_EVENTS {
        var items := LoadEvents(lib, content);
        if |items| > MAX_EVENTS { items := items[|items| - MAX_EVENTS..]; }
        content := SerializeEvents(lib, items);
        dir := dir[logName := content];
        count := |items|;
      }
      dir := dir[metaName := CursorText(lib, Cursor((id + 1) % TWO_64, count))];
    }

    method GetEventsSince(session: bytes, last: nat) returns (result: seq<Event>)
      ensures result == FileSince(lib, FilesOf(dir, session), last)
    {
      hide Loaded;
      var name := SanitizeSessionId(session);
      var items := LoadEvents(lib, Content(FileAt(dir, name + LOG_SUFFIX)));
      result := CollectSince(items, last);
    }

    method ClearSession(session: bytes)
      modifies this
      ensures dir == DirStep(lib, old(dir), Clear(session))
    {
      var name := SanitizeSessionId(session);
      dir := dir - {name + LOG_SUFFIX};
      dir := dir - {name + META_SUFFIX};
      assert dir == old(dir) - {LogName(session), MetaName(session)};
    }
  }

  lemma SessionNames(session: bytes)
    ensures LogName(session) == (SESS + EscapedName(session)) + LOG_SUFFIX
    ensures MetaName(session) == (SESS + EscapedName(session)) + META_SUFFIX
  {
  }
}
