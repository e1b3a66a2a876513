// The text side of src/http/FileEventStore.cpp: event lines, the loops that load and count them,
// and why neither a torn last line nor foreign bytes disturb the lines around them.
module EventLog {
  import opened Bytes
  import opened Utf8
  import opened JsonValue
  import opened JsonGrammar
  import opened JsonReader
  import opened JsonComplete
  import opened JsonSound
  import opened JsonDump
  import opened JsonRoundTrip

  const TWO_63: int := 0x8000_0000_0000_0000
  const TWO_64: int := 0x1_0000_0000_0000_0000

  // static_cast<int64_t> of a uint64_t, and back.
  function AsInt64(u: nat): int {
    if u % TWO_64 < TWO_63 then u % TWO_64 else u % TWO_64 - TWO_64
  }

  function AsUint64(i: int): nat {
    i % TWO_64
  }

  lemma CastsInvert(u: nat)
    requires u < TWO_64
    ensures IsInt64(AsInt64(u)) && AsUint64(AsInt64(u)) == u
  {
  }

  datatype Event = Event(id: nat, data: bytes)

  const ID: bytes := [0x69, 0x64]
  const DATA: bytes := [0x64, 0x61, 0x74, 0x61]

  // ---- Lines ------------------------------------------------------------------------------------

  function EventValue(e: Event): JsonValue {
    JObject(Assigned(Assigned([], ID, JInt(AsInt64(e.id))), DATA, JString(e.data)))
  }

  function EventBody(lib: FloatLib, e: Event): bytes {
    DumpText(lib, EventValue(e), -1, 0)
  }

  // SerializeEventLine
  function EventLine(lib: FloatLib, e: Event): bytes {
    EventBody(lib, e) + [LF]
  }

  function EventLines(lib: FloatLib, events: seq<Event>): bytes {
    if events == [] then [] else EventLine(lib, events[0]) + EventLines(lib, events[1..])
  }

  function Stripped(line: bytes): bytes {
    if line != [] && line[|line| - 1] == CR then line[..|line| - 1] else line
  }

  // The event of one line; a line that throws anywhere is skipped.
  function LoadedLine(lib: FloatLib, line: bytes): Option<Event> {
    var text := Stripped(line);
    if text == [] then None
    else match ParseText(lib, text)
      case Err(_, _) => None
      case Ok(v, _) =>
        if Lookup(v, ID).Some? && Lookup(v, DATA).Some? && Lookup(v, ID).value.JInt? && Lookup(v, DATA).value.JString?
        then Some(Event(AsUint64(Lookup(v, ID).value.i), Lookup(v, DATA).value.text))
        else None
  }

  const ID_PREFIX: bytes := [0x7B, 0x22, 0x69, 0x64, 0x22, 0x3A]
  const DATA_PREFIX: bytes := [0x2C, 0x22, 0x64, 0x61, 0x74, 0x61, 0x22, 0x3A, 0x22]

  // The closing quote, or the place where the search runs off the line.
  function QuoteFrom(line: bytes, p: nat): nat
    decreases |line| - p
  {
    if p >= |line| || line[p] == QUOTE then p
    else if line[p] == BACKSLASH then QuoteFrom(line, p + 2)
    else QuoteFrom(line, p + 1)
  }

  // ParseCanonicalEventId
  function CanonicalId(line: bytes): Option<nat> {
    var from := |ID_PREFIX|;
    if |line| <= from || !At(line, 0, ID_PREFIX) then None
    else
      var end := SkipDigits(line, from);
      var value := Number(line[from..end]);
      if !(0 <= value < TWO_64) || end == from || !At(line, end, DATA_PREFIX) then None
      else
        var quote := QuoteFrom(line, end + |DATA_PREFIX|);
        if quote + 1 != |line| || line[quote] != QUOTE then None else Some(value)
  }

  // CountEventLine: the id a line is counted with.
  function CountedLine(lib: FloatLib, line: bytes): Option<nat> {
    var text := Stripped(line);
    if text == [] then None
    else if CanonicalId(text).Some? then CanonicalId(text)
    else match ParseText(lib, text)
      case Err(_, _) => None
      case Ok(v, _) =>
        if Lookup(v, ID).Some? && Lookup(v, DATA).Some? && Lookup(v, ID).value.JInt?
        then Some(AsUint64(Lookup(v, ID).value.i))
        else None
  }

  function Lines(content: bytes): seq<bytes>
    decreases |content|
  {
    if content == [] then []
    else
      var end := FindByte(content, 0, LF);
      if end == |content| then [content] else [content[..end]] + Lines(content[end + 1..])
  }

  function LoadedLines(lib: FloatLib, lines: seq<bytes>): seq<Event> {
    if lines == [] then []
    else ToSeq(LoadedLine(lib, lines[0])) + LoadedLines(lib, lines[1..])
  }

  function CountedLines(lib: FloatLib, lines: seq<bytes>): seq<nat> {
    if lines == [] then []
    else ToSeq<nat>(CountedLine(lib, lines[0])) + CountedLines(lib, lines[1..])
  }

  function Loaded(lib: FloatLib, content: bytes): seq<Event> {
    LoadedLines(lib, Lines(content))
  }

  function Counted(lib: FloatLib, content: bytes): seq<nat> {
    CountedLines(lib, Lines(content))
  }

  function MaxOf(ids: seq<nat>): nat {
    if ids == [] then 0 else if ids[|ids| - 1] > MaxOf(ids[..|ids| - 1]) then ids[|ids| - 1]
      else MaxOf(ids[..|ids| - 1])
  }

  function IdsOf(events: seq<Event>): seq<nat> {
    if events == [] then [] else [events[0].id] + IdsOf(events[1..])
  }

  predicate EndsLine(content: bytes) {
    content == [] || content[|content| - 1] == LF
  }

  predicate Storable(e: Event) {
    e.id < TWO_64
  }

  ghost predicate StorableText(e: Event) {
    Storable(e) && IsUtf8(e.data)
  }

  // ---- Own lines --------------------------------------------------------------------------------

  lemma EventMembers(e: Event)
    ensures EventValue(e) == JObject([Member(DATA, JString(e.data)), Member(ID, JInt(AsInt64(e.id)))])
    ensures Lookup(EventValue(e), ID) == Some(JInt(AsInt64(e.id)))
    ensures Lookup(EventValue(e), DATA) == Some(JString(e.data))
  {
    assert KeyLess(DATA, ID);
    assert DATA != ID by { assert |DATA| != |ID|; }
    var i, d := Member(ID, JInt(AsInt64(e.id))), Member(DATA, JString(e.data));
    assert Assigned([], ID, i.value) == [i];
    assert Assigned([i], DATA, d.value) == [d] + [i] == [d, i];
    assert [d, i][1..] == [i] && Find([i], ID) == Some(i.value);
    assert Find([d, i], ID) == Find([i], ID);
  }

  lemma KeysAreUtf8()
    ensures IsUtf8(ID) && IsUtf8(DATA)
  {
    AsciiIsUtf8(ID);
    AsciiIsUtf8(DATA);
  }

  lemma EventCarried(e: Event)
    requires StorableText(e)
    ensures Carried(EventValue(e), MAX_DEPTH)
  {
    EventMembers(e);
    KeysAreUtf8();
    CastsInvert(e.id);
    hide AsInt64, IsUtf8, EventValue;
    var ms := [Member(DATA, JString(e.data)), Member(ID, JInt(AsInt64(e.id)))];
    assert Sorted(ms) by { assert KeyLess(DATA, ID); }
    assert forall m :: m in ms ==> m == ms[0] || m == ms[1];
    hide Sorted, KeyLess, DATA, ID;
  }

  // A stored line is printable, parses, and yields its event; what is in front of it does not matter.
  lemma OwnLine(lib: FloatLib, e: Event)
    requires Faithful(lib) && StorableText(e)
    ensures EventBody(lib, e) != [] && NoControls(EventBody(lib, e))
    ensures LoadedLine(lib, EventBody(lib, e)) == Some(e) && CountedLine(lib, EventBody(lib, e)) == Some(e.id)
  {
    hide Faithful, Carried, DumpText, ParseText, CanonicalId, EventValue, Lookup, MAX_DEPTH;
    var body := EventBody(lib, e);
    EventCarried(e);
    DumpParses(lib, EventValue(e), -1);
    CompactHasNoControls(lib, EventValue(e), 0, MAX_DEPTH);
    EventMembers(e);
    CastsInvert(e.id);
    ParsedIsNotEmpty(lib, body);
    CanonicalIsNoJson(lib, body);
  }

  lemma ParsedIsNotEmpty(lib: FloatLib, text: bytes)
    ensures ParseText(lib, text).Ok? ==> text != []
  {
    if text == [] && ParseText(lib, text).Ok? {
      var doc := DocDerived(lib, text);
      TextStart(lib, doc.v, MAX_DEPTH);
    }
  }

  // The fast path of the counter accepts only texts that end in a quote, and such a text that
  // begins with a brace is no JSON text.
  lemma CanonicalIsNoJson(lib: FloatLib, text: bytes)
    ensures CanonicalId(text).Some? ==> ParseText(lib, text).Err?
  {
    if CanonicalId(text).Some? && ParseText(lib, text).Ok? {
      assert text[0] == OPEN_OBJECT && text[|text| - 1] == QUOTE by { assert text[0 + 0] == ID_PREFIX[0]; }
      hide CanonicalId, ParseText;
      var doc := DocDerived(lib, text);
      BracedTextEnds(lib, doc);
    }
  }

  lemma BracedTextEnds(lib: FloatLib, doc: Doc)
    requires ValidDoc(lib, doc) && DocText(doc) != [] && DocText(doc)[0] == OPEN_OBJECT
    ensures DocText(doc)[|DocText(doc)| - 1] != QUOTE
  {
    var x, text := Text(doc.v), DocText(doc);
    TextStart(lib, doc.v, MAX_DEPTH);
    NumberStart(lib, doc.v, MAX_DEPTH);
    FrontIsWs(doc.before, x + doc.after);
    assert text[0] == x[0] && text[|text| - 1] == (x + doc.after)[|x + doc.after| - 1];
    assert doc.v.CObj? && x[|x| - 1] == CLOSE_OBJECT;
    if doc.after != [] { assert IsWs(doc.after[|doc.after| - 1]); }
  }

  lemma FrontIsWs(before: bytes, rest: bytes)
    requires AllWs(before)
    ensures before != [] ==> IsWs((before + rest)[0])
  {
    if before != [] { assert (before + rest)[0] == before[0]; }
  }

  // So every event that loads is counted, with its id.
  lemma LoadedIsCounted(lib: FloatLib, line: bytes)
    requires LoadedLine(lib, line).Some?
    ensures CountedLine(lib, line) == Some(LoadedLine(lib, line).value.id)
  {
    hide CanonicalId, ParseText;
    CanonicalIsNoJson(lib, Stripped(line));
  }

  // The converse fails: this line takes the fast path of the counter and never loads.
  lemma CountedWithoutLoading(lib: FloatLib)
    ensures var line := ID_PREFIX + ([0x35] + DATA_PREFIX + [QUOTE]);
            CountedLine(lib, line) == Some(5) && LoadedLine(lib, line) == None
  {
    var line := ID_PREFIX + ([0x35] + DATA_PREFIX + [QUOTE]);
    assert line == ID_PREFIX + [0x35] + DATA_PREFIX + [QUOTE];
    assert line[6] == 0x35 && line[7] == 0x2C && SkipDigits(line, 6) == 7;
    assert line[6..7] == [0x35] && [0x35][..0] == [] && Number(line[6..7]) == 5;
    assert QuoteFrom(line, 16) == 16;
    CanonicalIsNoJson(lib, line);
  }

  // The text parses to an object with an integer id, but its data member is no string.
  predicate IdWithoutText(lib: FloatLib, text: bytes) {
    match ParseText(lib, text)
    case Err(_, _) => false
    case Ok(v, _) =>
      && v.JObject? && Lookup(v, ID).Some? && Lookup(v, ID).value.JInt?
      && Lookup(v, DATA).Some? && !Lookup(v, DATA).value.JString?
  }

  // It fails exactly for the lines of the fast path, none of which parses, and for those with an
  // id whose data is no text.
  lemma CountedWithoutLoadingExactly(lib: FloatLib, line: bytes)
    ensures CountedLine(lib, line).Some? && LoadedLine(lib, line).None? <==>
            var text := Stripped(line);
            text != [] && (CanonicalId(text).Some? || IdWithoutText(lib, text))
  {
    hide CanonicalId, ParseText;
    CanonicalIsNoJson(lib, Stripped(line));
  }

  // Over a whole log: the counter never counts too few events, and counts right exactly if every
  // line it counts loads.
  lemma {:induction false} CountIsExact(lib: FloatLib, lines: seq<bytes>)
    ensures |CountedLines(lib, lines)| >= |LoadedLines(lib, lines)|
    ensures |CountedLines(lib, lines)| == |LoadedLines(lib, lines)| <==>
            forall line :: line in lines && CountedLine(lib, line).Some? ==> LoadedLine(lib, line).Some?
  {
    hide CountedLine, LoadedLine;
    if lines != [] {
      CountIsExact(lib, lines[1..]);
      if LoadedLine(lib, lines[0]).Some? { LoadedIsCounted(lib, lines[0]); }
      assert forall line :: line in lines <==> line == lines[0] || line in lines[1..];
    }
  }

  lemma BodyStart(lib: FloatLib, e: Event)
    ensures |EventBody(lib, e)| > 2 && EventBody(lib, e)[2] == 0x64
  {
    EventMembers(e);
    hide EventValue;
    var ms := [Member(DATA, JString(e.data)), Member(ID, JInt(AsInt64(e.id)))];
    var s := StringDump(DATA);
    DataEscaped();
    assert s[0] == QUOTE && s[1] == 0x64 && |s| > 2;
    hide StringDump;
    var tail := ColonText(-1) + DumpText(lib, ms[0].value, -1, 0);
    var later := [COMMA] + MembersDump(lib, ms[1..], -1, 0);
    assert MemberDump(lib, ms[0], -1, 0) == [] + (s + tail);
    assert MembersDump(lib, ms, -1, 0) == MemberDump(lib, ms[0], -1, 0) + later;
    assert EventBody(lib, e) == [OPEN_OBJECT] + ((MembersDump(lib, ms, -1, 0) + []) + [CLOSE_OBJECT]);
  }

  lemma DataEscaped()
    ensures |StringDump(DATA)| > 2 && StringDump(DATA)[1] == 0x64
  {
    assert EscapedFrom(DATA, 0) == [0x64] + EscapedFrom(DATA, 1);
  }

  // A body cut short anywhere is neither loaded nor counted.
  lemma TornBody(lib: FloatLib, e: Event, k: nat)
    requires Faithful(lib) && StorableText(e) && k < |EventBody(lib, e)|
    ensures LoadedLine(lib, EventBody(lib, e)[..k]) == None && CountedLine(lib, EventBody(lib, e)[..k]) == None
  {
    hide Faithful, Carried, DumpText, ParseText, EventValue, Lookup;
    var torn := EventBody(lib, e)[..k];
    OwnLine(lib, e);
    BodyStart(lib, e);
    EventCarried(e);
    assert EventValue(e).JObject? by { EventMembers(e); }
    NoProperPrefixParses(lib, EventValue(e), -1, k);
    assert torn != [] ==> torn[k - 1] == EventBody(lib, e)[k - 1];
    CanonicalStart(torn);
  }

  lemma CanonicalStart(text: bytes)
    ensures CanonicalId(text).Some? ==> |text| > 2 && text[2] == 0x69
  {
    if CanonicalId(text).Some? { assert text[0 + 2] == ID_PREFIX[2]; }
  }

  // ---- Files ------------------------------------------------------------------------------------

  lemma {:induction false} LinesConcat(lib: FloatLib, a: seq<bytes>, b: seq<bytes>)
    ensures LoadedLines(lib, a + b) == LoadedLines(lib, a) + LoadedLines(lib, b)
    ensures CountedLines(lib, a + b) == CountedLines(lib, a) + CountedLines(lib, b)
  {
    hide LoadedLine, CountedLine;
    if a == [] {
      assert a + b == b;
    } else {
      assert (a + b)[1..] == a[1..] + b;
      LinesConcat(lib, a[1..], b);
    }
  }

  // Text behind a line break starts a line of its own.
  lemma {:induction false} LinesBehindBreak(c: bytes, x: bytes)
    requires EndsLine(c)
    ensures Lines(c + x) == Lines(c) + Lines(x)
    decreases |c|
  {
    hide Lines, FindByte;
    LinesStep(c);
    LinesStep(c + x);
    if c == [] {
      assert c + x == x;
    } else {
      var end := FindByte(c, 0, LF);
      var tail := c[end + 1..];
      EndsWithBreak(c);
      BreakFound(c, x);
      hide EndsLine;
      LinesBehindBreak(tail, x);
      ConsConcat(c[..end], Lines(tail), Lines(x));
    }
  }

  lemma EndsWithBreak(c: bytes)
    requires EndsLine(c) && c != []
    ensures FindByte(c, 0, LF) < |c| && EndsLine(c[FindByte(c, 0, LF) + 1..])
  {
  }

  lemma LinesStep(c: bytes)
    ensures Lines(c) ==
            if c == [] then []
            else if FindByte(c, 0, LF) == |c| then [c]
            else [c[..FindByte(c, 0, LF)]] + Lines(c[FindByte(c, 0, LF) + 1..])
  {
    hide FindByte;
  }

  lemma BreakFound(c: bytes, x: bytes)
    requires c != [] && FindByte(c, 0, LF) < |c|
    ensures var end := FindByte(c, 0, LF);
            && FindByte(c + x, 0, LF) == end
            && (c + x)[..end] == c[..end] && (c + x)[end + 1..] == c[end + 1..] + x
  {
    var end := FindByte(c, 0, LF);
    assert forall i :: 0 <= i < end ==> (c + x)[i] == c[i];
    FindByteAt(c + x, 0, LF, end);
  }

  // A break behind an unfinished line finishes it and adds nothing.
  lemma {:induction false} LinesClosed(c: bytes)
    requires !EndsLine(c)
    ensures Lines(c + [LF]) == Lines(c)
    decreases |c|
  {
    hide Lines, FindByte;
    LinesStep(c);
    LinesStep(c + [LF]);
    var end := FindByte(c, 0, LF);
    if end == |c| {
      OneLine(c);
    } else {
      BreakFound(c, [LF]);
      LinesClosed(c[end + 1..]);
    }
  }

  lemma OneLine(x: bytes)
    requires x != [] && forall i :: 0 <= i < |x| ==> x[i] != LF
    ensures Lines(x) == [x] && Lines(x + [LF]) == [x]
  {
    FindByteAt(x, 0, LF, |x|);
    FindByteAt(x + [LF], 0, LF, |x|);
    assert (x + [LF])[..|x|] == x && (x + [LF])[|x| + 1..] == [];
  }

  lemma OneLoaded(lib: FloatLib, x: bytes)
    ensures LoadedLines(lib, [x]) == ToSeq(LoadedLine(lib, x))
    ensures CountedLines(lib, [x]) == ToSeq<nat>(CountedLine(lib, x))
  {
    hide LoadedLine, CountedLine;
    assert [x][1..] == [];
  }

  // What appending writes: the break is left out only where no line is open.
  function AppendedTo(content: bytes, ends: bool, line: bytes): bytes {
    content + ((if ends then [] else [LF]) + line)
  }

  // Whatever the file holds, an appended event is one more event at its end.
  lemma AppendedLoads(lib: FloatLib, content: bytes, ends: bool, e: Event)
    requires Faithful(lib) && StorableText(e) && (ends ==> EndsLine(content))
    ensures Loaded(lib, AppendedTo(content, ends, EventLine(lib, e))) == Loaded(lib, content) + [e]
    ensures Counted(lib, AppendedTo(content, ends, EventLine(lib, e))) == Counted(lib, content) + [e.id]
  {
    hide *;
    var line := EventLine(lib, e);
    var c := if ends then content else content + [LF];
    LineLoads(lib, e);
    LoadedUnfold(lib, content);
    LoadedUnfold(lib, c);
    LoadedUnfold(lib, c + line);
    AppendedText(content, ends, line);
    if !ends { BreakAdded(lib, content); }
    LinesBehindBreak(c, line);
    LinesConcat(lib, Lines(c), Lines(line));
  }

  lemma AppendedText(content: bytes, ends: bool, line: bytes)
    ensures AppendedTo(content, ends, line) == (if ends then content else content + [LF]) + line
  {
    assert [] + line == line;
    ConcatAssociative(content, [LF], line);
  }

  lemma LoadedUnfold(lib: FloatLib, content: bytes)
    ensures Loaded(lib, content) == LoadedLines(lib, Lines(content))
    ensures Counted(lib, content) == CountedLines(lib, Lines(content))
  {
  }

  lemma LineLoads(lib: FloatLib, e: Event)
    requires Faithful(lib) && StorableText(e)
    ensures LoadedLines(lib, Lines(EventLine(lib, e))) == [e]
    ensures CountedLines(lib, Lines(EventLine(lib, e))) == [e.id]
  {
    hide Faithful, StorableText, EventBody, LoadedLine, CountedLine, LoadedLines, CountedLines, Lines;
    OwnLine(lib, e);
    OneLine(EventBody(lib, e));
    OneLoaded(lib, EventBody(lib, e));
  }

  // A break added at the end, needed or not, changes nothing that is loaded or counted.
  lemma BreakAdded(lib: FloatLib, content: bytes)
    ensures Loaded(lib, content + [LF]) == Loaded(lib, content)
    ensures Counted(lib, content + [LF]) == Counted(lib, content)
    ensures EndsLine(content + [LF])
  {
    if EndsLine(content) {
      LinesBehindBreak(content, [LF]);
      BlankLine(lib);
      hide LoadedLines, CountedLines, Lines;
      LinesConcat(lib, Lines(content), Lines([LF]));
    } else {
      LinesClosed(content);
    }
  }

  lemma BlankLine(lib: FloatLib)
    ensures LoadedLines(lib, Lines([LF])) == [] && CountedLines(lib, Lines([LF])) == []
  {
    FindByteAt([LF], 0, LF, 0);
    assert [LF][..0] == [] && [LF][1..] == [] && Lines([LF]) == [[]];
    OneLoaded(lib, []);
  }

  // The last line, cut at any byte: the lines in front still load, and the torn event itself only
  // when nothing but its line break is missing.
  lemma TornLine(lib: FloatLib, content: bytes, e: Event, k: nat)
    requires Faithful(lib) && StorableText(e) && EndsLine(content) && k <= |EventLine(lib, e)|
    ensures var whole := k >= |EventLine(lib, e)| - 1;
            var torn := content + EventLine(lib, e)[..k];
            && Loaded(lib, torn) == Loaded(lib, content) + (if whole then [e] else [])
            && Counted(lib, torn) == Counted(lib, content) + (if whole then [e.id] else [])
  {
    hide *;
    var line := EventLine(lib, e);
    LoadedUnfold(lib, content);
    LoadedUnfold(lib, content + line[..k]);
    LinesBehindBreak(content, line[..k]);
    LinesConcat(lib, Lines(content), Lines(line[..k]));
    CutLoads(lib, e, k);
  }

  lemma CutLoads(lib: FloatLib, e: Event, k: nat)
    requires Faithful(lib) && StorableText(e) && k <= |EventLine(lib, e)|
    ensures var whole := k >= |EventLine(lib, e)| - 1;
            var cut := Lines(EventLine(lib, e)[..k]);
            && LoadedLines(lib, cut) == (if whole then [e] else [])
            && CountedLines(lib, cut) == (if whole then [e.id] else [])
  {
    hide Faithful, StorableText, EventBody, LoadedLine, CountedLine, LoadedLines, CountedLines, Lines;
    var line, body := EventLine(lib, e), EventBody(lib, e);
    OwnLine(lib, e);
    OneLine(body);
    OneLoaded(lib, body);
    if k == |line| {
      assert line[..k] == line;
    } else if k == |body| {
      assert line[..k] == body;
    } else {
      assert line[..k] == body[..k];
      TornBody(lib, e, k);
      TornLines(lib, body[..k]);
    }
  }

  lemma TornLines(lib: FloatLib, torn: bytes)
    requires LoadedLine(lib, torn) == None && CountedLine(lib, torn) == None
    requires forall i :: 0 <= i < |torn| ==> torn[i] != LF
    ensures LoadedLines(lib, Lines(torn)) == [] && CountedLines(lib, Lines(torn)) == []
  {
    if torn != [] { OneLine(torn); OneLoaded(lib, torn); }
  }

  // ---- Rewriting --------------------------------------------------------------------------------

  lemma {:induction false} EventLinesEnd(lib: FloatLib, events: seq<Event>)
    ensures EndsLine(EventLines(lib, events))
  {
    if events != [] {
      EventLinesEnd(lib, events[1..]);
      var text := EventLines(lib, events);
      assert text[|text| - 1] == LF;
    }
  }

  lemma {:induction false} EventLinesLoad(lib: FloatLib, events: seq<Event>)
    requires Faithful(lib) && forall e :: e in events ==> StorableText(e)
    ensures Loaded(lib, EventLines(lib, events)) == events
    ensures Counted(lib, EventLines(lib, events)) == IdsOf(events)
  {
    hide Faithful, StorableText, LoadedLines, CountedLines, Lines, EventLine;
    if events == [] {
      NothingLoads(lib);
    } else {
      assert events[0] in events && forall e :: e in events[1..] ==> e in events;
      EventLinesLoad(lib, events[1..]);
      OneEventLine(lib, events[0]);
      LinesBehindBreak(EventLine(lib, events[0]), EventLines(lib, events[1..]));
      LinesConcat(lib, Lines(EventLine(lib, events[0])), Lines(EventLines(lib, events[1..])));
      assert events == [events[0]] + events[1..];
    }
  }

  lemma NothingLoads(lib: FloatLib)
    ensures Loaded(lib, []) == [] && Counted(lib, []) == []
  {
  }

  lemma OneEventLine(lib: FloatLib, e: Event)
    requires Faithful(lib) && StorableText(e)
    ensures Loaded(lib, EventLine(lib, e)) == [e] && Counted(lib, EventLine(lib, e)) == [e.id]
    ensures EndsLine(EventLine(lib, e))
  {
    hide Faithful, StorableText, LoadedLines, CountedLines, Lines, EventLine;
    AppendedLoads(lib, [], true, e);
    NothingLoads(lib);
    assert AppendedTo([], true, EventLine(lib, e)) == EventLine(lib, e);
    EventLinesEnd(lib, [e]);
    assert EventLines(lib, [e]) == EventLine(lib, e) + [] by { assert [e][1..] == []; }
  }

  // Whatever a file holds, what is loaded from it can be stored again.
  lemma {:induction false} LoadedStorable(lib: FloatLib, lines: seq<bytes>)
    requires Faithful(lib)
    ensures forall e :: e in LoadedLines(lib, lines) ==> StorableText(e)
  {
    hide Faithful, StorableText, LoadedLine;
    if lines != [] {
      LoadedStorable(lib, lines[1..]);
      LineStorable(lib, lines[0]);
    }
  }

  lemma LineStorable(lib: FloatLib, line: bytes)
    requires Faithful(lib)
    ensures LoadedLine(lib, line).Some? ==> StorableText(LoadedLine(lib, line).value)
  {
    hide Faithful, ParseText, Find;
    if LoadedLine(lib, line).Some? {
      var text := Stripped(line);
      var v := ParseText(lib, text).value;
      ParseDumpParse(lib, text, -1);
      FoundIsMember(v.members, DATA);
    }
  }
}
