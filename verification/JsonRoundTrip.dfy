// The laws of the JSON text engine: what is accepted, round trips at every indentation, and the
// two facts about compact text that line-based files rely on.
module JsonRoundTrip {
  import opened Bytes
  import opened Utf8
  import opened JsonValue
  import opened JsonGrammar
  import opened JsonReader
  import opened JsonComplete
  import opened JsonSound
  import opened JsonDump

  // The reader accepts exactly the sentences of the grammar, and a sentence has one value.
  lemma AcceptsExactlyTheGrammar(lib: FloatLib, s: bytes, v: JsonValue)
    ensures ParseText(lib, s) == Ok(v, |s|) <==>
            exists doc :: ValidDoc(lib, doc) && DocText(doc) == s && DocValue(lib, doc) == v
  {
    if ParseText(lib, s) == Ok(v, |s|) {
      var doc := DocDerived(lib, s);
    }
    forall doc | ValidDoc(lib, doc) && DocText(doc) == s && DocValue(lib, doc) == v
      ensures ParseText(lib, s) == Ok(v, |s|)
    {
      DocRead(lib, doc);
    }
  }

  // Dump, then parse: the same value, whatever the indentation.
  lemma DumpParses(lib: FloatLib, v: JsonValue, indent: int)
    requires Faithful(lib) && Carried(v, MAX_DEPTH)
    ensures ParseText(lib, DumpText(lib, v, indent, 0)) == Ok(v, |DumpText(lib, v, indent, 0)|)
  {
    hide Carried, Valid, Text, Value, DumpText, ParseText;
    var c := DumpDerivation(lib, v, indent, 0, MAX_DEPTH);
    var doc := Doc([], c, []);
    assert DocText(doc) == DumpText(lib, v, indent, 0) by { assert [] + (Text(c) + []) == Text(c); }
    DocRead(lib, doc);
  }

  // ---- What the parser returns can be dumped ------------------------------------------------------

  lemma {:induction false} ValueCarried(lib: FloatLib, c: Cst, room: int)
    requires Faithful(lib) && Valid(lib, c, room)
    ensures Carried(Value(lib, c), room)
    decreases c, 0
  {
    hide Faithful, NumText;
    match c {
      case CNum(num) => NumCarried(lib, num, room);
      case CStr(pieces) => PiecesValueIsUtf8(pieces);
      case CArr(_, items) => ItemsCarried(lib, items, room - 1);
      case CObj(_, members) => MembersCarried(lib, members, room - 1, []);
      case _ =>
    }
  }

  lemma NumCarried(lib: FloatLib, t: Num, room: int)
    requires Faithful(lib) && ValidNum(t) && NumValue(lib, t).Some?
    ensures Carried(NumValue(lib, t).value, room)
  {
    hide NumText;
  }

  lemma {:induction false} ItemsCarried(lib: FloatLib, items: seq<CItem>, room: int)
    requires Faithful(lib) && forall x :: x in items ==> ValidItem(lib, x, room)
    ensures forall x :: x in ItemValues(lib, items) ==> Carried(x, room)
    decreases items
  {
    hide Faithful, Carried, Valid, Value;
    if items != [] {
      assert items[0] in items;
      ValueCarried(lib, items[0].v, room);
      assert forall x :: x in items[1..] ==> x in items;
      ItemsCarried(lib, items[1..], room);
    }
  }

  lemma {:induction false} MembersCarried(lib: FloatLib, ms: seq<CMember>, room: int, acc: seq<Member>)
    requires Faithful(lib) && Sorted(acc) && forall x :: x in ms ==> ValidMember(lib, x, room)
    requires forall m :: m in acc ==> IsUtf8(m.key) && Carried(m.value, room)
    ensures Sorted(MemberValues(lib, ms, acc))
    ensures forall m :: m in MemberValues(lib, ms, acc) ==> IsUtf8(m.key) && Carried(m.value, room)
    decreases ms
  {
    hide Faithful, Carried, Valid, Value, IsUtf8, Sorted, Emplace, PiecesValue;
    if ms != [] {
      var m := ms[0];
      assert m in ms;
      ValueCarried(lib, m.v, room);
      PiecesValueIsUtf8(m.key);
      EmplaceSorted(acc, PiecesValue(m.key), Value(lib, m.v));
      EmplaceElements(acc, PiecesValue(m.key), Value(lib, m.v));
      assert forall x :: x in ms[1..] ==> x in ms;
      MembersCarried(lib, ms[1..], room, Emplace(acc, PiecesValue(m.key), Value(lib, m.v)));
    }
  }

  // Parse, dump, parse: an accepted text keeps its value through a rewrite.
  lemma ParseDumpParse(lib: FloatLib, s: bytes, indent: int)
    requires Faithful(lib) && ParseText(lib, s).Ok?
    ensures var v := ParseText(lib, s).value;
            var t := DumpText(lib, v, indent, 0);
            Carried(v, MAX_DEPTH) && ParseText(lib, t) == Ok(v, |t|)
  {
    hide Carried, Valid, Value, DumpText, ParseText;
    var doc := DocDerived(lib, s);
    ValueCarried(lib, doc.v, MAX_DEPTH);
    DumpParses(lib, DocValue(lib, doc), indent);
  }

  // Dump is injective on the values the text form can carry.
  lemma DumpInjective(lib: FloatLib, v: JsonValue, w: JsonValue, indent: int)
    requires Faithful(lib) && Carried(v, MAX_DEPTH) && Carried(w, MAX_DEPTH)
    requires DumpText(lib, v, indent, 0) == DumpText(lib, w, indent, 0)
    ensures v == w
  {
    hide Carried, DumpText, ParseText;
    DumpParses(lib, v, indent);
    DumpParses(lib, w, indent);
  }

  // ---- Compact text -------------------------------------------------------------------------------

  predicate NoControls(x: bytes) {
    forall i :: 0 <= i < |x| ==> x[i] >= 0x20
  }

  lemma {:induction false} EscapedHasNoControls(s: bytes, i: nat)
    requires i <= |s|
    ensures NoControls(EscapedFrom(s, i))
    decreases |s| - i
  {
    if i < |s| { EscapedHasNoControls(s, i + 1); }
  }

  lemma NumHasNoControls(t: Num)
    requires ValidNum(t)
    ensures NoControls(NumText(t))
  {
    hide NoControls;
    var tail := FracText(t.frac) + ExpText(t.exp);
    NumPartsHaveNoControls(t);
    NoControlsJoin(FracText(t.frac), ExpText(t.exp));
    NoControlsJoin(t.ints, tail);
    NoControlsJoin(SignText(t.neg), t.ints + tail);
  }

  lemma NoControlsJoin(x: bytes, y: bytes)
    requires NoControls(x) && NoControls(y)
    ensures NoControls(x + y)
  {
  }

  lemma NumPartsHaveNoControls(t: Num)
    requires ValidNum(t)
    ensures NoControls(SignText(t.neg)) && NoControls(t.ints) && NoControls(FracText(t.frac))
            && NoControls(ExpText(t.exp))
  {
  }

  // A compact dump holds no byte below 0x20, so it never contains a line break.
  lemma {:induction false} CompactHasNoControls(lib: FloatLib, v: JsonValue, depth: nat, room: int)
    requires Faithful(lib) && Carried(v, room)
    ensures NoControls(DumpText(lib, v, -1, depth))
    decreases v, 0
  {
    hide Faithful, IsUtf8, Sorted, NumText, ValidNum, DoubleDump, EscapedFrom, IntText;
    match v {
      case JInt(i) => var t := IntDerivation(lib, i); NumHasNoControls(t);
      case JDouble(bits) => var t := DoubleDerivation(lib, bits); NumHasNoControls(t);
      case JString(text) => EscapedHasNoControls(text, 0);
      case JArray(items) => if items != [] { ItemsHaveNoControls(lib, items, depth, room - 1); }
      case JObject(members) => if members != [] { MembersHaveNoControls(lib, members, depth, room - 1); }
      case _ =>
    }
  }

  lemma {:induction false} ItemsHaveNoControls(lib: FloatLib, items: seq<JsonValue>, depth: nat, room: int)
    requires Faithful(lib) && items != [] && forall x :: x in items ==> Carried(x, room)
    ensures NoControls(ItemsDump(lib, items, -1, depth))
    decreases items
  {
    hide Faithful, Carried, DumpText;
    assert items[0] in items;
    CompactHasNoControls(lib, items[0], depth, room);
    if |items| > 1 {
      assert forall x :: x in items[1..] ==> x in items;
      ItemsHaveNoControls(lib, items[1..], depth, room);
    }
  }

  lemma {:induction false} MembersHaveNoControls(lib: FloatLib, ms: seq<Member>, depth: nat, room: int)
    requires Faithful(lib) && ms != [] && forall m :: m in ms ==> Carried(m.value, room)
    ensures NoControls(MembersDump(lib, ms, -1, depth))
    decreases ms
  {
    hide Faithful, Carried, DumpText, EscapedFrom;
    assert ms[0] in ms;
    CompactHasNoControls(lib, ms[0].value, depth, room);
    EscapedHasNoControls(ms[0].key, 0);
    if |ms| > 1 {
      assert forall m :: m in ms[1..] ==> m in ms;
      MembersHaveNoControls(lib, ms[1..], depth, room);
    }
  }

  // A dumped container that is cut short is no JSON text any more, wherever it is cut.
  lemma NoProperPrefixParses(lib: FloatLib, v: JsonValue, indent: int, n: nat)
    requires Faithful(lib) && Carried(v, MAX_DEPTH) && (v.JArray? || v.JObject?)
    requires n < |DumpText(lib, v, indent, 0)|
    ensures ParseText(lib, DumpText(lib, v, indent, 0)[..n]).Err?
  {
    hide Faithful, Carried, DumpText, ParseText, ValidDoc, DocText, DocValue, ValueAt, ValueStops, Valid, Value, Text,
         At;
    var text := DumpText(lib, v, indent, 0);
    DumpOpens(lib, v, indent);
    var cut := text[..n];
    if ParseText(lib, cut).Ok? {
      var doc := DocDerived(lib, cut);
      CutDerivation(lib, text, doc, n);
      var c := DumpDerivation(lib, v, indent, 0, MAX_DEPTH);
      AtSlice(text, 0, Text(c));
      assert text[0..|text|] == text;
      NumberStart(lib, c, MAX_DEPTH);
      ValueRead(lib, text, 0, 0, c);
    }
  }

  lemma NumberStart(lib: FloatLib, c: Cst, room: int)
    requires Valid(lib, c, room)
    ensures c.CNum? ==> Text(c) != [] && (Text(c)[0] == MINUS || IsDigit(Text(c)[0]))
  {
    if c.CNum? && !c.num.neg { assert Text(c)[0] == c.num.ints[0]; }
  }

  lemma DumpOpens(lib: FloatLib, v: JsonValue, indent: int)
    requires v.JArray? || v.JObject?
    ensures var text := DumpText(lib, v, indent, 0); text != [] && (text[0] == OPEN_ARRAY || text[0] == OPEN_OBJECT)
  {
    hide ItemsDump, MembersDump, Pad;
  }

  // The derivation of a cut text that starts with a bracket is read in the whole text, too.
  lemma CutDerivation(lib: FloatLib, text: bytes, doc: Doc, n: nat)
    requires n < |text| && (text[0] == OPEN_ARRAY || text[0] == OPEN_OBJECT)
    requires ValidDoc(lib, doc) && DocText(doc) == text[..n]
    ensures ValueAt(lib, text, 0, 0).Ok? && ValueAt(lib, text, 0, 0).next < |text|
  {
    hide ValueAt, Value;
    TextStart(lib, doc.v, MAX_DEPTH);
    var c := Text(doc.v);
    assert DocText(doc) == doc.before + (c + doc.after);
    hide Text;
    assert DocText(doc)[0] == text[0];
    assert text[..|c|] == text[..n][..|c|] == c;
    assert text[0..0 + |c|] == c;
    AtSlice(text, 0, c);
    assert c[0] == text[0];
    NumberStart(lib, doc.v, MAX_DEPTH);
    ValueRead(lib, text, 0, 0, doc.v);
  }
}
