// JsonValue::Dump of src/core/JsonValue.cpp, and what it is for: the text it writes is read back
// as the value it was written from, at every indentation.
module JsonDump {
  import opened Bytes
  import opened Utf8
  import opened JsonValue
  import opened JsonGrammar
  import opened JsonReader
  import opened JsonComplete
  import opened JsonSound

  // ---- Text of a value --------------------------------------------------------------------------

  function LowerHex(n: nat): byte
    requires n < 16
  {
    if n < 10 then 0x30 + n else 0x61 + n - 10
  }

  function EscapedByte(b: byte): bytes {
    if b == QUOTE then [BACKSLASH, QUOTE]
    else if b == BACKSLASH then [BACKSLASH, BACKSLASH]
    else if b == 0x08 then [BACKSLASH, 0x62]
    else if b == 0x0C then [BACKSLASH, 0x66]
    else if b == 0x0A then [BACKSLASH, 0x6E]
    else if b == 0x0D then [BACKSLASH, 0x72]
    else if b == 0x09 then [BACKSLASH, 0x74]
    else if b < 0x20 then [BACKSLASH, LETTER_U, 0x30, 0x30, 0x30 + b / 16, LowerHex(b % 16)]
    else [b]
  }

  function EscapedFrom(s: bytes, i: nat): bytes
    requires i <= |s|
    decreases |s| - i
  {
    if i == |s| then [] else EscapedByte(s[i]) + EscapedFrom(s, i + 1)
  }

  function StringDump(s: bytes): bytes {
    [QUOTE] + (EscapedFrom(s, 0) + [QUOTE])
  }

  predicate IsFloatByte(b: byte) {
    b == DOT || IsExpMark(b)
  }

  predicate HasFloatByte(x: bytes) {
    exists i :: 0 <= i < |x| && IsFloatByte(x[i])
  }

  function DoubleDump(lib: FloatLib, bits: nat): bytes {
    if !IsFinite(bits) then NULL_TEXT
    else if HasFloatByte(lib.format(bits)) then lib.format(bits)
    else lib.format(bits) + [DOT, DIGIT_0]
  }

  function Spaces(n: int): bytes {
    if n <= 0 then [] else [0x20] + Spaces(n - 1)
  }

  // What stands before an element or a closing bracket at nesting `level`; nothing when compact.
  function Pad(indent: int, level: nat): bytes {
    if indent < 0 then [] else [LF] + Spaces(level * indent)
  }

  lemma PadIs(indent: int, level: nat)
    ensures Pad(indent, level) == if indent < 0 then [] else [LF] + Spaces(level * indent)
  {
    hide Spaces;
  }

  function Deeper(indent: int, depth: nat): nat {
    if indent < 0 then depth else depth + 1
  }

  function ColonText(indent: int): bytes {
    if indent < 0 then [COLON] else [COLON, 0x20]
  }

  function DumpText(lib: FloatLib, v: JsonValue, indent: int, depth: nat): bytes
    decreases v, 0
  {
    match v
    case JNull => NULL_TEXT
    case JBool(b) => if b then TRUE_TEXT else FALSE_TEXT
    case JInt(i) => IntText(i)
    case JDouble(bits) => DoubleDump(lib, bits)
    case JString(text) => StringDump(text)
    case JArray(items) =>
      if items == [] then [OPEN_ARRAY, CLOSE_ARRAY]
      else [OPEN_ARRAY] + ((ItemsDump(lib, items, indent, Deeper(indent, depth)) + Pad(indent, depth)) + [CLOSE_ARRAY])
    case JObject(members) =>
      if members == [] then [OPEN_OBJECT, CLOSE_OBJECT]
      else [OPEN_OBJECT] + ((MembersDump(lib, members, indent, Deeper(indent, depth)) + Pad(indent, depth))
                            + [CLOSE_OBJECT])
  }

  function ItemsDump(lib: FloatLib, items: seq<JsonValue>, indent: int, depth: nat): bytes
    requires items != []
    decreases items
  {
    var first := Pad(indent, depth) + DumpText(lib, items[0], indent, depth);
    if |items| == 1 then first else first + ([COMMA] + ItemsDump(lib, items[1..], indent, depth))
  }

  function MemberDump(lib: FloatLib, m: Member, indent: int, depth: nat): bytes
    decreases m, 1
  {
    Pad(indent, depth) + (StringDump(m.key) + (ColonText(indent) + DumpText(lib, m.value, indent, depth)))
  }

  function MembersDump(lib: FloatLib, ms: seq<Member>, indent: int, depth: nat): bytes
    requires ms != []
    decreases ms
  {
    if |ms| == 1 then MemberDump(lib, ms[0], indent, depth)
    else MemberDump(lib, ms[0], indent, depth) + ([COMMA] + MembersDump(lib, ms[1..], indent, depth))
  }

  // ---- Strings as derivations -------------------------------------------------------------------

  function PieceOfByte(b: byte): StrPiece {
    if b == QUOTE || b == BACKSLASH then Short(b)
    else if b == 0x08 then Short(0x62)
    else if b == 0x0C then Short(0x66)
    else if b == 0x0A then Short(0x6E)
    else if b == 0x0D then Short(0x72)
    else if b == 0x09 then Short(0x74)
    else if b < 0x20 then Escape([0x30, 0x30, 0x30 + b / 16, LowerHex(b % 16)])
    else Plain(b)
  }

  function PieceOfChar(x: bytes): StrPiece
    requires x != []
  {
    if |x| == 1 then PieceOfByte(x[0]) else Multi(x)
  }

  lemma PieceOfByteLaws(b: byte)
    requires b < 0x80
    ensures ValidPiece(PieceOfByte(b)) && PieceValue(PieceOfByte(b)) == [b]
    ensures PieceText(PieceOfByte(b)) == EscapedByte(b)
  {
    if b < 0x20 && PieceOfByte(b).Escape? {
      assert Hex4(PieceOfByte(b).h) == b / 16 * 16 + b % 16 == b;
    }
  }

  lemma {:induction false} EscapedRaw(s: bytes, i: nat, j: nat)
    requires i <= j <= |s| && forall k :: i <= k < j ==> s[k] >= 0x80
    ensures EscapedFrom(s, i) == s[i..j] + EscapedFrom(s, j)
    decreases j - i
  {
    if i < j {
      assert EscapedByte(s[i]) == [s[i]];
      hide EscapedByte;
      EscapedRaw(s, i + 1, j);
      SliceConcat(s, i, i + 1, j);
      assert s[i..i + 1] == [s[i]];
      ConcatAssociative([s[i]], s[i + 1..j], EscapedFrom(s, j));
    }
  }

  // One UTF8-char of a string, as a piece and as dumped.
  lemma CharPiece(s: bytes, i: nat, x: bytes)
    requires i + |x| <= |s| && s[i..i + |x|] == x && IsUtf8Char(x)
    ensures ValidPiece(PieceOfChar(x)) && PieceValue(PieceOfChar(x)) == x
    ensures EscapedFrom(s, i) == PieceText(PieceOfChar(x)) + EscapedFrom(s, i + |x|)
  {
    hide PieceOfByte, EscapedByte;
    if |x| == 1 {
      assert s[i] == s[i..i + 1][0] == x[0];
      PieceOfByteLaws(x[0]);
    } else {
      hide EscapedFrom;
      assert forall k :: i <= k < i + |x| ==> s[k] == x[k - i];
      EscapedRaw(s, i, i + |x|);
    }
  }

  lemma {:induction false} StringPieces(s: bytes, i: nat, cs: seq<bytes>) returns (ps: seq<StrPiece>)
    requires i <= |s| && AllChars(cs) && s[i..] == Flatten(cs)
    ensures ValidPieces(ps) && PiecesText(ps) == EscapedFrom(s, i) && PiecesValue(ps) == s[i..]
    decreases |cs|
  {
    hide IsUtf8Char, ValidPiece, PieceValue, PieceText, PieceOfChar, EscapedByte;
    if cs == [] {
      ps := [];
    } else {
      var x := cs[0];
      var j := i + |x|;
      assert s[i..j] == s[i..][..|x|] == x;
      assert s[j..] == s[i..][|x|..] == Flatten(cs[1..]);
      var rest := StringPieces(s, j, cs[1..]);
      CharNotEmpty(x);
      ps := [PieceOfChar(x)] + rest;
      assert ps[1..] == rest;
      CharPiece(s, i, x);
    }
  }

  lemma CharNotEmpty(x: bytes)
    requires IsUtf8Char(x)
    ensures x != []
  {
  }

  lemma StringDerivation(s: bytes) returns (ps: seq<StrPiece>)
    requires IsUtf8(s)
    ensures ValidPieces(ps) && StringText(ps) == StringDump(s) && PiecesValue(ps) == s
  {
    var cs :| AllChars(cs) && Flatten(cs) == s;
    assert s[0..] == s;
    ps := StringPieces(s, 0, cs);
  }

  // ---- Numbers as derivations -------------------------------------------------------------------

  lemma IntDerivation(lib: FloatLib, i: int) returns (t: Num)
    requires IsInt64(i)
    ensures ValidNum(t) && NumText(t) == IntText(i) && NumValue(lib, t) == Some(JInt(i))
  {
    var n: nat := if i < 0 then -i else i;
    DecimalLaws(n);
    hide Decimal, Number;
    t := Num(i < 0, Decimal(n), None, None);
    assert Decimal(n) + ([] + []) == Decimal(n);
  }

  // The library contract: what is formatted is a number token that, with the ".0" of DumpValue
  // where needed, parses back to the same bits; and parsing gives finite doubles only.
  ghost predicate Faithful(lib: FloatLib) {
    && (forall bits: nat :: IsFinite(bits) ==>
          && lib.parse(DoubleDump(lib, bits)) == Some(bits)
          && exists t :: ValidNum(t) && NumText(t) == lib.format(bits))
    && (forall t :: ValidNum(t) && lib.parse(NumText(t)).Some? ==> IsFinite(lib.parse(NumText(t)).value))
  }

  // A library that keeps the contract, so that the results about faithful ones are not empty: it
  // writes the bit pattern itself.
  function BitsOf(token: bytes): Option<nat> {
    var n := |token| - 2;
    if n > 0 && token[n..] == [DOT, DIGIT_0] && Number(token[..n]) >= 0 && IsFinite(Number(token[..n]))
    then Some(Number(token[..n])) else None
  }

  function BitsText(bits: nat): bytes {
    Decimal(bits)
  }

  lemma FaithfulExists()
    ensures Faithful(FloatLib(BitsOf, BitsText))
  {
    var lib := FloatLib(BitsOf, BitsText);
    forall bits: nat | IsFinite(bits)
      ensures lib.parse(DoubleDump(lib, bits)) == Some(bits)
      ensures exists t :: ValidNum(t) && NumText(t) == lib.format(bits)
    {
      BitsComeBack(bits);
      var t := Num(false, Decimal(bits), None, None);
      DecimalIsNum(bits);
      assert ValidNum(t) && NumText(t) == lib.format(bits);
    }
    hide NumText, ValidNum, IsFinite, Number;
  }

  lemma DecimalIsNum(n: nat)
    ensures var t := Num(false, Decimal(n), None, None); ValidNum(t) && NumText(t) == Decimal(n)
  {
    DecimalLaws(n);
    hide Decimal, Number;
    assert [] + (Decimal(n) + ([] + [])) == Decimal(n);
  }

  lemma BitsComeBack(bits: nat)
    requires IsFinite(bits)
    ensures BitsOf(DoubleDump(FloatLib(BitsOf, BitsText), bits)) == Some(bits)
  {
    DecimalLaws(bits);
    hide Decimal, Number, IsFinite;
    var d := Decimal(bits);
    assert !HasFloatByte(d);
    var token := d + [DOT, DIGIT_0];
    assert token[..|d|] == d && token[|d|..] == [DOT, DIGIT_0];
  }

  lemma FloatByteOfNum(t: Num)
    requires ValidNum(t)
    ensures HasFloatByte(NumText(t)) <==> IsFloat(t)
  {
    var text := NumText(t);
    var k := |SignText(t.neg)| + |t.ints|;
    assert forall i :: 0 <= i < k ==> text[i] == (SignText(t.neg) + t.ints)[i];
    if IsFloat(t) {
      assert text[k] == (FracText(t.frac) + ExpText(t.exp))[0];
      assert IsFloatByte(text[k]);
    }
  }

  lemma DoubleDerivation(lib: FloatLib, bits: nat) returns (t: Num)
    requires Faithful(lib) && IsFinite(bits)
    ensures ValidNum(t) && NumText(t) == DoubleDump(lib, bits) && NumValue(lib, t) == Some(JDouble(bits))
  {
    hide NumText, ValidNum, IsFinite;
    t :| ValidNum(t) && NumText(t) == lib.format(bits);
    FloatByteOfNum(t);
    if !IsFloat(t) {
      WithFraction(t);
      t := t.(frac := Some([DIGIT_0]));
    }
  }

  lemma WithFraction(t: Num)
    requires ValidNum(t) && !IsFloat(t)
    ensures var t' := t.(frac := Some([DIGIT_0]));
            ValidNum(t') && NumText(t') == NumText(t) + [DOT, DIGIT_0]
  {
    var sign, ints := SignText(t.neg), t.ints;
    assert NumText(t) == sign + ints;
    assert NumText(t.(frac := Some([DIGIT_0]))) == sign + (ints + [DOT, DIGIT_0]) == (sign + ints) + [DOT, DIGIT_0];
  }

  // ---- Values as derivations --------------------------------------------------------------------

  lemma {:induction false} SpacesAreWs(n: int)
    ensures AllWs(Spaces(n))
  {
    if n > 0 { SpacesAreWs(n - 1); }
  }

  lemma PadIsWs(indent: int, level: nat)
    ensures AllWs(Pad(indent, level))
  {
    SpacesAreWs(level * indent);
  }

  // A dump is a sentence of the grammar, and its derivation denotes the dumped value.
  lemma {:induction false} DumpDerivation(lib: FloatLib, v: JsonValue, indent: int, depth: nat, room: int)
    returns (c: Cst)
    requires Faithful(lib) && Carried(v, room)
    ensures Valid(lib, c, room) && Text(c) == DumpText(lib, v, indent, depth) && Value(lib, c) == v
    decreases v, 0
  {
    hide Faithful, NumText, NumValue, ValidNum, ItemsText, ItemsDump, MembersText, MembersDump, Pad, IsUtf8, StringText,
         StringDump;
    match v {
      case JNull => c := CNull;
      case JBool(b) => c := CBool(b);
      case JInt(i) => var t := IntDerivation(lib, i); c := CNum(t);
      case JDouble(bits) => var t := DoubleDerivation(lib, bits); c := CNum(t);
      case JString(text) => var ps := StringDerivation(text); c := CStr(ps);
      case JArray(items) =>
        if items == [] {
          c := CArr([], []);
        } else {
          PadIsWs(indent, depth);
          var cs := ItemsDerivation(lib, items, indent, Deeper(indent, depth), room - 1, Pad(indent, depth));
          c := CArr([], cs);
        }
      case JObject(members) =>
        if members == [] {
          c := CObj([], []);
        } else {
          PadIsWs(indent, depth);
          assert [] + members == members;
          var cs := MembersDerivation(lib, members, indent, Deeper(indent, depth), room - 1, Pad(indent, depth), []);
          c := CObj([], cs);
        }
    }
  }

  lemma {:induction false} ItemsDerivation(lib: FloatLib, items: seq<JsonValue>, indent: int, depth: nat, room: int,
                                           end: bytes)
    returns (cs: seq<CItem>)
    requires Faithful(lib) && items != [] && AllWs(end)
    requires forall x :: x in items ==> Carried(x, room)
    ensures cs != [] && forall x :: x in cs ==> ValidItem(lib, x, room)
    ensures ItemsText(cs) == ItemsDump(lib, items, indent, depth) + end && ItemValues(lib, cs) == items
    decreases items
  {
    hide Faithful, Text, DumpText, Valid, Value, Pad, Carried;
    assert items[0] in items;
    var c := DumpDerivation(lib, items[0], indent, depth, room);
    PadIsWs(indent, depth);
    var pad := Pad(indent, depth);
    if |items| == 1 {
      cs := [CItem(pad, c, end)];
      assert items == [items[0]];
      assert ItemValues(lib, cs) == [Value(lib, c)];
      ConcatAssociative(pad, Text(c), end);
    } else {
      assert forall x :: x in items[1..] ==> x in items;
      var rest := ItemsDerivation(lib, items[1..], indent, depth, room, end);
      var item := CItem(pad, c, []);
      cs := [item] + rest;
      assert cs[1..] == rest && items == [items[0]] + items[1..];
      assert Text(c) + [] == Text(c);
      assert ItemText(item) == pad + Text(c);
      ConcatAssociative([COMMA], ItemsDump(lib, items[1..], indent, depth), end);
      ConcatAssociative(pad + Text(c), [COMMA] + ItemsDump(lib, items[1..], indent, depth), end);
    }
  }

  lemma MemberDerivation(lib: FloatLib, m: Member, indent: int, depth: nat, room: int, end: bytes)
    returns (c: CMember)
    requires Faithful(lib) && AllWs(end) && IsUtf8(m.key) && Carried(m.value, room)
    ensures ValidMember(lib, c, room) && MemberText(c) == MemberDump(lib, m, indent, depth) + end
    ensures PiecesValue(c.key) == m.key && Value(lib, c.v) == m.value
    decreases m, 1
  {
    hide Faithful, Text, DumpText, Valid, Value, Pad, Carried, StringText, StringDump, PiecesValue, ValidPieces, IsUtf8;
    var key := StringDerivation(m.key);
    var v := DumpDerivation(lib, m.value, indent, depth, room);
    PadIsWs(indent, depth);
    var pad, name, gap := Pad(indent, depth), StringText(key), if indent < 0 then [] else [0x20];
    c := CMember(pad, key, [], gap, v, end);
    var text := Text(v);
    var tail := ColonText(indent) + text;
    assert [COLON] + gap == ColonText(indent);
    ConcatAssociative([COLON], gap, text + end);
    ConcatAssociative(ColonText(indent), text, end);
    ConcatAssociative(name, tail, end);
    ConcatAssociative(pad, name + tail, end);
    assert [] + (tail + end) == tail + end;
  }

  lemma {:induction false} MembersDerivation(lib: FloatLib, ms: seq<Member>, indent: int, depth: nat, room: int,
                                             end: bytes, acc: seq<Member>)
    returns (cs: seq<CMember>)
    requires Faithful(lib) && ms != [] && AllWs(end) && Sorted(acc + ms)
    requires forall m :: m in ms ==> IsUtf8(m.key) && Carried(m.value, room)
    ensures cs != [] && forall x :: x in cs ==> ValidMember(lib, x, room)
    ensures MembersText(cs) == MembersDump(lib, ms, indent, depth) + end
    ensures MemberValues(lib, cs, acc) == acc + ms
    decreases ms
  {
    hide Faithful, Carried, IsUtf8, ValidMember, MemberText, MemberDump, PiecesValue, Value;
    var m := ms[0];
    assert m in ms;
    forall i | 0 <= i < |acc| ensures KeyLess(acc[i].key, m.key) {
      assert (acc + ms)[i] == acc[i] && (acc + ms)[|acc|] == m;
    }
    EmplaceAppends(acc, m.key, m.value);
    if |ms| == 1 {
      var c := MemberDerivation(lib, m, indent, depth, room, end);
      cs := [c];
      assert ms == [m];
      assert MemberValues(lib, cs, acc) == Emplace(acc, PiecesValue(c.key), Value(lib, c.v));
    } else {
      var c := MemberDerivation(lib, m, indent, depth, room, []);
      assert forall x :: x in ms[1..] ==> x in ms;
      assert acc + [m] + ms[1..] == acc + ms;
      var rest := MembersDerivation(lib, ms[1..], indent, depth, room, end, acc + [m]);
      cs := [c] + rest;
      assert cs[1..] == rest;
      assert MemberDump(lib, m, indent, depth) + [] == MemberDump(lib, m, indent, depth);
      ConcatAssociative([COMMA], MembersDump(lib, ms[1..], indent, depth), end);
      ConcatAssociative(MemberDump(lib, m, indent, depth), [COMMA] + MembersDump(lib, ms[1..], indent, depth), end);
    }
  }

  // ---- The printer: AppendEscapedString and DumpValue -------------------------------------------

  lemma Appended3(before: bytes, a: bytes, b: bytes, c: bytes, left: bytes)
    ensures before + a + b + c + left == before + (a + (b + (c + left)))
  {
  }

  class Dumper {
    const lib: FloatLib
    const indent: int
    var out: bytes

    constructor (lib: FloatLib, indent: int)
      ensures this.lib == lib && this.indent == indent && out == []
    {
      this.lib, this.indent, out := lib, indent, [];
    }

    // Runs of bytes that need no escape are appended in one piece.
    method AppendEscapedString(s: bytes)
      modifies this
      ensures out == old(out) + StringDump(s)
    {
      hide EscapedByte, EscapedFrom;
      EscapedUnfold(s);
      out := out + [QUOTE];
      ghost var start, written := out, out;
      var runStart, i := 0, 0;
      while i < |s|
        invariant 0 <= runStart <= i <= |s|
        invariant written == out + s[runStart..i]
        invariant written + EscapedFrom(s, i) == start + EscapedFrom(s, 0)
      {
        var esc := EscapedByte(s[i]);
        ConcatAssociative(written, esc, EscapedFrom(s, i + 1));
        if esc != [s[i]] {
          out := out + s[runStart..i];
          out := out + esc;
          runStart := i + 1;
        } else {
          SliceConcat(s, runStart, i, i + 1);
          ConcatAssociative(out, s[runStart..i], esc);
        }
        written := written + esc;
        i := i + 1;
      }
      out := out + s[runStart..];
      assert out == written == start + EscapedFrom(s, 0);
      out := out + [QUOTE];
      ConcatAssociative(start, EscapedFrom(s, 0), [QUOTE]);
      ConcatAssociative(old(out), [QUOTE], EscapedFrom(s, 0) + [QUOTE]);
    }

    static lemma EscapedUnfold(s: bytes)
      ensures EscapedFrom(s, |s|) == []
      ensures forall i :: 0 <= i < |s| ==> EscapedFrom(s, i) == EscapedByte(s[i]) + EscapedFrom(s, i + 1)
    {
      hide EscapedByte;
    }

    method IndentAt(level: nat)
      modifies this
      ensures out == old(out) + Spaces(level * indent)
    {
      var n := level * indent;
      var k := n;
      assert old(out) + Spaces(n) == out + Spaces(k);
      while k > 0
        invariant out + Spaces(k) == old(out) + Spaces(n)
      {
        ConcatAssociative(out, [0x20], Spaces(k - 1));
        out := out + [0x20];
        k := k - 1;
      }
      assert out + [] == out;
    }

    method DumpValue(jv: JsonValue, depth: nat)
      modifies this
      ensures out == old(out) + DumpText(lib, jv, indent, depth)
      decreases jv, 1
    {
      match jv {
        case JNull => out := out + NULL_TEXT;
        case JBool(b) => out := out + if b then TRUE_TEXT else FALSE_TEXT;
        case JInt(i) => out := out + IntText(i);
        case JDouble(bits) =>
          if IsFinite(bits) {
            var repr := lib.format(bits);
            out := out + repr;
            var found := FindFloatByte(repr);
            if !found {
              ConcatAssociative(old(out), repr, [DOT, DIGIT_0]);
              out := out + [DOT, DIGIT_0];
            }
          } else {
            out := out + NULL_TEXT;
          }
        case JString(text) => AppendEscapedString(text);
        case JArray(items) => DumpArray(jv, items, depth);
        case JObject(members) => DumpObject(jv, members, depth);
      }
    }

    method FindFloatByte(repr: bytes) returns (found: bool)
      ensures found == HasFloatByte(repr)
    {
      found := false;
      for i := 0 to |repr|
        invariant !found && forall k :: 0 <= k < i ==> !IsFloatByte(repr[k])
      {
        if IsFloatByte(repr[i]) { return true; }
      }
    }

    // The text still to come after the first `i` elements.
    ghost function ItemsLeft(items: seq<JsonValue>, i: nat, depth: nat): bytes
      requires i <= |items|
    {
      if i == |items| then [] else (if i > 0 then [COMMA] else []) + ItemsDump(lib, items[i..], indent, depth)
    }

    lemma NothingYet(items: seq<JsonValue>, depth: nat)
      requires items != []
      ensures ItemsLeft(items, 0, depth) == ItemsDump(lib, items, indent, depth)
      ensures ItemsLeft(items, |items|, depth) == []
    {
      assert items[0..] == items;
    }

    lemma ItemsLeftStep(items: seq<JsonValue>, i: nat, depth: nat)
      requires i < |items|
      ensures ItemsLeft(items, i, depth) ==
              (if i > 0 then [COMMA] else []) +
              (Pad(indent, depth) + (DumpText(lib, items[i], indent, depth) + ItemsLeft(items, i + 1, depth)))
    {
      hide DumpText, Pad;
      var rest := items[i..];
      var first := Pad(indent, depth) + DumpText(lib, items[i], indent, depth);
      assert rest[1..] == items[i + 1..];
      if i + 1 < |items| {
        assert ItemsDump(lib, rest, indent, depth) == first + ([COMMA] + ItemsDump(lib, rest[1..], indent, depth));
      }
      ConcatAssociative(Pad(indent, depth), DumpText(lib, items[i], indent, depth), ItemsLeft(items, i + 1, depth));
      assert ItemsDump(lib, rest, indent, depth) == first + ItemsLeft(items, i + 1, depth);
    }

    method DumpArray(ghost jv: JsonValue, items: seq<JsonValue>, depth: nat)
      requires jv == JArray(items)
      modifies this
      ensures out == old(out) + DumpText(lib, jv, indent, depth)
      decreases jv, 0
    {
      hide Pad;
      if items == [] {
        out := out + [OPEN_ARRAY, CLOSE_ARRAY];
        return;
      }
      hide DumpText, ItemsDump, ItemsLeft;
      var inner := Deeper(indent, depth);
      out := out + [OPEN_ARRAY];
      ghost var start := out;
      NothingYet(items, inner);
      for i := 0 to |items|
        invariant out + ItemsLeft(items, i, inner) == start + ItemsDump(lib, items, indent, inner)
      {
        ghost var before := out;
        ItemsLeftStep(items, i, inner);
        if i > 0 { out := out + [COMMA]; } else { assert out + [] == out; }
        NewLine(inner);
        assert items[i] in items;
        DumpValue(items[i], inner);
        Appended3(before, if i > 0 then [COMMA] else [], Pad(indent, inner), DumpText(lib, items[i], indent, inner),
                  ItemsLeft(items, i + 1, inner));
      }
      assert out + [] == out;
      NewLine(depth);
      out := out + [CLOSE_ARRAY];
      ArrayAssembled(old(out), start, items, depth);
    }

    lemma ArrayAssembled(before: bytes, start: bytes, items: seq<JsonValue>, depth: nat)
      requires items != [] && start == before + [OPEN_ARRAY]
      ensures start + ItemsDump(lib, items, indent, Deeper(indent, depth)) + Pad(indent, depth) + [CLOSE_ARRAY] ==
              before + DumpText(lib, JArray(items), indent, depth)
    {
      hide Pad;
      var body := ItemsDump(lib, items, indent, Deeper(indent, depth));
      var pad := Pad(indent, depth);
      ConcatAssociative(start, body, pad);
      ConcatAssociative(start, body + pad, [CLOSE_ARRAY]);
      ConcatAssociative(before, [OPEN_ARRAY], body + pad + [CLOSE_ARRAY]);
    }

    // A line break and the indentation of `level`, unless the text is compact.
    method NewLine(level: nat)
      modifies this
      ensures out == old(out) + Pad(indent, level)
    {
      hide Spaces, Pad;
      PadIs(indent, level);
      if indent >= 0 {
        ConcatAssociative(out, [LF], Spaces(level * indent));
        out := out + [LF];
        IndentAt(level);
      } else {
        assert out + [] == out;
      }
    }

    ghost function MembersLeft(ms: seq<Member>, i: nat, depth: nat): bytes
      requires i <= |ms|
    {
      if i == |ms| then [] else (if i > 0 then [COMMA] else []) + MembersDump(lib, ms[i..], indent, depth)
    }

    lemma NoMemberYet(ms: seq<Member>, depth: nat)
      requires ms != []
      ensures MembersLeft(ms, 0, depth) == MembersDump(lib, ms, indent, depth)
      ensures MembersLeft(ms, |ms|, depth) == []
    {
      assert ms[0..] == ms;
    }

    lemma MembersLeftStep(ms: seq<Member>, i: nat, depth: nat)
      requires i < |ms|
      ensures MembersLeft(ms, i, depth) ==
              (if i > 0 then [COMMA] else []) +
              (Pad(indent, depth) + (StringDump(ms[i].key) + (ColonText(indent) +
               (DumpText(lib, ms[i].value, indent, depth) + MembersLeft(ms, i + 1, depth)))))
    {
      hide DumpText, Pad, StringDump, ColonText;
      var rest := ms[i..];
      assert rest[1..] == ms[i + 1..];
      if i + 1 < |ms| {
        assert MembersDump(lib, rest, indent, depth) ==
               MemberDump(lib, ms[i], indent, depth) + ([COMMA] + MembersDump(lib, rest[1..], indent, depth));
      }
      var pad, key, colon, text := Pad(indent, depth), StringDump(ms[i].key), ColonText(indent),
        DumpText(lib, ms[i].value, indent, depth);
      var left := MembersLeft(ms, i + 1, depth);
      ConcatAssociative(colon, text, left);
      ConcatAssociative(key, colon + text, left);
      ConcatAssociative(pad, key + (colon + text), left);
      assert MembersDump(lib, rest, indent, depth) == MemberDump(lib, ms[i], indent, depth) + left;
    }

    method DumpObject(ghost jv: JsonValue, members: seq<Member>, depth: nat)
      requires jv == JObject(members)
      modifies this
      ensures out == old(out) + DumpText(lib, jv, indent, depth)
      decreases jv, 0
    {
      hide Pad, StringDump;
      if members == [] {
        out := out + [OPEN_OBJECT, CLOSE_OBJECT];
        return;
      }
      hide DumpText, MembersDump, MembersLeft;
      var inner := Deeper(indent, depth);
      out := out + [OPEN_OBJECT];
      ghost var start := out;
      NoMemberYet(members, inner);
      for i := 0 to |members|
        invariant out + MembersLeft(members, i, inner) == start + MembersDump(lib, members, indent, inner)
      {
        ghost var before := out;
        MembersLeftStep(members, i, inner);
        if i > 0 { out := out + [COMMA]; } else { assert out + [] == out; }
        NewLine(inner);
        assert members[i] in members;
        AppendEscapedString(members[i].key);
        out := out + ColonText(indent);
        DumpValue(members[i].value, inner);
        ghost var text := DumpText(lib, members[i].value, indent, inner);
        ghost var left := MembersLeft(members, i + 1, inner);
        ghost var comma: bytes := if i > 0 then [COMMA] else [];
        ghost var key := before + comma + Pad(indent, inner);
        Appended3(before, comma, Pad(indent, inner), StringDump(members[i].key), ColonText(indent) + (text + left));
        ConcatAssociative(key + StringDump(members[i].key), ColonText(indent), text + left);
        ConcatAssociative(key + StringDump(members[i].key) + ColonText(indent), text, left);
      }
      assert out + [] == out;
      NewLine(depth);
      out := out + [CLOSE_OBJECT];
      ObjectAssembled(old(out), start, members, depth);
    }

    lemma ObjectAssembled(before: bytes, start: bytes, ms: seq<Member>, depth: nat)
      requires ms != [] && start == before + [OPEN_OBJECT]
      ensures start + MembersDump(lib, ms, indent, Deeper(indent, depth)) + Pad(indent, depth) + [CLOSE_OBJECT] ==
              before + DumpText(lib, JObject(ms), indent, depth)
    {
      hide Pad;
      var body := MembersDump(lib, ms, indent, Deeper(indent, depth));
      var pad := Pad(indent, depth);
      ConcatAssociative(start, body, pad);
      ConcatAssociative(start, body + pad, [CLOSE_OBJECT]);
      ConcatAssociative(before, [OPEN_OBJECT], body + pad + [CLOSE_OBJECT]);
    }
  }
}
