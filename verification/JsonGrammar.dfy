// The grammar of RFC 8259, sections 2 to 7, as derivation trees. `Render` reads off the text of
// a tree and `Value` its meaning; nothing here scans text. The restrictions the parser adds
// (int64 integers, doubles in range, valid UTF-8, paired surrogates, depth) are in `Valid`.
module JsonGrammar {
  import opened Bytes
  import opened Utf8
  import opened JsonValue

  // std::from_chars and std::to_chars for double: which number tokens are in range, with which
  // bit pattern, and the shortest token of a bit pattern.
  datatype FloatLib = FloatLib(parse: bytes -> Option<nat>, format: nat -> bytes)

  const MAX_DEPTH := 1000

  // ---- White space ----------------------------------------------------------------------------

  predicate IsWs(b: byte) {
    b == 0x20 || b == 0x09 || b == 0x0D || b == 0x0A
  }

  predicate AllWs(x: bytes) {
    forall i :: 0 <= i < |x| ==> IsWs(x[i])
  }

  // ---- Numbers (section 6) ----------------------------------------------------------------------

  const DOT: byte := 0x2E
  const PLUS: byte := 0x2B

  datatype Num = Num(neg: bool, ints: bytes, frac: Option<bytes>, exp: Option<Exp>)

  datatype Exp = Exp(mark: byte, sign: bytes, digits: bytes)

  predicate IsExpMark(b: byte) {
    b == 0x65 || b == 0x45
  }

  predicate ValidNum(t: Num) {
    && t.ints != [] && AllDigits(t.ints)
    && (t.ints[0] == DIGIT_0 ==> |t.ints| == 1)
    && (t.frac.Some? ==> t.frac.value != [] && AllDigits(t.frac.value))
    && (t.exp.Some? ==>
          && IsExpMark(t.exp.value.mark)
          && (t.exp.value.sign == [] || t.exp.value.sign == [PLUS] || t.exp.value.sign == [MINUS])
          && t.exp.value.digits != [] && AllDigits(t.exp.value.digits))
  }

  function FracText(frac: Option<bytes>): bytes {
    match frac
    case None => []
    case Some(ds) => [DOT] + ds
  }

  function ExpText(exp: Option<Exp>): bytes {
    match exp
    case None => []
    case Some(e) => [e.mark] + (e.sign + e.digits)
  }

  function SignText(neg: bool): bytes {
    if neg then [MINUS] else []
  }

  function NumText(t: Num): bytes {
    SignText(t.neg) + (t.ints + (FracText(t.frac) + ExpText(t.exp)))
  }

  predicate IsFloat(t: Num) {
    t.frac.Some? || t.exp.Some?
  }

  function IntegerOf(t: Num): int {
    if t.neg then -Number(t.ints) else Number(t.ints)
  }

  // None when the number is outside int64, or outside the range of double.
  function NumValue(lib: FloatLib, t: Num): Option<JsonValue> {
    if IsFloat(t) then
      match lib.parse(NumText(t))
      case Some(bits) => Some(JDouble(bits))
      case None => None
    else if IsInt64(IntegerOf(t)) then Some(JInt(IntegerOf(t)))
    else None
  }

  // ---- Strings (section 7) ------------------------------------------------------------------------

  datatype StrPiece =
    | Plain(b: byte)
    | Multi(x: bytes)
    | Short(e: byte)
    | Escape(h: bytes)
    | Pair(high: bytes, low: bytes)

  const LETTER_U: byte := 0x75

  predicate IsHex(b: byte) {
    0x30 <= b <= 0x39 || 0x61 <= b <= 0x66 || 0x41 <= b <= 0x46
  }

  function HexDigit(b: byte): (d: nat)
    requires IsHex(b)
    ensures d < 16
  {
    if b <= 0x39 then b - 0x30 else if b >= 0x61 then b - 0x61 + 10 else b - 0x41 + 10
  }

  predicate IsHex4(h: bytes) {
    |h| == 4 && (IsHex(h[0]) && IsHex(h[1]) && IsHex(h[2]) && IsHex(h[3]))
  }

  function Hex4(h: bytes): (n: nat)
    requires IsHex4(h)
    ensures n < 0x10000
  {
    HexDigit(h[0]) * 0x1000 + HexDigit(h[1]) * 0x100 + HexDigit(h[2]) * 0x10 + HexDigit(h[3])
  }

  predicate IsHighSurrogate(cp: int) {
    0xD800 <= cp <= 0xDBFF
  }

  predicate IsLowSurrogate(cp: int) {
    0xDC00 <= cp <= 0xDFFF
  }

  // Letters that may follow a backslash, and the byte each stands for.
  function ShortEscape(e: byte): Option<byte> {
    if e == QUOTE || e == BACKSLASH || e == 0x2F then Some(e)
    else if e == 0x62 then Some(0x08)
    else if e == 0x66 then Some(0x0C)
    else if e == 0x6E then Some(0x0A)
    else if e == 0x72 then Some(0x0D)
    else if e == 0x74 then Some(0x09)
    else None
  }

  predicate ValidPiece(c: StrPiece) {
    match c
    case Plain(b) => 0x20 <= b < 0x80 && b != QUOTE && b != BACKSLASH
    case Multi(x) => |x| >= 2 && IsUtf8Char(x)
    case Short(e) => ShortEscape(e).Some?
    case Escape(h) => IsHex4(h) && !IsHighSurrogate(Hex4(h)) && !IsLowSurrogate(Hex4(h))
    case Pair(high, low) =>
      IsHex4(high) && IsHex4(low) && IsHighSurrogate(Hex4(high)) && IsLowSurrogate(Hex4(low))
  }

  function PieceText(c: StrPiece): bytes {
    match c
    case Plain(b) => [b]
    case Multi(x) => x
    case Short(e) => [BACKSLASH, e]
    case Escape(h) => [BACKSLASH, LETTER_U] + h
    case Pair(high, low) => [BACKSLASH, LETTER_U] + high + ([BACKSLASH, LETTER_U] + low)
  }

  function PairScalar(high: int, low: int): int {
    0x10000 + (high - 0xD800) * 0x400 + (low - 0xDC00)
  }

  // Meanings are given to all trees; only those of valid trees matter.
  function PieceValue(c: StrPiece): bytes {
    match c
    case Plain(b) => [b]
    case Multi(x) => x
    case Short(e) => if ShortEscape(e).Some? then [ShortEscape(e).value] else []
    case Escape(h) => if IsHex4(h) then Encode(Hex4(h)) else []
    case Pair(high, low) =>
      if ValidPiece(c) then Encode(PairScalar(Hex4(high), Hex4(low))) else []
  }

  predicate ValidPieces(cs: seq<StrPiece>) {
    forall c :: c in cs ==> ValidPiece(c)
  }

  function PiecesText(cs: seq<StrPiece>): bytes {
    if cs == [] then [] else PieceText(cs[0]) + PiecesText(cs[1..])
  }

  function PiecesValue(cs: seq<StrPiece>): bytes {
    if cs == [] then [] else PieceValue(cs[0]) + PiecesValue(cs[1..])
  }

  function StringText(cs: seq<StrPiece>): bytes {
    [QUOTE] + (PiecesText(cs) + [QUOTE])
  }

  lemma {:induction false} PiecesValueIsUtf8(cs: seq<StrPiece>)
    requires ValidPieces(cs)
    ensures IsUtf8(PiecesValue(cs))
  {
    if cs == [] {
      EmptyIsUtf8();
    } else {
      assert cs[0] in cs;
      match cs[0] {
        case Escape(h) => EncodeIsUtf8Char(Hex4(h));
        case Pair(high, low) => EncodeIsUtf8Char(PairScalar(Hex4(high), Hex4(low)));
        case _ =>
      }
      CharIsUtf8(PieceValue(cs[0]));
      PiecesValueIsUtf8(cs[1..]);
      ConcatIsUtf8(PieceValue(cs[0]), PiecesValue(cs[1..]));
    }
  }

  // ---- Values (sections 2 to 5) -----------------------------------------------------------------

  const NULL_TEXT: bytes := [0x6E, 0x75, 0x6C, 0x6C]
  const TRUE_TEXT: bytes := [0x74, 0x72, 0x75, 0x65]
  const FALSE_TEXT: bytes := [0x66, 0x61, 0x6C, 0x73, 0x65]
  const OPEN_ARRAY: byte := 0x5B
  const CLOSE_ARRAY: byte := 0x5D
  const OPEN_OBJECT: byte := 0x7B
  const CLOSE_OBJECT: byte := 0x7D

  // `blank` is the white space inside empty brackets.
  datatype Cst =
    | CNull
    | CBool(b: bool)
    | CNum(num: Num)
    | CStr(pieces: seq<StrPiece>)
    | CArr(blank: bytes, items: seq<CItem>)
    | CObj(blank: bytes, members: seq<CMember>)

  datatype CItem = CItem(before: bytes, v: Cst, after: bytes)

  datatype CMember =
    CMember(before: bytes, key: seq<StrPiece>, beforeColon: bytes, afterColon: bytes, v: Cst, after: bytes)

  function Text(c: Cst): bytes
    decreases c, 0
  {
    match c
    case CNull => NULL_TEXT
    case CBool(b) => if b then TRUE_TEXT else FALSE_TEXT
    case CNum(num) => NumText(num)
    case CStr(pieces) => StringText(pieces)
    case CArr(blank, items) =>
      [OPEN_ARRAY] + ((if items == [] then blank else ItemsText(items)) + [CLOSE_ARRAY])
    case CObj(blank, members) =>
      [OPEN_OBJECT] + ((if members == [] then blank else MembersText(members)) + [CLOSE_OBJECT])
  }

  function ItemText(item: CItem): bytes
    decreases item, 1
  {
    item.before + (Text(item.v) + item.after)
  }

  function ItemsText(items: seq<CItem>): bytes
    requires items != []
    decreases items
  {
    if |items| == 1 then ItemText(items[0])
    else ItemText(items[0]) + ([COMMA] + ItemsText(items[1..]))
  }

  function MemberText(m: CMember): bytes
    decreases m, 1
  {
    m.before + (StringText(m.key) + (m.beforeColon + ([COLON] + (m.afterColon + (Text(m.v) + m.after)))))
  }

  function MembersText(ms: seq<CMember>): bytes
    requires ms != []
    decreases ms
  {
    if |ms| == 1 then MemberText(ms[0])
    else MemberText(ms[0]) + ([COMMA] + MembersText(ms[1..]))
  }

  // `room`: how many more containers may be opened.
  predicate Valid(lib: FloatLib, c: Cst, room: int)
    decreases c
  {
    match c
    case CNull => true
    case CBool(_) => true
    case CNum(num) => ValidNum(num) && NumValue(lib, num).Some?
    case CStr(pieces) => ValidPieces(pieces)
    case CArr(blank, items) =>
      room >= 1 && AllWs(blank) && forall x :: x in items ==> ValidItem(lib, x, room - 1)
    case CObj(blank, members) =>
      room >= 1 && AllWs(blank) && forall m :: m in members ==> ValidMember(lib, m, room - 1)
  }

  predicate ValidItem(lib: FloatLib, item: CItem, room: int)
    decreases item
  {
    AllWs(item.before) && Valid(lib, item.v, room) && AllWs(item.after)
  }

  predicate ValidMember(lib: FloatLib, m: CMember, room: int)
    decreases m
  {
    && AllWs(m.before) && ValidPieces(m.key) && AllWs(m.beforeColon)
    && AllWs(m.afterColon) && Valid(lib, m.v, room) && AllWs(m.after)
  }

  // The value a tree denotes; of members with one key the first counts.
  function Value(lib: FloatLib, c: Cst): JsonValue
    decreases c, 0
  {
    match c
    case CNull => JNull
    case CBool(b) => JBool(b)
    case CNum(num) => (match NumValue(lib, num) case Some(v) => v case None => JNull)
    case CStr(pieces) => JString(PiecesValue(pieces))
    case CArr(_, items) => JArray(ItemValues(lib, items))
    case CObj(_, members) => JObject(MemberValues(lib, members, []))
  }

  function ItemValues(lib: FloatLib, items: seq<CItem>): seq<JsonValue>
    decreases items
  {
    if items == [] then []
    else [Value(lib, items[0].v)] + ItemValues(lib, items[1..])
  }

  function MemberValues(lib: FloatLib, ms: seq<CMember>, acc: seq<Member>): seq<Member>
    decreases ms
  {
    if ms == [] then acc
    else MemberValues(lib, ms[1..], Emplace(acc, PiecesValue(ms[0].key), Value(lib, ms[0].v)))
  }

  // JSON-text = ws value ws
  datatype Doc = Doc(before: bytes, v: Cst, after: bytes)

  function DocText(doc: Doc): bytes {
    doc.before + (Text(doc.v) + doc.after)
  }

  predicate ValidDoc(lib: FloatLib, doc: Doc) {
    AllWs(doc.before) && Valid(lib, doc.v, MAX_DEPTH) && AllWs(doc.after)
  }

  function DocValue(lib: FloatLib, doc: Doc): JsonValue {
    Value(lib, doc.v)
  }
}
