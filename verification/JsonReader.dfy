// A recursive-descent reading of JSON text: the same decisions, failure reasons and failure
// offsets as the Parser of src/core/JsonParser.cpp, without its explicit stack and its cursor.
module JsonReader {
  import opened Bytes
  import opened Utf8
  import opened JsonValue
  import opened JsonGrammar

  datatype Reason =
    | TrailingCharacters | UnexpectedEnd | UnexpectedCharacter | DepthExceeded
    | EndOfObject | EndOfArray | ExpectedKey | ExpectedColon | TrailingComma
    | ExpectedCommaOrBrace | ExpectedCommaOrBracket
    | ControlCharacter | UnterminatedString | InvalidEscape
    | TruncatedEscape | InvalidHexDigit | UnpairedHigh | InvalidLow | UnpairedLow
    | Utf8Leading | Utf8Truncated | Utf8Sequence | Utf8Continuation
    | InvalidNumber | LeadingZeros | InvalidFraction | InvalidExponent
    | IntegerOutOfRange | Uint64OutOfInt64 | FloatOutOfRange
    | InvalidLiteral

  // A value and the position behind it, or why and where reading failed.
  datatype Parsed<+T> = Ok(value: T, next: nat) | Err(reason: Reason, at: nat) {
    predicate Within(p: nat, n: nat) {
      Ok? ==> p < next <= n
    }
  }

  function SkipWs(s: bytes, p: nat): (q: nat)
    requires p <= |s|
    ensures p <= q <= |s|
    ensures forall i :: p <= i < q ==> IsWs(s[i])
    ensures q < |s| ==> !IsWs(s[q])
    decreases |s| - p
  {
    if p < |s| && IsWs(s[p]) then SkipWs(s, p + 1) else p
  }

  // ---- Literals ---------------------------------------------------------------------------------

  // std::string_view::substr clips at the end, so a short remainder differs from the literal.
  function LiteralAt(s: bytes, p: nat): (r: Parsed<JsonValue>)
    requires p < |s|
    ensures r.Within(p, |s|)
  {
    if At(s, p, NULL_TEXT) then Ok(JNull, p + 4)
    else if At(s, p, TRUE_TEXT) then Ok(JBool(true), p + 4)
    else if At(s, p, FALSE_TEXT) then Ok(JBool(false), p + 5)
    else Err(InvalidLiteral, p)
  }

  // ---- Numbers ----------------------------------------------------------------------------------

  predicate DigitAt(s: bytes, p: nat) {
    p < |s| && IsDigit(s[p])
  }

  function IntegerEnd(s: bytes, p: nat, i: nat): (r: Parsed<()>)
    requires p <= i <= |s|
    ensures r.Ok? ==> i < r.next <= |s|
  {
    if !DigitAt(s, i) then Err(InvalidNumber, p)
    else if s[i] == DIGIT_0 then
      if DigitAt(s, i + 1) then Err(LeadingZeros, p) else Ok((), i + 1)
    else Ok((), SkipDigits(s, i))
  }

  // Ok with the flag saying whether a fraction was there.
  function FractionEnd(s: bytes, p: nat, i: nat): (r: Parsed<bool>)
    requires p <= i <= |s|
    ensures r.Ok? ==> i <= r.next <= |s|
  {
    if i < |s| && s[i] == DOT then
      if !DigitAt(s, i + 1) then Err(InvalidFraction, p) else Ok(true, SkipDigits(s, i + 1))
    else Ok(false, i)
  }

  function AfterSign(s: bytes, i: nat): (j: nat)
    requires i <= |s|
    ensures i <= j <= |s|
  {
    if i < |s| && (s[i] == PLUS || s[i] == MINUS) then i + 1 else i
  }

  function ExponentEnd(s: bytes, p: nat, i: nat): (r: Parsed<bool>)
    requires p <= i <= |s|
    ensures r.Ok? ==> i <= r.next <= |s|
  {
    if i < |s| && IsExpMark(s[i]) then
      var j := AfterSign(s, i + 1);
      if !DigitAt(s, j) then Err(InvalidExponent, p) else Ok(true, SkipDigits(s, j))
    else Ok(false, i)
  }

  // Where the number token at `p` ends, and whether it is a float.
  function NumberEnd(s: bytes, p: nat): (r: Parsed<bool>)
    requires p < |s|
    ensures r.Within(p, |s|)
  {
    match IntegerEnd(s, p, if s[p] == MINUS then p + 1 else p)
    case Err(e, a) => Err(e, a)
    case Ok(_, i) =>
      match FractionEnd(s, p, i)
      case Err(e, a) => Err(e, a)
      case Ok(frac, j) =>
        match ExponentEnd(s, p, j)
        case Err(e, a) => Err(e, a)
        case Ok(exp, k) => Ok(frac || exp, k)
  }

  const UINT64_MAX: int := 0xFFFF_FFFF_FFFF_FFFF

  // ParseNumberToken: std::from_chars over the token, then the range checks.
  function TokenValue(lib: FloatLib, token: bytes, isFloat: bool): Parsed<JsonValue>
    requires token != []
  {
    if isFloat then
      match lib.parse(token)
      case Some(bits) => Ok(JDouble(bits), 0)
      case None => Err(FloatOutOfRange, 0)
    else if token[0] == MINUS then
      if IsInt64(-Number(token[1..])) then Ok(JInt(-Number(token[1..])), 0)
      else Err(IntegerOutOfRange, 0)
    else if IsInt64(Number(token)) then Ok(JInt(Number(token)), 0)
    else if Number(token) <= UINT64_MAX then Err(Uint64OutOfInt64, 0)
    else Err(IntegerOutOfRange, 0)
  }

  function NumberAt(lib: FloatLib, s: bytes, p: nat): (r: Parsed<JsonValue>)
    requires p < |s|
    ensures r.Within(p, |s|)
  {
    match NumberEnd(s, p)
    case Err(e, a) => Err(e, a)
    case Ok(isFloat, q) =>
      match TokenValue(lib, s[p..q], isFloat)
      case Ok(v, _) => Ok(v, q)
      case Err(e, _) => Err(e, q)
  }

  // ---- Strings ----------------------------------------------------------------------------------

  function Hex4At(s: bytes, p: nat): (r: Parsed<nat>)
    ensures r.Ok? ==> r.next == p + 4 <= |s|
  {
    if p + 4 > |s| then Err(TruncatedEscape, p)
    else if !IsHex4(s[p..p + 4]) then Err(InvalidHexDigit, p)
    else Ok(Hex4(s[p..p + 4]), p + 4)
  }

  // The escape whose hex digits start at `p`.
  function UnicodeAt(s: bytes, p: nat): (r: Parsed<bytes>)
    ensures r.Within(p, |s|)
  {
    match Hex4At(s, p)
    case Err(e, a) => Err(e, a)
    case Ok(cp, q) =>
      if IsHighSurrogate(cp) then
        if q + 1 >= |s| || s[q] != BACKSLASH || s[q + 1] != LETTER_U then Err(UnpairedHigh, q)
        else match Hex4At(s, q + 2)
          case Err(e, a) => Err(e, a)
          case Ok(low, n) =>
            if !IsLowSurrogate(low) then Err(InvalidLow, n)
            else Ok(Encode(PairScalar(cp, low)), n)
      else if IsLowSurrogate(cp) then Err(UnpairedLow, q)
      else Ok(Encode(cp), q)
  }

  // The escape sequence whose backslash stands at `p`.
  function EscapeAt(s: bytes, p: nat): (r: Parsed<bytes>)
    requires p < |s|
    ensures r.Within(p, |s|)
  {
    if p + 1 >= |s| then Err(UnterminatedString, p + 1)
    else if ShortEscape(s[p + 1]).Some? then Ok([ShortEscape(s[p + 1]).value], p + 2)
    else if s[p + 1] == LETTER_U then UnicodeAt(s, p + 2)
    else Err(InvalidEscape, p + 1)
  }

  function ScanReason(scan: Scan): Reason {
    match scan
    case BadLeading => Utf8Leading
    case Truncated => Utf8Truncated
    case BadSequence => Utf8Sequence
    case _ => Utf8Continuation
  }

  // One character of a string: unescaped, multi-byte, or escaped.
  function CharAt(s: bytes, p: nat): (r: Parsed<bytes>)
    requires p < |s| && s[p] != QUOTE
    ensures r.Within(p, |s|)
  {
    if s[p] == BACKSLASH then EscapeAt(s, p)
    else if s[p] < 0x20 then Err(ControlCharacter, p)
    else if s[p] < 0x80 then Ok([s[p]], p + 1)
    else match ScanAt(s, p)
      case Good(w) => Ok(s[p..p + w], p + w)
      case bad => Err(ScanReason(bad), p)
  }

  // The rest of a string from inside it, after the characters `acc`.
  function CharsAt(s: bytes, p: nat, acc: bytes): (r: Parsed<bytes>)
    requires p <= |s|
    ensures r.Within(p, |s|)
    decreases |s| - p
  {
    if p == |s| then Err(UnterminatedString, p)
    else if s[p] == QUOTE then Ok(acc, p + 1)
    else match CharAt(s, p)
      case Err(e, a) => Err(e, a)
      case Ok(x, q) => CharsAt(s, q, acc + x)
  }

  // ---- Values -----------------------------------------------------------------------------------

  // `open` counts the containers around position `p`.
  function ValueAt(lib: FloatLib, s: bytes, p: nat, open: nat): (r: Parsed<JsonValue>)
    requires p <= |s|
    ensures r.Within(p, |s|)
    decreases |s| - p, 3
  {
    if p == |s| then Err(UnexpectedEnd, p)
    else if s[p] == OPEN_OBJECT || s[p] == OPEN_ARRAY then
      if open >= MAX_DEPTH then Err(DepthExceeded, p)
      else if s[p] == OPEN_OBJECT then ObjectAt(lib, s, p + 1, open + 1, [])
      else ArrayAt(lib, s, p + 1, open + 1, [])
    else ScalarAt(lib, s, p)
  }

  function ScalarAt(lib: FloatLib, s: bytes, p: nat): (r: Parsed<JsonValue>)
    requires p < |s|
    ensures r.Within(p, |s|)
  {
    var c := s[p];
    if c == QUOTE then
      match CharsAt(s, p + 1, [])
      case Ok(text, q) => Ok(JString(text), q)
      case Err(e, a) => Err(e, a)
    else if c == 0x74 || c == 0x66 || c == 0x6E then LiteralAt(s, p)
    else if c == MINUS || IsDigit(c) then NumberAt(lib, s, p)
    else Err(UnexpectedCharacter, p)
  }

  // Behind '[': a first element or ']'.
  function ArrayAt(lib: FloatLib, s: bytes, p: nat, open: nat, acc: seq<JsonValue>): (r: Parsed<JsonValue>)
    requires p <= |s|
    ensures r.Within(p, |s|)
    decreases |s| - p, 5
  {
    var q := SkipWs(s, p);
    if q == |s| then Err(EndOfArray, q)
    else if s[q] == CLOSE_ARRAY then Ok(JArray(acc), q + 1)
    else ItemAt(lib, s, q, open, acc)
  }

  function ItemAt(lib: FloatLib, s: bytes, p: nat, open: nat, acc: seq<JsonValue>): (r: Parsed<JsonValue>)
    requires p <= |s|
    ensures r.Within(p, |s|)
    decreases |s| - p, 4
  {
    match ValueAt(lib, s, p, open)
    case Err(e, a) => Err(e, a)
    case Ok(v, q) => AfterItem(lib, s, q, open, acc + [v])
  }

  function AfterItem(lib: FloatLib, s: bytes, p: nat, open: nat, acc: seq<JsonValue>): (r: Parsed<JsonValue>)
    requires p <= |s|
    ensures r.Within(p, |s|)
    decreases |s| - p, 2
  {
    var q := SkipWs(s, p);
    if q == |s| then Err(EndOfArray, q)
    else if s[q] == COMMA then
      var n := SkipWs(s, q + 1);
      if n == |s| then Err(EndOfArray, n)
      else if s[n] == CLOSE_ARRAY then Err(TrailingComma, n)
      else ItemAt(lib, s, n, open, acc)
    else if s[q] == CLOSE_ARRAY then Ok(JArray(acc), q + 1)
    else Err(ExpectedCommaOrBracket, q)
  }

  // Behind '{': a first member or '}'.
  function ObjectAt(lib: FloatLib, s: bytes, p: nat, open: nat, acc: seq<Member>): (r: Parsed<JsonValue>)
    requires p <= |s|
    ensures r.Within(p, |s|)
    decreases |s| - p, 2
  {
    var q := SkipWs(s, p);
    if q == |s| then Err(EndOfObject, q)
    else if s[q] == CLOSE_OBJECT then Ok(JObject(acc), q + 1)
    else MemberAt(lib, s, q, open, acc)
  }

  // A key and its colon; the position of the value's first byte follows.
  function KeyAt(s: bytes, p: nat): (r: Parsed<bytes>)
    requires p < |s|
    ensures r.Within(p, |s|)
  {
    if s[p] != QUOTE then Err(ExpectedKey, p)
    else match CharsAt(s, p + 1, [])
      case Err(e, a) => Err(e, a)
      case Ok(key, q) =>
        var n := SkipWs(s, q);
        if n == |s| || s[n] != COLON then Err(ExpectedColon, n)
        else Ok(key, n + 1)
  }

  function MemberAt(lib: FloatLib, s: bytes, p: nat, open: nat, acc: seq<Member>): (r: Parsed<JsonValue>)
    requires p < |s|
    ensures r.Within(p, |s|)
    decreases |s| - p, 1
  {
    match KeyAt(s, p)
    case Err(e, a) => Err(e, a)
    case Ok(key, q) => MemberValueAt(lib, s, q, open, acc, key)
  }

  function MemberValueAt(lib: FloatLib, s: bytes, p: nat, open: nat, acc: seq<Member>,
                         key: bytes): (r: Parsed<JsonValue>)
    requires p <= |s|
    ensures r.Within(p, |s|)
    decreases |s| - p, 4
  {
    var q := SkipWs(s, p);
    if q == |s| then Err(EndOfObject, q)
    else match ValueAt(lib, s, q, open)
      case Err(e, a) => Err(e, a)
      case Ok(v, n) => AfterMember(lib, s, n, open, Emplace(acc, key, v))
  }

  function AfterMember(lib: FloatLib, s: bytes, p: nat, open: nat, acc: seq<Member>): (r: Parsed<JsonValue>)
    requires p <= |s|
    ensures r.Within(p, |s|)
    decreases |s| - p, 2
  {
    var q := SkipWs(s, p);
    if q == |s| then Err(EndOfObject, q)
    else if s[q] == COMMA then
      var n := SkipWs(s, q + 1);
      if n == |s| then Err(EndOfObject, n)
      else if s[n] == CLOSE_OBJECT then Err(TrailingComma, n)
      else MemberAt(lib, s, n, open, acc)
    else if s[q] == CLOSE_OBJECT then Ok(JObject(acc), q + 1)
    else Err(ExpectedCommaOrBrace, q)
  }

  // ---- Documents --------------------------------------------------------------------------------

  // JsonValue::Parse
  function ParseText(lib: FloatLib, s: bytes): (r: Parsed<JsonValue>)
    ensures r.Ok? ==> r.next == |s|
  {
    match ValueAt(lib, s, SkipWs(s, 0), 0)
    case Err(e, a) => Err(e, a)
    case Ok(v, q) =>
      var n := SkipWs(s, q);
      if n != |s| then Err(TrailingCharacters, n) else Ok(v, n)
  }
}
