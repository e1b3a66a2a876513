// Mirroring tool arguments in Mcp-Param-* headers: the sentinel codec and the client's builder of
// src/http/McpParamHeaders.hpp, and the server's check in src/http/StreamableHttpServerTransport.cpp.
module ParamHeaders {
  import opened Bytes
  import opened JsonValue
  import opened JsonGrammar
  import opened HttpReader
  import Base64

  // ---- Header values ------------------------------------------------------------------------------

  const OPEN: bytes := [0x3D, 0x3F, 0x62, 0x61, 0x73, 0x65, 0x36, 0x34, 0x3F]
  const CLOSE: bytes := [0x3F, 0x3D]

  // MatchesBase64Sentinel
  predicate IsSentinel(value: bytes) {
    |value| >= |OPEN| + |CLOSE| && value[..|OPEN|] == OPEN && value[|value| - |CLOSE|..] == CLOSE
  }

  // A byte that may stand inside a plain header value.
  predicate IsPlainByte(c: byte) {
    IsBlank(c) || 0x21 <= c <= 0x7E
  }

  predicate IsPlainSafe(value: bytes) {
    || value == []
    || (&& !IsBlank(value[0]) && !IsBlank(value[|value| - 1])
        && forall i :: 0 <= i < |value| ==> IsPlainByte(value[i]))
  }

  method IsPlainHeaderSafe(value: bytes) returns (safe: bool)
    ensures safe == IsPlainSafe(value)
  {
    if value == [] { return true; }
    if IsBlank(value[0]) { return false; }
    if IsBlank(value[|value| - 1]) { return false; }
    for i := 0 to |value|
      invariant forall j :: 0 <= j < i ==> IsPlainByte(value[j])
    {
      var c := value[i];
      if IsBlank(c) { continue; }
      if c < 0x21 || c > 0x7E { return false; }
    }
    return true;
  }

  function Wrapped(text: bytes): bytes {
    OPEN + (Base64.Encoded(text) + CLOSE)
  }

  function EncodedText(text: bytes): bytes {
    if IsPlainSafe(text) && !IsSentinel(text) then text else Wrapped(text)
  }

  // The text of an argument; doubles, null, arrays and objects have none.
  function ArgumentText(v: JsonValue): Option<bytes> {
    match v
    case JString(text) => Some(text)
    case JBool(b) => Some(if b then TRUE_TEXT else FALSE_TEXT)
    case JInt(i) => Some(IntText(i))
    case _ => None
  }

  // EncodeHeaderValue
  function EncodedValue(v: JsonValue): Option<bytes> {
    match ArgumentText(v)
    case Some(text) => Some(EncodedText(text))
    case None => None
  }

  // DecodeHeaderValue; what it returns is always a JSON string.
  function DecodedText(value: bytes): Option<bytes> {
    if IsSentinel(value) then Base64.Decoded(value[|OPEN|..|value| - |CLOSE|]) else Some(value)
  }

  // Any text comes back, whatever bytes it holds.
  lemma SentinelRoundTrip(text: bytes)
    ensures DecodedText(EncodedText(text)) == Some(text)
  {
    if !(IsPlainSafe(text) && !IsSentinel(text)) {
      var inner := Base64.Encoded(text);
      Base64.RoundTrip(text);
      WrappedParts(inner);
    }
  }

  lemma WrappedParts(inner: bytes)
    ensures var value := OPEN + (inner + CLOSE);
            IsSentinel(value) && value[|OPEN|..|value| - |CLOSE|] == inner
  {
  }

  lemma TrimKeeps(x: bytes)
    requires x != [] ==> !IsBlank(x[0]) && !IsBlank(x[|x| - 1])
    ensures Trimmed(x) == x && Trimmed([SPACE] + x) == x
  {
    assert ([SPACE] + x)[1..] == x;
  }

  predicate PlainBytes(x: bytes) {
    forall i :: 0 <= i < |x| ==> IsPlainByte(x[i])
  }

  // An encoded value is printable and has no blanks at its ends: no header syntax can break it.
  lemma EncodedIsHeaderSafe(text: bytes)
    ensures PlainBytes(EncodedText(text))
    ensures EncodedText(text) != [] ==>
            !IsBlank(EncodedText(text)[0]) && !IsBlank(EncodedText(text)[|EncodedText(text)| - 1])
  {
    if !(IsPlainSafe(text) && !IsSentinel(text)) {
      Base64.EncodedAlphabet(text);
      var inner := Base64.Encoded(text);
      forall i | 0 <= i < |inner| ensures IsPlainByte(inner[i]) { assert Base64.IsBase64Byte(inner[i]); }
      hide Base64.Encoded;
      var value := OPEN + (inner + CLOSE);
      assert EncodedText(text) == value && value[0] == 0x3D && value[|value| - 1] == 0x3D;
    }
  }

  // ---- The client's headers -----------------------------------------------------------------------

  datatype Annotation = Annotation(path: seq<bytes>, name: bytes)

  datatype Header = Header(name: bytes, value: bytes)

  function ValueAtPath(root: JsonValue, path: seq<bytes>): Option<JsonValue>
    decreases |path|
  {
    if path == [] then Some(root)
    else match Lookup(root, path[0])
      case None => None
      case Some(next) => ValueAtPath(next, path[1..])
  }

  // The argument an annotation names; `arguments` may be missing or no object.
  function ArgumentAt(arguments: Option<JsonValue>, path: seq<bytes>): Option<JsonValue> {
    if arguments.Some? && arguments.value.JObject? then ValueAtPath(arguments.value, path) else None
  }

  const PARAM_PREFIX: bytes := [0x4D, 0x63, 0x70, 0x2D, 0x50, 0x61, 0x72, 0x61, 0x6D, 0x2D]
  const LOWER_PREFIX: bytes := [0x6D, 0x63, 0x70, 0x2D, 0x70, 0x61, 0x72, 0x61, 0x6D, 0x2D]

  // The header of one annotation, if its argument has one.
  function HeaderOf(a: Annotation, arguments: Option<JsonValue>): Option<Header> {
    match ArgumentAt(arguments, a.path)
    case None => None
    case Some(v) =>
      match EncodedValue(v)
      case None => None
      case Some(text) => Some(Header(PARAM_PREFIX + a.name, text))
  }

  // BuildParamHeaders for a known tool.
  function Built(annotations: seq<Annotation>, arguments: Option<JsonValue>): seq<Header> {
    if annotations == [] then [] else ToSeq(HeaderOf(annotations[0], arguments)) + Built(annotations[1..], arguments)
  }

  method BuildParamHeaders(annotations: seq<Annotation>, arguments: Option<JsonValue>) returns (headers: seq<Header>)
    ensures headers == Built(annotations, arguments)
  {
    hide EncodedValue, ValueAtPath, Built;
    headers := [];
    if arguments.None? || !arguments.value.JObject? {
      NoArguments(annotations, arguments);
      return;
    }
    var i := 0;
    assert annotations[0..] == annotations;
    while i < |annotations|
      invariant 0 <= i <= |annotations|
      invariant headers + Built(annotations[i..], arguments) == Built(annotations, arguments)
    {
      var a := annotations[i];
      BuiltFrom(annotations, i, arguments);
      NullHasNoText();
      ghost var before, tail := headers, Built(annotations[i + 1..], arguments);
      var value := ValueAtPath(arguments.value, a.path);
      if value.Some? && value.value != JNull {
        var encoded := EncodedValue(value.value);
        if encoded.Some? { headers := headers + [Header(PARAM_PREFIX + a.name, encoded.value)]; }
      }
      assert headers == before + ToSeq(HeaderOf(a, arguments));
      assert headers + tail == before + (ToSeq(HeaderOf(a, arguments)) + tail);
      i := i + 1;
    }
    BuiltEnd(annotations, arguments);
    assert headers + [] == headers;
  }

  lemma BuiltFrom(annotations: seq<Annotation>, i: nat, arguments: Option<JsonValue>)
    requires i < |annotations|
    ensures Built(annotations[i..], arguments) ==
            ToSeq(HeaderOf(annotations[i], arguments)) + Built(annotations[i + 1..], arguments)
  {
    hide HeaderOf;
    assert annotations[i..][1..] == annotations[i + 1..];
  }

  lemma BuiltEnd(annotations: seq<Annotation>, arguments: Option<JsonValue>)
    ensures Built(annotations[|annotations|..], arguments) == []
  {
    hide HeaderOf;
  }

  lemma NullHasNoText()
    ensures EncodedValue(JNull) == None
  {
  }

  lemma {:induction false} NoArguments(annotations: seq<Annotation>, arguments: Option<JsonValue>)
    requires arguments.None? || !arguments.value.JObject?
    ensures Built(annotations, arguments) == []
  {
    if annotations != [] { NoArguments(annotations[1..], arguments); }
  }

  // ---- The server's check -------------------------------------------------------------------------

  // std::stod of two texts, and std::to_string of a double, are library functions.
  datatype NumberLib = NumberLib(equal: (bytes, bytes) -> bool, doubleText: nat -> bytes)

  // NumericTextEqual holds between the decimal text of an integer and itself.
  ghost predicate Reflexive(lib: NumberLib) {
    forall i: int :: IsInt64(i) ==> lib.equal(IntText(i), IntText(i))
  }

  // Comparing the texts byte by byte is one such comparison.
  predicate SameText(a: bytes, b: bytes) {
    a == b
  }

  function NoText(bits: nat): bytes {
    []
  }

  lemma ReflexiveExists()
    ensures Reflexive(NumberLib(SameText, NoText))
  {
    hide IntText;
  }

  // HeaderValueMatchesBody for a decoded header, which is a string.
  predicate MatchesBody(lib: NumberLib, header: bytes, body: JsonValue) {
    match body
    case JInt(i) => lib.equal(header, IntText(i))
    case JDouble(bits) => lib.equal(header, lib.doubleText(bits))
    case JBool(b) => header == if b then TRUE_TEXT else FALSE_TEXT
    case JString(text) => header == text
    case _ => false
  }

  datatype Complaint = Unexpected | Missing | Malformed | Mismatch

  // The check of one annotation; `raw` is its header.
  function Checked(lib: NumberLib, raw: Option<bytes>, body: Option<JsonValue>): Option<Complaint> {
    if body.None? || body.value == JNull then if raw.Some? then Some(Unexpected) else None
    else if raw.None? then Some(Missing)
    else match DecodedText(raw.value)
      case None => Some(Malformed)
      case Some(text) => if MatchesBody(lib, text, body.value) then None else Some(Mismatch)
  }

  function ExpectedKey(a: Annotation): bytes {
    LOWER_PREFIX + Lower(a.name)
  }

  function Value(headers: Headers, key: bytes): Option<bytes> {
    if key in headers then Some(headers[key]) else None
  }

  // ValidateParamHeaders for a known tool: the first complaint.
  function Validated(lib: NumberLib, annotations: seq<Annotation>, headers: Headers,
                     arguments: Option<JsonValue>): Option<Complaint> {
    if annotations == [] then None
    else
      var complaint := Checked(lib, Value(headers, ExpectedKey(annotations[0])),
                               ArgumentAt(arguments, annotations[0].path));
      if complaint.Some? then complaint else Validated(lib, annotations[1..], headers, arguments)
  }

  predicate LowerKeys(headers: Headers) {
    forall k :: k in headers ==> Lower(k) == k
  }

  // The loops of ValidateParamHeaders. The reader of the header block has lowered all names.
  method ValidateParamHeaders(lib: NumberLib, annotations: seq<Annotation>, headers: Headers,
                              arguments: Option<JsonValue>)
    returns (complaint: Option<Complaint>)
    requires LowerKeys(headers)
    ensures complaint == Validated(lib, annotations, headers, arguments)
  {
    hide ValueAtPath, DecodedText, MatchesBody, Lower;
    var i := 0;
    assert annotations[0..] == annotations;
    while i < |annotations|
      invariant 0 <= i <= |annotations|
      invariant Validated(lib, annotations[i..], headers, arguments) == Validated(lib, annotations, headers, arguments)
    {
      var a := annotations[i];
      assert annotations[i..][1..] == annotations[i + 1..];
      var raw := FindHeader(headers, ExpectedKey(a));
      var body := ArgumentAt(arguments, a.path);
      var found := Checked(lib, raw, body);
      if found.Some? { return found; }
      i := i + 1;
    }
    return None;
  }

  method FindHeader(headers: Headers, expected: bytes) returns (raw: Option<bytes>)
    requires LowerKeys(headers)
    ensures raw == Value(headers, expected)
  {
    hide Lower;
    var left := headers.Keys;
    while left != {}
      invariant left <= headers.Keys && expected !in headers.Keys - left
      decreases left
    {
      var key :| key in left;
      left := left - {key};
      if Lower(key) == expected { return Some(headers[key]); }
    }
    return None;
  }

  // ---- From client to server ----------------------------------------------------------------------

  // The line of a header on the wire, and the fields the server makes of such lines.
  function LineOfHeader(h: Header): bytes {
    h.name + ([COLON] + ([SPACE] + h.value))
  }

  function Arrived(headers: seq<Header>, have: Headers): Headers {
    if headers == [] then have
    else match FieldOf(LineOfHeader(headers[0]), map[], 0)
      case Field(name, value) => Arrived(headers[1..], have[name := value])
      case _ => Arrived(headers[1..], have)
  }

  // IsParamHeaderTokenChar
  predicate IsTokenByte(c: byte) {
    || IsDigit(c) || 0x41 <= c <= 0x5A || 0x61 <= c <= 0x7A
    || c == 0x21 || c == 0x23 || c == 0x24 || c == 0x25 || c == 0x26 || c == 0x27 || c == 0x2A || c == 0x2B
    || c == 0x2D || c == 0x2E || c == 0x5E || c == 0x5F || c == 0x60 || c == 0x7C || c == 0x7E
  }

  // What the annotation parser lets through: token names that differ when lowered.
  predicate ValidNames(annotations: seq<Annotation>) {
    && (forall i, j :: 0 <= i < |annotations| && 0 <= j < |annotations[i].name| ==> IsTokenByte(annotations[i].name[j]))
    && (forall i, j :: 0 <= i < j < |annotations| ==> Lower(annotations[i].name) != Lower(annotations[j].name))
  }

  // A line no longer than the reader takes.
  predicate Fits(h: Header) {
    |LineOfHeader(h)| + 2 <= MAX_HEADER_BYTES
  }

  // The server reads a built header as the lowered name with the very value the client wrote.
  lemma HeaderArrives(a: Annotation, arguments: Option<JsonValue>)
    requires HeaderOf(a, arguments).Some? && Fits(HeaderOf(a, arguments).value)
    requires forall j :: 0 <= j < |a.name| ==> IsTokenByte(a.name[j])
    ensures var h := HeaderOf(a, arguments).value;
            FieldOf(LineOfHeader(h), map[], 0) == Field(ExpectedKey(a), h.value)
  {
    hide FindByte, Trimmed, Lower, FreeOf, IsTokenByte, FieldOf, HeaderOf, IsCritical, IsBlank;
    var h := HeaderOf(a, arguments).value;
    HeaderShape(a, arguments);
    TrimKeeps(h.value);
    SplitBehind(h.name, COLON, [SPACE] + h.value);
    LoweredName(a.name);
    NotCritical(a.name);
    FieldSplits(LineOfHeader(h), h.name, [SPACE] + h.value);
  }

  lemma HeaderShape(a: Annotation, arguments: Option<JsonValue>)
    requires HeaderOf(a, arguments).Some?
    requires forall j :: 0 <= j < |a.name| ==> IsTokenByte(a.name[j])
    ensures var h := HeaderOf(a, arguments).value;
            && h.name == PARAM_PREFIX + a.name && FreeOf(h.name, COLON)
            && (h.value != [] ==> !IsBlank(h.value[0]) && !IsBlank(h.value[|h.value| - 1]))
  {
    var v := ArgumentAt(arguments, a.path).value;
    EncodedIsHeaderSafe(ArgumentText(v).value);
    hide EncodedText, ValueAtPath, PlainBytes;
  }

  lemma FieldSplits(line: bytes, name: bytes, rest: bytes)
    requires |line| + 2 <= MAX_HEADER_BYTES && name != [] && |name| < |line|
    requires FindByte(line, 0, COLON) == |name| && line[..|name|] == name && line[|name| + 1..] == rest
    requires !IsCritical(Lower(name))
    ensures FieldOf(line, map[], 0) == Field(Lower(name), Trimmed(rest))
  {
    hide FindByte, Trimmed, Lower, IsCritical;
  }

  lemma LoweredName(name: bytes)
    ensures Lower(PARAM_PREFIX + name) == LOWER_PREFIX + Lower(name)
  {
    assert Lower(PARAM_PREFIX) == LOWER_PREFIX;
  }

  lemma NotCritical(name: bytes)
    ensures !IsCritical(LOWER_PREFIX + Lower(name)) && PARAM_PREFIX + name != []
  {
    assert (LOWER_PREFIX + Lower(name))[4] == 0x70;
    assert (LOWER_PREFIX + Lower(name))[0] == 0x6D;
  }

  predicate ListFits(headers: seq<Header>) {
    forall i :: 0 <= i < |headers| ==> Fits(headers[i])
  }

  // After all lines arrived, each annotation's key holds exactly its own header.
  lemma {:induction false} BuiltArrive(annotations: seq<Annotation>, arguments: Option<JsonValue>, have: Headers)
    requires ValidNames(annotations) && ListFits(Built(annotations, arguments))
    ensures var headers := Arrived(Built(annotations, arguments), have);
            && (forall i :: 0 <= i < |annotations| ==>
                  Value(headers, ExpectedKey(annotations[i])) ==
                  var h := HeaderOf(annotations[i], arguments); if h.Some? then Some(h.value.value)
                    else Value(have, ExpectedKey(annotations[i])))
            && (forall key :: (forall i :: 0 <= i < |annotations| ==> ExpectedKey(annotations[i]) != key) ==>
                  Value(headers, key) == Value(have, key))
  {
    hide HeaderOf, FieldOf, LineOfHeader, Lower, IsTokenByte, Fits;
    if annotations != [] {
      var a, rest := annotations[0], annotations[1..];
      assert forall i :: 0 <= i < |rest| ==> rest[i] == annotations[i + 1];
      var h := HeaderOf(a, arguments);
      var have' := if h.Some? then have[ExpectedKey(a) := h.value.value] else have;
      BuiltStep(annotations, arguments, have);
      BuiltArrive(rest, arguments, have');
      KeysDiffer(annotations);
    }
  }

  lemma BuiltStep(annotations: seq<Annotation>, arguments: Option<JsonValue>, have: Headers)
    requires annotations != [] && ValidNames(annotations) && ListFits(Built(annotations, arguments))
    ensures var h := HeaderOf(annotations[0], arguments);
            && ListFits(Built(annotations[1..], arguments))
            && Arrived(Built(annotations, arguments), have) ==
               Arrived(Built(annotations[1..], arguments),
                       if h.Some? then have[ExpectedKey(annotations[0]) := h.value.value] else have)
  {
    hide HeaderOf, FieldOf, LineOfHeader, Lower, IsTokenByte, Fits, ExpectedKey;
    var h, all, rest := HeaderOf(annotations[0], arguments), Built(annotations, arguments),
      Built(annotations[1..], arguments);
    if h.Some? {
      assert all == [h.value] + rest && all[0] == h.value && all[1..] == rest;
      HeaderArrives(annotations[0], arguments);
    } else {
      assert all == rest by { assert [] + rest == rest; }
    }
    assert forall i :: 0 <= i < |rest| ==> rest[i] == all[i + |all| - |rest|];
  }

  lemma KeysDiffer(annotations: seq<Annotation>)
    requires ValidNames(annotations)
    ensures forall i, j :: 0 <= i < j < |annotations| ==> ExpectedKey(annotations[i]) != ExpectedKey(annotations[j])
  {
    hide Lower, IsTokenByte;
    forall i, j | 0 <= i < j < |annotations| ensures ExpectedKey(annotations[i]) != ExpectedKey(annotations[j]) {
      KeyEnd(annotations[i]);
      KeyEnd(annotations[j]);
    }
  }

  lemma KeyEnd(a: Annotation)
    ensures |ExpectedKey(a)| >= |LOWER_PREFIX| && ExpectedKey(a)[|LOWER_PREFIX|..] == Lower(a.name)
  {
  }

  // Arguments a header can mirror: strings, booleans, integers; null and absent ones have no header.
  predicate Mirrored(body: Option<JsonValue>) {
    body.Some? ==>
      || body.value.JNull? || body.value.JString? || body.value.JBool?
      || (body.value.JInt? && IsInt64(body.value.i))
  }

  lemma OwnHeaderIsAccepted(lib: NumberLib, a: Annotation, arguments: Option<JsonValue>)
    requires Reflexive(lib)
    requires var body := ArgumentAt(arguments, a.path); body.Some? && body.value.JInt? ==> IsInt64(body.value.i)
    ensures var h := HeaderOf(a, arguments);
            Checked(lib, if h.Some? then Some(h.value.value) else None, ArgumentAt(arguments, a.path)).None? <==>
            Mirrored(ArgumentAt(arguments, a.path))
  {
    hide ValueAtPath, EncodedText, DecodedText, IntText;
    var body := ArgumentAt(arguments, a.path);
    if body.Some? && ArgumentText(body.value).Some? { SentinelRoundTrip(ArgumentText(body.value).value); }
  }

  lemma {:induction false} NoComplaint(lib: NumberLib, annotations: seq<Annotation>, headers: Headers,
                                       arguments: Option<JsonValue>)
    ensures Validated(lib, annotations, headers, arguments).None? <==>
            forall i :: 0 <= i < |annotations| ==>
              Checked(lib, Value(headers, ExpectedKey(annotations[i])),
                      ArgumentAt(arguments, annotations[i].path)).None?
  {
    hide Checked, ExpectedKey, ArgumentAt;
    if annotations != [] {
      NoComplaint(lib, annotations[1..], headers, arguments);
      assert forall i :: 0 <= i < |annotations[1..]| ==> annotations[1..][i] == annotations[i + 1];
    }
  }

  // The headers a client builds are accepted by the server, after its trimming and lowering,
  // exactly when no annotated argument is a double, an array or an object.
  lemma MirrorIsAccepted(lib: NumberLib, annotations: seq<Annotation>, arguments: Option<JsonValue>)
    requires Reflexive(lib) && ValidNames(annotations) && ListFits(Built(annotations, arguments))
    requires forall i :: 0 <= i < |annotations| ==>
               var body := ArgumentAt(arguments, annotations[i].path); body.Some? && body.value.JInt? ==>
                 IsInt64(body.value.i)
    ensures Validated(lib, annotations, Arrived(Built(annotations, arguments), map[]), arguments).None? <==>
            forall i :: 0 <= i < |annotations| ==> Mirrored(ArgumentAt(arguments, annotations[i].path))
  {
    hide Checked, ExpectedKey, ArgumentAt, HeaderOf, Arrived, Built, ValidNames, ListFits, Mirrored, Reflexive;
    var headers := Arrived(Built(annotations, arguments), map[]);
    BuiltArrive(annotations, arguments, map[]);
    NoComplaint(lib, annotations, headers, arguments);
    forall i | 0 <= i < |annotations|
      ensures Checked(lib, Value(headers, ExpectedKey(annotations[i])),
                      ArgumentAt(arguments, annotations[i].path)).None? <==>
              Mirrored(ArgumentAt(arguments, annotations[i].path))
    {
      OwnHeaderIsAccepted(lib, annotations[i], arguments);
    }
  }
}
