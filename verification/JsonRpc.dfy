// JSON-RPC messages of src/core/JsonRpc.cpp: how a message is written as a JSON value, with its
// meta folded into the params, and how it is read back.
module JsonRpc {
  import opened Bytes
  import opened Utf8
  import opened JsonValue
  import opened JsonGrammar
  import opened JsonReader
  import opened JsonDump
  import opened JsonRoundTrip
  import opened RequestIds

  // ---- Erasing members ----------------------------------------------------------------------------

  function Erased(ms: seq<Member>, key: bytes): seq<Member> {
    if ms == [] then [] else (if ms[0].key == key then [] else [ms[0]]) + Erased(ms[1..], key)
  }

  lemma {:induction false} ErasedAssigned(ms: seq<Member>, key: bytes, value: JsonValue)
    ensures Erased(Assigned(ms, key, value), key) == Erased(ms, key)
  {
    if ms != [] && ms[0].key != key && !KeyLess(key, ms[0].key) {
      ErasedAssigned(ms[1..], key, value);
    } else {
      assert Erased([Member(key, value)], key) == [];
    }
  }

  lemma {:induction false} ErasedElements(ms: seq<Member>, key: bytes)
    ensures forall m :: m in Erased(ms, key) ==> m in ms
    ensures Find(Erased(ms, key), key) == None
    ensures Find(ms, key).None? ==> Erased(ms, key) == ms
  {
    if ms != [] {
      ErasedElements(ms[1..], key);
      var tail := Erased(ms[1..], key);
      assert ms == [ms[0]] + ms[1..] && ([ms[0]] + tail)[1..] == tail && [] + tail == tail;
    }
  }

  // ---- Messages -----------------------------------------------------------------------------------

  datatype ErrorData = ErrorData(code: int, message: bytes, data: Option<JsonValue>)

  // The jsonrpc field is always "2.0" and the session is not written; both are left out.
  datatype Message =
    | Request(id: RequestId, verb: bytes, params: Option<JsonValue>, meta: Option<JsonValue>)
    | Notification(verb: bytes, params: Option<JsonValue>, meta: Option<JsonValue>)
    | Response(id: RequestId, result: JsonValue)
    | ErrorResponse(optionalId: Option<RequestId>, error: ErrorData)

  const META: bytes := [0x5F, 0x6D, 0x65, 0x74, 0x61]
  const JSONRPC: bytes := [0x6A, 0x73, 0x6F, 0x6E, 0x72, 0x70, 0x63]
  const ID: bytes := [0x69, 0x64]
  const VERB: bytes := [0x6D, 0x65, 0x74, 0x68, 0x6F, 0x64]
  const PARAMS: bytes := [0x70, 0x61, 0x72, 0x61, 0x6D, 0x73]
  const RESULT: bytes := [0x72, 0x65, 0x73, 0x75, 0x6C, 0x74]
  const ERROR: bytes := [0x65, 0x72, 0x72, 0x6F, 0x72]
  const CODE: bytes := [0x63, 0x6F, 0x64, 0x65]
  const MESSAGE: bytes := [0x6D, 0x65, 0x73, 0x73, 0x61, 0x67, 0x65]
  const DATA: bytes := [0x64, 0x61, 0x74, 0x61]
  const VERSION: bytes := [0x32, 0x2E, 0x30]

  lemma KeysDiffer()
    ensures JSONRPC != ID && JSONRPC != VERB && JSONRPC != PARAMS && JSONRPC != RESULT && JSONRPC != ERROR
    ensures ID != VERB && ID != PARAMS && ID != RESULT && ID != ERROR
    ensures VERB != PARAMS && VERB != RESULT && VERB != ERROR && PARAMS != RESULT && PARAMS != ERROR && RESULT != ERROR
    ensures CODE != MESSAGE && CODE != DATA && MESSAGE != DATA
  {
    assert [JSONRPC[0], ID[0], VERB[0], PARAMS[0], RESULT[0], ERROR[0]] == [0x6A, 0x69, 0x6D, 0x70, 0x72, 0x65];
    assert [CODE[0], MESSAGE[0], DATA[0]] == [0x63, 0x6D, 0x64];
  }

  function IdValue(id: RequestId): JsonValue {
    match id
    case IntId(i) => JInt(i)
    case TextId(text) => JString(text)
  }

  // ---- Writing ------------------------------------------------------------------------------------

  // The members of the object an optional value is, or none.
  function MembersOf(v: Option<JsonValue>): seq<Member> {
    if v.Some? && v.value.JObject? then v.value.members else []
  }

  function AllAssigned(ms: seq<Member>, extra: seq<Member>): seq<Member>
    decreases |extra|
  {
    if extra == [] then ms else AllAssigned(Assigned(ms, extra[0].key, extra[0].value), extra[1..])
  }

  // MergeMetaIntoParams; None when the meta is no object although the params hold an object one.
  function Merged(params: Option<JsonValue>, meta: JsonValue): Option<JsonValue> {
    var ms := MembersOf(params);
    var held := Find(ms, META);
    if held.None? || !held.value.JObject? then Some(JObject(Assigned(ms, META, meta)))
    else if !meta.JObject? then None
    else Some(JObject(Assigned(ms, META, JObject(AllAssigned(held.value.members, meta.members)))))
  }

  // The params that are written: outer None for an exception, inner None for no params.
  function WrittenParams(params: Option<JsonValue>, meta: Option<JsonValue>): Option<Option<JsonValue>> {
    match meta
    case None => Some(params)
    case Some(m) =>
      match Merged(params, m)
      case None => None
      case Some(p) => Some(Some(p))
  }

  function WithOptional(ms: seq<Member>, key: bytes, v: Option<JsonValue>): seq<Member> {
    if v.Some? then Assigned(ms, key, v.value) else ms
  }

  function Start(): seq<Member> {
    Assigned([], JSONRPC, JString(VERSION))
  }

  function ErrorValue(e: ErrorData): JsonValue {
    JObject(WithOptional(Assigned(Assigned([], CODE, JInt(e.code)), MESSAGE, JString(e.message)), DATA, e.data))
  }

  function Encoded(m: Message): Option<JsonValue> {
    match m
    case Request(id, verb, params, meta) =>
      (match WrittenParams(params, meta)
       case None => None
       case Some(p) => Some(JObject(WithOptional(Assigned(Assigned(Start(), ID, IdValue(id)), VERB, JString(verb)),
                                                 PARAMS, p))))
    case Notification(verb, params, meta) =>
      (match WrittenParams(params, meta)
       case None => None
       case Some(p) => Some(JObject(WithOptional(Assigned(Start(), VERB, JString(verb)), PARAMS, p))))
    case Response(id, result) => Some(JObject(Assigned(Assigned(Start(), ID, IdValue(id)), RESULT, result)))
    case ErrorResponse(id, error) =>
      Some(JObject(Assigned(Assigned(Start(), ID, if id.Some? then IdValue(id.value) else JNull), ERROR,
                            ErrorValue(error))))
  }

  // ---- Reading ------------------------------------------------------------------------------------

  datatype Failure = ParseFailed | InvalidRequest | DeserializeFailed

  datatype Read<+T> = Done(value: T) | Failed(failure: Failure)

  function IdOf(v: JsonValue): Option<RequestId> {
    match v
    case JInt(i) => Some(IntId(i))
    case JString(text) => Some(TextId(text))
    case _ => None
  }

  // GetString of a field that must be there.
  function TextField(v: JsonValue, key: bytes): Option<bytes> {
    match Lookup(v, key)
    case Some(JString(text)) => Some(text)
    case _ => None
  }

  function VersionOf(v: JsonValue): Option<Failure> {
    match TextField(v, JSONRPC)
    case None => Some(DeserializeFailed)
    case Some(text) => if text != VERSION then Some(InvalidRequest) else None
  }

  // ExtractMetaFromParams: what is left, and the meta.
  function Extracted(params: Option<JsonValue>): (Option<JsonValue>, Option<JsonValue>) {
    if params.None? || !params.value.JObject? then (params, None)
    else match Find(params.value.members, META)
      case None => (params, None)
      case Some(meta) => (Some(JObject(Erased(params.value.members, META))), Some(meta))
  }

  const INT32_MIN: int := -0x8000_0000
  const INT32_MAX: int := 0x7FFF_FFFF

  function ErrorOf(v: JsonValue): Option<ErrorData> {
    match (Lookup(v, CODE), TextField(v, MESSAGE))
    case (Some(JInt(code)), Some(message)) =>
      if INT32_MIN <= code <= INT32_MAX then Some(ErrorData(code, message, Lookup(v, DATA))) else None
    case _ => None
  }

  function RequestOf(v: JsonValue): Read<Message> {
    var id := Lookup(v, ID);
    if VersionOf(v).Some? then Failed(VersionOf(v).value)
    else if id.None? || id.value == JNull then Failed(InvalidRequest)
    else if IdOf(id.value).None? || TextField(v, VERB).None? then Failed(DeserializeFailed)
    else
      var (params, meta) := Extracted(Lookup(v, PARAMS));
      Done(Request(IdOf(id.value).value, TextField(v, VERB).value, params, meta))
  }

  function NotificationOf(v: JsonValue): Read<Message> {
    if VersionOf(v).Some? then Failed(VersionOf(v).value)
    else if TextField(v, VERB).None? then Failed(DeserializeFailed)
    else
      var (params, meta) := Extracted(Lookup(v, PARAMS));
      Done(Notification(TextField(v, VERB).value, params, meta))
  }

  function ResponseOf(v: JsonValue): Read<Message> {
    var id, result := Lookup(v, ID), Lookup(v, RESULT);
    if VersionOf(v).Some? then Failed(VersionOf(v).value)
    else if id.None? || IdOf(id.value).None? || result.None? then Failed(DeserializeFailed)
    else Done(Response(IdOf(id.value).value, result.value))
  }

  function ErrorResponseOf(v: JsonValue): Read<Message> {
    var id, error := Lookup(v, ID), Lookup(v, ERROR);
    if VersionOf(v).Some? then Failed(VersionOf(v).value)
    else if id.Some? && id.value != JNull && IdOf(id.value).None? then Failed(DeserializeFailed)
    else if error.None? || ErrorOf(error.value).None? then Failed(DeserializeFailed)
    else Done(ErrorResponse(if id.Some? && id.value != JNull then IdOf(id.value) else None, ErrorOf(error.value).value))
  }

  // DeserializeMessage behind the parser.
  function Decoded(v: JsonValue): Read<Message> {
    var hasMethod, hasResult, hasError := Lookup(v, VERB).Some?, Lookup(v, RESULT).Some?, Lookup(v, ERROR).Some?;
    var hasId := Lookup(v, ID).Some? && Lookup(v, ID).value != JNull;
    if hasMethod && hasId then RequestOf(v)
    else if hasMethod then NotificationOf(v)
    else if hasResult && !hasError then ResponseOf(v)
    else if hasError && !hasResult then ErrorResponseOf(v)
    else Failed(InvalidRequest)
  }

  function DecodedText(lib: FloatLib, text: bytes): Read<Message> {
    match ParseText(lib, text)
    case Err(_, _) => Failed(ParseFailed)
    case Ok(v, _) => Decoded(v)
  }

  // ---- The normal form ------------------------------------------------------------------------------

  // What a message becomes: its meta stands outside of the params, and over what the params held.
  function NormalParams(params: Option<JsonValue>, meta: Option<JsonValue>): Option<JsonValue> {
    if params.Some? && params.value.JObject? then Some(JObject(Erased(params.value.members, META)))
    else if meta.Some? then Some(JObject([]))
    else params
  }

  function NormalMeta(params: Option<JsonValue>, meta: Option<JsonValue>): Option<JsonValue> {
    var inside := Find(MembersOf(params), META);
    if meta.None? then inside
    else if inside.Some? && inside.value.JObject? && meta.value.JObject?
    then Some(JObject(AllAssigned(inside.value.members, meta.value.members)))
    else meta
  }

  function Normal(m: Message): Message {
    match m
    case Request(id, verb, params, meta) => Request(id, verb, NormalParams(params, meta), NormalMeta(params, meta))
    case Notification(verb, params, meta) => Notification(verb, NormalParams(params, meta), NormalMeta(params, meta))
    case _ => m
  }

  predicate CodeFits(m: Message) {
    m.ErrorResponse? ==> INT32_MIN <= m.error.code <= INT32_MAX
  }

  // Writing fails exactly when a meta that is no object meets an object meta in the params.
  lemma EncodeFailsExactly(m: Message)
    ensures Encoded(m).None? <==>
            && (m.Request? || m.Notification?) && m.meta.Some? && !m.meta.value.JObject?
            && Find(MembersOf(m.params), META).Some? && Find(MembersOf(m.params), META).value.JObject?
  {
  }

  lemma ExtractedIsNormal(params: Option<JsonValue>, meta: Option<JsonValue>)
    requires WrittenParams(params, meta).Some?
    ensures Extracted(WrittenParams(params, meta).value) == (NormalParams(params, meta), NormalMeta(params, meta))
  {
    var ms := MembersOf(params);
    ErasedElements(ms, META);
    if meta.Some? {
      var held := Find(ms, META);
      var m := if held.None? || !held.value.JObject? then meta.value
        else JObject(AllAssigned(held.value.members, meta.value.members));
      FindAssigned(ms, META, m, META);
      ErasedAssigned(ms, META, m);
    }
  }

  // The members a message can have, those that are there.
  function AllOptional(id: Option<JsonValue>, verb: Option<JsonValue>, params: Option<JsonValue>,
                       result: Option<JsonValue>, error: Option<JsonValue>): seq<Member> {
    var request := WithOptional(WithOptional(WithOptional(Start(), ID, id), VERB, verb), PARAMS, params);
    WithOptional(WithOptional(request, RESULT, result), ERROR, error)
  }

  lemma FoundInObject(id: Option<JsonValue>, verb: Option<JsonValue>, params: Option<JsonValue>,
                      result: Option<JsonValue>, error: Option<JsonValue>)
    ensures var v := JObject(AllOptional(id, verb, params, result, error));
            && Lookup(v, JSONRPC) == Some(JString(VERSION)) && Lookup(v, ID) == id && Lookup(v, VERB) == verb
            && Lookup(v, PARAMS) == params && Lookup(v, RESULT) == result && Lookup(v, ERROR) == error
  {
    KeysDiffer();
    hide Assigned;
    var s0 := Start();
    var s1 := WithOptional(s0, ID, id);
    var s2 := WithOptional(s1, VERB, verb);
    var s3 := WithOptional(s2, PARAMS, params);
    var s4 := WithOptional(s3, RESULT, result);
    forall k ensures
      && Find(s0, k) == (if k == JSONRPC then Some(JString(VERSION)) else None)
      && Find(s1, k) == (if k == ID && id.Some? then id else Find(s0, k))
      && Find(s2, k) == (if k == VERB && verb.Some? then verb else Find(s1, k))
      && Find(s3, k) == (if k == PARAMS && params.Some? then params else Find(s2, k))
      && Find(s4, k) == (if k == RESULT && result.Some? then result else Find(s3, k))
      && Find(WithOptional(s4, ERROR, error), k) == (if k == ERROR && error.Some? then error else Find(s4, k))
    {
      FindAssigned([], JSONRPC, JString(VERSION), k);
      FindOptional(s0, ID, id, k);
      FindOptional(s1, VERB, verb, k);
      FindOptional(s2, PARAMS, params, k);
      FindOptional(s3, RESULT, result, k);
      FindOptional(s4, ERROR, error, k);
    }
  }

  lemma FindOptional(ms: seq<Member>, key: bytes, v: Option<JsonValue>, k: bytes)
    ensures Find(WithOptional(ms, key, v), k) == if k == key && v.Some? then v else Find(ms, k)
  {
    if v.Some? { FindAssigned(ms, key, v.value, k); }
  }

  lemma ErrorReadBack(e: ErrorData)
    requires INT32_MIN <= e.code <= INT32_MAX
    ensures ErrorOf(ErrorValue(e)) == Some(e)
  {
    KeysDiffer();
    hide Assigned;
    var s1 := Assigned([], CODE, JInt(e.code));
    var s2 := Assigned(s1, MESSAGE, JString(e.message));
    forall k ensures
      && Find(s1, k) == (if k == CODE then Some(JInt(e.code)) else None)
      && Find(s2, k) == (if k == MESSAGE then Some(JString(e.message)) else Find(s1, k))
      && Find(WithOptional(s2, DATA, e.data), k) == (if k == DATA && e.data.Some? then e.data else Find(s2, k))
    {
      FindAssigned([], CODE, JInt(e.code), k);
      FindAssigned(s1, MESSAGE, JString(e.message), k);
      FindOptional(s2, DATA, e.data, k);
    }
  }

  // Reading what was written gives the same kind of message with the same id, in normal form.
  lemma EncodeDecodes(m: Message)
    requires Encoded(m).Some? && CodeFits(m)
    ensures Decoded(Encoded(m).value) == Done(Normal(m))
  {
    hide Assigned, Erased, AllAssigned, NormalParams, NormalMeta, WrittenParams, Extracted, ErrorValue, ErrorOf, Find,
         Start;
    match m {
      case Request(id, verb, params, meta) =>
        FoundInObject(Some(IdValue(id)), Some(JString(verb)), WrittenParams(params, meta).value, None, None);
        ExtractedIsNormal(params, meta);
      case Notification(verb, params, meta) =>
        FoundInObject(None, Some(JString(verb)), WrittenParams(params, meta).value, None, None);
        ExtractedIsNormal(params, meta);
      case Response(id, result) =>
        FoundInObject(Some(IdValue(id)), None, None, Some(result), None);
      case ErrorResponse(id, error) =>
        FoundInObject(Some(if id.Some? then IdValue(id.value) else JNull), None, None, None, Some(ErrorValue(error)));
        ErrorReadBack(error);
    }
  }

  // The normal form can always be written, and is kept: doing it again changes nothing.
  lemma NormalIsFixed(m: Message)
    ensures Encoded(Normal(m)).Some? && Normal(Normal(m)) == Normal(m)
  {
    if m.Request? || m.Notification? {
      ErasedElements(MembersOf(m.params), META);
      ErasedElements(Erased(MembersOf(m.params), META), META);
      EncodeFailsExactly(Normal(m));
    }
  }

  // ---- Text level -----------------------------------------------------------------------------------

  ghost predicate IdCarried(id: RequestId) {
    match id
    case IntId(i) => IsInt64(i)
    case TextId(text) => IsUtf8(text)
  }

  ghost predicate OptionalCarried(v: Option<JsonValue>, depth: int) {
    v.Some? ==> Carried(v.value, depth)
  }

  // Messages the text form can carry: the message is one container, its params another.
  ghost predicate MessageCarried(m: Message) {
    match m
    case Request(id, verb, params, meta) =>
      IdCarried(id) && IsUtf8(verb) && OptionalCarried(params, MAX_DEPTH - 1) && OptionalCarried(meta, MAX_DEPTH - 2)
    case Notification(verb, params, meta) =>
      IsUtf8(verb) && OptionalCarried(params, MAX_DEPTH - 1) && OptionalCarried(meta, MAX_DEPTH - 2)
    case Response(id, result) => IdCarried(id) && Carried(result, MAX_DEPTH - 1)
    case ErrorResponse(id, error) =>
      (id.Some? ==> IdCarried(id.value)) && IsUtf8(error.message) && OptionalCarried(error.data, MAX_DEPTH - 2)
  }

  lemma {:induction false} AllAssignedCarried(ms: seq<Member>, extra: seq<Member>, depth: int)
    requires AllCarried(ms, depth) && forall m :: m in extra ==> IsUtf8(m.key) && Carried(m.value, depth)
    ensures AllCarried(AllAssigned(ms, extra), depth)
    decreases |extra|
  {
    hide Carried, IsUtf8, Assigned, AllCarried;
    if extra != [] {
      assert extra[0] in extra && forall m :: m in extra[1..] ==> m in extra;
      AssignedCarried(ms, extra[0].key, extra[0].value, depth);
      AllAssignedCarried(Assigned(ms, extra[0].key, extra[0].value), extra[1..], depth);
    }
  }

  lemma KeysAreUtf8()
    ensures IsUtf8(JSONRPC) && IsUtf8(ID) && IsUtf8(VERB) && IsUtf8(PARAMS) && IsUtf8(RESULT) && IsUtf8(ERROR)
    ensures IsUtf8(META) && IsUtf8(VERSION)
  {
    hide IsUtf8;
    AsciiIsUtf8(JSONRPC);
    AsciiIsUtf8(ID);
    AsciiIsUtf8(VERB);
    AsciiIsUtf8(PARAMS);
    AsciiIsUtf8(RESULT);
    AsciiIsUtf8(ERROR);
    AsciiIsUtf8(META);
    AsciiIsUtf8(VERSION);
  }

  lemma ErrorKeysAreUtf8()
    ensures IsUtf8(CODE) && IsUtf8(MESSAGE) && IsUtf8(DATA)
  {
    hide IsUtf8;
    AsciiIsUtf8(CODE);
    AsciiIsUtf8(MESSAGE);
    AsciiIsUtf8(DATA);
  }

  lemma OptionalMembers(ms: seq<Member>, key: bytes, v: Option<JsonValue>, depth: int)
    requires AllCarried(ms, depth) && IsUtf8(key) && OptionalCarried(v, depth)
    ensures AllCarried(WithOptional(ms, key, v), depth)
  {
    hide Carried, IsUtf8, Assigned, AllCarried;
    if v.Some? { AssignedCarried(ms, key, v.value, depth); }
  }

  lemma WrittenCarried(params: Option<JsonValue>, meta: Option<JsonValue>, depth: int)
    requires depth >= 2 && OptionalCarried(params, depth) && OptionalCarried(meta, depth - 1)
    requires WrittenParams(params, meta).Some?
    ensures OptionalCarried(WrittenParams(params, meta).value, depth)
  {
    hide Carried, IsUtf8, Assigned, AllAssigned, AllCarried;
    KeysAreUtf8();
    if meta.Some? {
      var ms := MembersOf(params);
      var held := Find(ms, META);
      NothingCarried(depth - 1);
      if params.Some? && params.value.JObject? { CarriedObject(params.value, depth); }
      var m := meta.value;
      if held.Some? && held.value.JObject? {
        OldMetaCarried(ms, depth);
        CarriedObject(held.value, depth - 1);
        CarriedObject(m, depth - 1);
        CarriedElements(m.members, depth - 2);
        AllAssignedCarried(held.value.members, m.members, depth - 2);
        m := JObject(AllAssigned(held.value.members, m.members));
        CarriedObject(m, depth - 1);
      }
      AssignedCarried(ms, META, m, depth - 1);
      CarriedObject(JObject(Assigned(ms, META, m)), depth);
    }
  }

  lemma OldMetaCarried(ms: seq<Member>, depth: int)
    requires AllCarried(ms, depth - 1) && Find(ms, META).Some?
    ensures Carried(Find(ms, META).value, depth - 1)
  {
    hide Carried, IsUtf8, Sorted;
    FoundIsMember(ms, META);
  }

  lemma CarriedElements(ms: seq<Member>, depth: int)
    requires AllCarried(ms, depth)
    ensures forall m :: m in ms ==> IsUtf8(m.key) && Carried(m.value, depth)
  {
  }

  lemma ErrorCarried(e: ErrorData, depth: int)
    requires depth >= 1 && IsUtf8(e.message) && OptionalCarried(e.data, depth - 1) && INT32_MIN <= e.code <= INT32_MAX
    ensures Carried(ErrorValue(e), depth)
  {
    hide Carried, IsUtf8, Assigned, AllCarried, KeyLess, JSONRPC, CODE, MESSAGE, DATA, META;
    ErrorKeysAreUtf8();
    ScalarsCarried(IntId(e.code), e.message, depth - 1);
    NothingCarried(depth - 1);
    var s1 := Assigned([], CODE, JInt(e.code));
    AssignedCarried([], CODE, JInt(e.code), depth - 1);
    AssignedCarried(s1, MESSAGE, JString(e.message), depth - 1);
    OptionalMembers(Assigned(s1, MESSAGE, JString(e.message)), DATA, e.data, depth - 1);
    CarriedObject(ErrorValue(e), depth);
  }

  lemma ScalarsCarried(id: RequestId, text: bytes, depth: int)
    ensures IdCarried(id) ==> Carried(IdValue(id), depth)
    ensures IsUtf8(text) ==> Carried(JString(text), depth)
    ensures Carried(JNull, depth)
  {
  }

  lemma ObjectCarried(id: Option<JsonValue>, verb: Option<JsonValue>, params: Option<JsonValue>,
                      result: Option<JsonValue>, error: Option<JsonValue>, depth: int)
    requires depth >= 1 && OptionalCarried(id, depth - 1) && OptionalCarried(verb, depth - 1)
             && OptionalCarried(params, depth - 1)
    requires OptionalCarried(result, depth - 1) && OptionalCarried(error, depth - 1)
    ensures Carried(JObject(AllOptional(id, verb, params, result, error)), depth)
  {
    hide Carried, IsUtf8, Assigned, AllCarried, OptionalCarried, WithOptional;
    KeysAreUtf8();
    NothingCarried(depth - 1);
    ScalarsCarried(IntId(0), VERSION, depth - 1);
    AssignedCarried([], JSONRPC, JString(VERSION), depth - 1);
    var s0 := Start();
    var s1 := WithOptional(s0, ID, id);
    var s2 := WithOptional(s1, VERB, verb);
    var s3 := WithOptional(s2, PARAMS, params);
    var s4 := WithOptional(s3, RESULT, result);
    OptionalMembers(s0, ID, id, depth - 1);
    OptionalMembers(s1, VERB, verb, depth - 1);
    OptionalMembers(s2, PARAMS, params, depth - 1);
    OptionalMembers(s3, RESULT, result, depth - 1);
    OptionalMembers(s4, ERROR, error, depth - 1);
    CarriedObject(JObject(WithOptional(s4, ERROR, error)), depth);
  }

  lemma EncodedCarried(m: Message)
    requires Encoded(m).Some? && CodeFits(m) && MessageCarried(m)
    ensures Carried(Encoded(m).value, MAX_DEPTH)
  {
    hide Carried, IsUtf8, Assigned, WrittenParams, ErrorValue, Start, Find, IdCarried, IdValue;
    var d := MAX_DEPTH;
    match m {
      case Request(id, verb, params, meta) =>
        ScalarsCarried(id, verb, d - 1);
        WrittenCarried(params, meta, d - 1);
        ObjectCarried(Some(IdValue(id)), Some(JString(verb)), WrittenParams(params, meta).value, None, None, d);
      case Notification(verb, params, meta) =>
        ScalarsCarried(IntId(0), verb, d - 1);
        WrittenCarried(params, meta, d - 1);
        ObjectCarried(None, Some(JString(verb)), WrittenParams(params, meta).value, None, None, d);
      case Response(id, result) =>
        ScalarsCarried(id, [], d - 1);
        ObjectCarried(Some(IdValue(id)), None, None, Some(result), None, d);
      case ErrorResponse(id, error) =>
        ScalarsCarried(if id.Some? then id.value else IntId(0), [], d - 1);
        ErrorCarried(error, d - 1);
        ObjectCarried(Some(if id.Some? then IdValue(id.value) else JNull), None, None, None, Some(ErrorValue(error)),
                      d);
    }
  }

  // The whole way: a message dumped to text and read from it comes back in normal form.
  lemma MessageRoundTrip(lib: FloatLib, m: Message)
    requires Faithful(lib) && Encoded(m).Some? && CodeFits(m) && MessageCarried(m)
    ensures DecodedText(lib, DumpText(lib, Encoded(m).value, -1, 0)) == Done(Normal(m))
  {
    hide Faithful, Carried, DumpText, ParseText, Encoded, Decoded, Normal, MessageCarried;
    EncodedCarried(m);
    DumpParses(lib, Encoded(m).value, -1);
    EncodeDecodes(m);
  }

  // ---- In place -------------------------------------------------------------------------------------

  // MergeMetaIntoParams: the loop over the members of the meta.
  method MergeMetaIntoParams(slot: Option<JsonValue>, meta: JsonValue) returns (merged: Option<JsonValue>)
    ensures merged == Merged(slot, meta)
  {
    hide Assigned, Find;
    var ms := MembersOf(slot);
    var held := Find(ms, META);
    if held.None? || !held.value.JObject? { return Some(JObject(Assigned(ms, META, meta))); }
    if !meta.JObject? { return None; }
    var inside, i := held.value.members, 0;
    assert meta.members[0..] == meta.members;
    while i < |meta.members|
      invariant 0 <= i <= |meta.members|
      invariant AllAssigned(inside, meta.members[i..]) == AllAssigned(held.value.members, meta.members)
    {
      assert meta.members[i..][1..] == meta.members[i + 1..];
      inside := Assigned(inside, meta.members[i].key, meta.members[i].value);
      i := i + 1;
    }
    return Some(JObject(Assigned(ms, META, JObject(inside))));
  }
}
