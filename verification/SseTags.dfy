// Tags of event streams, src/http/StreamableHttpServerTransport.cpp: a listen filter and a session
// written as JSON text when a stream opens, and read again for every notification.
module SseTags {
  import opened Bytes
  import opened Utf8
  import opened JsonValue
  import opened JsonGrammar
  import opened JsonReader
  import opened JsonDump
  import opened JsonRoundTrip
  import opened InFlight

  const STREAM: bytes := [0x5F, 0x5F, 0x73, 0x74, 0x72, 0x65, 0x61, 0x6D]
  const SESSION: bytes := [0x5F, 0x5F, 0x73, 0x65, 0x73, 0x73, 0x69, 0x6F, 0x6E]
  const LISTEN: bytes := [0x6C, 0x69, 0x73, 0x74, 0x65, 0x6E]
  const GET: bytes := [0x67, 0x65, 0x74]
  const TOOLS: bytes := [0x74, 0x6F, 0x6F, 0x6C, 0x73, 0x4C, 0x69, 0x73, 0x74, 0x43, 0x68, 0x61, 0x6E, 0x67, 0x65, 0x64]
  const PROMPTS: bytes := [0x70, 0x72, 0x6F, 0x6D, 0x70, 0x74, 0x73, 0x4C, 0x69, 0x73, 0x74, 0x43, 0x68, 0x61, 0x6E,
                           0x67, 0x65, 0x64]
  const RESOURCES: bytes := [0x72, 0x65, 0x73, 0x6F, 0x75, 0x72, 0x63, 0x65, 0x73, 0x4C, 0x69, 0x73, 0x74, 0x43, 0x68,
                             0x61, 0x6E, 0x67, 0x65, 0x64]
  const SUBSCRIPTIONS: bytes := [0x72, 0x65, 0x73, 0x6F, 0x75, 0x72, 0x63, 0x65, 0x53, 0x75, 0x62, 0x73, 0x63, 0x72,
                                 0x69, 0x70, 0x74, 0x69, 0x6F, 0x6E, 0x73]

  // Distinct by length.
  lemma KeysDiffer()
    ensures |STREAM| == 8 && |SESSION| == 9 && |TOOLS| == 16 && |PROMPTS| == 18 && |RESOURCES| == 20
            && |SUBSCRIPTIONS| == 21
    ensures LISTEN != GET
  {
    assert |LISTEN| != |GET|;
  }

  // ---- Writing ------------------------------------------------------------------------------------

  function Texts(uris: seq<bytes>): seq<JsonValue> {
    seq(|uris|, i requires 0 <= i < |uris| => JString(uris[i]))
  }

  function Head(kind: bytes, session: bytes): seq<Member> {
    var start := Assigned([], STREAM, JString(kind));
    if session == [] then start else Assigned(start, SESSION, JString(session))
  }

  // The object EncodeListenTag dumps.
  function ListenTag(filter: ListenFilter, session: bytes): JsonValue {
    var t1 := Assigned(Head(LISTEN, session), TOOLS, JBool(filter.tools));
    var t2 := Assigned(t1, PROMPTS, JBool(filter.prompts));
    var t3 := Assigned(t2, RESOURCES, JBool(filter.resources));
    JObject(if filter.uris == [] then t3 else Assigned(t3, SUBSCRIPTIONS, JArray(Texts(filter.uris))))
  }

  // The object EncodeSseStreamTag dumps.
  function GetTag(session: bytes): JsonValue {
    JObject(Head(GET, session))
  }

  function TagText(lib: FloatLib, tag: JsonValue): bytes {
    DumpText(lib, tag, -1, 0)
  }

  // ---- Reading ------------------------------------------------------------------------------------

  // TagMatchesSession
  predicate MatchesSession(lib: FloatLib, tag: bytes, session: bytes) {
    || session == []
    || (tag != [] && match ParseText(lib, tag)
                     case Err(_, _) => false
                     case Ok(v, _) => Lookup(v, SESSION) == Some(JString(session)))
  }

  predicate IsSet(v: JsonValue, key: bytes) {
    Lookup(v, key) == Some(JBool(true))
  }

  // ListenTagAccepts; a tag that is empty or no JSON object takes everything.
  predicate Accepts(lib: FloatLib, tag: bytes, kind: Kind) {
    tag == [] ||
    match ParseText(lib, tag)
    case Err(_, _) => true
    case Ok(v, _) =>
      if !v.JObject? || Lookup(v, STREAM) == Some(JString(GET)) then true
      else match kind
        case ToolListChanged => IsSet(v, TOOLS)
        case PromptListChanged => IsSet(v, PROMPTS)
        case ResourceListChanged => IsSet(v, RESOURCES)
        case ResourceUpdated(None) => false
        case ResourceUpdated(Some(uri)) =>
          var subs := Lookup(v, SUBSCRIPTIONS);
          subs.Some? && subs.value.JArray? && JString(uri) in subs.value.items
        case _ => true
  }

  // ---- What a tag says ------------------------------------------------------------------------------

  lemma HeadFound(kind: bytes, session: bytes, k: bytes)
    ensures Find(Head(kind, session), k) ==
            if k == SESSION && session != [] then Some(JString(session)) else if k == STREAM then Some(JString(kind))
              else None
  {
    KeysDiffer();
    FindAssigned([], STREAM, JString(kind), k);
    FindAssigned(Assigned([], STREAM, JString(kind)), SESSION, JString(session), k);
    hide Assigned;
  }

  lemma ListenTagFound(filter: ListenFilter, session: bytes)
    ensures var tag := ListenTag(filter, session);
            && Lookup(tag, STREAM) == Some(JString(LISTEN))
            && Lookup(tag, SESSION) == (if session == [] then None else Some(JString(session)))
            && Lookup(tag, TOOLS) == Some(JBool(filter.tools)) && Lookup(tag, PROMPTS) == Some(JBool(filter.prompts))
            && Lookup(tag, RESOURCES) == Some(JBool(filter.resources))
            && Lookup(tag, SUBSCRIPTIONS) == (if filter.uris == [] then None else Some(JArray(Texts(filter.uris))))
  {
    KeysDiffer();
    hide Assigned, Head, Texts, STREAM, SESSION, TOOLS, PROMPTS, RESOURCES, SUBSCRIPTIONS;
    var t1 := Assigned(Head(LISTEN, session), TOOLS, JBool(filter.tools));
    var t2 := Assigned(t1, PROMPTS, JBool(filter.prompts));
    var t3 := Assigned(t2, RESOURCES, JBool(filter.resources));
    forall k ensures Find(ListenTag(filter, session).members, k) ==
                     if k == SUBSCRIPTIONS && filter.uris != [] then Some(JArray(Texts(filter.uris)))
                     else if k == RESOURCES then Some(JBool(filter.resources))
                     else if k == PROMPTS then Some(JBool(filter.prompts))
                     else if k == TOOLS then Some(JBool(filter.tools))
                     else Find(Head(LISTEN, session), k)
    {
      FindAssigned(Head(LISTEN, session), TOOLS, JBool(filter.tools), k);
      FindAssigned(t1, PROMPTS, JBool(filter.prompts), k);
      FindAssigned(t2, RESOURCES, JBool(filter.resources), k);
      FindAssigned(t3, SUBSCRIPTIONS, JArray(Texts(filter.uris)), k);
    }
    HeadFound(LISTEN, session, STREAM);
    HeadFound(LISTEN, session, SESSION);
    HeadFound(LISTEN, session, SUBSCRIPTIONS);
  }

  ghost predicate Utf8Filter(filter: ListenFilter) {
    forall uri :: uri in filter.uris ==> IsUtf8(uri)
  }

  lemma SubTagKeysAreUtf8()
    ensures IsUtf8(STREAM) && IsUtf8(SESSION) && IsUtf8(LISTEN) && IsUtf8(GET)
    ensures IsUtf8(TOOLS) && IsUtf8(PROMPTS) && IsUtf8(RESOURCES) && IsUtf8(SUBSCRIPTIONS)
  {
    hide IsUtf8;
    AsciiIsUtf8(STREAM);
    AsciiIsUtf8(SESSION);
    AsciiIsUtf8(LISTEN);
    AsciiIsUtf8(GET);
    AsciiIsUtf8(TOOLS);
    AsciiIsUtf8(PROMPTS);
    AsciiIsUtf8(RESOURCES);
    AsciiIsUtf8(SUBSCRIPTIONS);
  }

  lemma PartsCarried(text: bytes, b: bool, uris: seq<bytes>, depth: int)
    requires depth >= 1
    ensures IsUtf8(text) ==> Carried(JString(text), depth)
    ensures Carried(JBool(b), depth)
    ensures (forall uri :: uri in uris ==> IsUtf8(uri)) ==> Carried(JArray(Texts(uris)), depth)
  {
    hide IsUtf8;
  }

  lemma HeadCarried(kind: bytes, session: bytes, depth: int)
    requires depth >= 1 && IsUtf8(kind) && IsUtf8(session)
    ensures AllCarried(Head(kind, session), depth)
  {
    hide IsUtf8, Carried, AllCarried, Assigned;
    SubTagKeysAreUtf8();
    PartsCarried(kind, true, [], depth);
    PartsCarried(session, true, [], depth);
    NothingCarried(depth);
    AssignedCarried([], STREAM, JString(kind), depth);
    AssignedCarried(Assigned([], STREAM, JString(kind)), SESSION, JString(session), depth);
  }

  lemma ListenTagCarried(filter: ListenFilter, session: bytes)
    requires Utf8Filter(filter) && IsUtf8(session)
    ensures Carried(ListenTag(filter, session), MAX_DEPTH)
  {
    hide IsUtf8, Carried, AllCarried, Assigned, Head, Texts;
    var d := MAX_DEPTH - 1;
    SubTagKeysAreUtf8();
    HeadCarried(LISTEN, session, d);
    PartsCarried([], filter.tools, filter.uris, d);
    PartsCarried([], filter.prompts, [], d);
    PartsCarried([], filter.resources, [], d);
    var t1 := Assigned(Head(LISTEN, session), TOOLS, JBool(filter.tools));
    var t2 := Assigned(t1, PROMPTS, JBool(filter.prompts));
    var t3 := Assigned(t2, RESOURCES, JBool(filter.resources));
    AssignedCarried(Head(LISTEN, session), TOOLS, JBool(filter.tools), d);
    AssignedCarried(t1, PROMPTS, JBool(filter.prompts), d);
    AssignedCarried(t2, RESOURCES, JBool(filter.resources), d);
    AssignedCarried(t3, SUBSCRIPTIONS, JArray(Texts(filter.uris)), d);
    CarriedObject(ListenTag(filter, session), MAX_DEPTH);
  }

  lemma GetTagCarried(session: bytes)
    requires IsUtf8(session)
    ensures Carried(GetTag(session), MAX_DEPTH)
  {
    hide IsUtf8, Carried, AllCarried, Head;
    SubTagKeysAreUtf8();
    HeadCarried(GET, session, MAX_DEPTH - 1);
    CarriedObject(GetTag(session), MAX_DEPTH);
  }

  lemma TextInTexts(uris: seq<bytes>, uri: bytes)
    ensures JString(uri) in Texts(uris) <==> uri in uris
  {
    var texts := Texts(uris);
    if JString(uri) in texts { var i :| 0 <= i < |texts| && texts[i] == JString(uri); assert uris[i] == uri; }
    if uri in uris { var i :| 0 <= i < |uris| && uris[i] == uri; assert texts[i] == JString(uri); }
  }

  // A stream opened with a filter takes exactly what a held-open request with the same filter gets
  // buffered, for the four kinds a filter speaks of; the text form loses nothing.
  lemma TagFiltersLikeRequest(lib: FloatLib, filter: ListenFilter, session: bytes, kind: Kind)
    requires Faithful(lib) && Utf8Filter(filter) && IsUtf8(session)
    requires kind.ToolListChanged? || kind.PromptListChanged? || kind.ResourceListChanged? || kind.ResourceUpdated?
    ensures Accepts(lib, TagText(lib, ListenTag(filter, session)), kind) <==> FilterWants(filter, kind)
  {
    hide IsUtf8, Carried, ParseText, DumpText, ListenTag, Lookup, Texts, STREAM, SESSION, TOOLS, PROMPTS, RESOURCES,
         SUBSCRIPTIONS;
    ListenTagCarried(filter, session);
    ListenTagFound(filter, session);
    DumpParses(lib, ListenTag(filter, session), -1);
    KeysDiffer();
    NotEmpty(lib, ListenTag(filter, session));
    if kind.ResourceUpdated? && kind.uri.Some? { TextInTexts(filter.uris, kind.uri.value); }
  }

  lemma NotEmpty(lib: FloatLib, tag: JsonValue)
    ensures tag.JObject? ==> TagText(lib, tag) != []
    ensures forall filter, session :: ListenTag(filter, session).JObject?
  {
    hide Head;
  }

  // A notification for a session reaches the streams of that session and no others.
  lemma TagMatchesOwnSession(lib: FloatLib, filter: ListenFilter, session: bytes, other: bytes)
    requires Faithful(lib) && Utf8Filter(filter) && IsUtf8(session)
    ensures MatchesSession(lib, TagText(lib, ListenTag(filter, session)), other) <==> other == [] || other == session
    ensures MatchesSession(lib, TagText(lib, GetTag(session)), other) <==> other == [] || other == session
    ensures forall kind :: Accepts(lib, TagText(lib, GetTag(session)), kind)
  {
    hide IsUtf8, Carried, ParseText, DumpText, ListenTag, Head, Find, STREAM, SESSION;
    ListenTagCarried(filter, session);
    GetTagCarried(session);
    ListenTagFound(filter, session);
    HeadFound(GET, session, SESSION);
    HeadFound(GET, session, STREAM);
    DumpParses(lib, ListenTag(filter, session), -1);
    DumpParses(lib, GetTag(session), -1);
    KeysDiffer();
    NotEmpty(lib, ListenTag(filter, session));
    NotEmpty(lib, GetTag(session));
  }
}
