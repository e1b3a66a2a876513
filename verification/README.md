# Verification of the MCP SDK's text engine, transports, stores and caches

This project models the parts of the SDK that carry real algorithms and state, and proves what
they promise. Run `dafny verify dfyconfig.toml` in this directory to check everything.

**JSON text engine.** `JsonGrammar` is RFC 8259 (sections 2 to 7) as derivation trees, with nothing
that scans text. `JsonReader` is a recursive-descent reading with the parser's reasons and offsets;
`JsonParser` is the hand-written machine itself, a class with a cursor and an explicit stack of
frames, proved equal to the reader on every byte string. `JsonComplete` and `JsonSound` prove that
the reader accepts exactly the grammar; `JsonDump` proves that the printer writes a derivation of
its value; `JsonRoundTrip` puts these together. `Utf8` covers validation, encoding and sanitising,
`JsonCopy` the copy constructor and destructor with their explicit stacks. Doubles are 64-bit
patterns; formatting and parsing them is a parameter (`FloatLib`) whose contract is `Faithful`.

**In-flight requests of the HTTP server.** `InFlight` has the five linked tables with one method per
critical section, `InFlightRuns` every interleaving of requests, responses, notifications, timeouts,
failed sends and session deletes. `SseTags` relates the filters of event streams to those of
held-open requests.

**JSON Schema.** `JsonSchema` is the evaluator with its depth limit and reference chain,
`JsonSchemaRun` the same with the chain pushed and popped in place, `JsonSchemaMeaning` a meaning per
keyword, references unfolded, without order, depth or chain, and the proof that both agree;
`JsonSchemaLimit` says what becomes of schemas beyond the limit and of circles; `JsonSchemaEqual` is
its equality of values.

**URI templates.** `UriCoding`, `UriTemplate`, `UriTemplateLoops` and `UriParse` cover percent-coding,
expansion, matching and the template parser; `UriInverse` says exactly when matching an expansion
gives the values back.

**Event stores.** `EventLog` is the text of the event files, `EventStores` the in-memory store and the
file store, `EventRuns` the refinement and the crashes, `EventReplay` the replay window.

**Small state machines.** `ResponseCache`, `CacheRuns` (what a hit can be) and `CacheRecency` (which
entries a full cache still has), `CancelToken`, `ReplayCache`.

**Byte streams and headers.** `HttpReader` (request line, headers and body out of arbitrary chunks),
`SseStream` (block splitting and the send buffer), `Base64` and `ParamHeaders` (mirrored arguments),
`JsonRpc` (messages, with `RequestIds`).

Conventions: a `std::string` is a sequence of bytes; shifts and masks are division and remainder;
maps that the source iterates in key order are sorted sequences where the order shows; loops over
hash tables pick their entries in any order. `seq`, `map` and `set` fields stand for the mutable
containers. Clocks, library functions and what the network delivers are parameters.

Where code and documentation differ, the code is followed. Properties that do not hold in general
are stated with the exact condition, for all inputs:

- matching inverts expansion: `UriInverse.InvertsExactly` (failing family `UriInverse.UnreservedLiteralFails`,
  instance `UriTemplateLoops.LabelSeparatorIsAmbiguous`);
- a value survives percent-coding: `UriCoding.RoundTripExactly`;
- a counted log line loads: `EventLog.CountedWithoutLoadingExactly`, for whole logs `EventLog.CountIsExact`
  (instance `EventLog.CountedWithoutLoading`);
- a line read does not depend on the cuts: `HttpReader.LineDependsOnCutsExactly`;
- after a crash the next event gets a new id: `EventRuns.CrashLosesOneEvent`;
- a time budget does not show in a header block: `HttpReader.BudgetDecides`;
- registering a request loses no promise: `InFlightRuns.RegisterKeepsPromises` (instance
  `InFlightRuns.EqualIdTextsCollide`);
- a store survives its own eviction: `ResponseCache.StoreSurvives`; an entry survives the run behind
  its last use: `CacheRecency.KeptExactly`;
- a message can be written: `JsonRpc.EncodeFailsExactly`;
- a mirrored header is accepted: `ParamHeaders.MirrorIsAccepted`.

`JsonSchemaLimit.DepthLimitFlipsNot` is exact for one family of schemas only, nested "not"; for schemas
beyond the limit in general, `JsonSchemaLimit.ValidationIsSound` gives one direction.

Library functions enter as parameters with a contract (`Faithful`, `Reflexive`, `LawfulEquality`); a
lemma beside each contract shows that some library keeps it.

## Model

| member | source | states |
|---|---|---|
| JsonRoundTrip.AcceptsExactlyTheGrammar | src/core/JsonParser.cpp:25-31 | a text is accepted with a value exactly if it derives from the grammar of RFC 8259 with that meaning, under the restrictions of the parser (int64, double range, UTF-8, paired surrogates, depth 1000) |
| JsonRoundTrip.DumpParses | src/core/JsonValue.cpp:253-258 | parsing the dump of a value gives the value back, at every indentation, for all values of depth at most 1000 with finite doubles and UTF-8 strings and keys |
| JsonRoundTrip.ParseDumpParse | src/core/JsonParser.cpp:25-31 | whatever is parsed can be dumped and parsed again to the same value |
| JsonRoundTrip.DumpInjective | src/core/JsonValue.cpp:96-171 | two values with the same dump are equal |
| JsonRoundTrip.CompactHasNoControls | src/core/JsonValue.cpp:96-171 | a compact dump holds no byte below 0x20, hence no line break |
| JsonRoundTrip.NoProperPrefixParses | src/core/JsonValue.cpp:96-171 | a dumped array or object cut at any byte is no JSON text |
| JsonRoundTrip.ValueCarried | src/core/JsonParser.cpp:174-295 | parsed values have finite doubles, UTF-8 strings, sorted keys and bounded depth |
| JsonParser.Parser.ParseDocument | src/core/JsonParser.cpp:25-31 | the machine returns, for every byte string, the value or the failure reason and offset of the recursive definition |
| JsonParser.Parser.ParseContainer | src/core/JsonParser.cpp:174-295 | the loop over the explicit frame stack computes what recursive descent computes, and terminates on every input |
| JsonParser.Parser.ObjectTurn | src/core/JsonParser.cpp:212-256 | one turn in an object frame keeps the meaning of the whole stack |
| JsonParser.Parser.ArrayTurn | src/core/JsonParser.cpp:257-293 | one turn in an array frame keeps the meaning of the whole stack |
| JsonParser.PushKeepsResume | src/core/JsonParser.cpp:184-193 | pushing a frame is entering the recursive call |
| JsonParser.TopTakesValue | src/core/JsonParser.cpp:194-203 | completing a value is returning from the recursive call |
| JsonParser.StackTakesValue | src/core/JsonParser.cpp:194-203 | the frames below the top are not disturbed when a value is handed over |
| JsonParser.Parser.ParseString | src/core/JsonParser.cpp:297-336 | the cursor loop reads the string of the recursive definition, with its failures |
| JsonParser.Parser.ParseUnicodeEscape | src/core/JsonParser.cpp:338-353 | escapes and surrogate pairs, with the three ways to fail |
| JsonParser.Parser.ParseNumber | src/core/JsonParser.cpp:422-484 | the number token at the cursor and its value or range error |
| JsonParser.Parser.ParseLiteral | src/core/JsonParser.cpp:486-500 | the three literals and nothing else |
| JsonComplete.DocRead | src/core/JsonParser.cpp:25-31 | every derivation is read with its value: completeness |
| JsonComplete.ValueRead | src/core/JsonParser.cpp:82-137 | a derivation standing anywhere in a text is read there, up to its end |
| JsonSound.DocDerived | src/core/JsonParser.cpp:25-31 | whatever is accepted has a derivation: soundness |
| JsonSound.ValueDerived | src/core/JsonParser.cpp:82-137 | the text between the positions of a read value derives that value |
| JsonDump.DumpDerivation | src/core/JsonValue.cpp:96-171 | the printer writes a valid derivation whose meaning is the printed value, at every indentation and depth |
| JsonDump.Dumper.DumpValue | src/core/JsonValue.cpp:96-171 | the printer appends exactly the specified text to its buffer |
| JsonDump.Dumper.DumpArray | src/core/JsonValue.cpp:119-139 | elements, commas and indentation of an array, compact or pretty |
| JsonDump.Dumper.DumpObject | src/core/JsonValue.cpp:140-170 | members in key order with escaped keys, compact or pretty |
| JsonDump.Dumper.AppendEscapedString | src/core/JsonValue.cpp:40-71 | run-wise copying of unescaped bytes equals escaping byte by byte |
| JsonValue.FindEmplace | src/core/JsonValue.cpp:341-345 | emplace changes an absent key only: the first of several members with one key counts |
| JsonValue.EmplaceSorted | src/core/JsonParser.cpp:194-203 | members stay in key order, each key once |
| JsonValue.FindAssigned | src/core/JsonValue.cpp:341-345 | assignment through operator[] replaces the member of that key and no other |
| JsonValue.DecimalLaws | src/core/JsonValue.cpp:107-108 | the decimal text of a number has no leading zero and spells the number |
| Utf8.SanitizeLaws | src/core/JsonValue.cpp:205-251 | sanitising always gives valid UTF-8 (RFC 3629, section 4), is the identity exactly on valid UTF-8, and is idempotent |
| Utf8.SanitizeUtf8 | src/core/JsonValue.cpp:205-251 | the loop computes it |
| Utf8.ScanAcceptsTable | src/core/JsonParser.cpp:393-420 | the validator accepts exactly the multi-byte rows of the table in RFC 3629 |
| Utf8.EncodeIsUtf8Char | src/core/JsonParser.cpp:375-391 | every scalar value is encoded to a valid character that determines it |
| Utf8.DecodeIsScalar | src/core/JsonParser.cpp:375-391 | every valid character is the encoding of one scalar value |
| JsonCopy.Copy | src/core/JsonValue.cpp:420-476 | the stack-driven copy equals its source, and the places it visits are all places of the source, each once |
| JsonCopy.Visit | src/core/JsonValue.cpp:447-475 | one step keeps what the copy will be once the stack is done, and the places on the stack stay valid and apart |
| JsonCopy.Destroy | src/core/JsonValue.cpp:375-418 | the places taken down by the stack-driven destructor are all places of the value, each once |
| InFlightRuns.EveryRun | src/http/StreamableHttpServerTransport.cpp:1282-1364 | in every interleaving each promise is completed at most once, no waiting request loses its promise, the tables mention held-open requests only, a progress token is routed to the last held-open request that brought it, and an answer carries the notifications of its request once and in order |
| InFlightRuns.RoutedExactly | src/http/StreamableHttpServerTransport.cpp:1662-1747 | in every run the buffer in the tables, and later the answer, hold exactly the notifications that addressed the request when they were sent: of its session, and wanted by its filter or sent for its token unless a later held-open request took that over |
| InFlightRuns.ResponseFindsItsRequest | src/http/StreamableHttpServerTransport.cpp:1496-1538 | a response with a session completes exactly the waiting request of that session and id text |
| InFlightRuns.StepKeeps | src/http/StreamableHttpServerTransport.cpp:1305-1362 | every critical section keeps the invariant that links the five tables |
| InFlightRuns.TargetsAreAddressed | src/http/StreamableHttpServerTransport.cpp:1662-1747 | the lookups in hold set, filters and routes find exactly the requests a notification addresses, as the requests themselves tell it |
| InFlightRuns.RegisterKeepsPromises | src/http/StreamableHttpServerTransport.cpp:1305-1312 | registering loses no promise exactly when the key is not in use |
| InFlightRuns.EqualIdTextsCollide | src/http/StreamableHttpServerTransport.cpp:1305-1312 | the ids 1 and "1" of stateless clients collide: why ids must be unique by text |
| InFlight.SessionPrefixIsExact | src/http/StreamableHttpServerTransport.cpp:776-780 | a session's key prefix starts exactly the keys of that session |
| InFlight.PendingKeyInjective | src/http/StreamableHttpServerTransport.cpp:776-780 | a key determines session and id text |
| InFlight.InFlightTables.Register | src/http/StreamableHttpServerTransport.cpp:1305-1312 | the new state of all tables |
| InFlight.InFlightTables.GiveUp | src/http/StreamableHttpServerTransport.cpp:1335-1339 | timeout and failed send remove the request from all tables |
| InFlight.InFlightTables.TakeFrames | src/http/StreamableHttpServerTransport.cpp:1355-1363 | the frames of a held-open request, and the tables without it |
| InFlight.InFlightTables.EraseRequestStreamState | src/http/StreamableHttpServerTransport.cpp:1649-1660 | the four stream tables without the key |
| InFlight.InFlightTables.MatchPending | src/http/StreamableHttpServerTransport.cpp:1496-1512 | the exact key, or without session the only key that ends in the id |
| InFlight.InFlightTables.TakeResponse | src/http/StreamableHttpServerTransport.cpp:1514-1538 | the matched entry is taken, or nothing changes |
| InFlight.InFlightTables.TryBuffer | src/http/StreamableHttpServerTransport.cpp:1662-1747 | which requests get the frame, and whether the message is kept from broadcast |
| InFlight.InFlightTables.EraseSession | src/http/StreamableHttpServerTransport.cpp:908-962 | five loops remove exactly the entries of the session and return its promises |
| SseTags.TagFiltersLikeRequest | src/http/StreamableHttpServerTransport.cpp:416-498 | a stream tag, written as JSON and read back, accepts exactly what the filter of a held-open request wants |
| SseTags.TagMatchesOwnSession | src/http/StreamableHttpServerTransport.cpp:433-473 | a tag matches its own session and no other; the legacy stream takes every kind |
| JsonSchemaMeaning.ValidationMeans | src/detail/JsonSchemaValidator.hpp:571-575 | validation computes the meaning of the schema, for every schema that is within the depth limit with its references unfolded, and never takes one of its references for a circular one |
| JsonSchemaMeaning.EvalMeans | src/detail/JsonSchemaValidator.hpp:202-569 | the same at every starting depth that fits, below any chain of references that led there |
| JsonSchemaMeaning.RefSays | src/detail/JsonSchemaValidator.hpp:217-243 | a reference means the schema it leads to; one that leads nowhere or is no string is satisfied by nothing |
| JsonSchemaMeaning.TargetIsNew | src/detail/JsonSchemaValidator.hpp:232-237 | the target of a reference in a schema that fits is never in the chain |
| JsonSchemaMeaning.LogicSays | src/detail/JsonSchemaValidator.hpp:260-301 | allOf, anyOf, oneOf, not and if/then/else in evaluation order mean their conjunction |
| JsonSchemaMeaning.ObjectSays | src/detail/JsonSchemaValidator.hpp:302-415 | the object keywords in evaluation order mean their conjunction |
| JsonSchemaMeaning.ArraySays | src/detail/JsonSchemaValidator.hpp:416-482 | item schemas and contains mean every item's own schema and the number of matching items |
| JsonSchemaLimit.ValidationIsSound | src/detail/JsonSchemaValidator.hpp:202-215 | whatever the depth and the circles of references: for a schema that reaches no not, if, oneOf or maxContains, an accepted value satisfies the meaning |
| JsonSchemaLimit.AcceptedHolds | src/detail/JsonSchemaValidator.hpp:202-569 | the same at every starting depth and with any chain |
| JsonSchemaLimit.DocumentIsSound | src/detail/JsonSchemaValidator.hpp:202-575 | the same for every document none of whose objects has these keywords |
| JsonSchemaLimit.OwnReferenceIsCircular | src/detail/JsonSchemaValidator.hpp:232-237 | a schema that is a reference to itself raises for every instance |
| JsonSchemaLimit.DepthLimitFlipsNot | src/detail/JsonSchemaValidator.hpp:212-215 | {} under n nested not is judged rightly exactly for n up to the limit and for even n: at 33 every value is accepted, although none is valid |
| JsonSchemaRun.SchemaValidator.Validate | src/detail/JsonSchemaValidator.hpp:202-569 | the evaluation in place: its verdict, a chain without duplicates, and the chain restored on return |
| JsonSchemaRun.SchemaValidator.FollowReference | src/detail/JsonSchemaValidator.hpp:218-243 | a reference back into the chain raises; any other is pushed, followed and popped |
| JsonSchemaRun.ChainOnlyRefuses | src/detail/JsonSchemaValidator.hpp:218-243 | the chain never changes a verdict: it only makes circular references fail |
| JsonSchemaRun.CodePointLength | src/detail/JsonSchemaValidator.hpp:97-110 | the loop counts leading bytes |
| JsonSchemaEqual.EqualIsEquivalence | src/detail/JsonSchemaValidator.hpp:70-95 | equality of values is an equivalence relation on values without NaN |
| JsonSchemaEqual.EqualSymmetric | src/detail/JsonSchemaValidator.hpp:85-93 | comparing the members of one object against another is symmetric |
| JsonSchemaEqual.ValuesAreEqual | src/detail/JsonSchemaValidator.hpp:70-95 | the loops compute it |
| UriInverse.InvertsExactly | src/detail/UriTemplate.hpp:446-608 | for distinct names, matching an expansion returns the decoded values exactly if every search for a literal meets it behind its raw piece and nowhere before (from the front) or after (from the back) |
| UriInverse.BindingsReturnExactly | src/detail/UriTemplate.hpp:446-608 | for values without %XX triplets the very bindings come back under the same exact condition |
| UriInverse.UnambiguousInverts | src/detail/UriTemplate.hpp:446-608 | that condition suffices also when a name occurs twice; beyond the length limit nothing is returned |
| UriInverse.SeparatedIsUnambiguous | src/detail/UriTemplate.hpp:525-608 | the condition holds for all values if every literal between two variables holds a byte foreign to encoded values and only the last variable keeps reserved bytes |
| UriInverse.UnreservedLiteralFails | src/detail/UriTemplate.hpp:525-608 | it fails for every unreserved value that holds the unreserved literal behind its variable, or when no literal stands there |
| UriParse.ParsedTemplatesInvertExactly | src/detail/UriTemplate.hpp:551-608 | the exact condition for the text of an accepted template |
| UriParse.ParsedTemplatesInvert | src/detail/UriTemplate.hpp:551-608 | for every accepted template whose separators hold a foreign byte, matching an expansion returns every variable, decoded |
| UriInverse.MatchInvertsExpand | src/detail/UriTemplate.hpp:446-608 | the same for the segments of a template, including the length limit |
| UriInverse.BindingsComeBack | src/detail/UriTemplate.hpp:446-608 | for unambiguous expansions the very bindings come back exactly when no value holds a %XX triplet |
| UriTemplate.MatchDecomposes | src/detail/UriTemplate.hpp:551-608 | every match is a decomposition: the URI is the template's literals interleaved with raw pieces that decode to the bound values |
| UriInverse.WholeIsMatched | src/detail/UriTemplate.hpp:525-608 | if all searches are right, greedy and non-greedy search find the intended decomposition |
| UriTemplate.ExpansionInterleaves | src/detail/UriTemplate.hpp:446-480 | an expansion is the literals of the match parts interleaved with the encoded values |
| UriParse.ParseAcceptsExactly | src/detail/UriTemplate.hpp:339-418 | the parser accepts exactly the texts of valid templates and returns their segments |
| UriParse.Parse | src/detail/UriTemplate.hpp:339-418 | the character loop with its limits and its error cases |
| UriParse.ParseExpression | src/detail/UriTemplate.hpp:296-337 | one expression: operator, names, explode star, errors |
| UriParse.ValidateVarName | src/detail/UriTemplate.hpp:134-166 | the loop accepts dot-separated groups of name characters and triplets |
| UriCoding.EncodeLaws | src/detail/UriTemplate.hpp:238-276 | encoding is idempotent, decoding an encoded value is decoding the value, and non-reserved encodings are valid |
| UriCoding.RoundTripExactly | src/detail/UriTemplate.hpp:238-276 | a value survives encoding and decoding exactly when it holds no triplet |
| UriCoding.EncodeValue | src/detail/UriTemplate.hpp:238-259 | the index loop computes the encoding |
| UriCoding.DecodeValue | src/detail/UriTemplate.hpp:261-276 | the index loop computes the decoding |
| UriCoding.IsValidEncodedValue | src/detail/UriTemplate.hpp:278-294 | the index loop decides validity |
| UriTemplateLoops.Expand | src/detail/UriTemplate.hpp:446-480 | the nested loops write the specified expansion |
| UriTemplateLoops.BuildMatchParts | src/detail/UriTemplate.hpp:482-523 | the pending-literal loop builds the specified parts |
| UriTemplateLoops.MatchUri | src/detail/UriTemplate.hpp:551-608 | the matching loop computes the specified bindings |
| UriTemplateLoops.LabelSeparatorIsAmbiguous | src/detail/UriTemplate.hpp:218-232 | the dot of the label operator may occur in values: a concrete template that does not round-trip |
| EventRuns.FileStoreRefinesMemory | src/http/FileEventStore.cpp:345-401 | after any crash-free run a reader that has seen i events of a session gets the same payloads from both stores; the file store numbers the events of a session 1, 2, 3 and so on between clears |
| EventRuns.CursorIsUnobservable | src/http/FileEventStore.cpp:290-307 | deleting cursor files between operations changes no read and no id |
| EventRuns.CrashLosesOneEvent | src/http/FileEventStore.cpp:354-388 | whatever the files hold, a line torn at any byte leaves all earlier events, and the next append lands on its own line; its id repeats the torn one exactly if the old cursor is there, the torn line does not load, or ids wrap around |
| EventRuns.AppendAlwaysLands | src/http/FileEventStore.cpp:345-389 | an append adds exactly its own event, whatever bytes log and cursor hold |
| EventRuns.MemoryIsHistory | src/http/EventStore.cpp:11-25 | the in-memory store holds the newest 10000 events since the last clear |
| EventRuns.FilesHoldHistory | src/http/FileEventStore.cpp:345-389 | the log and the cursor of a session always describe its history |
| EventLog.TornLine | src/http/FileEventStore.cpp:232-258 | a torn last line loads or counts only when nothing but its break is missing |
| EventLog.AppendedLoads | src/http/FileEventStore.cpp:361-374 | appending behind any content, with or without a closing break, adds one event |
| EventLog.EventLinesLoad | src/http/FileEventStore.cpp:261-277 | a rewritten log loads as the events it was written from |
| EventLog.CanonicalIsNoJson | src/http/FileEventStore.cpp:161-190 | the fast path of the counter accepts only lines that are no JSON text |
| EventLog.LoadedIsCounted | src/http/FileEventStore.cpp:192-213 | every event that loads is counted with its id |
| EventLog.CountedWithoutLoading | src/http/FileEventStore.cpp:161-213 | a line that is counted and never loads |
| EventLog.CountedWithoutLoadingExactly | src/http/FileEventStore.cpp:161-213 | a line is counted without loading exactly if it takes the fast path or parses to an object with an integer id whose data is no string |
| EventLog.CountIsExact | src/http/FileEventStore.cpp:161-230 | the counter never counts too few events of a log, and counts right exactly if every line it counts loads |
| EventStores.NamesAreDistinct | src/http/FileEventStore.cpp:30-48 | different sessions never share a file, and a log is never a cursor |
| EventStores.SanitizeSessionId | src/http/FileEventStore.cpp:30-43 | the loop computes the file name |
| EventStores.StoredCursorOf | src/http/FileEventStore.cpp:290-320 | a stored cursor is read back, or ignored once its id exceeds int64 |
| EventStores.FileEventStore.AppendEvent | src/http/FileEventStore.cpp:345-389 | the new directory and the returned id |
| EventStores.FileEventStore.FindAppendPoint | src/http/FileEventStore.cpp:352-363 | cursor file, or else a scan of the log |
| EventStores.FileEventStore.GetEventsSince | src/http/FileEventStore.cpp:391-401 | the loaded events behind an id |
| EventStores.FileEventStore.ClearSession | src/http/FileEventStore.cpp:403-420 | both files of the session are gone, no other |
| EventStores.LoadEvents | src/http/FileEventStore.cpp:232-259 | the line loop loads what the lines say |
| EventStores.ScanEvents | src/http/FileEventStore.cpp:215-230 | the line loop counts, and finds the largest id |
| EventStores.SerializeEvents | src/http/FileEventStore.cpp:261-277 | the loop writes one line per event |
| EventStores.EventStore.AppendEvent | src/http/EventStore.cpp:9-25 | the new state, trimmed, and the returned id |
| EventStores.EventStore.GetEventsSince | src/http/EventStore.cpp:27-39 | the events behind an id |
| EventReplay.ReplayStart | src/http/StreamableHttpServerTransport.cpp:1468-1480 | the backward loop finds the longest tail within both limits |
| EventReplay.Replay | src/http/StreamableHttpServerTransport.cpp:1463-1486 | a client gets the newest events behind those it has seen, in order and without a gap |
| CacheRuns.HitIsLatestStore | src/detail/ResponseCache.hpp:30-58 | in every run a hit is the latest public store of the key, or the latest private store under this context: fresh, within max age, and not covered by a later invalidation |
| CacheRuns.BelowCapacityExact | src/detail/ResponseCache.hpp:30-58 | until capacity is reached, a lookup returns exactly what the history says |
| CacheRecency.KeptExactly | src/detail/ResponseCache.hpp:30-55 | in every run, whatever the clock: an entry not used or taken out since its last use is still there exactly if at no moment since as many entries as there is room for were to be evicted after it |
| CacheRecency.LeastRecentlyUsed | src/detail/ResponseCache.hpp:30-55 | when the clock goes on and nothing is invalidated or stale: an entry is still there exactly if fewer distinct others than there is room for were stored or hit since its last use |
| CacheRecency.FoundExactly | src/detail/ResponseCache.hpp:30-55 | what a lookup in one partition of a full cache finds: the latest deposit, if it is fresh and was never outranked |
| CacheRecency.KeptByRank | src/detail/ResponseCache.hpp:149-158 | eviction keeps an entry exactly if fewer others than there is room for go after it |
| CacheRuns.RunMatches | src/detail/ResponseCache.hpp:30-93 | every entry is its key's latest deposit, and no partition exceeds its capacity |
| CacheRuns.PrivateKeyInjective | src/detail/ResponseCache.hpp:102-115 | private keys are unambiguous for contexts without the separator |
| CacheRuns.PrefixIsExact | src/detail/ResponseCache.hpp:82-93 | clearing a context removes its entries and no others |
| CacheRuns.SuffixCovers | src/detail/ResponseCache.hpp:57-70 | which private entries an invalidation reaches, over-invalidation included |
| ResponseCache.EvictedLaws | src/detail/ResponseCache.hpp:149-158 | eviction drops the least recently used entries, no more than needed |
| ResponseCache.StoreSurvives | src/detail/ResponseCache.hpp:30-44 | exactly when a store survives its own eviction |
| ResponseCache.HitIsRecent | src/detail/ResponseCache.hpp:133-147 | a hit makes its entry the last to go |
| ResponseCache.ClientCache.StoreEntry | src/detail/ResponseCache.hpp:30-44 | the new state of both partitions |
| ResponseCache.ClientCache.GetAny | src/detail/ResponseCache.hpp:46-55 | the value, and the state with stale entries erased and the hit touched |
| ResponseCache.ClientCache.InvalidateKey | src/detail/ResponseCache.hpp:57-70 | the new state of both partitions |
| ResponseCache.ClientCache.ClearPrivateOf | src/detail/ResponseCache.hpp:82-93 | the private partition without the context |
| ResponseCache.ClientCache.EvictLocked | src/detail/ResponseCache.hpp:149-158 | the nested loops evict as specified |
| CancelToken.HandlersRunOnce | src/core/CancelToken.cpp:22-63 | in every interleaving a handler runs at most once, with the first reason, and once nobody is left to run it, it ran exactly if it was registered at the cancel or added after it |
| CancelToken.NoHandlerStays | src/client/McpClient.cpp:321-357 | once both Attach and Complete have finished, in any interleaving, the handler is not registered |
| CancelToken.RunOk | src/core/CancelToken.cpp:22-68 | the invariant behind it: table, due calls and made calls follow the fate of every handler |
| CancelToken.CancelTokenState.Cancel | src/core/CancelToken.cpp:22-36 | the new state, and one call per registered handler with the reason |
| CancelToken.CancelTokenState.AddCancelHandler | src/core/CancelToken.cpp:48-63 | registered, or called at once with the stored reason |
| ReplayCache.AcceptedExactly | src/ext/DPoP.cpp:113-141 | a proof is accepted exactly if it is fresh and sound, has a jti, and no accepted proof with that jti is within the window |
| ReplayCache.NeverTwice | src/ext/DPoP.cpp:113-141 | no pair of jti and issue time is accepted twice |
| ReplayCache.JtiReplayCache.CheckAndStore | src/ext/DPoP.cpp:128-141 | the purging loop and the verdict; afterwards every entry is within the window or the one just stored |
| ReplayCache.CacheHoldsExactly | src/ext/DPoP.cpp:128-141 | after a fresh and sound proof with a jti, the cache holds exactly the accepted pairs of jti and issue time within the window |
| HttpReader.HttpConnection.ReadRequest | src/http/HttpServerImpl.cpp:610-732 | wherever the bytes are cut, the request is the one its text starts with, and the bytes behind it stay; a deadline that passes within its headers makes it a bad one |
| HttpReader.LineLaws | src/http/HttpServerImpl.cpp:578-608 | a line that is read is the first line of the text and is removed from it; otherwise no byte is lost unless the line is too long |
| HttpReader.LineIsOfText | src/http/HttpServerImpl.cpp:578-608 | off the edge of the limit the outcome of a line read depends on the text only |
| HttpReader.LineDependsOnCutsExactly | src/http/HttpServerImpl.cpp:578-608 | two ways to cut a text give different outcomes exactly if its first line is one byte over the limit with its CR |
| HttpReader.RequestLineDependsOnCutsExactly | src/http/HttpServerImpl.cpp:610-613 | the same at the limit of the request line |
| HttpReader.EdgeDependsOnCuts | src/http/HttpServerImpl.cpp:578-608 | for every text on that edge: cut in front of the CR it is accepted, cut behind the CR it is refused |
| HttpReader.BudgetDecides | src/http/HttpServerImpl.cpp:641-660 | a time budget that covers all turns of the header loop changes nothing, and a shorter one makes the request a bad one |
| HttpReader.TurnsBounded | src/http/HttpServerImpl.cpp:641-675 | the turns of a header block are bounded by its size and the reads that time out |
| HttpReader.HeadersAreOfText | src/http/HttpServerImpl.cpp:641-704 | the header block depends on the text only, without exception, however often reads time out |
| HttpReader.BodyLaws | src/http/HttpServerImpl.cpp:706-732 | the body is the next bytes of the text, and is there exactly if the text is long enough |
| HttpReader.RequestLineExactly | src/http/HttpServerImpl.cpp:610-639 | a request line is accepted exactly if it is method, path and version with single spaces |
| HttpReader.HttpConnection.ReadLine | src/http/HttpServerImpl.cpp:578-608 | the loop refills the buffer as specified |
| HttpReader.HttpConnection.ReadHeaderBlock | src/http/HttpServerImpl.cpp:641-704 | the loop over header lines, ended by the deadline or by a line, computes the specified outcome |
| HttpReader.HttpConnection.ReadBody | src/http/HttpServerImpl.cpp:706-732 | buffered bytes first, then the loop of reads |
| SseStream.SplitStream | src/http/StreamableHttpClientTransport.cpp:1715-1731 | the blocks handed on are those of the whole text up to the first one refused, whatever the chunks |
| SseStream.SseSplitter.Feed | src/http/StreamableHttpClientTransport.cpp:1715-1731 | after every chunk the blocks so far and the pending text are those of what was received; the stream ends with a refused block or when the pending text exceeds the limit |
| SseStream.BlocksAreTheText | src/http/StreamableHttpClientTransport.cpp:1725-1730 | the blocks and the rest give the text back, and no block hides a break |
| SseStream.SseSendBuffer.Send | src/http/HttpServerImpl.cpp:58-65 | nothing is sent early, lost, doubled or reordered |
| SseStream.SseSendBuffer.MarkReady | src/http/HttpServerImpl.cpp:67-74 | what was held back is sent first |
| Base64.RoundTrip | src/http/McpParamHeaders.hpp:26-98 | decoding gives back every byte string |
| Base64.StandardBase64Encode | src/http/McpParamHeaders.hpp:26-58 | the group loop computes the encoding |
| Base64.StandardBase64Decode | src/http/McpParamHeaders.hpp:69-98 | the quad loops compute the decoding and find every error |
| ParamHeaders.SentinelRoundTrip | src/http/McpParamHeaders.hpp:136-162 | every argument text comes back from its header value |
| ParamHeaders.EncodedIsHeaderSafe | src/http/McpParamHeaders.hpp:108-150 | a header value is printable and has no blanks at its ends |
| ParamHeaders.MirrorIsAccepted | src/http/StreamableHttpServerTransport.cpp:1021-1080 | the headers a client builds pass the server's trimming and check exactly when no annotated argument is a double, an array or an object |
| ParamHeaders.HeaderArrives | src/http/HttpServerImpl.cpp:670-686 | the header reader delivers the lowered name with the very value the client wrote |
| ParamHeaders.BuildParamHeaders | src/http/McpParamHeaders.hpp:250-274 | the loop builds one header per mirrored argument |
| ParamHeaders.ValidateParamHeaders | src/http/StreamableHttpServerTransport.cpp:1021-1080 | the loops report the first complaint |
| ParamHeaders.IsPlainHeaderSafe | src/http/McpParamHeaders.hpp:108-122 | the loop decides which values may stand unencoded |
| JsonRpc.MessageRoundTrip | src/core/JsonRpc.cpp:181-238 | a message written to text and read back is the message in normal form, of the same kind and with the same id |
| JsonRpc.EncodeDecodes | src/core/JsonRpc.cpp:78-179 | the same on JSON values, without the text |
| JsonRpc.NormalIsFixed | src/core/JsonRpc.cpp:22-40 | the normal form can always be written and does not change any more |
| JsonRpc.EncodeFailsExactly | src/core/JsonRpc.cpp:22-31 | writing fails exactly when a meta that is no object meets an object meta in the params |
| JsonRpc.ExtractedIsNormal | src/core/JsonRpc.cpp:22-40 | extracting the meta undoes merging it, up to what the params held |
| JsonRpc.MergeMetaIntoParams | src/core/JsonRpc.cpp:22-31 | the loop merges member by member, the meta winning |

## Left out

- Sockets, processes, file locks, fsync, atomic rename, TLS, OAuth, signatures and hashes: foreign calls; files are byte sequences, and an atomic write happens or does not.
- Formatting and parsing of floating point numbers, `std::stod`, `std::regex` and the tolerance test of multipleOf for doubles: library functions, modelled as parameters with the contracts stated beside them.
- Reserve hints (`EstimateElementCount`, `EstimateSize`) and the overflow of `level * indent` in the printer.
- The parser's loop body is split into methods for objects, arrays, closing and taking a value; `AppendUtf8` returns its bytes instead of appending them. `DumpValue` writes its compact and pretty layouts in separate branches with the same text; one loop covers both here.
- JsonCopy.Copy: the copy is a value and a pointer into it a path; moved-from nodes and allocation are not modelled.
- InFlightRuns.EveryRun: in-flight ids are assumed unique by text within a session, as the protocol demands; a timeout may strike any waiting request at any moment instead of after a time; rendered events are numbers.
- InFlight.InFlightTables.EraseSession: the session registry and the stores it also clears are not part of the model.
- UriInverse.InvertsExactly: variables without a value are left out, since their names and separators are not written and then not matched; a name that occurs twice is covered by `UnambiguousInverts` in one direction only.
- UriInverse.SeparatedIsUnambiguous: sufficient for all values of a template, not necessary; which values of other templates come back is told by `InvertsExactly`.
- SseStream.SseSplitter.Feed: what a block means to its consumer is a parameter, a function of the blocks handed over so far.
- JsonSchemaMeaning.EvalMeans: schemas that exceed the limit with their references unfolded, circular ones among them, are covered by `ValidationIsSound` and `ChainOnlyRefuses` only; error texts of the validator are not modelled. Local keyword checks without subschemas are predicates, and the sequence of checks of one schema object is a list of tasks in the source's order.
- EventRuns.FileStoreRefinesMemory: runs are shorter than 2^64 - 2 operations, so ids do not wrap; file names compare byte by byte.
- JsonSchemaLimit.ValidationIsSound: says nothing about rejections beyond the limit, nor about acceptance under the keywords it excludes.
- HttpReader.HttpConnection.ReadHeaderBlock: the clock is a parameter, the number of turns of the loop that begin before the deadline; a read that exceeds its timeout is an empty arrival.
- ReplayCache.CheckedAndStored: times are unbounded integers; the wrap-around of int64 differences is not modelled.
- CancelToken.NoHandlerStays: a destroyed subscription and the copying of tokens are not modelled.
- ParamHeaders.MirrorIsAccepted: annotations are taken as their parser delivers them, valid names that differ when lowered; limits on the number and total size of headers are those of single lines.
- JsonRpc.MessageRoundTrip: the session of a message is not written to text and not part of the model; neither are the error texts of exceptions.
- Pagination, MRTR loops, etag store, version negotiation, field-by-field type serializers, OAuth, CORS and logging: many easy members.
