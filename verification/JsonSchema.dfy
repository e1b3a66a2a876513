// The JSON Schema evaluator of src/detail/JsonSchemaValidator.hpp: equality of values, resolution
// of references, and the depth-limited evaluation with its chain of visited references.
module JsonSchema {
  import opened Bytes
  import opened JsonValue

  // Library functions: conversion and comparison of doubles, std::floor, the cast of a whole double
  // to a count, the tolerance test of multipleOf, and std::regex (None for an invalid pattern).
  datatype SchemaLib = SchemaLib(
    toDouble: int -> nat,
    same: (nat, nat) -> bool,
    less: (nat, nat) -> bool,
    whole: nat -> bool,
    count: nat -> Option<nat>,
    offGrid: (nat, nat) -> bool,
    search: (bytes, bytes) -> Option<bool>)

  const MAX_SCHEMA_DEPTH := 32

  // Keyword names are ASCII.
  function Key(name: string): bytes {
    seq(|name|, i requires 0 <= i < |name| => if name[i] < '\U{0080}' then name[i] as int else 0x3F)
  }

  // ---- Values -------------------------------------------------------------------------------------

  function NumberOf(lib: SchemaLib, v: JsonValue): Option<nat> {
    match v
    case JInt(i) => Some(lib.toDouble(i))
    case JDouble(bits) => Some(bits)
    case _ => None
  }

  function CountOf(lib: SchemaLib, v: JsonValue): Option<nat> {
    match v
    case JInt(i) => if i >= 0 then Some(i) else None
    case JDouble(bits) => lib.count(bits)
    case _ => None
  }

  // JsonSchemaValuesEqual
  predicate ValuesEqual(lib: SchemaLib, a: JsonValue, b: JsonValue)
    decreases a
  {
    if NumberOf(lib, a).Some? && NumberOf(lib, b).Some? then lib.same(NumberOf(lib, a).value, NumberOf(lib, b).value)
    else match (a, b)
      case (JArray(xs), JArray(ys)) =>
        |xs| == |ys| && forall i :: 0 <= i < |xs| ==> ValuesEqual(lib, xs[i], ys[i])
      case (JObject(ms), JObject(ns)) =>
        |ms| == |ns| && forall m :: m in ms ==>
          Find(ns, m.key).Some? && ValuesEqual(lib, m.value, Find(ns, m.key).value)
      case _ => a == b
  }

  // Utf8CodePointLength: the width a leading byte announces, 1 for any other byte.
  function Width(c: byte): nat {
    if c < 0x80 then 1
    else if 0xC0 <= c < 0xE0 then 2
    else if 0xE0 <= c < 0xF0 then 3
    else if 0xF0 <= c < 0xF8 then 4
    else 1
  }

  function CodePoints(text: bytes, p: nat): nat
    decreases |text| - p
  {
    if p >= |text| then 0 else 1 + CodePoints(text, p + Width(text[p]))
  }

  predicate TypeMatches(lib: SchemaLib, v: JsonValue, name: bytes) {
    if name == Key("integer") then v.JInt? || (v.JDouble? && lib.whole(v.bits))
    else
      || (name == Key("object") && v.JObject?) || (name == Key("array") && v.JArray?)
      || (name == Key("string") && v.JString?) || (name == Key("number") && (v.JInt? || v.JDouble?))
      || (name == Key("boolean") && v.JBool?) || (name == Key("null") && v.JNull?)
  }

  predicate TypeMatchesAny(lib: SchemaLib, v: JsonValue, names: JsonValue) {
    match names
    case JString(name) => TypeMatches(lib, v, name)
    case JArray(options) => exists option :: option in options && option.JString? && TypeMatches(lib, v, option.text)
    case _ => false
  }

  predicate Matches(lib: SchemaLib, pattern: bytes, text: bytes) {
    lib.search(pattern, text) == Some(true)
  }

  // ---- Keywords without subschemas ----------------------------------------------------------------

  predicate CoreOk(lib: SchemaLib, v: JsonValue, schema: JsonValue) {
    && (var c := Lookup(schema, Key("const")); c.Some? ==> ValuesEqual(lib, c.value, v))
    && (var e := Lookup(schema, Key("enum"));
        e.Some? && e.value.JArray? ==> exists option :: option in e.value.items && ValuesEqual(lib, option, v))
    && (var t := Lookup(schema, Key("type")); t.Some? ==> TypeMatchesAny(lib, v, t.value))
  }

  predicate AtLeast(lib: SchemaLib, n: nat, schema: JsonValue, key: bytes) {
    var bound := Lookup(schema, key);
    bound.Some? && CountOf(lib, bound.value).Some? ==> n >= CountOf(lib, bound.value).value
  }

  predicate AtMost(lib: SchemaLib, n: nat, schema: JsonValue, key: bytes) {
    var bound := Lookup(schema, key);
    bound.Some? && CountOf(lib, bound.value).Some? ==> n <= CountOf(lib, bound.value).value
  }

  // All strings of an array are keys of the object; other entries are ignored.
  predicate HasAll(v: JsonValue, names: JsonValue) {
    names.JArray? ==> forall name :: name in names.items && name.JString? ==> Lookup(v, name.text).Some?
  }

  predicate RequiredOk(lib: SchemaLib, v: JsonValue, schema: JsonValue)
    requires v.JObject?
  {
    && (var r := Lookup(schema, Key("required")); r.Some? ==> HasAll(v, r.value))
    && AtLeast(lib, |v.members|, schema, Key("minProperties"))
    && AtMost(lib, |v.members|, schema, Key("maxProperties"))
  }

  predicate DependentRequiredOk(v: JsonValue, schema: JsonValue) {
    var d := Lookup(schema, Key("dependentRequired"));
    d.Some? && d.value.JObject? ==>
      forall m :: m in d.value.members && Lookup(v, m.key).Some? ==> HasAll(v, m.value)
  }

  predicate ArrayOk(lib: SchemaLib, v: JsonValue, schema: JsonValue)
    requires v.JArray?
  {
    && (Lookup(schema, Key("uniqueItems")) == Some(JBool(true)) ==>
          forall i, j :: 0 <= i < j < |v.items| ==> !ValuesEqual(lib, v.items[i], v.items[j]))
    && AtLeast(lib, |v.items|, schema, Key("minItems"))
    && AtMost(lib, |v.items|, schema, Key("maxItems"))
  }

  predicate StringOk(lib: SchemaLib, v: JsonValue, schema: JsonValue) {
    v.JString? ==>
      && AtLeast(lib, CodePoints(v.text, 0), schema, Key("minLength"))
      && AtMost(lib, CodePoints(v.text, 0), schema, Key("maxLength"))
      && (var p := Lookup(schema, Key("pattern")); p.Some? && p.value.JString? ==>
          lib.search(p.value.text, v.text) != Some(false))
  }

  function Bound(lib: SchemaLib, schema: JsonValue, key: bytes): Option<nat> {
    match Lookup(schema, key)
    case Some(b) => NumberOf(lib, b)
    case None => None
  }

  // exclusiveMinimum and exclusiveMaximum: a number, or true to make the other bound exclusive.
  function Exclusive(lib: SchemaLib, schema: JsonValue, key: bytes, inclusive: bytes): Option<nat> {
    match Lookup(schema, key)
    case Some(JBool(true)) => Bound(lib, schema, inclusive)
    case Some(b) => NumberOf(lib, b)
    case None => None
  }

  // The remainder of the source has the sign of the dividend; it is zero for the same dividends.
  predicate MultipleOk(lib: SchemaLib, v: JsonValue, schema: JsonValue) {
    match Lookup(schema, Key("multipleOf"))
    case None => true
    case Some(m) =>
      if v.JInt? && m.JInt? then m.i > 0 ==> v.i % m.i == 0
      else NumberOf(lib, v).Some? && NumberOf(lib, m).Some? ==>
        !lib.offGrid(NumberOf(lib, v).value, NumberOf(lib, m).value)
  }

  predicate NumberOk(lib: SchemaLib, v: JsonValue, schema: JsonValue) {
    var n := NumberOf(lib, v);
    n.Some? ==>
      && (var b := Bound(lib, schema, Key("minimum")); b.Some? ==> !lib.less(n.value, b.value))
      && (var b := Bound(lib, schema, Key("maximum")); b.Some? ==> !lib.less(b.value, n.value))
      && (var b := Exclusive(lib, schema, Key("exclusiveMinimum"), Key("minimum"));
          b.Some? ==> !lib.less(n.value, b.value) && !lib.same(n.value, b.value))
      && (var b := Exclusive(lib, schema, Key("exclusiveMaximum"), Key("maximum"));
          b.Some? ==> !lib.less(b.value, n.value) && !lib.same(n.value, b.value))
      && MultipleOk(lib, v, schema)
  }

  // ---- References ---------------------------------------------------------------------------------

  // A pointer into the schema document: where the node is, and the node. Two pointers are the same
  // address exactly when their paths agree.
  datatype Place = At(key: bytes) | Item(index: nat)

  datatype Node = Node(path: seq<Place>, value: JsonValue)

  function Child(n: Node, key: bytes): Option<Node> {
    match Lookup(n.value, key)
    case Some(v) => Some(Node(n.path + [At(key)], v))
    case None => None
  }

  function ItemNode(n: Node, i: nat): Node
    requires n.value.JArray? && i < |n.value.items|
  {
    Node(n.path + [Item(i)], n.value.items[i])
  }

  const SLASH: byte := 0x2F
  const TILDE: byte := 0x7E
  const HASH: byte := 0x23
  const TWO_64: int := 0x1_0000_0000_0000_0000

  function Unescaped(token: bytes): bytes {
    if token == [] then []
    else if token[0] == TILDE && |token| > 1 then
      [if token[1] == 0x31 then SLASH else if token[1] == 0x30 then TILDE else token[1]] + Unescaped(token[2..])
    else [token[0]] + Unescaped(token[1..])
  }

  // One step of a JSON pointer; an index wraps like size_t.
  function StepTo(n: Node, key: bytes): Option<Node> {
    match n.value
    case JObject(_) => Child(n, key)
    case JArray(items) =>
      if key == [] || !AllDigits(key) || Number(key) % TWO_64 >= |items| then None
      else Some(ItemNode(n, Number(key) % TWO_64))
    case _ => None
  }

  // ResolveJsonPointer
  function ResolvedPointer(n: Node, pointer: bytes): Option<Node>
    decreases |pointer|
  {
    var slash := FindByte(pointer, 0, SLASH);
    match StepTo(n, Unescaped(pointer[..slash]))
    case None => None
    case Some(next) => if slash == |pointer| then Some(next) else ResolvedPointer(next, pointer[slash + 1..])
  }

  // FindSchemaAnchor: depth first, members in key order.
  function FoundAnchor(n: Node, anchor: bytes): Option<Node>
    decreases n.value, 1, 0
  {
    match n.value
    case JObject(members) =>
      if Lookup(n.value, Key("$anchor")) == Some(JString(anchor)) then Some(n) else FoundInMembers(n, 0, anchor)
    case JArray(items) => FoundInItems(n, 0, anchor)
    case _ => None
  }

  function FoundInMembers(n: Node, i: nat, anchor: bytes): Option<Node>
    requires n.value.JObject? && i <= |n.value.members|
    decreases n.value, 0, |n.value.members| - i
  {
    if i == |n.value.members| then None
    else
      var m := n.value.members[i];
      var found := FoundAnchor(Node(n.path + [At(m.key)], m.value), anchor);
      if found.Some? then found else FoundInMembers(n, i + 1, anchor)
  }

  function FoundInItems(n: Node, i: nat, anchor: bytes): Option<Node>
    requires n.value.JArray? && i <= |n.value.items|
    decreases n.value, 0, |n.value.items| - i
  {
    if i == |n.value.items| then None
    else
      var found := FoundAnchor(ItemNode(n, i), anchor);
      if found.Some? then found else FoundInItems(n, i + 1, anchor)
  }

  // ResolveSchemaRef
  function Resolved(root: Node, reference: bytes): Option<Node> {
    if reference == [] || reference[0] != HASH then None
    else if |reference| == 1 then Some(root)
    else if reference[1] == SLASH then ResolvedPointer(root, reference[2..])
    else FoundAnchor(root, reference[1..])
  }

  // ---- What a schema object asks for, in the order of evaluation ----------------------------------

  datatype Pair = Pair(instance: JsonValue, schema: Node)

  // A check without subschemas, a reference, or subschemas with the way their verdicts count.
  datatype Task =
    | Local(ok: bool)
    | Follow(instance: JsonValue, target: Node)
    | AllOf(pairs: seq<Pair>)
    | AnyOf(pairs: seq<Pair>)
    | Counted(pairs: seq<Pair>, least: nat, most: nat)
    | Not(pair: Pair)
    | Branch(condition: Pair, yes: Option<Pair>, no: Option<Pair>)

  function RefTasks(root: Node, v: JsonValue, n: Node, key: bytes): seq<Task> {
    match Lookup(n.value, key)
    case None => []
    case Some(JString(reference)) =>
      (match Resolved(root, reference)
       case Some(target) => [Follow(v, target)]
       case None => [Local(false)])
    case Some(_) => [Local(false)]
  }

  // One instance against every subschema of an array keyword.
  function ListPairs(v: JsonValue, list: Node): seq<Pair>
    requires list.value.JArray?
  {
    seq(|list.value.items|, i requires 0 <= i < |list.value.items| => Pair(v, ItemNode(list, i)))
  }

  function ListTask(v: JsonValue, n: Node, key: bytes, task: seq<Pair> -> Task): seq<Task> {
    match Child(n, key)
    case Some(list) => if list.value.JArray? then [task(ListPairs(v, list))] else []
    case None => []
  }

  function AllTask(pairs: seq<Pair>): Task {
    AllOf(pairs)
  }

  function AnyTask(pairs: seq<Pair>): Task {
    AnyOf(pairs)
  }

  function OneTask(pairs: seq<Pair>): Task {
    Counted(pairs, 1, 1)
  }

  function WithInstance(v: JsonValue, n: Option<Node>): Option<Pair> {
    if n.Some? then Some(Pair(v, n.value)) else None
  }

  function NotTasks(v: JsonValue, n: Node): seq<Task> {
    var s := Child(n, Key("not"));
    if s.Some? then [Not(Pair(v, s.value))] else []
  }

  function IfTasks(v: JsonValue, n: Node): seq<Task> {
    var s := Child(n, Key("if"));
    if s.Some? then [Branch(Pair(v, s.value), WithInstance(v, Child(n, Key("then"))),
                            WithInstance(v, Child(n, Key("else"))))] else []
  }

  function LogicTasks(v: JsonValue, n: Node): seq<Task> {
    ListTask(v, n, Key("allOf"), AllTask) + ListTask(v, n, Key("anyOf"), AnyTask)
      + ListTask(v, n, Key("oneOf"), OneTask)
    + NotTasks(v, n) + IfTasks(v, n)
  }

  // The members of an object keyword, as nodes.
  function MemberNodes(n: Node): seq<Node>
    requires n.value.JObject?
  {
    seq(|n.value.members|, i requires 0 <= i < |n.value.members| =>
        Node(n.path + [At(n.value.members[i].key)], n.value.members[i].value))
  }

  function ObjectKeyword(n: Node, key: bytes): (r: Option<Node>)
    ensures r.Some? ==> r.value.value.JObject?
  {
    match Child(n, key)
    case Some(k) => if k.value.JObject? then Some(k) else None
    case None => None
  }

  // properties: each named property that is there against its schema.
  function PropertyPairs(v: JsonValue, props: Node, i: nat): seq<Pair>
    requires props.value.JObject? && i <= |props.value.members|
    decreases |props.value.members| - i
  {
    if i == |props.value.members| then []
    else
      var value := Lookup(v, props.value.members[i].key);
      (if value.Some? then [Pair(value.value, MemberNodes(props)[i])] else []) + PropertyPairs(v, props, i + 1)
  }

  // Members of an instance, each against the same schema.
  function MemberPairs(members: seq<Member>, schema: Node): seq<Pair> {
    seq(|members|, i requires 0 <= i < |members| => Pair(members[i].value, schema))
  }

  function Matching(lib: SchemaLib, pattern: bytes, members: seq<Member>): seq<Member> {
    if members == [] then []
    else (if Matches(lib, pattern, members[0].key) then [members[0]] else []) + Matching(lib, pattern, members[1..])
  }

  function PatternPairs(lib: SchemaLib, v: JsonValue, patterns: Node, i: nat): seq<Pair>
    requires v.JObject? && patterns.value.JObject? && i <= |patterns.value.members|
    decreases |patterns.value.members| - i
  {
    if i == |patterns.value.members| then []
    else
      MemberPairs(Matching(lib, patterns.value.members[i].key, v.members), MemberNodes(patterns)[i])
      + PatternPairs(lib, v, patterns, i + 1)
  }

  // Keys that properties or patternProperties speak of.
  predicate IsCovered(lib: SchemaLib, schema: JsonValue, key: bytes) {
    || (var p := Lookup(schema, Key("properties")); p.Some? && p.value.JObject? && Lookup(p.value, key).Some?)
    || (var p := Lookup(schema, Key("patternProperties"));
        p.Some? && p.value.JObject? && exists m :: m in p.value.members && Matches(lib, m.key, key))
  }

  function Uncovered(lib: SchemaLib, schema: JsonValue, members: seq<Member>): seq<Member> {
    if members == [] then []
    else (if IsCovered(lib, schema, members[0].key) then [] else [members[0]]) + Uncovered(lib, schema, members[1..])
  }

  function NamePairs(members: seq<Member>, schema: Node): seq<Pair> {
    seq(|members|, i requires 0 <= i < |members| => Pair(JString(members[i].key), schema))
  }

  // dependentSchemas and the subschemas of dependencies: for properties that are there.
  function DependentPairs(v: JsonValue, deps: Node, i: nat): seq<Pair>
    requires deps.value.JObject? && i <= |deps.value.members|
    decreases |deps.value.members| - i
  {
    if i == |deps.value.members| then []
    else
      (if Lookup(v, deps.value.members[i].key).Some? then [Pair(v, MemberNodes(deps)[i])] else [])
      + DependentPairs(v, deps, i + 1)
  }

  function DependencyTasks(v: JsonValue, deps: Node, i: nat): seq<Task>
    requires deps.value.JObject? && i <= |deps.value.members|
    decreases |deps.value.members| - i
  {
    if i == |deps.value.members| then []
    else
      var m := deps.value.members[i];
      (if Lookup(v, m.key).None? then []
       else if m.value.JArray? then [Local(HasAll(v, m.value))]
       else [AllOf([Pair(v, MemberNodes(deps)[i])])]) + DependencyTasks(v, deps, i + 1)
  }

  function PropertiesTasks(v: JsonValue, n: Node): seq<Task> {
    var p := ObjectKeyword(n, Key("properties"));
    if p.Some? then [AllOf(PropertyPairs(v, p.value, 0))] else []
  }

  function PatternsTasks(lib: SchemaLib, v: JsonValue, n: Node): seq<Task>
    requires v.JObject?
  {
    var p := ObjectKeyword(n, Key("patternProperties"));
    if p.Some? then [AllOf(PatternPairs(lib, v, p.value, 0))] else []
  }

  function AdditionalTasks(lib: SchemaLib, v: JsonValue, n: Node): seq<Task>
    requires v.JObject?
  {
    var s := Child(n, Key("additionalProperties"));
    if s.Some? then [AllOf(MemberPairs(Uncovered(lib, n.value, v.members), s.value))] else []
  }

  function NamesTasks(v: JsonValue, n: Node): seq<Task>
    requires v.JObject?
  {
    var s := Child(n, Key("propertyNames"));
    if s.Some? then [AllOf(NamePairs(v.members, s.value))] else []
  }

  function DependentTasks(v: JsonValue, n: Node): seq<Task> {
    var d := ObjectKeyword(n, Key("dependentSchemas"));
    if d.Some? then [AllOf(DependentPairs(v, d.value, 0))] else []
  }

  function DependenciesTasks(v: JsonValue, n: Node): seq<Task> {
    var d := ObjectKeyword(n, Key("dependencies"));
    if d.Some? then DependencyTasks(v, d.value, 0) else []
  }

  function ObjectTasks(lib: SchemaLib, v: JsonValue, n: Node): seq<Task>
    requires v.JObject?
  {
    [Local(RequiredOk(lib, v, n.value))] + PropertiesTasks(v, n) + PatternsTasks(lib, v, n) + AdditionalTasks(lib, v, n)
    + NamesTasks(v, n) + [Local(DependentRequiredOk(v, n.value))] + DependentTasks(v, n) + DependenciesTasks(v, n)
  }

  // The schema for item `i`: by position in prefixItems, else by position in an array of items, with
  // additionalItems behind it, else the one schema of items.
  function ItemSchema(n: Node, i: nat): Option<Node> {
    var prefix, items := Child(n, Key("prefixItems")), Child(n, Key("items"));
    if prefix.Some? && prefix.value.value.JArray? && i < |prefix.value.value.items| then Some(ItemNode(prefix.value, i))
    else if items.Some? && items.value.value.JArray? then
      if i < |items.value.value.items| then Some(ItemNode(items.value, i)) else Child(n, Key("additionalItems"))
    else items
  }

  function ItemPairs(v: JsonValue, n: Node, i: nat): seq<Pair>
    requires v.JArray? && i <= |v.items|
    decreases |v.items| - i
  {
    if i == |v.items| then []
    else (if ItemSchema(n, i).Some? then [Pair(v.items[i], ItemSchema(n, i).value)] else []) + ItemPairs(v, n, i + 1)
  }

  function ContainsPairs(items: seq<JsonValue>, schema: Node): seq<Pair> {
    seq(|items|, i requires 0 <= i < |items| => Pair(items[i], schema))
  }

  function CountBound(lib: SchemaLib, schema: JsonValue, key: bytes, default: nat): nat {
    var bound := Lookup(schema, key);
    if bound.Some? && CountOf(lib, bound.value).Some? then CountOf(lib, bound.value).value else default
  }

  function ContainsTasks(lib: SchemaLib, v: JsonValue, n: Node): seq<Task>
    requires v.JArray?
  {
    var c := Child(n, Key("contains"));
    if c.Some? then
      [Counted(ContainsPairs(v.items, c.value), CountBound(lib, n.value, Key("minContains"), 1),
               CountBound(lib, n.value, Key("maxContains"), |v.items| + 1))]
    else []
  }

  function ArrayTasks(lib: SchemaLib, v: JsonValue, n: Node): seq<Task>
    requires v.JArray?
  {
    [AllOf(ItemPairs(v, n, 0))] + ContainsTasks(lib, v, n) + [Local(ArrayOk(lib, v, n.value))]
  }

  function Plan(lib: SchemaLib, root: Node, v: JsonValue, n: Node): seq<Task> {
    RefTasks(root, v, n, Key("$ref")) + RefTasks(root, v, n, Key("$dynamicRef"))
      + RefTasks(root, v, n, Key("$recursiveRef"))
    + [Local(CoreOk(lib, v, n.value))]
    + LogicTasks(v, n)
    + (if v.JObject? then ObjectTasks(lib, v, n) else [])
    + (if v.JArray? then ArrayTasks(lib, v, n) else [])
    + [Local(StringOk(lib, v, n.value) && NumberOk(lib, v, n.value))]
  }

  // ---- Evaluation ---------------------------------------------------------------------------------

  // Circular stands for the exception a reference back into the chain raises.
  datatype Verdict = Accept | Reject | Circular

  function Of(ok: bool): Verdict {
    if ok then Accept else Reject
  }

  type Chain = seq<Node>

  function Eval(lib: SchemaLib, root: Node, v: JsonValue, n: Node, depth: nat, chain: Chain): Verdict
    decreases MAX_SCHEMA_DEPTH + 1 - depth, 3, 0
  {
    match n.value
    case JBool(b) => Of(b)
    case JObject(_) =>
      if depth > MAX_SCHEMA_DEPTH then Reject else EvalTasks(lib, root, Plan(lib, root, v, n), depth, chain)
    case _ => Accept
  }

  function EvalTasks(lib: SchemaLib, root: Node, tasks: seq<Task>, depth: nat, chain: Chain): Verdict
    requires depth <= MAX_SCHEMA_DEPTH
    decreases MAX_SCHEMA_DEPTH + 1 - depth, 2, |tasks|
  {
    if tasks == [] then Accept
    else
      var verdict := EvalTask(lib, root, tasks[0], depth, chain);
      if verdict != Accept then verdict else EvalTasks(lib, root, tasks[1..], depth, chain)
  }

  function EvalTask(lib: SchemaLib, root: Node, task: Task, depth: nat, chain: Chain): Verdict
    requires depth <= MAX_SCHEMA_DEPTH
    decreases MAX_SCHEMA_DEPTH + 1 - depth, 1, 0
  {
    match task
    case Local(ok) => Of(ok)
    case Follow(v, target) =>
      if target in chain then Circular else Eval(lib, root, v, target, depth + 1, chain + [target])
    case AllOf(pairs) => EvalAll(lib, root, pairs, depth, chain)
    case AnyOf(pairs) => EvalAny(lib, root, pairs, depth, chain)
    case Counted(pairs, least, most) => EvalCount(lib, root, pairs, 0, least, most, depth, chain)
    case Not(pair) =>
      (match EvalPair(lib, root, pair, depth, chain)
       case Accept => Reject
       case Reject => Accept
       case Circular => Circular)
    case Branch(condition, yes, no) =>
      (match EvalPair(lib, root, condition, depth, chain)
       case Accept => if yes.Some? then EvalPair(lib, root, yes.value, depth, chain) else Accept
       case Reject => if no.Some? then EvalPair(lib, root, no.value, depth, chain) else Accept
       case Circular => Circular)
  }

  function EvalPair(lib: SchemaLib, root: Node, pair: Pair, depth: nat, chain: Chain): Verdict
    requires depth <= MAX_SCHEMA_DEPTH
    decreases MAX_SCHEMA_DEPTH + 1 - depth, 0, 0
  {
    Eval(lib, root, pair.instance, pair.schema, depth + 1, chain)
  }

  function EvalAll(lib: SchemaLib, root: Node, pairs: seq<Pair>, depth: nat, chain: Chain): Verdict
    requires depth <= MAX_SCHEMA_DEPTH
    decreases MAX_SCHEMA_DEPTH + 1 - depth, 0, |pairs| + 1
  {
    if pairs == [] then Accept
    else
      var verdict := EvalPair(lib, root, pairs[0], depth, chain);
      if verdict != Accept then verdict else EvalAll(lib, root, pairs[1..], depth, chain)
  }

  function EvalAny(lib: SchemaLib, root: Node, pairs: seq<Pair>, depth: nat, chain: Chain): Verdict
    requires depth <= MAX_SCHEMA_DEPTH
    decreases MAX_SCHEMA_DEPTH + 1 - depth, 0, |pairs| + 1
  {
    if pairs == [] then Reject
    else
      var verdict := EvalPair(lib, root, pairs[0], depth, chain);
      if verdict != Reject then verdict else EvalAny(lib, root, pairs[1..], depth, chain)
  }

  // `matched`: how many were accepted before; the loop never stops early.
  function EvalCount(lib: SchemaLib, root: Node, pairs: seq<Pair>, matched: nat, least: nat, most: nat, depth: nat,
                     chain: Chain): Verdict
    requires depth <= MAX_SCHEMA_DEPTH
    decreases MAX_SCHEMA_DEPTH + 1 - depth, 0, |pairs| + 1
  {
    if pairs == [] then Of(least <= matched <= most)
    else
      match EvalPair(lib, root, pairs[0], depth, chain)
      case Accept => EvalCount(lib, root, pairs[1..], matched + 1, least, most, depth, chain)
      case Reject => EvalCount(lib, root, pairs[1..], matched, least, most, depth, chain)
      case Circular => Circular
  }

  // ValidateJsonSchema
  function Validated(lib: SchemaLib, v: JsonValue, schema: JsonValue): Verdict {
    Eval(lib, Node([], schema), v, Node([], schema), 0, [Node([], schema)])
  }
}
