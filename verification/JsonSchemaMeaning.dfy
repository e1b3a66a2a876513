// What a JSON Schema means, keyword by keyword and without an order of evaluation, and that the
// evaluator agrees with it on schemas that fit the depth limit with all references unfolded.
module JsonSchemaMeaning {
  import opened Bytes
  import opened JsonValue
  import opened JsonSchema

  // ---- Meaning ------------------------------------------------------------------------------------

  // The document a schema belongs to, and how many references in a row are unfolded.
  datatype Document = Document(lib: SchemaLib, root: Node, refs: nat)

  function Behind(doc: Document): Document
    requires doc.refs > 0
  {
    doc.(refs := doc.refs - 1)
  }

  ghost predicate Holds(doc: Document, v: JsonValue, schema: JsonValue)
    decreases doc.refs, schema, 2
  {
    match schema
    case JBool(b) => b
    case JObject(_) =>
      && RefsHold(doc, v, schema) && CoreOk(doc.lib, v, schema) && LogicHolds(doc, v, schema)
      && (v.JObject? ==> ObjectHolds(doc, v, schema)) && (v.JArray? ==> ArrayHolds(doc, v, schema))
      && StringOk(doc.lib, v, schema) && NumberOk(doc.lib, v, schema)
    case _ => true
  }

  // A reference stands for the schema it leads to; one that leads nowhere is satisfied by nothing.
  ghost predicate RefHolds(doc: Document, v: JsonValue, schema: JsonValue, key: bytes)
    decreases doc.refs, schema, 0
  {
    match Lookup(schema, key)
    case None => true
    case Some(JString(reference)) =>
      var target := Resolved(doc.root, reference);
      target.Some? && doc.refs > 0 && Holds(Behind(doc), v, target.value.value)
    case Some(_) => false
  }

  ghost predicate RefsHold(doc: Document, v: JsonValue, schema: JsonValue)
    decreases doc.refs, schema, 1
  {
    && RefHolds(doc, v, schema, Key("$ref")) && RefHolds(doc, v, schema, Key("$dynamicRef"))
    && RefHolds(doc, v, schema, Key("$recursiveRef"))
  }

  ghost predicate AllOfHolds(doc: Document, v: JsonValue, schema: JsonValue)
    decreases doc.refs, schema, 0
  {
    var s := Lookup(schema, Key("allOf"));
    s.Some? && s.value.JArray? ==> forall x :: x in s.value.items ==> Holds(doc, v, x)
  }

  ghost predicate AnyOfHolds(doc: Document, v: JsonValue, schema: JsonValue)
    decreases doc.refs, schema, 0
  {
    var s := Lookup(schema, Key("anyOf"));
    s.Some? && s.value.JArray? ==> exists x :: x in s.value.items && Holds(doc, v, x)
  }

  // Which schemas of a list an instance satisfies.
  ghost function SchemasHolding(doc: Document, v: JsonValue, schemas: seq<JsonValue>): set<nat>
    decreases doc.refs, schemas, 0
  {
    set i: nat | i < |schemas| && Holds(doc, v, schemas[i])
  }

  ghost predicate OneOfHolds(doc: Document, v: JsonValue, schema: JsonValue)
    decreases doc.refs, schema, 0
  {
    var s := Lookup(schema, Key("oneOf"));
    s.Some? && s.value.JArray? ==> |SchemasHolding(doc, v, s.value.items)| == 1
  }

  ghost predicate NotHolds(doc: Document, v: JsonValue, schema: JsonValue)
    decreases doc.refs, schema, 0
  {
    var s := Lookup(schema, Key("not"));
    s.Some? ==> !Holds(doc, v, s.value)
  }

  // "then" and "else" count only beside an "if".
  ghost predicate IfHolds(doc: Document, v: JsonValue, schema: JsonValue)
    decreases doc.refs, schema, 0
  {
    var s, yes, no := Lookup(schema, Key("if")), Lookup(schema, Key("then")), Lookup(schema, Key("else"));
    s.Some? ==>
      if Holds(doc, v, s.value) then yes.Some? ==> Holds(doc, v, yes.value) else no.Some? ==> Holds(doc, v, no.value)
  }

  ghost predicate LogicHolds(doc: Document, v: JsonValue, schema: JsonValue)
    decreases doc.refs, schema, 1
  {
    && AllOfHolds(doc, v, schema) && AnyOfHolds(doc, v, schema) && OneOfHolds(doc, v, schema)
    && NotHolds(doc, v, schema) && IfHolds(doc, v, schema)
  }

  ghost predicate PropertiesHold(doc: Document, v: JsonValue, schema: JsonValue)
    decreases doc.refs, schema, 0
  {
    var s := Lookup(schema, Key("properties"));
    s.Some? && s.value.JObject? ==>
      forall p :: p in s.value.members && Lookup(v, p.key).Some? ==> Holds(doc, Lookup(v, p.key).value, p.value)
  }

  ghost predicate PatternsHold(doc: Document, v: JsonValue, schema: JsonValue)
    requires v.JObject?
    decreases doc.refs, schema, 0
  {
    var s := Lookup(schema, Key("patternProperties"));
    s.Some? && s.value.JObject? ==>
      forall p, m :: p in s.value.members && m in v.members && Matches(doc.lib, p.key, m.key) ==>
        Holds(doc, m.value, p.value)
  }

  ghost predicate AdditionalHolds(doc: Document, v: JsonValue, schema: JsonValue)
    requires v.JObject?
    decreases doc.refs, schema, 0
  {
    var s := Lookup(schema, Key("additionalProperties"));
    s.Some? ==> forall m :: m in v.members && !IsCovered(doc.lib, schema, m.key) ==> Holds(doc, m.value, s.value)
  }

  ghost predicate NamesHold(doc: Document, v: JsonValue, schema: JsonValue)
    requires v.JObject?
    decreases doc.refs, schema, 0
  {
    var s := Lookup(schema, Key("propertyNames"));
    s.Some? ==> forall m :: m in v.members ==> Holds(doc, JString(m.key), s.value)
  }

  ghost predicate DependentHold(doc: Document, v: JsonValue, schema: JsonValue)
    decreases doc.refs, schema, 0
  {
    var s := Lookup(schema, Key("dependentSchemas"));
    s.Some? && s.value.JObject? ==>
      forall d :: d in s.value.members && Lookup(v, d.key).Some? ==> Holds(doc, v, d.value)
  }

  ghost predicate DependenciesHold(doc: Document, v: JsonValue, schema: JsonValue)
    decreases doc.refs, schema, 0
  {
    var s := Lookup(schema, Key("dependencies"));
    s.Some? && s.value.JObject? ==>
      forall d :: d in s.value.members && Lookup(v, d.key).Some? ==>
        if d.value.JArray? then HasAll(v, d.value) else Holds(doc, v, d.value)
  }

  ghost predicate ObjectHolds(doc: Document, v: JsonValue, schema: JsonValue)
    requires v.JObject?
    decreases doc.refs, schema, 1
  {
    && RequiredOk(doc.lib, v, schema) && PropertiesHold(doc, v, schema) && PatternsHold(doc, v, schema)
    && AdditionalHolds(doc, v, schema) && NamesHold(doc, v, schema) && DependentRequiredOk(v, schema)
    && DependentHold(doc, v, schema) && DependenciesHold(doc, v, schema)
  }

  // The schema that governs item `i` of an array.
  function SchemaForItem(schema: JsonValue, i: nat): (r: Option<JsonValue>)
    ensures r.Some? ==> r.value < schema
  {
    var prefix, items := Lookup(schema, Key("prefixItems")), Lookup(schema, Key("items"));
    if prefix.Some? && prefix.value.JArray? && i < |prefix.value.items| then Some(prefix.value.items[i])
    else if items.Some? && items.value.JArray? then
      if i < |items.value.items| then Some(items.value.items[i]) else Lookup(schema, Key("additionalItems"))
    else items
  }

  ghost predicate ItemsHold(doc: Document, v: JsonValue, schema: JsonValue)
    requires v.JArray?
    decreases doc.refs, schema, 0
  {
    forall i :: 0 <= i < |v.items| && SchemaForItem(schema, i).Some? ==>
      Holds(doc, v.items[i], SchemaForItem(schema, i).value)
  }

  // Which items of an array satisfy a schema.
  ghost function ItemsHolding(doc: Document, items: seq<JsonValue>, schema: JsonValue): set<nat>
    decreases doc.refs, schema, 3
  {
    set i: nat | i < |items| && Holds(doc, items[i], schema)
  }

  ghost predicate ContainsHolds(doc: Document, v: JsonValue, schema: JsonValue)
    requires v.JArray?
    decreases doc.refs, schema, 0
  {
    var s := Lookup(schema, Key("contains"));
    s.Some? ==>
      CountBound(doc.lib, schema, Key("minContains"), 1)
      <= |ItemsHolding(doc, v.items, s.value)|
      <= CountBound(doc.lib, schema, Key("maxContains"), |v.items| + 1)
  }

  ghost predicate ArrayHolds(doc: Document, v: JsonValue, schema: JsonValue)
    requires v.JArray?
    decreases doc.refs, schema, 1
  {
    ItemsHold(doc, v, schema) && ContainsHolds(doc, v, schema) && ArrayOk(doc.lib, v, schema)
  }

  // ---- Schemas within the limit ---------------------------------------------------------------------

  ghost const LISTS: set<bytes> := {Key("allOf"), Key("anyOf"), Key("oneOf"), Key("prefixItems"), Key("items")}
  ghost const MAPS: set<bytes> :=
      {Key("properties"), Key("patternProperties"), Key("dependentSchemas"), Key("dependencies")}
  ghost const SINGLES: set<bytes> :=
    {Key("not"), Key("if"), Key("then"), Key("else"), Key("additionalProperties"), Key("propertyNames"), Key("items"),
     Key("additionalItems"), Key("contains")}

  ghost predicate InList(schema: JsonValue, key: bytes, sub: JsonValue) {
    var s := Lookup(schema, key);
    s.Some? && s.value.JArray? && sub in s.value.items
  }

  ghost predicate InMap(schema: JsonValue, key: bytes, sub: JsonValue) {
    var s := Lookup(schema, key);
    s.Some? && s.value.JObject? && exists m :: m in s.value.members && m.value == sub
  }

  ghost predicate IsSub(schema: JsonValue, sub: JsonValue): (r: bool)
    ensures r ==> sub < schema
  {
    || (exists key :: key in LISTS && InList(schema, key, sub))
    || (exists key :: key in MAPS && InMap(schema, key, sub))
    || (exists key :: key in SINGLES && Lookup(schema, key) == Some(sub))
  }

  ghost const REFS: set<bytes> := {Key("$ref"), Key("$dynamicRef"), Key("$recursiveRef")}

  ghost predicate IsTarget(root: Node, schema: JsonValue, target: Node) {
    exists key, reference :: key in REFS && Lookup(schema, key) == Some(JString(reference))
                             && Resolved(root, reference) == Some(target)
  }

  // With all references unfolded, at most `refs` of them in a row, there are at most `room` schema
  // objects inside each other. No schema with a circle of references fits.
  ghost predicate Fits(root: Node, refs: nat, schema: JsonValue, room: int)
    decreases refs, schema
  {
    schema.JObject? ==>
      && room >= 0 && (forall sub :: IsSub(schema, sub) ==> Fits(root, refs, sub, room - 1))
      && (forall target :: IsTarget(root, schema, target) ==>
            refs > 0 && Fits(root, refs - 1, target.value, room - 1))
  }

  lemma {:induction false} FitsMore(root: Node, refs: nat, more: nat, schema: JsonValue, room: int, wide: int)
    requires Fits(root, refs, schema, room) && refs <= more && room <= wide
    ensures Fits(root, more, schema, wide)
    decreases refs, schema
  {
    hide IsSub, IsTarget;
    if schema.JObject? {
      forall sub | IsSub(schema, sub) ensures Fits(root, more, sub, wide - 1) {
        SubIsSmaller(schema, sub);
        FitsMore(root, refs, more, sub, room - 1, wide - 1);
      }
      forall target | IsTarget(root, schema, target) ensures more > 0 && Fits(root, more - 1, target.value, wide - 1) {
        FitsMore(root, refs - 1, more - 1, target.value, room - 1, wide - 1);
      }
    }
  }

  lemma SubIsSmaller(schema: JsonValue, sub: JsonValue)
    requires IsSub(schema, sub)
    ensures sub < schema
  {
  }

  // ---- The chain ------------------------------------------------------------------------------------

  // Whatever has room for an entry of the chain has room for `schema`: it lies behind all of them.
  ghost predicate BehindChain(root: Node, chain: Chain, schema: JsonValue) {
    forall c, refs: nat, room :: c in chain && Fits(root, refs, c.value, room) ==> Fits(root, refs, schema, room)
  }

  lemma SubIsBehind(root: Node, chain: Chain, schema: JsonValue, sub: JsonValue)
    requires BehindChain(root, chain, schema) && schema.JObject? && IsSub(schema, sub)
    ensures BehindChain(root, chain, sub)
  {
    hide IsSub, IsTarget;
    forall c, refs: nat, room | c in chain && Fits(root, refs, c.value, room) ensures Fits(root, refs, sub, room) {
      assert Fits(root, refs, schema, room) && Fits(root, refs, sub, room - 1);
      FitsMore(root, refs, refs, sub, room - 1, room);
    }
  }

  lemma TargetIsBehind(root: Node, chain: Chain, schema: JsonValue, target: Node)
    requires BehindChain(root, chain, schema) && schema.JObject? && IsTarget(root, schema, target)
    ensures BehindChain(root, chain + [target], target.value)
  {
    hide IsSub, IsTarget;
    forall c, refs: nat, room | c in chain + [target] && Fits(root, refs, c.value, room)
      ensures Fits(root, refs, target.value, room)
    {
      if c in chain {
        assert Fits(root, refs, schema, room);
        FitsMore(root, refs - 1, refs, target.value, room - 1, room);
      }
    }
  }

  // A target in the chain would need less room than it needs.
  lemma {:induction false} TargetIsNew(root: Node, refs: nat, chain: Chain, schema: JsonValue, target: Node, room: int)
    requires BehindChain(root, chain, schema) && schema.JObject? && IsTarget(root, schema, target)
    requires Fits(root, refs, schema, room)
    ensures target !in chain
    decreases refs
  {
    hide IsSub, IsTarget;
    if target in chain {
      assert Fits(root, refs - 1, target.value, room - 1);
      TargetIsNew(root, refs - 1, chain, schema, target, room - 1);
    }
  }

  // ---- Verdicts of lists --------------------------------------------------------------------------

  ghost predicate PairHolds(doc: Document, p: Pair) {
    Holds(doc, p.instance, p.schema.value)
  }

  // Schemas that fit one level below `depth`, behind the chain.
  ghost predicate FitsBelow(doc: Document, schema: JsonValue, depth: nat, chain: Chain) {
    Fits(doc.root, doc.refs, schema, MAX_SCHEMA_DEPTH - (depth + 1)) && BehindChain(doc.root, chain, schema)
  }

  ghost predicate PairsFit(doc: Document, pairs: seq<Pair>, depth: nat, chain: Chain) {
    forall p :: p in pairs ==> FitsBelow(doc, p.schema.value, depth, chain)
  }

  lemma PairMeans(doc: Document, p: Pair, depth: nat, chain: Chain)
    requires depth <= MAX_SCHEMA_DEPTH && FitsBelow(doc, p.schema.value, depth, chain)
    ensures EvalPair(doc.lib, doc.root, p, depth, chain) == Of(PairHolds(doc, p))
    decreases MAX_SCHEMA_DEPTH + 1 - depth, 0, 0
  {
    hide Eval, Fits, Holds, BehindChain;
    EvalMeans(doc, p.instance, p.schema, depth + 1, chain);
  }

  lemma {:induction false} AllMeans(doc: Document, pairs: seq<Pair>, depth: nat, chain: Chain)
    requires depth <= MAX_SCHEMA_DEPTH && PairsFit(doc, pairs, depth, chain)
    ensures EvalAll(doc.lib, doc.root, pairs, depth, chain) == Of(forall p :: p in pairs ==> PairHolds(doc, p))
    decreases MAX_SCHEMA_DEPTH + 1 - depth, 0, |pairs| + 1
  {
    hide EvalPair, PairHolds, FitsBelow;
    if pairs != [] {
      assert pairs[0] in pairs && forall p :: p in pairs[1..] ==> p in pairs;
      PairMeans(doc, pairs[0], depth, chain);
      AllMeans(doc, pairs[1..], depth, chain);
      assert forall p :: p in pairs ==> p == pairs[0] || p in pairs[1..];
    }
  }

  lemma {:induction false} AnyMeans(doc: Document, pairs: seq<Pair>, depth: nat, chain: Chain)
    requires depth <= MAX_SCHEMA_DEPTH && PairsFit(doc, pairs, depth, chain)
    ensures EvalAny(doc.lib, doc.root, pairs, depth, chain) == Of(exists p :: p in pairs && PairHolds(doc, p))
    decreases MAX_SCHEMA_DEPTH + 1 - depth, 0, |pairs| + 1
  {
    hide EvalPair, PairHolds, FitsBelow;
    if pairs != [] {
      assert pairs[0] in pairs && forall p :: p in pairs[1..] ==> p in pairs;
      PairMeans(doc, pairs[0], depth, chain);
      AnyMeans(doc, pairs[1..], depth, chain);
      assert forall p :: p in pairs ==> p == pairs[0] || p in pairs[1..];
    }
  }

  // Which of the first `n` pairs hold.
  ghost function HoldingBelow(doc: Document, pairs: seq<Pair>, n: nat): set<nat> {
    set i: nat | i < n && i < |pairs| && PairHolds(doc, pairs[i])
  }

  ghost function Holding(doc: Document, pairs: seq<Pair>): set<nat> {
    HoldingBelow(doc, pairs, |pairs|)
  }

  lemma HoldingNext(doc: Document, pairs: seq<Pair>, n: nat)
    requires n < |pairs|
    ensures |HoldingBelow(doc, pairs, n + 1)| ==
            |HoldingBelow(doc, pairs, n)| + if PairHolds(doc, pairs[n]) then 1 else 0
  {
    hide PairHolds;
    assert HoldingBelow(doc, pairs, n + 1) ==
           HoldingBelow(doc, pairs, n) + if PairHolds(doc, pairs[n]) then {n} else {};
  }

  lemma {:induction false} CountMeans(doc: Document, pairs: seq<Pair>, n: nat, least: nat, most: nat,
                                      depth: nat, chain: Chain)
    requires depth <= MAX_SCHEMA_DEPTH && PairsFit(doc, pairs, depth, chain) && n <= |pairs|
    ensures EvalCount(doc.lib, doc.root, pairs[n..], |HoldingBelow(doc, pairs, n)|, least, most, depth, chain) ==
            Of(least <= |Holding(doc, pairs)| <= most)
    decreases MAX_SCHEMA_DEPTH + 1 - depth, 0, |pairs| - n + 1
  {
    hide EvalPair, PairHolds, FitsBelow, HoldingBelow;
    if n < |pairs| {
      assert pairs[n..][0] == pairs[n] && pairs[n..][1..] == pairs[n + 1..] && pairs[n] in pairs;
      PairMeans(doc, pairs[n], depth, chain);
      HoldingNext(doc, pairs, n);
      CountMeans(doc, pairs, n + 1, least, most, depth, chain);
    }
  }

  // What one task means.
  ghost predicate TaskHolds(doc: Document, task: Task) {
    match task
    case Local(ok) => ok
    case Follow(v, target) => doc.refs > 0 && Holds(Behind(doc), v, target.value)
    case AllOf(pairs) => forall p :: p in pairs ==> PairHolds(doc, p)
    case AnyOf(pairs) => exists p :: p in pairs && PairHolds(doc, p)
    case Counted(pairs, least, most) => least <= |Holding(doc, pairs)| <= most
    case Not(pair) => !PairHolds(doc, pair)
    case Branch(condition, yes, no) =>
      if PairHolds(doc, condition) then yes.Some? ==> PairHolds(doc, yes.value)
      else no.Some? ==> PairHolds(doc, no.value)
  }

  ghost predicate TaskFits(doc: Document, task: Task, depth: nat, chain: Chain) {
    match task
    case Local(_) => true
    case Follow(_, target) =>
      && target !in chain && doc.refs > 0
      && FitsBelow(Behind(doc), target.value, depth, chain + [target])
    case AllOf(pairs) => PairsFit(doc, pairs, depth, chain)
    case AnyOf(pairs) => PairsFit(doc, pairs, depth, chain)
    case Counted(pairs, _, _) => PairsFit(doc, pairs, depth, chain)
    case Not(pair) => PairsFit(doc, [pair], depth, chain)
    case Branch(condition, yes, no) =>
      && PairsFit(doc, [condition], depth, chain) && PairsFit(doc, ToSeq(yes), depth, chain)
      && PairsFit(doc, ToSeq(no), depth, chain)
  }

  lemma TaskMeans(doc: Document, task: Task, depth: nat, chain: Chain)
    requires depth <= MAX_SCHEMA_DEPTH && TaskFits(doc, task, depth, chain)
    ensures EvalTask(doc.lib, doc.root, task, depth, chain) == Of(TaskHolds(doc, task))
    decreases MAX_SCHEMA_DEPTH + 1 - depth, 1, 0
  {
    hide EvalPair, PairHolds, FitsBelow, Holding, EvalAll, EvalAny, EvalCount, Eval, Holds;
    match task {
      case Local(_) =>
      case Follow(v, target) => TargetMeans(doc, v, target, depth, chain);
      case AllOf(pairs) => AllMeans(doc, pairs, depth, chain);
      case AnyOf(pairs) => AnyMeans(doc, pairs, depth, chain);
      case Counted(pairs, least, most) =>
        NoneBelow(doc, pairs);
        CountMeans(doc, pairs, 0, least, most, depth, chain);
      case Not(pair) =>
        assert pair in [pair];
        PairMeans(doc, pair, depth, chain);
      case Branch(condition, yes, no) =>
        assert condition in [condition] && (yes.Some? ==> yes.value in ToSeq(yes))
               && (no.Some? ==> no.value in ToSeq(no));
        PairMeans(doc, condition, depth, chain);
        if yes.Some? { PairMeans(doc, yes.value, depth, chain); }
        if no.Some? { PairMeans(doc, no.value, depth, chain); }
    }
  }

  lemma TargetMeans(doc: Document, v: JsonValue, target: Node, depth: nat, chain: Chain)
    requires depth <= MAX_SCHEMA_DEPTH && doc.refs > 0 && FitsBelow(Behind(doc), target.value, depth, chain + [target])
    ensures Eval(doc.lib, doc.root, v, target, depth + 1, chain + [target]) == Of(Holds(Behind(doc), v, target.value))
    decreases MAX_SCHEMA_DEPTH + 1 - depth, 0, 0
  {
    hide Eval, Fits, Holds, BehindChain;
    EvalMeans(Behind(doc), v, target, depth + 1, chain + [target]);
  }

  lemma NoneBelow(doc: Document, pairs: seq<Pair>)
    ensures |HoldingBelow(doc, pairs, 0)| == 0 && pairs[0..] == pairs
  {
    assert HoldingBelow(doc, pairs, 0) == {};
  }

  ghost predicate TasksFit(doc: Document, tasks: seq<Task>, depth: nat, chain: Chain) {
    forall t :: t in tasks ==> TaskFits(doc, t, depth, chain)
  }

  ghost predicate TasksHold(doc: Document, tasks: seq<Task>) {
    forall t :: t in tasks ==> TaskHolds(doc, t)
  }

  lemma {:induction false} TasksMean(doc: Document, tasks: seq<Task>, depth: nat, chain: Chain)
    requires depth <= MAX_SCHEMA_DEPTH && TasksFit(doc, tasks, depth, chain)
    ensures EvalTasks(doc.lib, doc.root, tasks, depth, chain) == Of(TasksHold(doc, tasks))
    decreases MAX_SCHEMA_DEPTH + 1 - depth, 2, |tasks|
  {
    hide EvalTask, TaskHolds, TaskFits;
    if tasks != [] {
      assert tasks[0] in tasks && forall t :: t in tasks[1..] ==> t in tasks;
      TaskMeans(doc, tasks[0], depth, chain);
      TasksMean(doc, tasks[1..], depth, chain);
      assert forall t :: t in tasks ==> t == tasks[0] || t in tasks[1..];
    }
  }

  // ---- The plan of a schema object, keyword by keyword ----------------------------------------------

  // All subschemas the tasks ask about belong to `schema`.
  ghost predicate PairsUnder(pairs: seq<Pair>, schema: JsonValue) {
    forall p :: p in pairs ==> IsSub(schema, p.schema.value)
  }

  ghost predicate TaskUnder(root: Node, task: Task, schema: JsonValue) {
    match task
    case Local(_) => true
    case Follow(_, target) => IsTarget(root, schema, target)
    case AllOf(pairs) => PairsUnder(pairs, schema)
    case AnyOf(pairs) => PairsUnder(pairs, schema)
    case Counted(pairs, _, _) => PairsUnder(pairs, schema)
    case Not(pair) => PairsUnder([pair], schema)
    case Branch(condition, yes, no) =>
      PairsUnder([condition], schema) && PairsUnder(ToSeq(yes), schema) && PairsUnder(ToSeq(no), schema)
  }

  ghost predicate TasksUnder(root: Node, tasks: seq<Task>, schema: JsonValue) {
    forall t :: t in tasks ==> TaskUnder(root, t, schema)
  }

  // So they fit in one level further down.
  lemma UnderFits(doc: Document, tasks: seq<Task>, schema: JsonValue, depth: nat, chain: Chain)
    requires schema.JObject? && Fits(doc.root, doc.refs, schema, MAX_SCHEMA_DEPTH - depth)
    requires BehindChain(doc.root, chain, schema) && TasksUnder(doc.root, tasks, schema)
    ensures TasksFit(doc, tasks, depth, chain)
  {
    hide IsSub, IsTarget, BehindChain;
    forall sub | IsSub(schema, sub) ensures FitsBelow(doc, sub, depth, chain) {
      SubIsBehind(doc.root, chain, schema, sub);
    }
    forall target | IsTarget(doc.root, schema, target)
      ensures target !in chain && doc.refs > 0 && FitsBelow(Behind(doc), target.value, depth, chain + [target])
    {
      TargetIsBehind(doc.root, chain, schema, target);
      TargetIsNew(doc.root, doc.refs, chain, schema, target, MAX_SCHEMA_DEPTH - depth);
    }
    hide Fits, FitsBelow;
    assert forall pairs :: PairsUnder(pairs, schema) ==> PairsFit(doc, pairs, depth, chain);
    hide PairsUnder, PairsFit;
  }

  lemma KeywordKinds()
    ensures Key("allOf") in LISTS && Key("anyOf") in LISTS && Key("oneOf") in LISTS
    ensures Key("prefixItems") in LISTS && Key("items") in LISTS
    ensures Key("properties") in MAPS && Key("patternProperties") in MAPS
    ensures Key("dependentSchemas") in MAPS && Key("dependencies") in MAPS
    ensures Key("not") in SINGLES && Key("if") in SINGLES && Key("then") in SINGLES && Key("else") in SINGLES
    ensures Key("additionalProperties") in SINGLES && Key("propertyNames") in SINGLES && Key("items") in SINGLES
    ensures Key("additionalItems") in SINGLES && Key("contains") in SINGLES
    ensures Key("$ref") in REFS && Key("$dynamicRef") in REFS && Key("$recursiveRef") in REFS
  {
    hide Key;
  }

  // Tasks about subschemas of `schema` that hold exactly if `ok`.
  ghost predicate Says(doc: Document, tasks: seq<Task>, schema: JsonValue, ok: bool) {
    TasksUnder(doc.root, tasks, schema) && (TasksHold(doc, tasks) <==> ok)
  }

  lemma SaysBoth(doc: Document, a: seq<Task>, b: seq<Task>, schema: JsonValue, ok: bool, also: bool)
    requires Says(doc, a, schema, ok) && Says(doc, b, schema, also)
    ensures Says(doc, a + b, schema, ok && also)
  {
    hide TaskHolds, TaskUnder;
    assert forall t :: t in a + b <==> t in a || t in b;
  }

  lemma SaysNothing(doc: Document, schema: JsonValue)
    ensures Says(doc, [], schema, true)
  {
  }

  lemma SaysOne(doc: Document, task: Task, schema: JsonValue, ok: bool)
    requires TaskUnder(doc.root, task, schema) && (TaskHolds(doc, task) <==> ok)
    ensures Says(doc, [task], schema, ok)
  {
    hide TaskHolds, TaskUnder;
    assert forall t :: t in [task] <==> t == task;
  }

  lemma SubOfList(schema: JsonValue, key: bytes)
    requires key in LISTS
    ensures forall x :: InList(schema, key, x) ==> IsSub(schema, x)
  {
  }

  lemma SubOfMap(schema: JsonValue, key: bytes)
    requires key in MAPS
    ensures forall x :: InMap(schema, key, x) ==> IsSub(schema, x)
  {
  }

  lemma SubOfSingle(schema: JsonValue, key: bytes)
    requires key in SINGLES
    ensures var s := Lookup(schema, key); s.Some? ==> IsSub(schema, s.value)
  {
  }

  // allOf, anyOf, oneOf: the pairs are the items, each against the same instance.
  lemma ListPairsMean(lib: SchemaLib, v: JsonValue, n: Node, key: bytes)
    requires n.value.JObject? && key in LISTS
    requires Child(n, key).Some? && Child(n, key).value.value.JArray?
    ensures var pairs, items := ListPairs(v, Child(n, key).value), Lookup(n.value, key).value.items;
            && PairsUnder(pairs, n.value) && |pairs| == |items|
            && (forall i :: 0 <= i < |items| ==> pairs[i].instance == v && pairs[i].schema.value == items[i])
  {
    SubOfList(n.value, key);
    hide IsSub, Key, LISTS;
    var pairs, items := ListPairs(v, Child(n, key).value), Lookup(n.value, key).value.items;
    assert forall i :: 0 <= i < |items| ==> items[i] in items && pairs[i].schema.value == items[i];
    assert forall i :: 0 <= i < |items| ==> InList(n.value, key, items[i]);
  }

  lemma PairsAgainst(doc: Document, v: JsonValue, pairs: seq<Pair>, items: seq<JsonValue>)
    requires |pairs| == |items| && forall i :: 0 <= i < |items| ==>
             pairs[i].instance == v && pairs[i].schema.value == items[i]
    ensures (forall p :: p in pairs ==> PairHolds(doc, p)) <==> (forall x :: x in items ==> Holds(doc, v, x))
    ensures (exists p :: p in pairs && PairHolds(doc, p)) <==> (exists x :: x in items && Holds(doc, v, x))
    ensures Holding(doc, pairs) == SchemasHolding(doc, v, items)
  {
    hide Holds;
    assert forall i :: 0 <= i < |items| ==> (PairHolds(doc, pairs[i]) <==> Holds(doc, v, items[i]));
    hide PairHolds;
    assert forall i :: 0 <= i < |items| ==> pairs[i] in pairs && items[i] in items;
  }

  lemma AllOfSays(doc: Document, v: JsonValue, n: Node)
    requires n.value.JObject?
    ensures Says(doc, ListTask(v, n, Key("allOf"), AllTask), n.value, AllOfHolds(doc, v, n.value))
  {
    var key := Key("allOf");
    KeywordKinds();
    hide Key, LISTS, IsSub, Holds, PairHolds, Says, PairsUnder, ListPairs;
    SaysNothing(doc, n.value);
    if Child(n, key).Some? && Child(n, key).value.value.JArray? {
      ListPairsMean(doc.lib, v, n, key);
      var pairs := ListPairs(v, Child(n, key).value);
      PairsAgainst(doc, v, pairs, Lookup(n.value, key).value.items);
      SaysOne(doc, AllOf(pairs), n.value, forall p :: p in pairs ==> PairHolds(doc, p));
    }
  }

  lemma AnyOfSays(doc: Document, v: JsonValue, n: Node)
    requires n.value.JObject?
    ensures Says(doc, ListTask(v, n, Key("anyOf"), AnyTask), n.value, AnyOfHolds(doc, v, n.value))
  {
    var key := Key("anyOf");
    KeywordKinds();
    hide Key, LISTS, IsSub, Holds, PairHolds, Says, PairsUnder, ListPairs;
    SaysNothing(doc, n.value);
    if Child(n, key).Some? && Child(n, key).value.value.JArray? {
      ListPairsMean(doc.lib, v, n, key);
      var pairs := ListPairs(v, Child(n, key).value);
      PairsAgainst(doc, v, pairs, Lookup(n.value, key).value.items);
      SaysOne(doc, AnyOf(pairs), n.value, exists p :: p in pairs && PairHolds(doc, p));
    }
  }

  lemma OneOfSays(doc: Document, v: JsonValue, n: Node)
    requires n.value.JObject?
    ensures Says(doc, ListTask(v, n, Key("oneOf"), OneTask), n.value, OneOfHolds(doc, v, n.value))
  {
    var key := Key("oneOf");
    KeywordKinds();
    hide Key, LISTS, IsSub, PairHolds, Says, PairsUnder, ListPairs, Holding, CoreOk, LogicHolds, ObjectHolds,
         ArrayHolds, StringOk, NumberOk;
    SaysNothing(doc, n.value);
    if Child(n, key).Some? && Child(n, key).value.value.JArray? {
      ListPairsMean(doc.lib, v, n, key);
      var pairs, items := ListPairs(v, Child(n, key).value), Lookup(n.value, key).value.items;
      PairsAgainst(doc, v, pairs, items);
      SaysOne(doc, OneTask(pairs), n.value, OneOfHolds(doc, v, n.value));
      assert ListTask(v, n, key, OneTask) == [OneTask(pairs)];
    }
  }

  lemma NotSays(doc: Document, v: JsonValue, n: Node)
    requires n.value.JObject?
    ensures Says(doc, NotTasks(v, n), n.value, NotHolds(doc, v, n.value))
  {
    var key := Key("not");
    KeywordKinds();
    hide Key, SINGLES, IsSub, Holds, Says;
    SaysNothing(doc, n.value);
    SubOfSingle(n.value, key);
    if Child(n, key).Some? {
      var pair := Pair(v, Child(n, key).value);
      SaysOne(doc, Not(pair), n.value, !PairHolds(doc, pair));
    }
  }

  lemma OneUnder(p: Option<Pair>, schema: JsonValue)
    requires p.Some? ==> IsSub(schema, p.value.schema.value)
    ensures PairsUnder(ToSeq(p), schema) && (p.Some? ==> PairsUnder([p.value], schema))
  {
    hide IsSub;
  }

  lemma IfSays(doc: Document, v: JsonValue, n: Node)
    requires n.value.JObject?
    ensures Says(doc, IfTasks(v, n), n.value, IfHolds(doc, v, n.value))
  {
    var key, yesKey, noKey := Key("if"), Key("then"), Key("else");
    KeywordKinds();
    hide Key, SINGLES, IsSub, Holds, Says;
    SaysNothing(doc, n.value);
    SubOfSingle(n.value, key);
    SubOfSingle(n.value, yesKey);
    SubOfSingle(n.value, noKey);
    if Child(n, key).Some? {
      var yes, no := WithInstance(v, Child(n, yesKey)), WithInstance(v, Child(n, noKey));
      var task := Branch(Pair(v, Child(n, key).value), yes, no);
      OneUnder(Some(task.condition), n.value);
      OneUnder(yes, n.value);
      OneUnder(no, n.value);
      SaysOne(doc, task, n.value, TaskHolds(doc, task));
    }
  }

  lemma LogicSays(doc: Document, v: JsonValue, n: Node)
    requires n.value.JObject?
    ensures Says(doc, LogicTasks(v, n), n.value, LogicHolds(doc, v, n.value))
  {
    hide Key, IsSub, Says, ListTask, NotTasks, IfTasks, AllOfHolds, AnyOfHolds, OneOfHolds, NotHolds, IfHolds, AllTask,
         AnyTask, OneTask;
    var schema := n.value;
    var t1, t2, t3 := ListTask(v, n, Key("allOf"), AllTask), ListTask(v, n, Key("anyOf"), AnyTask),
      ListTask(v, n, Key("oneOf"), OneTask);
    var ok1, ok2, ok3, ok4 := AllOfHolds(doc, v, schema), AnyOfHolds(doc, v, schema), OneOfHolds(doc, v, schema),
      NotHolds(doc, v, schema);
    AllOfSays(doc, v, n);
    AnyOfSays(doc, v, n);
    OneOfSays(doc, v, n);
    NotSays(doc, v, n);
    IfSays(doc, v, n);
    SaysBoth(doc, t1, t2, n.value, ok1, ok2);
    SaysBoth(doc, t1 + t2, t3, n.value, ok1 && ok2, ok3);
    SaysBoth(doc, t1 + t2 + t3, NotTasks(v, n), n.value, ok1 && ok2 && ok3, ok4);
    SaysBoth(doc, t1 + t2 + t3 + NotTasks(v, n), IfTasks(v, n), n.value, ok1 && ok2 && ok3 && ok4,
             IfHolds(doc, v, schema));
  }

  // ---- Objects --------------------------------------------------------------------------------------

  lemma AllSays(doc: Document, pairs: seq<Pair>, schema: JsonValue, ok: bool)
    requires PairsUnder(pairs, schema) && ((forall p :: p in pairs ==> PairHolds(doc, p)) <==> ok)
    ensures Says(doc, [AllOf(pairs)], schema, ok)
  {
    hide PairsUnder, PairHolds;
    SaysOne(doc, AllOf(pairs), schema, ok);
  }

  lemma PairOfMember(doc: Document, n: Node, i: nat, pair: Pair)
    requires n.value.JObject? && i < |n.value.members| && pair.schema == MemberNodes(n)[i]
    ensures pair.schema.value == n.value.members[i].value
    ensures PairHolds(doc, pair) == Holds(doc, pair.instance, n.value.members[i].value)
  {
    hide Holds;
  }

  lemma {:induction false} PropertyPairsMean(doc: Document, v: JsonValue, props: Node, i: nat)
    requires props.value.JObject? && i <= |props.value.members|
    ensures (forall p :: p in PropertyPairs(v, props, i) ==> PairHolds(doc, p)) <==>
            (forall k :: i <= k < |props.value.members| && Lookup(v, props.value.members[k].key).Some? ==>
               Holds(doc, Lookup(v, props.value.members[k].key).value, props.value.members[k].value))
    ensures forall p :: p in PropertyPairs(v, props, i) ==>
            exists k :: i <= k < |props.value.members| && p.schema.value == props.value.members[k].value
    decreases |props.value.members| - i
  {
    hide Holds, Lookup;
    if i < |props.value.members| {
      var value := Lookup(v, props.value.members[i].key);
      var pair := Pair(if value.Some? then value.value else v, MemberNodes(props)[i]);
      assert PropertyPairs(v, props, i) == (if value.Some? then [pair] else []) + PropertyPairs(v, props, i + 1);
      PropertyPairsMean(doc, v, props, i + 1);
      PairOfMember(doc, props, i, pair);
      hide PairHolds, PropertyPairs, MemberNodes;
      assert forall p :: p in PropertyPairs(v, props, i) <==>
             (value.Some? && p == pair) || p in PropertyPairs(v, props, i + 1);
    }
  }

  lemma SubsOfMembers(schema: JsonValue, key: bytes)
    requires key in MAPS && Lookup(schema, key).Some? && Lookup(schema, key).value.JObject?
    ensures var ms := Lookup(schema, key).value.members;
            forall k :: 0 <= k < |ms| ==> IsSub(schema, ms[k].value)
  {
    SubOfMap(schema, key);
    hide IsSub, MAPS;
    var ms := Lookup(schema, key).value.members;
    forall k | 0 <= k < |ms| ensures IsSub(schema, ms[k].value) {
      assert ms[k] in ms && InMap(schema, key, ms[k].value);
    }
  }

  lemma PropertiesSay(doc: Document, v: JsonValue, n: Node)
    requires n.value.JObject? && v.JObject?
    ensures Says(doc, PropertiesTasks(v, n), n.value, PropertiesHold(doc, v, n.value))
  {
    var key := Key("properties");
    KeywordKinds();
    hide Key, MAPS, IsSub, Holds, PairHolds, Says, Lookup;
    SaysNothing(doc, n.value);
    var p := ObjectKeyword(n, key);
    if p.Some? {
      SubsOfMembers(n.value, key);
      PropertyPairsMean(doc, v, p.value, 0);
      var ms := p.value.value.members;
      assert forall k :: 0 <= k < |ms| ==> ms[k] in ms;
      hide PropertyPairs;
      AllSays(doc, PropertyPairs(v, p.value, 0), n.value,
              forall p :: p in ms && Lookup(v, p.key).Some? ==> Holds(doc, Lookup(v, p.key).value, p.value));
    }
  }

  lemma MemberPairsMean(doc: Document, members: seq<Member>, schema: Node)
    ensures (forall p :: p in MemberPairs(members, schema) ==> PairHolds(doc, p)) <==>
            (forall m :: m in members ==> Holds(doc, m.value, schema.value))
    ensures forall p :: p in MemberPairs(members, schema) ==> p.schema == schema
  {
    hide Holds;
    var pairs := MemberPairs(members, schema);
    assert forall i :: 0 <= i < |members| ==> pairs[i] in pairs && members[i] in members;
    assert forall i :: 0 <= i < |members| ==>
           (PairHolds(doc, pairs[i]) <==> Holds(doc, members[i].value, schema.value));
    hide PairHolds;
  }

  lemma {:induction false} MatchingIs(lib: SchemaLib, pattern: bytes, members: seq<Member>)
    ensures forall m :: m in Matching(lib, pattern, members) <==> m in members && Matches(lib, pattern, m.key)
  {
    hide Matches;
    if members != [] {
      MatchingIs(lib, pattern, members[1..]);
      assert forall m :: m in members <==> m == members[0] || m in members[1..];
    }
  }

  lemma {:induction false} UncoveredIs(lib: SchemaLib, schema: JsonValue, members: seq<Member>)
    ensures forall m :: m in Uncovered(lib, schema, members) <==> m in members && !IsCovered(lib, schema, m.key)
  {
    hide IsCovered;
    if members != [] {
      UncoveredIs(lib, schema, members[1..]);
      assert forall m :: m in members <==> m == members[0] || m in members[1..];
    }
  }

  lemma {:induction false} PatternPairsMean(doc: Document, v: JsonValue, patterns: Node, i: nat)
    requires v.JObject? && patterns.value.JObject? && i <= |patterns.value.members|
    ensures (forall p :: p in PatternPairs(doc.lib, v, patterns, i) ==> PairHolds(doc, p)) <==>
            (forall k, m ::
               && i <= k < |patterns.value.members| && m in v.members
               && Matches(doc.lib, patterns.value.members[k].key, m.key) ==>
               Holds(doc, m.value, patterns.value.members[k].value))
    ensures forall p :: p in PatternPairs(doc.lib, v, patterns, i) ==>
              exists k :: i <= k < |patterns.value.members| && p.schema.value == patterns.value.members[k].value
    decreases |patterns.value.members| - i
  {
    hide Holds, Matches, PairHolds;
    if i < |patterns.value.members| {
      var pattern, schema := patterns.value.members[i].key, MemberNodes(patterns)[i];
      var matching := Matching(doc.lib, pattern, v.members);
      MatchingIs(doc.lib, pattern, v.members);
      MemberPairsMean(doc, matching, schema);
      PatternPairsMean(doc, v, patterns, i + 1);
      var here, later := MemberPairs(matching, schema), PatternPairs(doc.lib, v, patterns, i + 1);
      assert PatternPairs(doc.lib, v, patterns, i) == here + later;
      assert schema.value == patterns.value.members[i].value;
      hide Matching, PatternPairs, MemberNodes, MemberPairs;
      assert forall p :: p in here + later <==> p in here || p in later;
    }
  }

  lemma PatternsSay(doc: Document, v: JsonValue, n: Node)
    requires n.value.JObject? && v.JObject?
    ensures Says(doc, PatternsTasks(doc.lib, v, n), n.value, PatternsHold(doc, v, n.value))
  {
    var key := Key("patternProperties");
    KeywordKinds();
    hide Key, MAPS, IsSub, Holds, PairHolds, Says, Lookup, Matches;
    SaysNothing(doc, n.value);
    var p := ObjectKeyword(n, key);
    if p.Some? {
      SubsOfMembers(n.value, key);
      PatternPairsMean(doc, v, p.value, 0);
      var ms := p.value.value.members;
      assert forall k :: 0 <= k < |ms| ==> ms[k] in ms;
      hide PatternPairs;
      AllSays(doc, PatternPairs(doc.lib, v, p.value, 0), n.value,
              forall p, m :: p in ms && m in v.members && Matches(doc.lib, p.key, m.key) ==>
                Holds(doc, m.value, p.value));
    }
  }

  lemma AdditionalSays(doc: Document, v: JsonValue, n: Node)
    requires n.value.JObject? && v.JObject?
    ensures Says(doc, AdditionalTasks(doc.lib, v, n), n.value, AdditionalHolds(doc, v, n.value))
  {
    var key := Key("additionalProperties");
    KeywordKinds();
    hide Key, SINGLES, IsSub, Holds, PairHolds, Says, IsCovered, Lookup;
    SaysNothing(doc, n.value);
    SubOfSingle(n.value, key);
    if Child(n, key).Some? {
      var schema := Child(n, key).value;
      var members := Uncovered(doc.lib, n.value, v.members);
      UncoveredIs(doc.lib, n.value, v.members);
      MemberPairsMean(doc, members, schema);
      hide MemberPairs, Uncovered;
      AllSays(doc, MemberPairs(members, schema), n.value,
              forall m :: m in v.members && !IsCovered(doc.lib, n.value, m.key) ==> Holds(doc, m.value, schema.value));
    }
  }

  lemma NamesSay(doc: Document, v: JsonValue, n: Node)
    requires n.value.JObject? && v.JObject?
    ensures Says(doc, NamesTasks(v, n), n.value, NamesHold(doc, v, n.value))
  {
    var key := Key("propertyNames");
    KeywordKinds();
    hide Key, SINGLES, IsSub, Holds, Says, Lookup;
    SaysNothing(doc, n.value);
    SubOfSingle(n.value, key);
    if Child(n, key).Some? {
      var schema := Child(n, key).value;
      var pairs := NamePairs(v.members, schema);
      assert forall i :: 0 <= i < |pairs| ==> pairs[i] in pairs && v.members[i] in v.members;
      assert forall i :: 0 <= i < |pairs| ==>
             (PairHolds(doc, pairs[i]) <==> Holds(doc, JString(v.members[i].key), schema.value));
      hide PairHolds;
      AllSays(doc, pairs, n.value, forall m :: m in v.members ==> Holds(doc, JString(m.key), schema.value));
    }
  }

  lemma {:induction false} DependentPairsMean(doc: Document, v: JsonValue, deps: Node, i: nat)
    requires deps.value.JObject? && i <= |deps.value.members|
    ensures (forall p :: p in DependentPairs(v, deps, i) ==> PairHolds(doc, p)) <==>
            (forall k :: i <= k < |deps.value.members| && Lookup(v, deps.value.members[k].key).Some? ==>
               Holds(doc, v, deps.value.members[k].value))
    ensures forall p :: p in DependentPairs(v, deps, i) ==>
            exists k :: i <= k < |deps.value.members| && p.schema.value == deps.value.members[k].value
    decreases |deps.value.members| - i
  {
    hide Holds, Lookup;
    if i < |deps.value.members| {
      var there := Lookup(v, deps.value.members[i].key).Some?;
      var pair := Pair(v, MemberNodes(deps)[i]);
      assert DependentPairs(v, deps, i) == (if there then [pair] else []) + DependentPairs(v, deps, i + 1);
      DependentPairsMean(doc, v, deps, i + 1);
      PairOfMember(doc, deps, i, pair);
      hide PairHolds, DependentPairs, MemberNodes;
      assert forall p :: p in DependentPairs(v, deps, i) <==>
             (there && p == pair) || p in DependentPairs(v, deps, i + 1);
    }
  }

  lemma DependentSay(doc: Document, v: JsonValue, n: Node)
    requires n.value.JObject? && v.JObject?
    ensures Says(doc, DependentTasks(v, n), n.value, DependentHold(doc, v, n.value))
  {
    var key := Key("dependentSchemas");
    KeywordKinds();
    hide Key, MAPS, IsSub, Holds, PairHolds, Says, Lookup;
    SaysNothing(doc, n.value);
    var p := ObjectKeyword(n, key);
    if p.Some? {
      SubsOfMembers(n.value, key);
      DependentPairsMean(doc, v, p.value, 0);
      var ms := p.value.value.members;
      assert forall k :: 0 <= k < |ms| ==> ms[k] in ms;
      hide DependentPairs;
      AllSays(doc, DependentPairs(v, p.value, 0), n.value,
              forall d :: d in ms && Lookup(v, d.key).Some? ==> Holds(doc, v, d.value));
    }
  }

  ghost predicate DependencyHolds(doc: Document, v: JsonValue, d: Member) {
    Lookup(v, d.key).Some? ==> if d.value.JArray? then HasAll(v, d.value) else Holds(doc, v, d.value)
  }

  lemma OnePairSays(doc: Document, v: JsonValue, node: Node, schema: JsonValue)
    requires IsSub(schema, node.value)
    ensures Says(doc, [AllOf([Pair(v, node)])], schema, Holds(doc, v, node.value))
  {
    hide Holds, IsSub, Says;
    var pairs := [Pair(v, node)];
    assert forall p :: p in pairs <==> p == pairs[0];
    AllSays(doc, pairs, schema, Holds(doc, v, node.value));
  }

  lemma {:induction false} DependencyTasksSay(doc: Document, v: JsonValue, deps: Node, i: nat, schema: JsonValue)
    requires deps.value.JObject? && i <= |deps.value.members|
    requires forall k :: 0 <= k < |deps.value.members| ==> IsSub(schema, deps.value.members[k].value)
    ensures Says(doc, DependencyTasks(v, deps, i), schema,
                 forall k :: i <= k < |deps.value.members| ==> DependencyHolds(doc, v, deps.value.members[k]))
    decreases |deps.value.members| - i
  {
    hide Holds, IsSub, Says, HasAll, Lookup;
    SaysNothing(doc, schema);
    if i < |deps.value.members| {
      var m, node := deps.value.members[i], MemberNodes(deps)[i];
      var here := if Lookup(v, m.key).None? then [] else if m.value.JArray? then [Local(HasAll(v, m.value))]
        else [AllOf([Pair(v, node)])];
      if Lookup(v, m.key).Some? {
        if m.value.JArray? {
          SaysOne(doc, Local(HasAll(v, m.value)), schema, HasAll(v, m.value));
        } else {
          OnePairSays(doc, v, node, schema);
        }
      }
      assert Says(doc, here, schema, DependencyHolds(doc, v, m));
      DependencyTasksSay(doc, v, deps, i + 1, schema);
      hide DependencyHolds;
      SaysBoth(doc, here, DependencyTasks(v, deps, i + 1), schema, DependencyHolds(doc, v, m),
               forall k :: i + 1 <= k < |deps.value.members| ==> DependencyHolds(doc, v, deps.value.members[k]));
    }
  }

  lemma DependenciesSay(doc: Document, v: JsonValue, n: Node)
    requires n.value.JObject? && v.JObject?
    ensures Says(doc, DependenciesTasks(v, n), n.value, DependenciesHold(doc, v, n.value))
  {
    var key := Key("dependencies");
    KeywordKinds();
    hide Key, MAPS, IsSub, Holds, Says, Lookup, HasAll;
    SaysNothing(doc, n.value);
    var p := ObjectKeyword(n, key);
    if p.Some? {
      SubsOfMembers(n.value, key);
      hide DependencyTasks;
      DependencyTasksSay(doc, v, p.value, 0, n.value);
      var ms := p.value.value.members;
      assert forall k :: 0 <= k < |ms| ==> ms[k] in ms;
    }
  }

  // ---- Arrays ---------------------------------------------------------------------------------------

  lemma ItemSchemaIs(n: Node, i: nat)
    ensures ItemSchema(n, i).Some? == SchemaForItem(n.value, i).Some?
    ensures ItemSchema(n, i).Some? ==> ItemSchema(n, i).value.value == SchemaForItem(n.value, i).value
  {
    hide Key;
  }

  lemma ItemSchemaIsSub(schema: JsonValue, i: nat)
    requires schema.JObject?
    ensures var s := SchemaForItem(schema, i); s.Some? ==> IsSub(schema, s.value)
  {
    KeywordKinds();
    hide Key, LISTS, SINGLES, IsSub;
    SubOfList(schema, Key("prefixItems"));
    SubOfList(schema, Key("items"));
    SubOfSingle(schema, Key("items"));
    SubOfSingle(schema, Key("additionalItems"));
    var prefix, items := Lookup(schema, Key("prefixItems")), Lookup(schema, Key("items"));
    if prefix.Some? && prefix.value.JArray? && i < |prefix.value.items| {
      assert InList(schema, Key("prefixItems"), prefix.value.items[i]);
    } else if items.Some? && items.value.JArray? && i < |items.value.items| {
      assert InList(schema, Key("items"), items.value.items[i]);
    }
  }

  lemma {:induction false} ItemPairsMean(doc: Document, v: JsonValue, n: Node, i: nat)
    requires v.JArray? && i <= |v.items| && n.value.JObject?
    ensures PairsUnder(ItemPairs(v, n, i), n.value)
    ensures (forall p :: p in ItemPairs(v, n, i) ==> PairHolds(doc, p)) <==>
            (forall k :: i <= k < |v.items| && SchemaForItem(n.value, k).Some? ==>
             Holds(doc, v.items[k], SchemaForItem(n.value, k).value))
    decreases |v.items| - i
  {
    hide Holds, IsSub, ItemSchema, SchemaForItem;
    if i < |v.items| {
      ItemSchemaIs(n, i);
      ItemSchemaIsSub(n.value, i);
      ItemPairsMean(doc, v, n, i + 1);
      var there := ItemSchema(n, i).Some?;
      var pair := Pair(v.items[i], if there then ItemSchema(n, i).value else n);
      assert ItemPairs(v, n, i) == (if there then [pair] else []) + ItemPairs(v, n, i + 1);
      assert there ==> PairHolds(doc, pair) == Holds(doc, v.items[i], SchemaForItem(n.value, i).value);
      hide PairHolds, ItemPairs;
      assert forall p :: p in ItemPairs(v, n, i) <==> (there && p == pair) || p in ItemPairs(v, n, i + 1);
    }
  }

  lemma ContainsSays(doc: Document, v: JsonValue, n: Node)
    requires n.value.JObject? && v.JArray?
    ensures Says(doc, ContainsTasks(doc.lib, v, n), n.value, ContainsHolds(doc, v, n.value))
  {
    var key := Key("contains");
    KeywordKinds();
    var least, most := CountBound(doc.lib, n.value, Key("minContains"), 1),
      CountBound(doc.lib, n.value, Key("maxContains"), |v.items| + 1);
    hide Key, SINGLES, IsSub, Holds, Says, Lookup, CountBound;
    SaysNothing(doc, n.value);
    SubOfSingle(n.value, key);
    if Child(n, key).Some? {
      var schema := Child(n, key).value;
      var pairs := ContainsPairs(v.items, schema);
      assert forall i :: 0 <= i < |pairs| ==> (PairHolds(doc, pairs[i]) <==> Holds(doc, v.items[i], schema.value));
      hide PairHolds;
      assert Holding(doc, pairs) == ItemsHolding(doc, v.items, schema.value);
      hide Holding, ItemsHolding;
      SaysOne(doc, Counted(pairs, least, most), n.value, least <= |Holding(doc, pairs)| <= most);
    }
  }

  lemma ArraySays(doc: Document, v: JsonValue, n: Node)
    requires n.value.JObject? && v.JArray?
    ensures Says(doc, ArrayTasks(doc.lib, v, n), n.value, ArrayHolds(doc, v, n.value))
  {
    hide Key, IsSub, Says, ItemPairs, PairHolds, ArrayOk, PairsUnder, ContainsTasks, ItemsHold, ContainsHolds;
    ItemsSay(doc, v, n);
    ContainsSays(doc, v, n);
    var t1, t2, t3 := [AllOf(ItemPairs(v, n, 0))], ContainsTasks(doc.lib, v, n), [Local(ArrayOk(doc.lib, v, n.value))];
    SaysOne(doc, t3[0], n.value, ArrayOk(doc.lib, v, n.value));
    SaysBoth(doc, t1, t2, n.value, ItemsHold(doc, v, n.value), ContainsHolds(doc, v, n.value));
    SaysBoth(doc, t1 + t2, t3, n.value, ItemsHold(doc, v, n.value) && ContainsHolds(doc, v, n.value),
             ArrayOk(doc.lib, v, n.value));
  }

  lemma ItemsSay(doc: Document, v: JsonValue, n: Node)
    requires n.value.JObject? && v.JArray?
    ensures Says(doc, [AllOf(ItemPairs(v, n, 0))], n.value, ItemsHold(doc, v, n.value))
  {
    hide IsSub, Holds, Says, ItemPairs, PairHolds, SchemaForItem, PairsUnder;
    ItemPairsMean(doc, v, n, 0);
    AllSays(doc, ItemPairs(v, n, 0), n.value, ItemsHold(doc, v, n.value));
  }

  lemma ObjectSays(doc: Document, v: JsonValue, n: Node)
    requires n.value.JObject? && v.JObject?
    ensures Says(doc, ObjectTasks(doc.lib, v, n), n.value, ObjectHolds(doc, v, n.value))
  {
    hide Key, IsSub, Says, RequiredOk, DependentRequiredOk, PropertiesTasks, PatternsTasks, AdditionalTasks, NamesTasks,
         DependentTasks,
         DependenciesTasks, PropertiesHold, PatternsHold, AdditionalHolds, NamesHold, DependentHold, DependenciesHold;
    var schema := n.value;
    var t0, t5 := [Local(RequiredOk(doc.lib, v, schema))], [Local(DependentRequiredOk(v, schema))];
    SaysOne(doc, t0[0], n.value, RequiredOk(doc.lib, v, schema));
    PropertiesSay(doc, v, n);
    PatternsSay(doc, v, n);
    AdditionalSays(doc, v, n);
    NamesSay(doc, v, n);
    SaysOne(doc, t5[0], n.value, DependentRequiredOk(v, schema));
    DependentSay(doc, v, n);
    DependenciesSay(doc, v, n);
    var s1 := t0 + PropertiesTasks(v, n);
    var s2 := s1 + PatternsTasks(doc.lib, v, n);
    var s3 := s2 + AdditionalTasks(doc.lib, v, n);
    var s4 := s3 + NamesTasks(v, n);
    var s5 := s4 + t5;
    var s6 := s5 + DependentTasks(v, n);
    var r1 := RequiredOk(doc.lib, v, schema) && PropertiesHold(doc, v, schema);
    var r2 := r1 && PatternsHold(doc, v, schema);
    var r3 := r2 && AdditionalHolds(doc, v, schema);
    var r4 := r3 && NamesHold(doc, v, schema);
    var r5 := r4 && DependentRequiredOk(v, schema);
    var r6 := r5 && DependentHold(doc, v, schema);
    SaysBoth(doc, t0, PropertiesTasks(v, n), n.value, RequiredOk(doc.lib, v, schema), PropertiesHold(doc, v, schema));
    SaysBoth(doc, s1, PatternsTasks(doc.lib, v, n), n.value, r1, PatternsHold(doc, v, schema));
    SaysBoth(doc, s2, AdditionalTasks(doc.lib, v, n), n.value, r2, AdditionalHolds(doc, v, schema));
    SaysBoth(doc, s3, NamesTasks(v, n), n.value, r3, NamesHold(doc, v, schema));
    SaysBoth(doc, s4, t5, n.value, r4, DependentRequiredOk(v, schema));
    SaysBoth(doc, s5, DependentTasks(v, n), n.value, r5, DependentHold(doc, v, schema));
    SaysBoth(doc, s6, DependenciesTasks(v, n), n.value, r6, DependenciesHold(doc, v, schema));
  }

  // ---- References -----------------------------------------------------------------------------------

  lemma RefSays(doc: Document, v: JsonValue, n: Node, key: bytes)
    requires n.value.JObject? && key in REFS
    ensures Says(doc, RefTasks(doc.root, v, n, key), n.value, RefHolds(doc, v, n.value, key))
  {
    hide REFS, Holds, Says, Lookup, Resolved;
    SaysNothing(doc, n.value);
    SaysOne(doc, Local(false), n.value, false);
    match Lookup(n.value, key) {
      case Some(JString(reference)) =>
        var target := Resolved(doc.root, reference);
        if target.Some? {
          assert IsTarget(doc.root, n.value, target.value);
          SaysOne(doc, Follow(v, target.value), n.value, RefHolds(doc, v, n.value, key));
        }
      case _ =>
    }
  }

  lemma RefsSay(doc: Document, v: JsonValue, n: Node)
    requires n.value.JObject?
    ensures Says(doc, AllRefTasks(doc.root, v, n), n.value, RefsHold(doc, v, n.value))
  {
    var k1, k2, k3 := Key("$ref"), Key("$dynamicRef"), Key("$recursiveRef");
    KeywordKinds();
    hide Key, REFS, Holds, Says, RefTasks, RefHolds;
    RefSays(doc, v, n, k1);
    RefSays(doc, v, n, k2);
    RefSays(doc, v, n, k3);
    SaysBoth(doc, RefTasks(doc.root, v, n, k1), RefTasks(doc.root, v, n, k2), n.value, RefHolds(doc, v, n.value, k1),
             RefHolds(doc, v, n.value, k2));
    SaysBoth(doc, RefTasks(doc.root, v, n, k1) + RefTasks(doc.root, v, n, k2), RefTasks(doc.root, v, n, k3), n.value,
             RefHolds(doc, v, n.value, k1) && RefHolds(doc, v, n.value, k2), RefHolds(doc, v, n.value, k3));
  }

  // ---- Whole schemas --------------------------------------------------------------------------------

  lemma PlanSays(doc: Document, v: JsonValue, n: Node)
    requires n.value.JObject?
    ensures Says(doc, Plan(doc.lib, doc.root, v, n), n.value, Holds(doc, v, n.value))
  {
    hide *;
    var refs, core, logic := AllRefTasks(doc.root, v, n), [Local(CoreOk(doc.lib, v, n.value))], LogicTasks(v, n);
    var objects := if v.JObject? then ObjectTasks(doc.lib, v, n) else [];
    var arrays := if v.JArray? then ArrayTasks(doc.lib, v, n) else [];
    var last := [Local(StringOk(doc.lib, v, n.value) && NumberOk(doc.lib, v, n.value))];
    PlanUnfold(doc.lib, doc.root, v, n);
    HoldsUnfold(doc, v, n.value);
    SaysNothing(doc, n.value);
    RefsSay(doc, v, n);
    LocalSays(doc, CoreOk(doc.lib, v, n.value), n.value);
    LocalSays(doc, StringOk(doc.lib, v, n.value) && NumberOk(doc.lib, v, n.value), n.value);
    LogicSays(doc, v, n);
    if v.JObject? { ObjectSays(doc, v, n); }
    if v.JArray? { ArraySays(doc, v, n); }
    var ok0 := RefsHold(doc, v, n.value);
    var ok1, ok2 := v.JObject? ==> ObjectHolds(doc, v, n.value), v.JArray? ==> ArrayHolds(doc, v, n.value);
    var ok3 := ok0 && CoreOk(doc.lib, v, n.value);
    var ok := ok3 && LogicHolds(doc, v, n.value);
    SaysBoth(doc, refs, core, n.value, ok0, CoreOk(doc.lib, v, n.value));
    SaysBoth(doc, refs + core, logic, n.value, ok3, LogicHolds(doc, v, n.value));
    SaysBoth(doc, refs + core + logic, objects, n.value, ok, ok1);
    SaysBoth(doc, refs + core + logic + objects, arrays, n.value, ok && ok1, ok2);
    SaysBoth(doc, refs + core + logic + objects + arrays, last, n.value, ok && ok1 && ok2,
             StringOk(doc.lib, v, n.value) && NumberOk(doc.lib, v, n.value));
  }

  lemma LocalSays(doc: Document, ok: bool, schema: JsonValue)
    ensures Says(doc, [Local(ok)], schema, ok)
  {
    SaysOne(doc, Local(ok), schema, ok);
  }

  lemma HoldsUnfold(doc: Document, v: JsonValue, schema: JsonValue)
    requires schema.JObject?
    ensures Holds(doc, v, schema) <==>
            && RefsHold(doc, v, schema) && CoreOk(doc.lib, v, schema) && LogicHolds(doc, v, schema)
            && (v.JObject? ==> ObjectHolds(doc, v, schema)) && (v.JArray? ==> ArrayHolds(doc, v, schema))
            && StringOk(doc.lib, v, schema) && NumberOk(doc.lib, v, schema)
  {
    hide CoreOk, StringOk, NumberOk;
  }

  ghost function AllRefTasks(root: Node, v: JsonValue, n: Node): seq<Task> {
    RefTasks(root, v, n, Key("$ref")) + RefTasks(root, v, n, Key("$dynamicRef"))
    + RefTasks(root, v, n, Key("$recursiveRef"))
  }

  lemma PlanUnfold(lib: SchemaLib, root: Node, v: JsonValue, n: Node)
    requires n.value.JObject?
    ensures Plan(lib, root, v, n) ==
            AllRefTasks(root, v, n) + [Local(CoreOk(lib, v, n.value))] + LogicTasks(v, n)
            + (if v.JObject? then ObjectTasks(lib, v, n) else []) + (if v.JArray? then ArrayTasks(lib, v, n) else [])
            + [Local(StringOk(lib, v, n.value) && NumberOk(lib, v, n.value))]
  {
    hide RefTasks, LogicTasks, ObjectTasks, ArrayTasks, CoreOk, StringOk, NumberOk, Key;
  }

  // The short-circuiting evaluator computes the meaning: for every schema that fits under the limit
  // at the given depth with its references unfolded, whatever the order of keywords. It never calls
  // such a reference circular.
  lemma EvalMeans(doc: Document, v: JsonValue, n: Node, depth: nat, chain: Chain)
    requires Fits(doc.root, doc.refs, n.value, MAX_SCHEMA_DEPTH - depth) && BehindChain(doc.root, chain, n.value)
    ensures Eval(doc.lib, doc.root, v, n, depth, chain) == Of(Holds(doc, v, n.value))
    decreases MAX_SCHEMA_DEPTH + 1 - depth, 3, 0
  {
    if n.value.JObject? {
      assert depth <= MAX_SCHEMA_DEPTH;
      hide Plan, IsSub, IsTarget, Holds, EvalTasks, BehindChain;
      PlanSays(doc, v, n);
      UnderFits(doc, Plan(doc.lib, doc.root, v, n), n.value, depth, chain);
      TasksMean(doc, Plan(doc.lib, doc.root, v, n), depth, chain);
    }
  }

  // ValidateJsonSchema, and for any number of unfoldings with which the schema fits.
  lemma ValidationMeans(lib: SchemaLib, v: JsonValue, schema: JsonValue, refs: nat)
    requires Fits(Node([], schema), refs, schema, MAX_SCHEMA_DEPTH)
    ensures Validated(lib, v, schema) == Of(Holds(Document(lib, Node([], schema), refs), v, schema))
  {
    hide IsSub, IsTarget, Holds, Eval, Fits;
    EvalMeans(Document(lib, Node([], schema), refs), v, Node([], schema), 0, [Node([], schema)]);
  }
}
