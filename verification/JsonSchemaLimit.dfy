// What the depth limit of the schema evaluator does to schemas that exceed it.
module JsonSchemaLimit {
  import opened Bytes
  import opened JsonValue
  import opened JsonSchema
  import opened JsonSchemaMeaning

  // ---- Schemas whose acceptance can be trusted at any depth -----------------------------------------

  // No keyword under which a rejected subschema helps: "not", "if", "oneOf" and an upper bound on
  // "contains".
  ghost predicate Rising(schema: JsonValue) {
    schema.JObject? ==>
      && Lookup(schema, Key("not")).None? && Lookup(schema, Key("if")).None?
      && Lookup(schema, Key("oneOf")).None? && Lookup(schema, Key("maxContains")).None?
  }

  // A family of such schemas that contains their subschemas and all that they refer to.
  ghost predicate RisingFamily(root: Node, family: iset<JsonValue>) {
    forall x :: x in family && x.JObject? ==>
      && Rising(x) && (forall sub :: IsSub(x, sub) ==> sub in family)
      && (forall target :: IsTarget(root, x, target) ==> target.value in family)
  }

  ghost predicate PairsRise(pairs: seq<Pair>, family: iset<JsonValue>) {
    forall p :: p in pairs ==> p.schema.value in family
  }

  // Tasks that only gain from acceptance.
  ghost predicate TaskRises(task: Task, family: iset<JsonValue>) {
    match task
    case Local(_) => true
    case Follow(_, target) => target.value in family
    case AllOf(pairs) => PairsRise(pairs, family)
    case AnyOf(pairs) => PairsRise(pairs, family)
    case Counted(pairs, _, most) => PairsRise(pairs, family) && |pairs| <= most
    case _ => false
  }

  predicate TaskIsUpward(task: Task) {
    match task
    case Local(_) => true
    case Follow(_, _) => true
    case AllOf(_) => true
    case AnyOf(_) => true
    case Counted(pairs, _, most) => |pairs| <= most
    case _ => false
  }

  predicate Upward(tasks: seq<Task>) {
    forall t :: t in tasks ==> TaskIsUpward(t)
  }

  lemma UpwardBoth(a: seq<Task>, b: seq<Task>)
    requires Upward(a) && Upward(b)
    ensures Upward(a + b)
  {
    hide TaskIsUpward;
  }

  lemma {:induction false} DependencyTasksUpward(v: JsonValue, deps: Node, i: nat)
    requires deps.value.JObject? && i <= |deps.value.members|
    ensures Upward(DependencyTasks(v, deps, i))
    decreases |deps.value.members| - i
  {
    hide Lookup, HasAll, MemberNodes;
    if i < |deps.value.members| { DependencyTasksUpward(v, deps, i + 1); }
  }

  lemma ObjectTasksUpward(lib: SchemaLib, v: JsonValue, n: Node)
    requires v.JObject?
    ensures Upward(ObjectTasks(lib, v, n))
  {
    hide Key, Child, PropertyPairs, PatternPairs, MemberPairs, NamePairs, DependentPairs, RequiredOk,
         DependentRequiredOk, DependencyTasks;
    var d := ObjectKeyword(n, Key("dependencies"));
    if d.Some? { DependencyTasksUpward(v, d.value, 0); }
  }

  lemma ArrayTasksUpward(lib: SchemaLib, v: JsonValue, n: Node)
    requires v.JArray? && Lookup(n.value, Key("maxContains")).None?
    ensures Upward(ArrayTasks(lib, v, n))
  {
    hide Key, Child, ItemPairs, ArrayOk;
  }

  lemma LogicTasksUpward(v: JsonValue, n: Node)
    requires Lookup(n.value, Key("not")).None? && Lookup(n.value, Key("if")).None?
             && Lookup(n.value, Key("oneOf")).None?
    ensures Upward(LogicTasks(v, n))
  {
    hide Key, ListPairs;
  }

  lemma PlanRises(doc: Document, v: JsonValue, n: Node, family: iset<JsonValue>)
    requires n.value.JObject? && n.value in family && RisingFamily(doc.root, family)
    ensures forall t :: t in Plan(doc.lib, doc.root, v, n) ==> TaskRises(t, family)
  {
    hide *;
    RisingParts(doc.root, n.value, family);
    PlanSays(doc, v, n);
    SaysUnder(doc, Plan(doc.lib, doc.root, v, n), n.value, Holds(doc, v, n.value));
    PlanUpward(doc.lib, doc.root, v, n);
    var tasks := Plan(doc.lib, doc.root, v, n);
    forall t | t in tasks ensures TaskRises(t, family) { UpwardRises(doc.root, tasks, t, n.value, family); }
  }

  lemma RisingParts(root: Node, schema: JsonValue, family: iset<JsonValue>)
    requires schema.JObject? && schema in family && RisingFamily(root, family)
    ensures forall x :: IsSub(schema, x) ==> x in family
    ensures forall target :: IsTarget(root, schema, target) ==> target.value in family
    ensures Lookup(schema, Key("not")).None? && Lookup(schema, Key("if")).None?
    ensures Lookup(schema, Key("oneOf")).None? && Lookup(schema, Key("maxContains")).None?
  {
    assert Rising(schema);
    hide Key, IsSub, IsTarget;
  }

  lemma SaysUnder(doc: Document, tasks: seq<Task>, schema: JsonValue, ok: bool)
    requires Says(doc, tasks, schema, ok)
    ensures TasksUnder(doc.root, tasks, schema)
  {
    hide TasksUnder, TasksHold;
  }

  lemma PlanUpward(lib: SchemaLib, root: Node, v: JsonValue, n: Node)
    requires n.value.JObject?
    requires Lookup(n.value, Key("not")).None? && Lookup(n.value, Key("if")).None?
    requires Lookup(n.value, Key("oneOf")).None? && Lookup(n.value, Key("maxContains")).None?
    ensures Upward(Plan(lib, root, v, n))
  {
    hide *;
    PlanUnfold(lib, root, v, n);
    RefTasksUpward(root, v, n);
    LogicTasksUpward(v, n);
    if v.JObject? { ObjectTasksUpward(lib, v, n); }
    if v.JArray? { ArrayTasksUpward(lib, v, n); }
    var refs, core, logic := AllRefTasks(root, v, n), [Local(CoreOk(lib, v, n.value))], LogicTasks(v, n);
    var objects := if v.JObject? then ObjectTasks(lib, v, n) else [];
    var arrays := if v.JArray? then ArrayTasks(lib, v, n) else [];
    var last := [Local(StringOk(lib, v, n.value) && NumberOk(lib, v, n.value))];
    LocalUpward(CoreOk(lib, v, n.value));
    LocalUpward(StringOk(lib, v, n.value) && NumberOk(lib, v, n.value));
    NothingUpward();
    UpwardBoth(refs, core);
    UpwardBoth(refs + core, logic);
    UpwardBoth(refs + core + logic, objects);
    UpwardBoth(refs + core + logic + objects, arrays);
    UpwardBoth(refs + core + logic + objects + arrays, last);
  }

  lemma RefTasksUpward(root: Node, v: JsonValue, n: Node)
    ensures Upward(AllRefTasks(root, v, n))
  {
    hide Key, Resolved;
  }

  lemma LocalUpward(ok: bool)
    ensures Upward([Local(ok)])
  {
  }

  lemma NothingUpward()
    ensures Upward([])
  {
  }

  lemma UpwardRises(root: Node, tasks: seq<Task>, t: Task, schema: JsonValue, family: iset<JsonValue>)
    requires Upward(tasks) && TasksUnder(root, tasks, schema) && t in tasks
    requires forall x :: IsSub(schema, x) ==> x in family
    requires forall target :: IsTarget(root, schema, target) ==> target.value in family
    ensures TaskRises(t, family)
  {
    assert TaskIsUpward(t) && TaskUnder(root, t, schema);
    hide IsSub, IsTarget, Upward, TasksUnder;
  }

  // Enough unfoldings are left for all levels the evaluator may still go down.
  ghost predicate Sound(doc: Document, depth: nat, family: iset<JsonValue>) {
    doc.refs + depth > MAX_SCHEMA_DEPTH && RisingFamily(doc.root, family)
  }

  lemma PairAccepted(doc: Document, p: Pair, depth: nat, chain: Chain, family: iset<JsonValue>)
    requires depth <= MAX_SCHEMA_DEPTH && Sound(doc, depth, family) && p.schema.value in family
    requires EvalPair(doc.lib, doc.root, p, depth, chain) == Accept
    ensures PairHolds(doc, p)
    decreases MAX_SCHEMA_DEPTH + 1 - depth, 0, 0
  {
    hide Eval, RisingFamily, Holds;
    AcceptedHolds(doc, p.instance, p.schema, depth + 1, chain, family);
  }

  lemma TargetAccepted(doc: Document, v: JsonValue, target: Node, depth: nat, chain: Chain, family: iset<JsonValue>)
    requires depth <= MAX_SCHEMA_DEPTH && Sound(doc, depth, family) && target.value in family
    requires Eval(doc.lib, doc.root, v, target, depth + 1, chain) == Accept
    ensures doc.refs > 0 && Holds(Behind(doc), v, target.value)
    decreases MAX_SCHEMA_DEPTH + 1 - depth, 0, 0
  {
    hide Eval, RisingFamily, Holds;
    if doc.refs > 0 {
      AcceptedHolds(Behind(doc), v, target, depth + 1, chain, family);
    }
  }

  lemma {:induction false} AllAccepted(doc: Document, pairs: seq<Pair>, depth: nat, chain: Chain,
                                       family: iset<JsonValue>)
    requires depth <= MAX_SCHEMA_DEPTH && Sound(doc, depth, family) && PairsRise(pairs, family)
    requires EvalAll(doc.lib, doc.root, pairs, depth, chain) == Accept
    ensures forall p :: p in pairs ==> PairHolds(doc, p)
    decreases MAX_SCHEMA_DEPTH + 1 - depth, 0, |pairs| + 1
  {
    hide EvalPair, PairHolds, Sound;
    if pairs != [] {
      PairAccepted(doc, pairs[0], depth, chain, family);
      AllAccepted(doc, pairs[1..], depth, chain, family);
      assert forall p :: p in pairs ==> p == pairs[0] || p in pairs[1..];
    }
  }

  lemma {:induction false} AnyAccepted(doc: Document, pairs: seq<Pair>, depth: nat, chain: Chain,
                                       family: iset<JsonValue>)
    requires depth <= MAX_SCHEMA_DEPTH && Sound(doc, depth, family) && PairsRise(pairs, family)
    requires EvalAny(doc.lib, doc.root, pairs, depth, chain) == Accept
    ensures exists p :: p in pairs && PairHolds(doc, p)
    decreases MAX_SCHEMA_DEPTH + 1 - depth, 0, |pairs| + 1
  {
    hide EvalPair, PairHolds, Sound;
    if EvalPair(doc.lib, doc.root, pairs[0], depth, chain) == Accept {
      PairAccepted(doc, pairs[0], depth, chain, family);
    } else {
      AnyAccepted(doc, pairs[1..], depth, chain, family);
      var p :| p in pairs[1..] && PairHolds(doc, p);
      assert p in pairs;
    }
  }

  // At least as many pairs hold as were accepted.
  lemma {:induction false} CountAccepted(doc: Document, pairs: seq<Pair>, n: nat, matched: nat,
                                         least: nat, most: nat, depth: nat, chain: Chain,
                                         family: iset<JsonValue>)
    requires depth <= MAX_SCHEMA_DEPTH && Sound(doc, depth, family) && PairsRise(pairs, family)
    requires n <= |pairs| && matched <= |HoldingBelow(doc, pairs, n)|
    requires EvalCount(doc.lib, doc.root, pairs[n..], matched, least, most, depth, chain) == Accept
    ensures least <= |Holding(doc, pairs)|
    decreases MAX_SCHEMA_DEPTH + 1 - depth, 0, |pairs| - n + 1
  {
    hide EvalPair, PairHolds, Sound, HoldingBelow;
    if n < |pairs| {
      assert pairs[n..][0] == pairs[n] && pairs[n..][1..] == pairs[n + 1..] && pairs[n] in pairs;
      HoldingNext(doc, pairs, n);
      var verdict := EvalPair(doc.lib, doc.root, pairs[n], depth, chain);
      if verdict == Accept { PairAccepted(doc, pairs[n], depth, chain, family); }
      CountAccepted(doc, pairs, n + 1, if verdict == Accept then matched + 1 else matched, least, most, depth,
                    chain, family);
    }
  }

  lemma {:induction false} HoldingAtMost(doc: Document, pairs: seq<Pair>, n: nat)
    requires n <= |pairs|
    ensures |HoldingBelow(doc, pairs, n)| <= n
  {
    hide HoldingBelow, PairHolds;
    if n == 0 {
      NoneBelow(doc, pairs);
    } else {
      HoldingAtMost(doc, pairs, n - 1);
      HoldingNext(doc, pairs, n - 1);
    }
  }

  lemma TaskAccepted(doc: Document, task: Task, depth: nat, chain: Chain,
                     family: iset<JsonValue>)
    requires depth <= MAX_SCHEMA_DEPTH && Sound(doc, depth, family) && TaskRises(task, family)
    requires EvalTask(doc.lib, doc.root, task, depth, chain) == Accept
    ensures TaskHolds(doc, task)
    decreases MAX_SCHEMA_DEPTH + 1 - depth, 1, 0
  {
    hide EvalPair, PairHolds, PairsRise, HoldingBelow, EvalAll, EvalAny, EvalCount, Eval, Holds, Sound;
    match task {
      case Local(_) =>
      case Follow(v, target) => TargetAccepted(doc, v, target, depth, chain + [target], family);
      case AllOf(pairs) => AllAccepted(doc, pairs, depth, chain, family);
      case AnyOf(pairs) => AnyAccepted(doc, pairs, depth, chain, family);
      case Counted(pairs, least, most) =>
        NoneBelow(doc, pairs);
        CountAccepted(doc, pairs, 0, 0, least, most, depth, chain, family);
        HoldingAtMost(doc, pairs, |pairs|);
    }
  }

  lemma {:induction false} TasksAccepted(doc: Document, tasks: seq<Task>, depth: nat, chain: Chain,
                                         family: iset<JsonValue>)
    requires depth <= MAX_SCHEMA_DEPTH && Sound(doc, depth, family) && (forall t :: t in tasks ==> TaskRises(t, family))
    requires EvalTasks(doc.lib, doc.root, tasks, depth, chain) == Accept
    ensures TasksHold(doc, tasks)
    decreases MAX_SCHEMA_DEPTH + 1 - depth, 2, |tasks|
  {
    hide EvalTask, TaskHolds, TaskRises, Sound;
    if tasks != [] {
      assert tasks[0] in tasks && forall t :: t in tasks[1..] ==> t in tasks;
      TaskAccepted(doc, tasks[0], depth, chain, family);
      TasksAccepted(doc, tasks[1..], depth, chain, family);
      assert forall t :: t in tasks ==> t == tasks[0] || t in tasks[1..];
    }
  }

  // However deep it is nested, and whatever circles its references run in: what the evaluator
  // accepts holds.
  lemma AcceptedHolds(doc: Document, v: JsonValue, n: Node, depth: nat, chain: Chain, family: iset<JsonValue>)
    requires Sound(doc, depth, family) && n.value in family
    requires Eval(doc.lib, doc.root, v, n, depth, chain) == Accept
    ensures Holds(doc, v, n.value)
    decreases MAX_SCHEMA_DEPTH + 1 - depth, 3, 0
  {
    if n.value.JObject? {
      assert depth <= MAX_SCHEMA_DEPTH;
      hide Plan, RisingFamily, Holds, EvalTasks;
      PlanRises(doc, v, n, family);
      PlanSays(doc, v, n);
      TasksAccepted(doc, Plan(doc.lib, doc.root, v, n), depth, chain, family);
    }
  }

  lemma ValidationIsSound(lib: SchemaLib, v: JsonValue, schema: JsonValue, refs: nat, family: iset<JsonValue>)
    requires schema in family && RisingFamily(Node([], schema), family)
    requires refs > MAX_SCHEMA_DEPTH && Validated(lib, v, schema) == Accept
    ensures Holds(Document(lib, Node([], schema), refs), v, schema)
  {
    hide RisingFamily, Holds, Eval;
    AcceptedHolds(Document(lib, Node([], schema), refs), v, Node([], schema), 0, [Node([], schema)], family);
  }

  // ---- Documents without such keywords ----------------------------------------------------------------

  // No object anywhere in the document has one of the keywords.
  ghost predicate RisingThroughout(x: JsonValue)
    decreases x
  {
    match x
    case JObject(members) => Rising(x) && forall m :: m in members ==> RisingThroughout(m.value)
    case JArray(items) => forall item :: item in items ==> RisingThroughout(item)
    case _ => true
  }

  lemma ValueRises(x: JsonValue, key: bytes)
    requires RisingThroughout(x)
    ensures var s := Lookup(x, key); s.Some? ==> RisingThroughout(s.value)
  {
    hide Rising;
    if x.JObject? { FoundIsMember(x.members, key); }
  }

  lemma SubRises(x: JsonValue, sub: JsonValue)
    requires RisingThroughout(x) && IsSub(x, sub)
    ensures RisingThroughout(sub)
  {
    hide RisingThroughout, LISTS, MAPS, SINGLES;
    forall key ensures Lookup(x, key).Some? ==> PartsRise(Lookup(x, key).value) {
      ValueRises(x, key);
      if Lookup(x, key).Some? { ThroughoutParts(Lookup(x, key).value); }
    }
  }

  ghost predicate PartsRise(x: JsonValue) {
    && RisingThroughout(x)
    && (x.JObject? ==> forall m :: m in x.members ==> RisingThroughout(m.value))
    && (x.JArray? ==> forall item :: item in x.items ==> RisingThroughout(item))
  }

  lemma ThroughoutParts(x: JsonValue)
    requires RisingThroughout(x)
    ensures PartsRise(x)
  {
    hide Rising;
  }

  lemma {:induction false} PointerRises(n: Node, pointer: bytes)
    requires RisingThroughout(n.value)
    ensures var t := ResolvedPointer(n, pointer); t.Some? ==> RisingThroughout(t.value.value)
    decreases |pointer|
  {
    hide RisingThroughout, FindByte, Unescaped;
    var slash := FindByte(pointer, 0, SLASH);
    var key := Unescaped(pointer[..slash]);
    ValueRises(n.value, key);
    ThroughoutParts(n.value);
    var next := StepTo(n, key);
    if next.Some? && slash != |pointer| { PointerRises(next.value, pointer[slash + 1..]); }
  }

  lemma {:induction false} AnchorRises(n: Node, anchor: bytes)
    requires RisingThroughout(n.value)
    ensures var t := FoundAnchor(n, anchor); t.Some? ==> RisingThroughout(t.value.value)
    decreases n.value, 1, 0
  {
    hide RisingThroughout, Key;
    match n.value {
      case JObject(members) => if FoundInMembers(n, 0, anchor).Some? { AnchorInMembers(n, 0, anchor); }
      case JArray(items) => AnchorInItems(n, 0, anchor);
      case _ =>
    }
  }

  lemma {:induction false} AnchorInMembers(n: Node, i: nat, anchor: bytes)
    requires RisingThroughout(n.value) && n.value.JObject? && i <= |n.value.members|
    ensures var t := FoundInMembers(n, i, anchor); t.Some? ==> RisingThroughout(t.value.value)
    decreases n.value, 0, |n.value.members| - i
  {
    hide RisingThroughout, FoundAnchor;
    if i < |n.value.members| {
      var m := n.value.members[i];
      ThroughoutParts(n.value);
      AnchorRises(Node(n.path + [At(m.key)], m.value), anchor);
      AnchorInMembers(n, i + 1, anchor);
    }
  }

  lemma {:induction false} AnchorInItems(n: Node, i: nat, anchor: bytes)
    requires RisingThroughout(n.value) && n.value.JArray? && i <= |n.value.items|
    ensures var t := FoundInItems(n, i, anchor); t.Some? ==> RisingThroughout(t.value.value)
    decreases n.value, 0, |n.value.items| - i
  {
    hide RisingThroughout, FoundAnchor;
    if i < |n.value.items| {
      ThroughoutParts(n.value);
      AnchorRises(ItemNode(n, i), anchor);
      AnchorInItems(n, i + 1, anchor);
    }
  }

  lemma ResolvedRises(root: Node, reference: bytes)
    requires RisingThroughout(root.value)
    ensures var t := Resolved(root, reference); t.Some? ==> RisingThroughout(t.value.value)
  {
    hide RisingThroughout, ResolvedPointer, FoundAnchor;
    if |reference| > 1 {
      PointerRises(root, reference[2..]);
      AnchorRises(root, reference[1..]);
    }
  }

  lemma TargetRises(root: Node, x: JsonValue, target: Node)
    requires RisingThroughout(root.value) && IsTarget(root, x, target)
    ensures RisingThroughout(target.value)
  {
    hide RisingThroughout, REFS, Resolved;
    var reference :| Resolved(root, reference) == Some(target);
    ResolvedRises(root, reference);
  }

  ghost const RISING_THROUGHOUT: iset<JsonValue> := iset x | RisingThroughout(x)

  lemma DocumentRises(root: Node)
    requires RisingThroughout(root.value)
    ensures RisingFamily(root, RISING_THROUGHOUT)
  {
    hide IsSub, IsTarget, Rising;
    forall x | x in RISING_THROUGHOUT && x.JObject?
      ensures Rising(x) && (forall sub :: IsSub(x, sub) ==> sub in RISING_THROUGHOUT)
      ensures forall target :: IsTarget(root, x, target) ==> target.value in RISING_THROUGHOUT
    {
      assert RisingThroughout(x);
      forall sub | IsSub(x, sub) ensures sub in RISING_THROUGHOUT { SubRises(x, sub); }
      forall target | IsTarget(root, x, target) ensures target.value in RISING_THROUGHOUT {
        TargetRises(root, x, target);
      }
    }
  }

  // Such a document may be nested and refer to itself as it likes: what it accepts is valid.
  lemma DocumentIsSound(lib: SchemaLib, v: JsonValue, schema: JsonValue, refs: nat)
    requires RisingThroughout(schema) && refs > MAX_SCHEMA_DEPTH && Validated(lib, v, schema) == Accept
    ensures Holds(Document(lib, Node([], schema), refs), v, schema)
  {
    hide RisingFamily, Holds, Validated;
    DocumentRises(Node([], schema));
    assert schema in RISING_THROUGHOUT;
    ValidationIsSound(lib, v, schema, refs, RISING_THROUGHOUT);
  }

  // ---- "not" beyond the limit -----------------------------------------------------------------------

  // {} under `n` nested "not".
  function Nots(n: nat): JsonValue {
    if n == 0 then JObject([]) else JObject([Member(Key("not"), Nots(n - 1))])
  }

  // A schema object with no keyword but "not".
  ghost predicate OnlyNot(schema: JsonValue) {
    schema.JObject? && forall key :: Lookup(schema, key).Some? ==> key == Key("not")
  }

  lemma NotsHaveOnlyNot(n: nat)
    ensures OnlyNot(Nots(n)) && Nots(n).JObject?
    ensures Lookup(Nots(n), Key("not")) == if n == 0 then None else Some(Nots(n - 1))
  {
    hide Key;
    if n > 0 {
      forall key ensures Lookup(Nots(n), key) == if key == Key("not") then Some(Nots(n - 1)) else None {
        OneMember(Member(Key("not"), Nots(n - 1)), key);
      }
    }
  }

  lemma OneMember(m: Member, key: bytes)
    ensures Lookup(JObject([m]), key) == if key == m.key then Some(m.value) else None
  {
    var none: seq<Member> := [];
    assert [m][1..] == none && Find(none, key) == None;
    assert Find([m], key) == if key == m.key then Some(m.value) else Find(none, key);
  }

  lemma KeyLength(name: string)
    ensures |Key(name)| == |name|
  {
  }

  // No other keyword of the evaluator has three letters.
  lemma Absent(schema: JsonValue, name: string)
    requires OnlyNot(schema) && |name| != 3
    ensures Lookup(schema, Key(name)).None?
  {
    KeyLength(name);
    KeyLength("not");
    hide Key;
  }

  lemma BareChecks(lib: SchemaLib, v: JsonValue, schema: JsonValue)
    requires OnlyNot(schema)
    ensures CoreOk(lib, v, schema) && StringOk(lib, v, schema) && NumberOk(lib, v, schema)
  {
    Absent(schema, "const");
    Absent(schema, "enum");
    Absent(schema, "type");
    Absent(schema, "minLength");
    Absent(schema, "maxLength");
    Absent(schema, "pattern");
    Absent(schema, "minimum");
    Absent(schema, "maximum");
    Absent(schema, "exclusiveMinimum");
    Absent(schema, "exclusiveMaximum");
    Absent(schema, "multipleOf");
    hide Key, OnlyNot;
  }

  lemma BareLogic(v: JsonValue, n: Node)
    requires OnlyNot(n.value)
    ensures LogicTasks(v, n) == NotTasks(v, n)
  {
    Absent(n.value, "allOf");
    Absent(n.value, "anyOf");
    Absent(n.value, "oneOf");
    Absent(n.value, "if");
    hide Key, OnlyNot, NotTasks;
    assert [] + [] + [] + NotTasks(v, n) + [] == NotTasks(v, n);
  }

  lemma BareObject(lib: SchemaLib, v: JsonValue, n: Node)
    requires OnlyNot(n.value) && v.JObject?
    ensures ObjectTasks(lib, v, n) == [Local(true), Local(true)]
  {
    Absent(n.value, "required");
    Absent(n.value, "minProperties");
    Absent(n.value, "maxProperties");
    Absent(n.value, "properties");
    Absent(n.value, "patternProperties");
    Absent(n.value, "additionalProperties");
    Absent(n.value, "propertyNames");
    Absent(n.value, "dependentRequired");
    Absent(n.value, "dependentSchemas");
    Absent(n.value, "dependencies");
    hide Key, OnlyNot;
    assert [Local(true)] + [] + [] + [] + [] + [Local(true)] + [] + [] == [Local(true), Local(true)];
  }

  lemma BareArray(lib: SchemaLib, v: JsonValue, n: Node)
    requires OnlyNot(n.value) && v.JArray?
    ensures ArrayTasks(lib, v, n) == [AllOf([]), Local(true)]
  {
    Absent(n.value, "contains");
    Absent(n.value, "minItems");
    Absent(n.value, "maxItems");
    Absent(n.value, "uniqueItems");
    NoItemPairs(v, n, 0);
    hide Key, OnlyNot, ItemPairs;
    assert [AllOf([])] + [] + [Local(true)] == [AllOf([]), Local(true)];
  }

  lemma {:induction false} NoItemPairs(v: JsonValue, n: Node, i: nat)
    requires OnlyNot(n.value) && v.JArray? && i <= |v.items|
    ensures ItemPairs(v, n, i) == []
    decreases |v.items| - i
  {
    Absent(n.value, "prefixItems");
    Absent(n.value, "items");
    hide Key, OnlyNot;
    if i < |v.items| { NoItemPairs(v, n, i + 1); }
  }

  ghost predicate RefFree(schema: JsonValue) {
    && Lookup(schema, Key("$ref")).None? && Lookup(schema, Key("$dynamicRef")).None?
      && Lookup(schema, Key("$recursiveRef")).None?
  }

  lemma NoReferences(root: Node, v: JsonValue, n: Node)
    requires n.value.JObject? && RefFree(n.value)
    ensures AllRefTasks(root, v, n) == []
  {
    hide Key;
  }

  lemma BareReferences(root: Node, v: JsonValue, n: Node)
    requires OnlyNot(n.value)
    ensures n.value.JObject? && RefFree(n.value)
  {
    Absent(n.value, "$ref");
    Absent(n.value, "$dynamicRef");
    Absent(n.value, "$recursiveRef");
    hide Key, OnlyNot;
  }

  lemma {:induction false} EvalBoth(lib: SchemaLib, root: Node, a: seq<Task>, b: seq<Task>, depth: nat, chain: Chain)
    requires depth <= MAX_SCHEMA_DEPTH
    ensures EvalTasks(lib, root, a + b, depth, chain) ==
            var first := EvalTasks(lib, root, a, depth, chain);
            if first != Accept then first else EvalTasks(lib, root, b, depth, chain)
    decreases |a|
  {
    hide EvalTask;
    if a == [] {
      assert a + b == b;
    } else {
      assert (a + b)[1..] == a[1..] + b;
      EvalBoth(lib, root, a[1..], b, depth, chain);
    }
  }

  // Lists that ask for nothing.
  predicate Idle(tasks: seq<Task>) {
    forall t :: t in tasks ==> t == Local(true) || t == AllOf([])
  }

  lemma {:induction false} IdleAccepts(lib: SchemaLib, root: Node, tasks: seq<Task>, depth: nat, chain: Chain)
    requires depth <= MAX_SCHEMA_DEPTH && Idle(tasks)
    ensures EvalTasks(lib, root, tasks, depth, chain) == Accept
  {
    if tasks != [] {
      assert tasks[0] in tasks && forall t :: t in tasks[1..] ==> t in tasks;
      IdleTaskAccepts(lib, root, depth, chain);
      hide EvalTask;
      IdleAccepts(lib, root, tasks[1..], depth, chain);
    }
  }

  lemma IdleTaskAccepts(lib: SchemaLib, root: Node, depth: nat, chain: Chain)
    requires depth <= MAX_SCHEMA_DEPTH
    ensures EvalTask(lib, root, Local(true), depth, chain) == Accept == EvalTask(lib, root, AllOf([]), depth, chain)
  {
    assert EvalAll(lib, root, [], depth, chain) == Accept;
  }

  lemma BarePlan(lib: SchemaLib, root: Node, v: JsonValue, n: Node) returns (last: seq<Task>)
    requires OnlyNot(n.value)
    ensures Idle(last) && Plan(lib, root, v, n) == [Local(true)] + NotTasks(v, n) + last
  {
    hide *;
    BareReferences(root, v, n);
    NoReferences(root, v, n);
    PlanUnfold(lib, root, v, n);
    assert [] + [Local(CoreOk(lib, v, n.value))] == [Local(CoreOk(lib, v, n.value))];
    BareChecks(lib, v, n.value);
    BareLogic(v, n);
    var objects := if v.JObject? then ObjectTasks(lib, v, n) else [];
    var arrays := if v.JArray? then ArrayTasks(lib, v, n) else [];
    if v.JObject? { BareObject(lib, v, n); }
    if v.JArray? { BareArray(lib, v, n); }
    last := objects + arrays + [Local(true)];
    IdleParts(objects, arrays);
    assert [Local(true)] + NotTasks(v, n) + objects + arrays + [Local(true)] == [Local(true)] + NotTasks(v, n) + last;
  }

  lemma IdleParts(objects: seq<Task>, arrays: seq<Task>)
    requires objects == [] || objects == [Local(true), Local(true)]
    requires arrays == [] || arrays == [AllOf([]), Local(true)]
    ensures Idle(objects + arrays + [Local(true)])
  {
  }

  // The task of one level.
  function NotTask(v: JsonValue, path: seq<Place>, n: nat): Task {
    Not(Pair(v, Node(path + [At(Key("not"))], Nots(n))))
  }

  lemma NotTasksOf(v: JsonValue, path: seq<Place>, n: nat)
    ensures NotTasks(v, Node(path, Nots(n))) == if n == 0 then [] else [NotTask(v, path, n - 1)]
  {
    NotsHaveOnlyNot(n);
    hide Key, OnlyNot, Nots;
  }

  lemma NotsStep(lib: SchemaLib, root: Node, v: JsonValue, path: seq<Place>, n: nat, depth: nat, chain: Chain)
    requires depth <= MAX_SCHEMA_DEPTH
    ensures Eval(lib, root, v, Node(path, Nots(n)), depth, chain) ==
            if n == 0 then Accept else EvalTask(lib, root, NotTask(v, path, n - 1), depth, chain)
  {
    var here := Node(path, Nots(n));
    NotsHaveOnlyNot(n);
    assert here.value.JObject?;
    hide Plan, Key, OnlyNot, Nots, NotTask, NotTasks, EvalTask, EvalTasks, Idle;
    var last := BarePlan(lib, root, v, here);
    NotTasksOf(v, path, n);
    LocalIsIdle();
    IdleAccepts(lib, root, last, depth, chain);
    IdleAccepts(lib, root, [Local(true)], depth, chain);
    EvalBoth(lib, root, [Local(true)] + NotTasks(v, here), last, depth, chain);
    EvalBoth(lib, root, [Local(true)], NotTasks(v, here), depth, chain);
    if n > 0 {
      OneTaskDecides(lib, root, NotTask(v, path, n - 1), depth, chain);
    } else {
      NoTaskDecides(lib, root, depth, chain);
    }
  }

  lemma LocalIsIdle()
    ensures Idle([Local(true)])
  {
  }

  lemma NoTaskDecides(lib: SchemaLib, root: Node, depth: nat, chain: Chain)
    requires depth <= MAX_SCHEMA_DEPTH
    ensures EvalTasks(lib, root, [], depth, chain) == Accept
  {
  }

  // What `n` nested "not" say when only `levels` of them are looked into.
  predicate Turned(n: nat, levels: nat) {
    if n < levels then n % 2 == 0 else levels % 2 == 1
  }

  lemma TurnedOnce(n: nat, levels: nat)
    ensures !Turned(n, 0) && (levels > 0 ==> Turned(0, levels))
    ensures n > 0 && levels > 0 ==> (Turned(n, levels) <==> !Turned(n - 1, levels - 1))
  {
  }

  lemma Verdicts(ok: bool)
    ensures Of(ok) == if ok then Accept else Reject
  {
  }

  // Evaluating nested "not": what the innermost level says is turned over once a level.
  lemma {:induction false} NotsEvaluate(lib: SchemaLib, root: Node, v: JsonValue, path: seq<Place>, n: nat, depth: nat,
                                        chain: Chain)
    requires depth <= MAX_SCHEMA_DEPTH + 1
    ensures var levels := MAX_SCHEMA_DEPTH + 1 - depth;
            Eval(lib, root, v, Node(path, Nots(n)), depth, chain) == Of(Turned(n, levels))
    decreases n
  {
    hide Nots, Key, Eval, EvalTask, Turned, Of;
    var levels := MAX_SCHEMA_DEPTH + 1 - depth;
    TurnedOnce(n, levels);
    Verdicts(Turned(n, levels));
    if depth > MAX_SCHEMA_DEPTH {
      NotsTooDeep(lib, root, v, path, n, depth, chain);
    } else {
      NotsStep(lib, root, v, path, n, depth, chain);
      if n > 0 {
        NotsEvaluate(lib, root, v, path + [At(Key("not"))], n - 1, depth + 1, chain);
        Verdicts(Turned(n - 1, levels - 1));
        NotTurns(lib, root, NotTask(v, path, n - 1).pair, depth, chain);
      }
    }
  }

  lemma NotsTooDeep(lib: SchemaLib, root: Node, v: JsonValue, path: seq<Place>, n: nat, depth: nat, chain: Chain)
    requires depth > MAX_SCHEMA_DEPTH
    ensures Eval(lib, root, v, Node(path, Nots(n)), depth, chain) == Reject
  {
    hide Key, Plan, EvalTasks;
  }

  lemma NotTurns(lib: SchemaLib, root: Node, pair: Pair, depth: nat, chain: Chain)
    requires depth <= MAX_SCHEMA_DEPTH
    ensures var inner := Eval(lib, root, pair.instance, pair.schema, depth + 1, chain);
            inner != Circular ==>
              EvalTask(lib, root, Not(pair), depth, chain) == if inner == Reject then Accept else Reject
  {
    hide Eval;
  }

  lemma OneTaskDecides(lib: SchemaLib, root: Node, task: Task, depth: nat, chain: Chain)
    requires depth <= MAX_SCHEMA_DEPTH
    ensures EvalTasks(lib, root, [task], depth, chain) == EvalTask(lib, root, task, depth, chain)
  {
    hide EvalTask;
    assert [task][1..] == [];
  }

  lemma {:induction false} NotsMean(doc: Document, v: JsonValue, n: nat)
    ensures Holds(doc, v, Nots(n)) <==> n % 2 == 0
  {
    hide Holds, Nots, Key;
    NotsHold(doc, v, n);
    if n > 0 { NotsMean(doc, v, n - 1); }
  }

  lemma NotsHold(doc: Document, v: JsonValue, n: nat)
    ensures Holds(doc, v, Nots(n)) <==> n > 0 ==> !Holds(doc, v, Nots(n - 1))
  {
    var here := Node([], Nots(n));
    NotsHaveOnlyNot(n);
    hide Plan, Key, OnlyNot, Holds, Nots, NotTask, NotTasks, Idle, TaskHolds, TasksUnder;
    var last := BarePlan(doc.lib, doc.root, v, here);
    BareReferences(doc.root, v, here);
    PlanSays(doc, v, here);
    IdleHolds(doc, last);
    LocalIsIdle();
    IdleHolds(doc, [Local(true)]);
    NotTasksOf(v, [], n);
    HoldBoth(doc, [Local(true)] + NotTasks(v, here), last);
    HoldBoth(doc, [Local(true)], NotTasks(v, here));
    if n > 0 {
      NotTaskHolds(doc, v, n - 1);
      hide TasksHold;
      OneHolds(doc, NotTask(v, [], n - 1));
    }
  }

  lemma OneHolds(doc: Document, task: Task)
    ensures TasksHold(doc, [task]) <==> TaskHolds(doc, task)
  {
    hide TaskHolds;
    assert task in [task];
  }

  lemma HoldBoth(doc: Document, a: seq<Task>, b: seq<Task>)
    ensures TasksHold(doc, a + b) <==> TasksHold(doc, a) && TasksHold(doc, b)
  {
    hide TaskHolds;
    assert forall t :: t in a + b <==> t in a || t in b;
  }

  lemma NotTaskHolds(doc: Document, v: JsonValue, n: nat)
    ensures TaskHolds(doc, NotTask(v, [], n)) <==> !Holds(doc, v, Nots(n))
  {
    hide Holds, Nots, Key;
  }

  lemma IdleHolds(doc: Document, tasks: seq<Task>)
    requires Idle(tasks)
    ensures TasksHold(doc, tasks)
  {
    hide PairHolds;
  }

  // Each level past the limit rejects, and the "not" around it makes that acceptance: {} under 33
  // nested "not" accepts every instance, although it means that none is valid. Validation is right
  // exactly up to the limit, and beyond it only where the two happen to coincide.
  lemma DepthLimitFlipsNot(doc: Document, v: JsonValue, n: nat)
    ensures Validated(doc.lib, v, Nots(n)) == Of(Holds(doc, v, Nots(n))) <==> n <= MAX_SCHEMA_DEPTH || n % 2 == 0
  {
    hide Nots, Holds, Eval, Turned, Of, Validated;
    NotsMean(doc, v, n);
    NotsEvaluate(doc.lib, Node([], Nots(n)), v, [], n, 0, [Node([], Nots(n))]);
    ValidatedIs(doc.lib, v, Nots(n));
    RightExactly(n);
    Verdicts(Turned(n, MAX_SCHEMA_DEPTH + 1));
    Verdicts(n % 2 == 0);
  }

  lemma ValidatedIs(lib: SchemaLib, v: JsonValue, schema: JsonValue)
    ensures Validated(lib, v, schema) == Eval(lib, Node([], schema), v, Node([], schema), 0, [Node([], schema)])
  {
    hide Eval;
  }

  lemma RightExactly(n: nat)
    ensures (Turned(n, MAX_SCHEMA_DEPTH + 1) <==> n % 2 == 0) <==> n <= MAX_SCHEMA_DEPTH || n % 2 == 0
  {
  }

  // ---- Circles --------------------------------------------------------------------------------------

  const OWN_REFERENCE := JObject([Member(Key("$ref"), JString([HASH]))])

  lemma OwnTarget(root: Node)
    requires root.value == OWN_REFERENCE
    ensures IsTarget(root, OWN_REFERENCE, root)
    ensures forall v :: RefTasks(root, v, root, Key("$ref")) == [Follow(v, root)]
  {
    KeywordKinds();
    hide Key, REFS;
    OneMember(Member(Key("$ref"), JString([HASH])), Key("$ref"));
    assert Resolved(root, [HASH]) == Some(root);
  }

  // The shortest circle: it fits no limit, and every instance raises the exception.
  lemma {:induction false} OwnReferenceFitsNowhere(refs: nat, room: int)
    ensures !Fits(Node([], OWN_REFERENCE), refs, OWN_REFERENCE, room)
  {
    hide IsSub, IsTarget, Key;
    OwnTarget(Node([], OWN_REFERENCE));
    if refs > 0 { OwnReferenceFitsNowhere(refs - 1, room - 1); }
  }

  lemma OwnReferenceIsCircular(lib: SchemaLib, v: JsonValue)
    ensures Validated(lib, v, OWN_REFERENCE) == Circular
  {
    var root := Node([], OWN_REFERENCE);
    OwnTarget(root);
    ValidatedIs(lib, v, OWN_REFERENCE);
    PlanUnfold(lib, root, v, root);
    hide *;
    var tasks := Plan(lib, root, v, root);
    FirstIsCircular(lib, root, tasks, v);
  }

  lemma FirstIsCircular(lib: SchemaLib, root: Node, tasks: seq<Task>, v: JsonValue)
    requires tasks != [] && tasks[0] == Follow(v, root)
    ensures EvalTasks(lib, root, tasks, 0, [root]) == Circular
  {
    assert root in [root];
  }
}
