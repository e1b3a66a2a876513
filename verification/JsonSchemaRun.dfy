// ValidateJsonSchemaWithRoot of src/detail/JsonSchemaValidator.hpp as it runs: short-circuiting
// loops around a chain of visited references that is pushed and popped in place.
module JsonSchemaRun {
  import opened Bytes
  import opened JsonValue
  import opened JsonSchema

  predicate NoDuplicates(chain: Chain) {
    forall i, j :: 0 <= i < j < |chain| ==> chain[i] != chain[j]
  }

  class SchemaValidator {
    const lib: SchemaLib
    const root: Node
    var chain: Chain

    constructor (lib: SchemaLib, schema: JsonValue)
      ensures this.lib == lib && root == Node([], schema) && chain == [root]
    {
      this.lib := lib;
      root := Node([], schema);
      chain := [Node([], schema)];
    }

    // Whatever is validated: the chain never holds a reference twice, it is as before on return,
    // and only the exception for a circular reference leaves it longer.
    twostate predicate ChainKept(verdict: Verdict)
      reads this
    {
      NoDuplicates(chain) && (verdict != Circular ==> chain == old(chain))
    }

    method Validate(v: JsonValue, n: Node, depth: nat) returns (verdict: Verdict)
      requires NoDuplicates(chain)
      modifies this
      ensures verdict == Eval(lib, root, v, n, depth, old(chain)) && ChainKept(verdict)
      decreases MAX_SCHEMA_DEPTH + 1 - depth, 3, 0
    {
      match n.value {
        case JBool(b) => return Of(b);
        case JObject(_) =>
          if depth > MAX_SCHEMA_DEPTH { return Reject; }
          verdict := RunTasks(Plan(lib, root, v, n), depth);
        case _ => return Accept;
      }
    }

    method RunTasks(tasks: seq<Task>, depth: nat) returns (verdict: Verdict)
      requires NoDuplicates(chain) && depth <= MAX_SCHEMA_DEPTH
      modifies this
      ensures verdict == EvalTasks(lib, root, tasks, depth, old(chain)) && ChainKept(verdict)
      decreases MAX_SCHEMA_DEPTH + 1 - depth, 2, 0
    {
      hide EvalTask;
      var i := 0;
      assert tasks[0..] == tasks;
      while i < |tasks|
        invariant 0 <= i <= |tasks| && NoDuplicates(chain) && chain == old(chain)
        invariant EvalTasks(lib, root, tasks[i..], depth, chain) == EvalTasks(lib, root, tasks, depth, chain)
      {
        assert tasks[i..][1..] == tasks[i + 1..];
        verdict := RunTask(tasks[i], depth);
        if verdict != Accept { return; }
        i := i + 1;
      }
      return Accept;
    }

    method RunTask(task: Task, depth: nat) returns (verdict: Verdict)
      requires NoDuplicates(chain) && depth <= MAX_SCHEMA_DEPTH
      modifies this
      ensures verdict == EvalTask(lib, root, task, depth, old(chain)) && ChainKept(verdict)
      decreases MAX_SCHEMA_DEPTH + 1 - depth, 1, 0
    {
      hide Eval, EvalAll, EvalAny, EvalCount;
      match task {
        case Local(ok) => return Of(ok);
        case Follow(v, target) => verdict := FollowReference(v, target, depth);
        case AllOf(pairs) => verdict := RunAll(pairs, depth);
        case AnyOf(pairs) => verdict := RunAny(pairs, depth);
        case Counted(pairs, least, most) => verdict := RunCount(pairs, least, most, depth);
        case Not(pair) =>
          verdict := Validate(pair.instance, pair.schema, depth + 1);
          if verdict != Circular { verdict := if verdict == Accept then Reject else Accept; }
        case Branch(condition, yes, no) =>
          verdict := Validate(condition.instance, condition.schema, depth + 1);
          if verdict == Circular { return; }
          var next := if verdict == Accept then yes else no;
          if next.None? { return Accept; }
          verdict := Validate(next.value.instance, next.value.schema, depth + 1);
      }
    }

    // The search of the chain, then the reference between a push and a pop.
    method FollowReference(v: JsonValue, target: Node, depth: nat) returns (verdict: Verdict)
      requires NoDuplicates(chain) && depth <= MAX_SCHEMA_DEPTH
      modifies this
      ensures verdict == EvalTask(lib, root, Follow(v, target), depth, old(chain)) && ChainKept(verdict)
      decreases MAX_SCHEMA_DEPTH + 1 - depth, 0, 0
    {
      for i := 0 to |chain|
        invariant chain == old(chain) && forall j :: 0 <= j < i ==> chain[j] != target
      {
        if chain[i] == target { return Circular; }
      }
      chain := chain + [target];
      verdict := Validate(v, target, depth + 1);
      if verdict == Circular { return; }
      chain := chain[..|chain| - 1];
      assert chain == old(chain);
    }

    method RunAll(pairs: seq<Pair>, depth: nat) returns (verdict: Verdict)
      requires NoDuplicates(chain) && depth <= MAX_SCHEMA_DEPTH
      modifies this
      ensures verdict == EvalAll(lib, root, pairs, depth, old(chain)) && ChainKept(verdict)
      decreases MAX_SCHEMA_DEPTH + 1 - depth, 0, 0
    {
      hide Eval;
      var i := 0;
      assert pairs[0..] == pairs;
      while i < |pairs|
        invariant 0 <= i <= |pairs| && NoDuplicates(chain) && chain == old(chain)
        invariant EvalAll(lib, root, pairs[i..], depth, chain) == EvalAll(lib, root, pairs, depth, chain)
      {
        assert pairs[i..][1..] == pairs[i + 1..];
        verdict := Validate(pairs[i].instance, pairs[i].schema, depth + 1);
        if verdict != Accept { return; }
        i := i + 1;
      }
      return Accept;
    }

    method RunAny(pairs: seq<Pair>, depth: nat) returns (verdict: Verdict)
      requires NoDuplicates(chain) && depth <= MAX_SCHEMA_DEPTH
      modifies this
      ensures verdict == EvalAny(lib, root, pairs, depth, old(chain)) && ChainKept(verdict)
      decreases MAX_SCHEMA_DEPTH + 1 - depth, 0, 0
    {
      hide Eval;
      var i := 0;
      assert pairs[0..] == pairs;
      while i < |pairs|
        invariant 0 <= i <= |pairs| && NoDuplicates(chain) && chain == old(chain)
        invariant EvalAny(lib, root, pairs[i..], depth, chain) == EvalAny(lib, root, pairs, depth, chain)
      {
        assert pairs[i..][1..] == pairs[i + 1..];
        verdict := Validate(pairs[i].instance, pairs[i].schema, depth + 1);
        if verdict != Reject { return; }
        i := i + 1;
      }
      return Reject;
    }

    method RunCount(pairs: seq<Pair>, least: nat, most: nat, depth: nat) returns (verdict: Verdict)
      requires NoDuplicates(chain) && depth <= MAX_SCHEMA_DEPTH
      modifies this
      ensures verdict == EvalCount(lib, root, pairs, 0, least, most, depth, old(chain)) && ChainKept(verdict)
      decreases MAX_SCHEMA_DEPTH + 1 - depth, 0, 0
    {
      hide Eval;
      var i, matched: nat := 0, 0;
      assert pairs[0..] == pairs;
      while i < |pairs|
        invariant 0 <= i <= |pairs| && NoDuplicates(chain) && chain == old(chain)
        invariant EvalCount(lib, root, pairs[i..], matched, least, most, depth, chain) ==
                  EvalCount(lib, root, pairs, 0, least, most, depth, chain)
      {
        assert pairs[i..][1..] == pairs[i + 1..];
        verdict := Validate(pairs[i].instance, pairs[i].schema, depth + 1);
        if verdict == Circular { return; }
        if verdict == Accept { matched := matched + 1; }
        i := i + 1;
      }
      return Of(least <= matched <= most);
    }
  }

  method ValidateJsonSchema(lib: SchemaLib, v: JsonValue, schema: JsonValue) returns (verdict: Verdict)
    ensures verdict == Validated(lib, v, schema)
  {
    var validator := new SchemaValidator(lib, schema);
    verdict := validator.Validate(v, validator.root, 0);
  }

  // Utf8CodePointLength
  method CodePointLength(text: bytes) returns (count: nat)
    ensures count == CodePoints(text, 0)
  {
    count := 0;
    var i := 0;
    while i < |text|
      invariant count + CodePoints(text, i) == CodePoints(text, 0)
      decreases |text| - i
    {
      i := i + Width(text[i]);
      count := count + 1;
    }
  }

  // ---- What the chain is for ------------------------------------------------------------------------

  predicate Within(small: Chain, large: Chain) {
    forall n :: n in small ==> n in large
  }

  // The chain never changes a verdict: whatever is accepted or rejected with some references
  // already visited is accepted or rejected with fewer of them.
  lemma {:induction false} ChainOnlyRefuses(lib: SchemaLib, root: Node, v: JsonValue, n: Node, depth: nat, small: Chain,
                                            large: Chain)
    requires Within(small, large) && Eval(lib, root, v, n, depth, large) != Circular
    ensures Eval(lib, root, v, n, depth, small) == Eval(lib, root, v, n, depth, large)
    decreases MAX_SCHEMA_DEPTH + 1 - depth, 3, 0
  {
    hide Plan, EvalTasks;
    if n.value.JObject? && depth <= MAX_SCHEMA_DEPTH {
      TasksOnlyRefused(lib, root, Plan(lib, root, v, n), depth, small, large);
    }
  }

  lemma {:induction false} TasksOnlyRefused(lib: SchemaLib, root: Node, tasks: seq<Task>, depth: nat, small: Chain,
                                            large: Chain)
    requires Within(small, large) && depth <= MAX_SCHEMA_DEPTH && EvalTasks(lib, root, tasks, depth, large) != Circular
    ensures EvalTasks(lib, root, tasks, depth, small) == EvalTasks(lib, root, tasks, depth, large)
    decreases MAX_SCHEMA_DEPTH + 1 - depth, 2, |tasks|
  {
    hide EvalTask;
    if tasks != [] {
      TaskOnlyRefused(lib, root, tasks[0], depth, small, large);
      if EvalTask(lib, root, tasks[0], depth, large) == Accept {
        TasksOnlyRefused(lib, root, tasks[1..], depth, small, large);
      }
    }
  }

  lemma {:induction false} TaskOnlyRefused(lib: SchemaLib, root: Node, task: Task, depth: nat, small: Chain,
                                           large: Chain)
    requires Within(small, large) && depth <= MAX_SCHEMA_DEPTH && EvalTask(lib, root, task, depth, large) != Circular
    ensures EvalTask(lib, root, task, depth, small) == EvalTask(lib, root, task, depth, large)
    decreases MAX_SCHEMA_DEPTH + 1 - depth, 1, 0
  {
    hide Eval, EvalAll, EvalAny, EvalCount;
    match task {
      case Local(_) =>
      case Follow(v, target) => ChainOnlyRefuses(lib, root, v, target, depth + 1, small + [target], large + [target]);
      case AllOf(pairs) => AllOnlyRefused(lib, root, pairs, depth, small, large);
      case AnyOf(pairs) => AnyOnlyRefused(lib, root, pairs, depth, small, large);
      case Counted(pairs, least, most) => CountOnlyRefused(lib, root, pairs, 0, least, most, depth, small, large);
      case Not(pair) => PairOnlyRefused(lib, root, pair, depth, small, large);
      case Branch(condition, yes, no) =>
        PairOnlyRefused(lib, root, condition, depth, small, large);
        if EvalPair(lib, root, condition, depth, large) == Accept {
          if yes.Some? { PairOnlyRefused(lib, root, yes.value, depth, small, large); }
        } else {
          if no.Some? { PairOnlyRefused(lib, root, no.value, depth, small, large); }
        }
    }
  }

  lemma PairOnlyRefused(lib: SchemaLib, root: Node, pair: Pair, depth: nat, small: Chain, large: Chain)
    requires Within(small, large) && depth <= MAX_SCHEMA_DEPTH && EvalPair(lib, root, pair, depth, large) != Circular
    ensures EvalPair(lib, root, pair, depth, small) == EvalPair(lib, root, pair, depth, large)
    decreases MAX_SCHEMA_DEPTH + 1 - depth, 0, 0
  {
    hide Eval;
    ChainOnlyRefuses(lib, root, pair.instance, pair.schema, depth + 1, small, large);
  }

  lemma {:induction false} AllOnlyRefused(lib: SchemaLib, root: Node, pairs: seq<Pair>, depth: nat, small: Chain,
                                          large: Chain)
    requires Within(small, large) && depth <= MAX_SCHEMA_DEPTH && EvalAll(lib, root, pairs, depth, large) != Circular
    ensures EvalAll(lib, root, pairs, depth, small) == EvalAll(lib, root, pairs, depth, large)
    decreases MAX_SCHEMA_DEPTH + 1 - depth, 0, |pairs| + 1
  {
    hide EvalPair;
    if pairs != [] {
      PairOnlyRefused(lib, root, pairs[0], depth, small, large);
      if EvalPair(lib, root, pairs[0], depth, large) == Accept {
        AllOnlyRefused(lib, root, pairs[1..], depth, small, large);
      }
    }
  }

  lemma {:induction false} AnyOnlyRefused(lib: SchemaLib, root: Node, pairs: seq<Pair>, depth: nat, small: Chain,
                                          large: Chain)
    requires Within(small, large) && depth <= MAX_SCHEMA_DEPTH && EvalAny(lib, root, pairs, depth, large) != Circular
    ensures EvalAny(lib, root, pairs, depth, small) == EvalAny(lib, root, pairs, depth, large)
    decreases MAX_SCHEMA_DEPTH + 1 - depth, 0, |pairs| + 1
  {
    hide EvalPair;
    if pairs != [] {
      PairOnlyRefused(lib, root, pairs[0], depth, small, large);
      if EvalPair(lib, root, pairs[0], depth, large) == Reject {
        AnyOnlyRefused(lib, root, pairs[1..], depth, small, large);
      }
    }
  }

  lemma {:induction false} CountOnlyRefused(lib: SchemaLib, root: Node, pairs: seq<Pair>, matched: nat, least: nat,
                                            most: nat, depth: nat, small: Chain, large: Chain)
    requires Within(small, large) && depth <= MAX_SCHEMA_DEPTH
    requires EvalCount(lib, root, pairs, matched, least, most, depth, large) != Circular
    ensures EvalCount(lib, root, pairs, matched, least, most, depth, small) ==
            EvalCount(lib, root, pairs, matched, least, most, depth, large)
    decreases MAX_SCHEMA_DEPTH + 1 - depth, 0, |pairs| + 1
  {
    hide EvalPair;
    if pairs != [] {
      PairOnlyRefused(lib, root, pairs[0], depth, small, large);
      var next := if EvalPair(lib, root, pairs[0], depth, large) == Accept then matched + 1 else matched;
      CountOnlyRefused(lib, root, pairs[1..], next, least, most, depth, small, large);
    }
  }
}
