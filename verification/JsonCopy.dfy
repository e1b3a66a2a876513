// The copy constructor and the destructor of src/core/JsonValue.cpp: both walk the tree with an
// explicit stack, so that deep values need no deep recursion. A pointer into the copy is the path
// of child positions that leads to it.
module JsonCopy {
  import opened Bytes
  import opened JsonValue

  type Path = seq<nat>

  // ---- Trees and places in them -------------------------------------------------------------------

  function Children(v: JsonValue): seq<JsonValue> {
    match v
    case JArray(items) => items
    case JObject(members) => seq(|members|, i requires 0 <= i < |members| => members[i].value)
    case _ => []
  }

  // The same node with other children.
  function WithChildren(v: JsonValue, children: seq<JsonValue>): JsonValue
    requires |children| == |Children(v)|
  {
    match v
    case JArray(_) => JArray(children)
    case JObject(members) =>
      JObject(seq(|members|, i requires 0 <= i < |members| => Member(members[i].key, children[i])))
    case _ => v
  }

  lemma ChildrenOfWith(v: JsonValue, children: seq<JsonValue>)
    requires |children| == |Children(v)|
    ensures Children(WithChildren(v, children)) == children
    ensures WithChildren(v, Children(v)) == v
    ensures forall more :: |more| == |children| ==>
            WithChildren(WithChildren(v, children), more) == WithChildren(v, more)
  {
    match v {
      case JObject(members) =>
        assert Children(WithChildren(v, children)) == children;
        assert WithChildren(v, Children(v)).members == members;
        forall more: seq<JsonValue> | |more| == |children|
          ensures WithChildren(WithChildren(v, children), more) == WithChildren(v, more)
        {
          assert WithChildren(WithChildren(v, children), more).members == WithChildren(v, more).members;
        }
      case _ =>
    }
  }

  // *dst = x, for the place `path`.
  function Put(t: JsonValue, path: Path, x: JsonValue): JsonValue
    decreases |path|
  {
    if path == [] then x
    else if path[0] < |Children(t)| then
      WithChildren(t, Children(t)[path[0] := Put(Children(t)[path[0]], path[1..], x)])
    else t
  }

  predicate IsPlace(t: JsonValue, path: Path)
    decreases |path|
  {
    path == [] || (path[0] < |Children(t)| && IsPlace(Children(t)[path[0]], path[1..]))
  }

  lemma PutFirst(t: JsonValue, path: Path, x: JsonValue)
    ensures path == [] ==> Put(t, path, x) == x
    ensures path != [] && path[0] < |Children(t)| ==>
              Put(t, path, x) == WithChildren(t, Children(t)[path[0] := Put(Children(t)[path[0]], path[1..], x)])
    ensures path != [] && IsPlace(t, path) ==> path[0] < |Children(t)| && IsPlace(Children(t)[path[0]], path[1..])
  {
    hide Children, WithChildren;
  }

  // Writing below a place that was just written.
  lemma {:induction false} PutBelow(t: JsonValue, path: Path, x: JsonValue, i: nat, c: JsonValue)
    requires IsPlace(t, path) && i < |Children(x)|
    ensures Put(Put(t, path, x), path + [i], c) == Put(t, path, WithChildren(x, Children(x)[i := c]))
    decreases |path|
  {
    hide Children, WithChildren, Put, IsPlace;
    PutFirst(t, path, x);
    PutFirst(t, path, WithChildren(x, Children(x)[i := c]));
    if path == [] {
      assert path + [i] == [i] && [i][1..] == [];
      PutFirst(x, [i], c);
      PutFirst(Children(x)[i], [], c);
    } else {
      var k := path[0];
      var below := Put(Children(t)[k], path[1..], x);
      ChildrenOfWith(t, Children(t)[k := below]);
      assert (path + [i])[0] == k && (path + [i])[1..] == path[1..] + [i];
      PutBelow(Children(t)[k], path[1..], x, i, c);
      var deeper := Put(below, path[1..] + [i], c);
      PutFirst(Put(t, path, x), path + [i], c);
      assert Children(t)[k := below][k := deeper] == Children(t)[k := deeper];
    }
  }

  lemma {:induction false} PlaceStays(t: JsonValue, path: Path, x: JsonValue)
    requires IsPlace(t, path)
    ensures IsPlace(Put(t, path, x), path)
    decreases |path|
  {
    if path != [] {
      var k := path[0];
      PlaceStays(Children(t)[k], path[1..], x);
      ChildrenOfWith(t, Children(t)[k := Put(Children(t)[k], path[1..], x)]);
    }
  }

  function Nodes(v: JsonValue): nat
    decreases v, 1
  {
    match v
    case JArray(items) => 1 + NodesOf(items)
    case JObject(members) => 1 + MemberNodes(members)
    case _ => 1
  }

  function NodesOf(vs: seq<JsonValue>): nat
    decreases vs, 0
  {
    if vs == [] then 0 else NodesOf(vs[..|vs| - 1]) + Nodes(vs[|vs| - 1])
  }

  function MemberNodes(ms: seq<Member>): nat
    decreases ms, 0
  {
    if ms == [] then 0 else MemberNodes(ms[..|ms| - 1]) + Nodes(ms[|ms| - 1].value)
  }

  lemma {:induction false} MemberNodesAre(ms: seq<Member>)
    ensures NodesOf(seq(|ms|, i requires 0 <= i < |ms| => ms[i].value)) == MemberNodes(ms)
  {
    if ms != [] {
      var vs := seq(|ms|, i requires 0 <= i < |ms| => ms[i].value);
      var front := ms[..|ms| - 1];
      assert vs[..|vs| - 1] == seq(|front|, i requires 0 <= i < |front| => front[i].value);
      MemberNodesAre(front);
    }
  }

  lemma NodesOfChildren(v: JsonValue)
    ensures Nodes(v) == 1 + NodesOf(Children(v))
  {
    if v.JObject? { MemberNodesAre(v.members); }
  }

  // ---- Walking over all places with a stack ---------------------------------------------------------

  // The place `p` lies at or below `at`, where `node` stands.
  predicate Below(at: Path, node: JsonValue, p: Path) {
    at <= p && IsPlace(node, p[|at|..])
  }

  predicate Waits(places: seq<Path>, stack: seq<JsonValue>, p: Path)
    requires |places| == |stack|
  {
    exists i :: 0 <= i < |stack| && Below(places[i], stack[i], p)
  }

  // What has been visited and what waits on the stack are together the whole value, each place once.
  ghost predicate Halfway(v: JsonValue, visited: seq<Path>, places: seq<Path>, stack: seq<JsonValue>) {
    && |places| == |stack|
    && (forall p :: IsPlace(v, p) <==> p in visited || Waits(places, stack, p))
    && (forall i, j :: 0 <= i < j < |visited| ==> visited[i] != visited[j])
    && (forall i, p :: 0 <= i < |stack| && p in visited ==> !Below(places[i], stack[i], p))
    && (forall i, j :: 0 <= i < j < |places| ==> Apart(places[i], places[j]))
  }

  ghost function ChildPlaces(at: Path, n: nat): seq<Path> {
    seq(n, i requires 0 <= i < n => at + [i])
  }

  lemma BelowChildren(at: Path, node: JsonValue, p: Path)
    ensures Below(at, node, p) <==>
            p == at || exists i :: 0 <= i < |Children(node)| && Below(at + [i], Children(node)[i], p)
  {
    hide Children;
    if Below(at, node, p) && p != at {
      var q := p[|at|..];
      assert q != [] && p == at + q && at + [q[0]] <= p && p[|at + [q[0]]|..] == q[1..];
      assert Below(at + [q[0]], Children(node)[q[0]], p);
    }
    forall i | 0 <= i < |Children(node)| && Below(at + [i], Children(node)[i], p) ensures Below(at, node, p) {
      var q := p[|at|..];
      assert p[|at|] == (at + [i])[|at|] == i && q[0] == i && q[1..] == p[|at + [i]|..];
    }
  }

  lemma NotBelowChild(at: Path, node: JsonValue, i: nat, p: Path)
    requires i < |Children(node)|
    ensures Below(at + [i], Children(node)[i], p) ==> Below(at, node, p)
  {
    BelowChildren(at, node, p);
    hide Below, Children;
  }

  lemma NotBelowLonger(at: Path, i: nat, node: JsonValue)
    ensures !Below(at + [i], node, at)
  {
    hide IsPlace;
    assert |at + [i]| > |at|;
  }

  lemma BelowIsNotApart(at: Path, node: JsonValue, p: Path)
    ensures Below(at, node, p) ==> !Apart(at, p)
  {
    hide IsPlace;
  }

  lemma WalkStep(v: JsonValue, visited: seq<Path>, places: seq<Path>, stack: seq<JsonValue>)
    requires stack != [] && Halfway(v, visited, places, stack)
    ensures var n := |stack| - 1;
            Halfway(v, visited + [places[n]], places[..n] + ChildPlaces(places[n], |Children(stack[n])|),
                    stack[..n] + Children(stack[n]))
  {
    hide Children, IsPlace, Below, Apart, Waits;
    var n := |stack| - 1;
    var at, node := places[n], stack[n];
    var below := Children(node);
    var visited', places', stack' := visited + [at], places[..n] + ChildPlaces(at, |below|), stack[..n] + below;
    forall p ensures Below(at, node, p) <==> p == at || exists i :: 0 <= i < |below| && Below(at + [i], below[i], p) {
      BelowChildren(at, node, p);
    }
    Partition(places, stack, at, node, places', stack');
    assert Below(places[n], stack[n], at);
    assert at !in visited && forall p :: p in visited' <==> p in visited || p == at;
    forall i | 0 <= i < n ensures Apart(places[i], at) { ApartSwaps(places[i], at); }
    forall i | 0 <= i < |stack'| ensures !Below(places'[i], stack'[i], at) {
      if i < n { BelowIsNotApart(places[i], stack[i], at); } else { NotBelowLonger(at, i - n, stack'[i]); }
    }
    forall i, p | 0 <= i < |stack'| && p in visited ensures !Below(places'[i], stack'[i], p) {
      if i >= n { NotBelowChild(at, node, i - n, p); }
    }
    forall i, j | 0 <= i < j < |places'| ensures Apart(places'[i], places'[j]) {
      if i >= n {
        SiblingsApart(at, i - n, j - n);
      } else if j >= n {
        BelowIsApart(places[i], at, j - n);
      }
    }
  }

  lemma Partition(places: seq<Path>, stack: seq<JsonValue>, at: Path, node: JsonValue, places': seq<Path>,
                  stack': seq<JsonValue>)
    requires stack != [] && |places| == |stack| && at == places[|stack| - 1] && node == stack[|stack| - 1]
    requires places' == places[..|stack| - 1] + ChildPlaces(at, |Children(node)|)
             && stack' == stack[..|stack| - 1] + Children(node)
    ensures forall p :: Waits(places, stack, p) <==> p == at || Waits(places', stack', p)
  {
    hide Children, IsPlace, Below;
    var n, below := |stack| - 1, Children(node);
    forall p ensures Waits(places, stack, p) <==> p == at || Waits(places', stack', p) {
      BelowChildren(at, node, p);
      if i :| 0 <= i < |stack| && Below(places[i], stack[i], p) {
        if i < n {
          assert Below(places'[i], stack'[i], p);
        } else if p != at {
          var k :| 0 <= k < |below| && Below(at + [k], below[k], p);
          assert Below(places'[n + k], stack'[n + k], p);
        }
      }
      if p == at { assert Below(places[n], stack[n], p); }
      if i :| 0 <= i < |stack'| && Below(places'[i], stack'[i], p) {
        if i < n { assert Below(places[i], stack[i], p); } else { assert Below(at + [i - n], below[i - n], p); }
      }
    }
  }

  lemma WalkStarts(v: JsonValue)
    ensures Halfway(v, [[]], ChildPlaces([], |Children(v)|), Children(v))
  {
    hide Children, IsPlace;
    var root: Path, places: seq<Path>, nothing: seq<Path> := [], [[]], [];
    forall p ensures Below(root, v, p) <==> IsPlace(v, p) { assert p[|root|..] == p; }
    hide Below;
    assert places[0] == root && [v][0] == v;
    assert Halfway(v, nothing, places, [v]);
    WalkStep(v, nothing, places, [v]);
    var below := ChildPlaces(root, |Children(v)|);
    assert [v][..0] + Children(v) == Children(v) && places[..0] + below == below && nothing + [root] == [root];
  }

  lemma AsManyPlaces(v: JsonValue, visited: seq<Path>, places: seq<Path>, stack: seq<JsonValue>)
    requires Halfway(v, visited, places, stack)
    ensures |places| == |stack|
  {
  }

  lemma AllVisited(v: JsonValue, visited: seq<Path>, places: seq<Path>)
    requires Halfway(v, visited, places, [])
    ensures forall p :: p in visited <==> IsPlace(v, p)
    ensures forall i, j :: 0 <= i < j < |visited| ==> visited[i] != visited[j]
  {
    hide IsPlace, Below;
  }

  // ---- The copy constructor -------------------------------------------------------------------------

  datatype Work = Work(src: JsonValue, dst: Path)

  function Nulls(n: nat): seq<JsonValue> {
    seq(n, _ => JNull)
  }

  // What a visited node becomes at first: itself with null children.
  function Shell(v: JsonValue): JsonValue {
    WithChildren(v, Nulls(|Children(v)|))
  }

  function ChildWork(v: JsonValue, path: Path, n: nat): seq<Work>
    requires n <= |Children(v)|
  {
    seq(n, i requires 0 <= i < n => Work(Children(v)[i], path + [i]))
  }

  // The tree once everything on the stack has been copied to its place, top first.
  function Filled(t: JsonValue, stack: seq<Work>): JsonValue
    decreases |stack|
  {
    if stack == [] then t
    else Filled(Put(t, stack[|stack| - 1].dst, stack[|stack| - 1].src), stack[..|stack| - 1])
  }

  // The shell of `v` with the children from `n` on in place.
  function Partial(v: JsonValue, n: nat): JsonValue
    requires n <= |Children(v)|
  {
    WithChildren(v, Nulls(n) + Children(v)[n..])
  }

  lemma PartialStep(v: JsonValue, n: nat)
    requires n < |Children(v)|
    ensures |Children(Partial(v, n + 1))| == |Children(v)|
    ensures WithChildren(Partial(v, n + 1), Children(Partial(v, n + 1))[n := Children(v)[n]]) == Partial(v, n)
  {
    var cs := Nulls(n + 1) + Children(v)[n + 1..];
    ChildrenOfWith(v, cs);
    assert cs[n := Children(v)[n]] == Nulls(n) + Children(v)[n..];
  }

  // Copying the children into a shell gives the value.
  lemma {:induction false} ChildrenFill(t: JsonValue, path: Path, v: JsonValue, n: nat, rest: seq<Work>)
    requires IsPlace(t, path) && n <= |Children(v)|
    ensures Filled(Put(t, path, Partial(v, n)), rest + ChildWork(v, path, n)) == Filled(Put(t, path, v), rest)
  {
    hide Put, IsPlace, Children, WithChildren, Filled;
    if n == 0 {
      WholeIsPartial(v);
      assert rest + ChildWork(v, path, 0) == rest;
    } else {
      var stack := rest + ChildWork(v, path, n);
      assert stack[..|stack| - 1] == rest + ChildWork(v, path, n - 1);
      assert stack[|stack| - 1] == Work(Children(v)[n - 1], path + [n - 1]);
      PartialStep(v, n - 1);
      hide Partial, ChildWork;
      PutBelow(t, path, Partial(v, n), n - 1, Children(v)[n - 1]);
      FilledTop(Put(t, path, Partial(v, n)), stack);
      ChildrenFill(t, path, v, n - 1, rest);
    }
  }

  lemma WholeIsPartial(v: JsonValue)
    ensures Partial(v, 0) == v
  {
    ChildrenOfWith(v, Children(v));
    assert Nulls(0) + Children(v)[0..] == Children(v);
  }

  lemma ShellIsPartial(v: JsonValue)
    ensures Shell(v) == Partial(v, |Children(v)|)
  {
    assert Nulls(|Children(v)|) + Children(v)[|Children(v)|..] == Nulls(|Children(v)|);
  }

  predicate AllPlaces(t: JsonValue, stack: seq<Work>) {
    forall i :: 0 <= i < |stack| ==> IsPlace(t, stack[i].dst)
  }

  // Places that do not lie below the written one stay places; so do the children of a shell.
  predicate Apart(a: Path, b: Path) {
    !(a <= b) && !(b <= a)
  }

  lemma {:induction false} ApartPlaceStays(t: JsonValue, path: Path, x: JsonValue, other: Path)
    requires IsPlace(t, path) && IsPlace(t, other) && Apart(path, other)
    ensures IsPlace(Put(t, path, x), other)
    decreases |path|
  {
    hide Children, WithChildren, Put;
    var k := path[0];
    PutFirst(t, path, x);
    ChildrenOfWith(t, Children(t)[k := Put(Children(t)[k], path[1..], x)]);
    if other[0] == k {
      assert path == [k] + path[1..] && other == [k] + other[1..];
      ApartPlaceStays(Children(t)[k], path[1..], x, other[1..]);
    }
  }

  lemma {:induction false} ChildPlace(t: JsonValue, path: Path, x: JsonValue, i: nat)
    requires IsPlace(t, path) && i < |Children(x)|
    ensures IsPlace(Put(t, path, x), path + [i])
    decreases |path|
  {
    if path == [] {
      assert path + [i] == [i] && [i][1..] == [];
    } else {
      var k := path[0];
      ChildrenOfWith(t, Children(t)[k := Put(Children(t)[k], path[1..], x)]);
      assert (path + [i])[0] == k && (path + [i])[1..] == path[1..] + [i];
      ChildPlace(Children(t)[k], path[1..], x, i);
    }
  }

  // No two entries of the stack write into each other's place.
  predicate Independent(stack: seq<Work>) {
    forall i, j :: 0 <= i < j < |stack| ==> Apart(stack[i].dst, stack[j].dst)
  }

  function SourceNodes(stack: seq<Work>): nat {
    if stack == [] then 0 else SourceNodes(stack[..|stack| - 1]) + Nodes(stack[|stack| - 1].src)
  }

  lemma {:induction false} PushedNodes(rest: seq<Work>, v: JsonValue, path: Path, n: nat)
    requires n <= |Children(v)|
    ensures SourceNodes(rest + ChildWork(v, path, n)) == SourceNodes(rest) + NodesOf(Children(v)[..n])
  {
    var stack := rest + ChildWork(v, path, n);
    if n == 0 {
      assert stack == rest;
    } else {
      assert stack[..|stack| - 1] == rest + ChildWork(v, path, n - 1);
      PushedNodes(rest, v, path, n - 1);
      assert Children(v)[..n][..n - 1] == Children(v)[..n - 1];
    }
  }

  // One visit: the invariants of the loop after the node on top is replaced by its shell.
  lemma Visit(t: JsonValue, stack: seq<Work>)
    requires stack != [] && AllPlaces(t, stack) && Independent(stack)
    ensures var top, rest := stack[|stack| - 1], stack[..|stack| - 1];
            var t', stack' := Put(t, top.dst, Shell(top.src)), rest + ChildWork(top.src, top.dst, |Children(top.src)|);
            && Filled(t', stack') == Filled(t, stack)
            && AllPlaces(t', stack') && Independent(stack')
            && SourceNodes(stack') + 1 == SourceNodes(stack)
  {
    hide Put, IsPlace, Filled, Nodes, NodesOf, SourceNodes, Partial, Shell, Children;
    var top, rest := stack[|stack| - 1], stack[..|stack| - 1];
    var v, n := top.src, |Children(top.src)|;
    var t', stack' := Put(t, top.dst, Shell(v)), rest + ChildWork(v, top.dst, n);
    ShellIsPartial(v);
    ChildrenFill(t, top.dst, v, n, rest);
    FilledTop(t, stack);
    VisitPlaces(t, stack);
    PushedNodes(rest, v, top.dst, n);
    assert Children(v)[..n] == Children(v);
    NodesOfChildren(v);
    NodesOfTop(stack);
  }

  lemma FilledTop(t: JsonValue, stack: seq<Work>)
    requires stack != []
    ensures Filled(t, stack) == Filled(Put(t, stack[|stack| - 1].dst, stack[|stack| - 1].src), stack[..|stack| - 1])
  {
  }

  lemma NodesOfTop(stack: seq<Work>)
    requires stack != []
    ensures SourceNodes(stack) == SourceNodes(stack[..|stack| - 1]) + Nodes(stack[|stack| - 1].src)
  {
  }

  lemma VisitPlaces(t: JsonValue, stack: seq<Work>)
    requires stack != [] && AllPlaces(t, stack) && Independent(stack)
    ensures var top, rest := stack[|stack| - 1], stack[..|stack| - 1];
            var stack' := rest + ChildWork(top.src, top.dst, |Children(top.src)|);
            AllPlaces(Put(t, top.dst, Shell(top.src)), stack') && Independent(stack')
  {
    hide *;
    var top, rest := stack[|stack| - 1], stack[..|stack| - 1];
    var n := |Children(top.src)|;
    StackPlaces(t, stack, top.src, n);
    ShellHasChildren(top.src);
    StackIndependent(stack, top.src, n);
  }

  lemma StackPlaces(t: JsonValue, stack: seq<Work>, v: JsonValue, n: nat)
    requires stack != [] && AllPlaces(t, stack) && Independent(stack) && n == |Children(v)|
    ensures AllPlaces(Put(t, stack[|stack| - 1].dst, Shell(v)),
                      stack[..|stack| - 1] + ChildWork(v, stack[|stack| - 1].dst, n))
  {
    hide Put, IsPlace, Shell, Children, Independent;
    var path, rest := stack[|stack| - 1].dst, stack[..|stack| - 1];
    var t', stack' := Put(t, path, Shell(v)), rest + ChildWork(v, path, n);
    ShellHasChildren(v);
    forall i | 0 <= i < |stack'| ensures IsPlace(t', stack'[i].dst) {
      if i < |rest| { PlaceKept(t, stack, i, Shell(v)); } else { ChildPlace(t, path, Shell(v), i - |rest|); }
    }
  }

  lemma StackIndependent(stack: seq<Work>, v: JsonValue, n: nat)
    requires stack != [] && Independent(stack) && n == |Children(v)|
    ensures Independent(stack[..|stack| - 1] + ChildWork(v, stack[|stack| - 1].dst, n))
  {
    hide Children, Apart;
    var path, rest := stack[|stack| - 1].dst, stack[..|stack| - 1];
    var stack' := rest + ChildWork(v, path, n);
    forall i, j | 0 <= i < j < |stack'| ensures Apart(stack'[i].dst, stack'[j].dst) {
      if j < |rest| {
        assert stack[i] == stack'[i] && stack[j] == stack'[j];
      } else if i < |rest| {
        BelowIsApart(stack[i].dst, path, j - |rest|);
      } else {
        SiblingsApart(path, i - |rest|, j - |rest|);
      }
    }
  }

  lemma PlaceKept(t: JsonValue, stack: seq<Work>, i: nat, x: JsonValue)
    requires i < |stack| - 1 && AllPlaces(t, stack) && Independent(stack)
    ensures IsPlace(Put(t, stack[|stack| - 1].dst, x), stack[i].dst)
  {
    hide IsPlace, Put, Apart;
    ApartSwaps(stack[i].dst, stack[|stack| - 1].dst);
    ApartPlaceStays(t, stack[|stack| - 1].dst, x, stack[i].dst);
  }

  lemma ShellHasChildren(v: JsonValue)
    ensures |Children(Shell(v))| == |Children(v)|
  {
    ChildrenOfWith(v, Nulls(|Children(v)|));
  }

  lemma ApartSwaps(a: Path, b: Path)
    ensures Apart(a, b) <==> Apart(b, a)
  {
  }

  lemma BelowIsApart(a: Path, b: Path, i: nat)
    requires Apart(a, b)
    ensures Apart(a, b + [i])
  {
    Prefixes(a, b, i);
  }

  lemma Prefixes(a: Path, b: Path, i: nat)
    ensures a <= b + [i] ==> a <= b || b <= a
    ensures b + [i] <= a ==> b <= a
  {
    if a <= b + [i] {
      if |a| <= |b| { assert a == (b + [i])[..|a|] == b[..|a|]; } else { assert a == b + [i] && b == a[..|b|]; }
    }
    if b + [i] <= a { assert b == (b + [i])[..|b|] == a[..|b|]; }
  }

  lemma SiblingsApart(path: Path, i: nat, j: nat)
    requires i != j
    ensures Apart(path + [i], path + [j])
  {
    assert (path + [i])[|path|] == i && (path + [j])[|path|] == j;
  }

  // The copy equals its source, and the visited places are all places of the source, each once.
  method Copy(other: JsonValue) returns (copy: JsonValue, ghost visited: seq<Path>)
    ensures copy == other && |visited| == Nodes(other)
    ensures forall p :: p in visited <==> IsPlace(other, p)
    ensures forall i, j :: 0 <= i < j < |visited| ==> visited[i] != visited[j]
  {
    hide Put, IsPlace, Filled, Nodes, NodesOf, SourceNodes, Shell, Children, AllPlaces, Independent, ChildWork, Targets,
         Sources, Halfway;
    StartVisit(other);
    visited := [[]];
    if !other.JArray? && !other.JObject? {
      OnlyRoot(other);
      return other, visited;
    }
    copy := Shell(other);
    var stack := ChildWork(other, [], |Children(other)|);
    while stack != []
      invariant Filled(copy, stack) == other
      invariant AllPlaces(copy, stack) && Independent(stack)
      invariant |visited| + SourceNodes(stack) == Nodes(other)
      invariant Halfway(other, visited, Targets(stack), Sources(stack))
      decreases SourceNodes(stack)
    {
      Visit(copy, stack);
      VisitWalks(other, visited, stack);
      var work := stack[|stack| - 1];
      stack := stack[..|stack| - 1];
      visited := visited + [work.dst];
      copy := Put(copy, work.dst, Shell(work.src));
      stack := stack + ChildWork(work.src, work.dst, |Children(work.src)|);
    }
    NothingLeft(copy);
    AllVisited(other, visited, []);
  }

  function Targets(stack: seq<Work>): seq<Path> {
    seq(|stack|, i requires 0 <= i < |stack| => stack[i].dst)
  }

  function Sources(stack: seq<Work>): seq<JsonValue> {
    seq(|stack|, i requires 0 <= i < |stack| => stack[i].src)
  }

  // The copy walks over its source as the destructor does.
  lemma VisitWalks(v: JsonValue, visited: seq<Path>, stack: seq<Work>)
    requires stack != [] && Halfway(v, visited, Targets(stack), Sources(stack))
    ensures var top := stack[|stack| - 1];
            var stack' := stack[..|stack| - 1] + ChildWork(top.src, top.dst, |Children(top.src)|);
            Halfway(v, visited + [top.dst], Targets(stack'), Sources(stack'))
  {
    hide Halfway, Children;
    var n := |stack| - 1;
    var top := stack[n];
    var stack' := stack[..n] + ChildWork(top.src, top.dst, |Children(top.src)|);
    WalkStep(v, visited, Targets(stack), Sources(stack));
    assert Targets(stack') == Targets(stack)[..n] + ChildPlaces(top.dst, |Children(top.src)|);
    assert Sources(stack') == Sources(stack)[..n] + Children(top.src);
  }

  lemma StartVisit(other: JsonValue)
    ensures var stack := ChildWork(other, [], |Children(other)|);
            && Filled(Shell(other), stack) == other && AllPlaces(Shell(other), stack) && Independent(stack)
            && 1 + SourceNodes(stack) == Nodes(other)
            && Halfway(other, [[]], Targets(stack), Sources(stack))
  {
    StartFill(other);
    hide *;
    WalkStarts(other);
    FirstWork(other);
  }

  lemma StartFill(other: JsonValue)
    ensures var stack := ChildWork(other, [], |Children(other)|);
            && Filled(Shell(other), stack) == other && AllPlaces(Shell(other), stack) && Independent(stack)
            && 1 + SourceNodes(stack) == Nodes(other)
  {
    hide Nodes, NodesOf, Shell, Children;
    var start := [Work(other, [])];
    assert start[..0] == [];
    Visit(JNull, start);
    assert [] + ChildWork(other, [], |Children(other)|) == ChildWork(other, [], |Children(other)|);
  }

  lemma FirstWork(v: JsonValue)
    ensures var stack := ChildWork(v, [], |Children(v)|);
            Targets(stack) == ChildPlaces([], |Children(v)|) && Sources(stack) == Children(v)
  {
    hide Children;
  }

  lemma OnlyRoot(v: JsonValue)
    requires !v.JArray? && !v.JObject?
    ensures Nodes(v) == 1 && forall p :: IsPlace(v, p) <==> p == []
  {
  }

  lemma NothingLeft(t: JsonValue)
    ensures Filled(t, []) == t && SourceNodes([]) == 0 && Targets([]) == [] && Sources([]) == []
  {
  }

  // ---- The destructor -------------------------------------------------------------------------------

  // Every node is taken off the stack exactly once, and nothing is left behind.
  method Destroy(v: JsonValue) returns (ghost destroyed: seq<Path>)
    ensures forall p :: p in destroyed <==> IsPlace(v, p)
    ensures forall i, j :: 0 <= i < j < |destroyed| ==> destroyed[i] != destroyed[j]
    ensures |destroyed| == Nodes(v)
  {
    hide Children, Nodes, NodesOf, IsPlace, Halfway;
    WalkStarts(v);
    NodesOfChildren(v);
    destroyed := [[]];
    var stack := Children(v);
    ghost var places := ChildPlaces([], |stack|);
    while stack != []
      invariant Halfway(v, destroyed, places, stack)
      invariant |destroyed| + NodesOf(stack) == Nodes(v)
      decreases NodesOf(stack)
    {
      var node := stack[|stack| - 1];
      WalkStep(v, destroyed, places, stack);
      AsManyPlaces(v, destroyed, places, stack);
      LastNodes(stack);
      NodesOfChildren(node);
      destroyed := destroyed + [places[|stack| - 1]];
      places := places[..|stack| - 1] + ChildPlaces(places[|stack| - 1], |Children(node)|);
      stack := stack[..|stack| - 1];
      NodesOfBoth(stack, Children(node));
      stack := stack + Children(node);
    }
    NoNodes();
    AllVisited(v, destroyed, places);
  }

  lemma NoNodes()
    ensures NodesOf([]) == 0
  {
  }

  lemma LastNodes(vs: seq<JsonValue>)
    requires vs != []
    ensures NodesOf(vs) == NodesOf(vs[..|vs| - 1]) + Nodes(vs[|vs| - 1])
  {
  }

  lemma {:induction false} NodesOfBoth(a: seq<JsonValue>, b: seq<JsonValue>)
    ensures NodesOf(a + b) == NodesOf(a) + NodesOf(b)
    decreases |b|
  {
    if b == [] {
      assert a + b == a;
    } else {
      assert (a + b)[..|a + b| - 1] == a + b[..|b| - 1];
      NodesOfBoth(a, b[..|b| - 1]);
    }
  }
}
