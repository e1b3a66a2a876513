// JsonSchemaValuesEqual of src/detail/JsonSchemaValidator.hpp is an equivalence on values without
// NaN: numbers compare by value, arrays item by item, objects as maps.
module JsonSchemaEqual {
  import opened Bytes
  import opened JsonValue
  import opened JsonSchema

  // Comparison of doubles: symmetric and transitive, and only a NaN differs from itself.
  ghost predicate LawfulEquality(lib: SchemaLib) {
    && (forall a, b :: lib.same(a, b) ==> lib.same(b, a))
    && (forall a, b, c :: lib.same(a, b) && lib.same(b, c) ==> lib.same(a, c))
    && (forall i: int :: lib.same(lib.toDouble(i), lib.toDouble(i)))
  }

  // Comparing bit patterns is one such comparison; the other parts of the library do not matter.
  predicate SameBits(a: nat, b: nat) {
    a == b
  }

  lemma LawfulEqualityExists(lib: SchemaLib)
    ensures LawfulEquality(lib.(same := SameBits))
  {
  }

  // No NaN anywhere, and objects that are maps: sorted, each key once.
  ghost predicate Comparable(lib: SchemaLib, v: JsonValue) {
    match v
    case JDouble(bits) => lib.same(bits, bits)
    case JArray(items) => forall x :: x in items ==> Comparable(lib, x)
    case JObject(members) => Sorted(members) && forall m :: m in members ==> Comparable(lib, m.value)
    case _ => true
  }

  lemma {:induction false} FindOwn(ms: seq<Member>, i: nat)
    requires Sorted(ms) && i < |ms|
    ensures Find(ms, ms[i].key) == Some(ms[i].value)
  {
    if i > 0 {
      KeyLessIrreflexive(ms[i].key);
      assert KeyLess(ms[0].key, ms[i].key);
      FindOwn(ms[1..], i - 1);
    }
  }

  function KeysOf(ms: seq<Member>): set<bytes> {
    set m | m in ms :: m.key
  }

  lemma {:induction false} KeysCount(ms: seq<Member>)
    requires Sorted(ms)
    ensures |KeysOf(ms)| == |ms|
  {
    if ms != [] {
      KeysCount(ms[1..]);
      forall m | m in ms[1..] ensures m.key != ms[0].key {
        var j :| 0 <= j < |ms[1..]| && ms[1..][j] == m;
        KeyLessIrreflexive(m.key);
        assert KeyLess(ms[0].key, ms[j + 1].key);
      }
      assert KeysOf(ms) == {ms[0].key} + KeysOf(ms[1..]) by {
        assert forall m :: m in ms <==> m == ms[0] || m in ms[1..];
      }
    }
  }

  lemma {:induction false} FoundKeys(ms: seq<Member>, key: bytes)
    ensures Find(ms, key).Some? <==> key in KeysOf(ms)
  {
    if ms != [] {
      FoundKeys(ms[1..], key);
      assert forall m :: m in ms <==> m == ms[0] || m in ms[1..];
    }
  }

  lemma SubsetOfSameSize(a: set<bytes>, b: set<bytes>)
    requires a <= b && |a| == |b|
    ensures a == b
  {
    assert |b - a| == |b| - |a|;
  }

  // Two maps of one size, one with all the keys of the other, have the same keys.
  lemma SameKeys(ms: seq<Member>, ns: seq<Member>)
    requires Sorted(ms) && Sorted(ns) && |ms| == |ns|
    requires forall m :: m in ms ==> Find(ns, m.key).Some?
    ensures forall n :: n in ns ==> Find(ms, n.key).Some?
  {
    KeysCount(ms);
    KeysCount(ns);
    forall m | m in ms ensures m.key in KeysOf(ns) { FoundKeys(ns, m.key); }
    SubsetOfSameSize(KeysOf(ms), KeysOf(ns));
    forall n | n in ns ensures Find(ms, n.key).Some? { FoundKeys(ms, n.key); }
  }

  lemma {:induction false} EqualReflexive(lib: SchemaLib, a: JsonValue)
    requires LawfulEquality(lib) && Comparable(lib, a)
    ensures ValuesEqual(lib, a, a)
  {
    match a {
      case JArray(items) =>
        forall i | 0 <= i < |items| ensures ValuesEqual(lib, items[i], items[i]) { EqualReflexive(lib, items[i]); }
      case JObject(members) =>
        forall m | m in members
          ensures Find(members, m.key).Some? && ValuesEqual(lib, m.value, Find(members, m.key).value)
        {
          var i :| 0 <= i < |members| && members[i] == m;
          FindOwn(members, i);
          EqualReflexive(lib, m.value);
        }
      case _ =>
    }
  }

  lemma {:induction false} EqualSymmetric(lib: SchemaLib, a: JsonValue, b: JsonValue)
    requires LawfulEquality(lib) && Comparable(lib, a) && Comparable(lib, b) && ValuesEqual(lib, a, b)
    ensures ValuesEqual(lib, b, a)
    decreases a
  {
    match (a, b) {
      case (JArray(xs), JArray(ys)) =>
        forall i | 0 <= i < |ys| ensures ValuesEqual(lib, ys[i], xs[i]) {
          assert xs[i] in xs && ys[i] in ys;
          EqualSymmetric(lib, xs[i], ys[i]);
        }
      case (JObject(ms), JObject(ns)) =>
        SameKeys(ms, ns);
        forall n | n in ns ensures Find(ms, n.key).Some? && ValuesEqual(lib, n.value, Find(ms, n.key).value) {
          MemberOfFound(ms, n.key);
          var m := Member(n.key, Find(ms, n.key).value);
          var j :| 0 <= j < |ns| && ns[j] == n;
          FindOwn(ns, j);
          assert ValuesEqual(lib, m.value, Find(ns, m.key).value);
          EqualSymmetric(lib, m.value, n.value);
        }
      case _ =>
    }
  }

  lemma MemberOfFound(ms: seq<Member>, key: bytes)
    ensures Find(ms, key).Some? ==> Member(key, Find(ms, key).value) in ms
  {
    FoundIsMember(ms, key);
  }

  lemma {:induction false} EqualTransitive(lib: SchemaLib, a: JsonValue, b: JsonValue, c: JsonValue)
    requires LawfulEquality(lib) && Comparable(lib, a) && Comparable(lib, b) && Comparable(lib, c)
    requires ValuesEqual(lib, a, b) && ValuesEqual(lib, b, c)
    ensures ValuesEqual(lib, a, c)
    decreases a
  {
    match (a, b, c) {
      case (JArray(xs), JArray(ys), JArray(zs)) =>
        forall i | 0 <= i < |xs| ensures ValuesEqual(lib, xs[i], zs[i]) {
          assert xs[i] in xs && ys[i] in ys && zs[i] in zs;
          EqualTransitive(lib, xs[i], ys[i], zs[i]);
        }
      case (JObject(ms), JObject(ns), JObject(os)) =>
        forall m | m in ms ensures Find(os, m.key).Some? && ValuesEqual(lib, m.value, Find(os, m.key).value) {
          MemberOfFound(ns, m.key);
          MemberOfFound(os, m.key);
          var n := Member(m.key, Find(ns, m.key).value);
          assert n in ns && Find(os, n.key).Some?;
          EqualTransitive(lib, m.value, n.value, Find(os, m.key).value);
        }
      case _ =>
    }
  }

  // Equality of values is an equivalence relation.
  lemma EqualIsEquivalence(lib: SchemaLib, a: JsonValue, b: JsonValue, c: JsonValue)
    requires LawfulEquality(lib) && Comparable(lib, a) && Comparable(lib, b) && Comparable(lib, c)
    ensures ValuesEqual(lib, a, a)
    ensures ValuesEqual(lib, a, b) <==> ValuesEqual(lib, b, a)
    ensures ValuesEqual(lib, a, b) && ValuesEqual(lib, b, c) ==> ValuesEqual(lib, a, c)
  {
    hide Comparable, ValuesEqual;
    EqualReflexive(lib, a);
    if ValuesEqual(lib, a, b) { EqualSymmetric(lib, a, b); }
    if ValuesEqual(lib, b, a) { EqualSymmetric(lib, b, a); }
    if ValuesEqual(lib, a, b) && ValuesEqual(lib, b, c) { EqualTransitive(lib, a, b, c); }
  }

  // The loops of JsonSchemaValuesEqual.
  method ValuesAreEqual(lib: SchemaLib, a: JsonValue, b: JsonValue) returns (equal: bool)
    ensures equal == ValuesEqual(lib, a, b)
    decreases a
  {
    if NumberOf(lib, a).Some? && NumberOf(lib, b).Some? {
      return lib.same(NumberOf(lib, a).value, NumberOf(lib, b).value);
    }
    if a.JArray? && b.JArray? {
      if |a.items| != |b.items| { return false; }
      for i := 0 to |a.items|
        invariant forall j :: 0 <= j < i ==> ValuesEqual(lib, a.items[j], b.items[j])
      {
        equal := ValuesAreEqual(lib, a.items[i], b.items[i]);
        if !equal { return false; }
      }
      return true;
    }
    if a.JObject? && b.JObject? {
      if |a.members| != |b.members| { return false; }
      for i := 0 to |a.members|
        invariant forall j :: 0 <= j < i ==>
                    var m := a.members[j];
                    Find(b.members, m.key).Some? && ValuesEqual(lib, m.value, Find(b.members, m.key).value)
      {
        var m := a.members[i];
        assert m in a.members;
        var other := Find(b.members, m.key);
        if other.None? { return false; }
        equal := ValuesAreEqual(lib, m.value, other.value);
        if !equal { return false; }
      }
      return true;
    }
    return a == b;
  }
}
