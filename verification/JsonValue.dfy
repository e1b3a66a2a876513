// The JSON value tree of include/mcp/JsonValue.hpp and the decimal integers it is written with.
module JsonValue {
  import opened Bytes
  import opened Utf8

  // An object is a std::map: its members stand in key order, each key once.
  // A double is its 64-bit pattern.
  datatype JsonValue =
    | JNull
    | JBool(b: bool)
    | JInt(i: int)
    | JDouble(bits: nat)
    | JString(text: bytes)
    | JArray(items: seq<JsonValue>)
    | JObject(members: seq<Member>)

  datatype Member = Member(key: bytes, value: JsonValue)

  // ---- Key order: std::less<> on std::string ------------------------------------------------

  predicate KeyLess(a: bytes, b: bytes) {
    if b == [] then false
    else if a == [] then true
    else a[0] < b[0] || (a[0] == b[0] && KeyLess(a[1..], b[1..]))
  }

  lemma {:induction false} KeyLessIrreflexive(a: bytes)
    ensures !KeyLess(a, a)
  {
    if a != [] { KeyLessIrreflexive(a[1..]); }
  }

  lemma {:induction false} KeyLessTransitive(a: bytes, b: bytes, c: bytes)
    requires KeyLess(a, b) && KeyLess(b, c)
    ensures KeyLess(a, c)
  {
    if a != [] && a[0] == b[0] == c[0] { KeyLessTransitive(a[1..], b[1..], c[1..]); }
  }

  lemma {:induction false} KeyLessTotal(a: bytes, b: bytes)
    ensures a == b || KeyLess(a, b) || KeyLess(b, a)
  {
    if a != [] && b != [] && a[0] == b[0] {
      KeyLessTotal(a[1..], b[1..]);
      if a[1..] == b[1..] { assert a == [a[0]] + a[1..] && b == [b[0]] + b[1..]; }
    }
  }

  predicate Sorted(ms: seq<Member>) {
    forall i, j :: 0 <= i < j < |ms| ==> KeyLess(ms[i].key, ms[j].key)
  }

  // std::map::emplace: a key that is already there keeps its value.
  function Emplace(ms: seq<Member>, key: bytes, value: JsonValue): seq<Member> {
    if ms == [] then [Member(key, value)]
    else if ms[0].key == key then ms
    else if KeyLess(key, ms[0].key) then [Member(key, value)] + ms
    else [ms[0]] + Emplace(ms[1..], key, value)
  }

  function Find(ms: seq<Member>, key: bytes): Option<JsonValue> {
    if ms == [] then None
    else if ms[0].key == key then Some(ms[0].value)
    else Find(ms[1..], key)
  }

  lemma {:induction false} FoundIsMember(ms: seq<Member>, key: bytes)
    ensures Find(ms, key).Some? ==> Member(key, Find(ms, key).value) in ms
  {
    if ms != [] && ms[0].key != key { FoundIsMember(ms[1..], key); }
  }

  // JsonValue::Find
  function Lookup(v: JsonValue, key: bytes): (r: Option<JsonValue>)
    ensures r.Some? ==> r.value < v
  {
    match v
    case JObject(members) => FoundIsMember(members, key); Find(members, key)
    case _ => None
  }

  lemma {:induction false} EmplaceElements(ms: seq<Member>, key: bytes, value: JsonValue)
    ensures forall m :: m in Emplace(ms, key, value) ==> m in ms || m == Member(key, value)
    ensures forall m :: m in ms ==> m in Emplace(ms, key, value)
  {
    if ms != [] && ms[0].key != key && !KeyLess(key, ms[0].key) {
      EmplaceElements(ms[1..], key, value);
    }
  }

  lemma {:induction false} EmplaceSorted(ms: seq<Member>, key: bytes, value: JsonValue)
    requires Sorted(ms)
    ensures Sorted(Emplace(ms, key, value))
  {
    if ms == [] || ms[0].key == key {
    } else if KeyLess(key, ms[0].key) {
      forall j | 0 <= j < |ms| ensures KeyLess(key, ms[j].key) {
        if j > 0 { KeyLessTransitive(key, ms[0].key, ms[j].key); }
      }
    } else {
      EmplaceSorted(ms[1..], key, value);
      EmplaceElements(ms[1..], key, value);
      KeyLessTotal(key, ms[0].key);
      var tail := Emplace(ms[1..], key, value);
      forall j | 0 <= j < |tail| ensures KeyLess(ms[0].key, tail[j].key) {
        assert tail[j] in ms[1..] || tail[j] == Member(key, value);
      }
    }
  }

  // obj[key] = value
  function Assigned(ms: seq<Member>, key: bytes, value: JsonValue): seq<Member> {
    if ms == [] then [Member(key, value)]
    else if ms[0].key == key then [Member(key, value)] + ms[1..]
    else if KeyLess(key, ms[0].key) then [Member(key, value)] + ms
    else [ms[0]] + Assigned(ms[1..], key, value)
  }

  lemma {:induction false} AssignedElements(ms: seq<Member>, key: bytes, value: JsonValue)
    ensures forall m :: m in Assigned(ms, key, value) ==> m in ms || m == Member(key, value)
  {
    if ms != [] && ms[0].key != key && !KeyLess(key, ms[0].key) { AssignedElements(ms[1..], key, value); }
  }

  lemma {:induction false} AssignedSorted(ms: seq<Member>, key: bytes, value: JsonValue)
    requires Sorted(ms)
    ensures Sorted(Assigned(ms, key, value))
  {
    if ms == [] || ms[0].key == key {
    } else if KeyLess(key, ms[0].key) {
      forall j | 0 <= j < |ms| ensures KeyLess(key, ms[j].key) {
        if j > 0 { KeyLessTransitive(key, ms[0].key, ms[j].key); }
      }
    } else {
      AssignedSorted(ms[1..], key, value);
      AssignedElements(ms[1..], key, value);
      KeyLessTotal(key, ms[0].key);
      var tail := Assigned(ms[1..], key, value);
      forall j | 0 <= j < |tail| ensures KeyLess(ms[0].key, tail[j].key) {
        assert tail[j] in ms[1..] || tail[j] == Member(key, value);
      }
    }
  }

  lemma {:induction false} FindAssigned(ms: seq<Member>, key: bytes, value: JsonValue, k: bytes)
    ensures Find(Assigned(ms, key, value), k) == if k == key then Some(value) else Find(ms, k)
  {
    if ms != [] && ms[0].key != key && !KeyLess(key, ms[0].key) { FindAssigned(ms[1..], key, value, k); }
  }

  // Emplacing above every key appends.
  lemma {:induction false} EmplaceAppends(ms: seq<Member>, key: bytes, value: JsonValue)
    requires forall i :: 0 <= i < |ms| ==> KeyLess(ms[i].key, key)
    ensures Emplace(ms, key, value) == ms + [Member(key, value)]
  {
    if ms != [] {
      KeyLessIrreflexive(key);
      if KeyLess(key, ms[0].key) { KeyLessTransitive(key, ms[0].key, key); }
      EmplaceAppends(ms[1..], key, value);
      assert ms == [ms[0]] + ms[1..];
    }
  }

  // emplace as a map operation: only an absent key changes, and it gets the value.
  lemma {:induction false} FindEmplace(ms: seq<Member>, key: bytes, value: JsonValue, k: bytes)
    requires Sorted(ms)
    ensures Find(Emplace(ms, key, value), k) ==
            if k == key && Find(ms, key).None? then Some(value) else Find(ms, k)
  {
    if ms == [] || ms[0].key == key {
    } else if KeyLess(key, ms[0].key) {
      FindAbove(ms, key);
    } else {
      FindEmplace(ms[1..], key, value, k);
    }
  }

  lemma {:induction false} FindAbove(ms: seq<Member>, key: bytes)
    requires Sorted(ms) && (ms != [] ==> KeyLess(key, ms[0].key))
    ensures Find(ms, key) == None
  {
    if ms != [] {
      KeyLessIrreflexive(key);
      if |ms| > 1 { KeyLessTransitive(key, ms[0].key, ms[1].key); }
      FindAbove(ms[1..], key);
    }
  }

  // ---- Which values the text form can carry ---------------------------------------------------

  const INT64_MIN: int := -0x8000_0000_0000_0000
  const INT64_MAX: int := 0x7FFF_FFFF_FFFF_FFFF

  predicate IsInt64(i: int) {
    INT64_MIN <= i <= INT64_MAX
  }

  // An exponent field of all ones is an infinity or a NaN.
  predicate IsFinite(bits: nat) {
    bits < 0x1_0000_0000_0000_0000 && bits / 0x10_0000_0000_0000 % 0x800 != 0x7FF
  }

  // Finite doubles, UTF-8 strings and keys, and at most `depth` containers around each other.
  ghost predicate Carried(v: JsonValue, depth: int) {
    match v
    case JNull => true
    case JBool(_) => true
    case JInt(i) => IsInt64(i)
    case JDouble(bits) => IsFinite(bits)
    case JString(text) => IsUtf8(text)
    case JArray(items) => depth >= 1 && forall x :: x in items ==> Carried(x, depth - 1)
    case JObject(members) =>
      && depth >= 1
      && Sorted(members)
      && forall m :: m in members ==> IsUtf8(m.key) && Carried(m.value, depth - 1)
  }

  ghost predicate AllCarried(ms: seq<Member>, depth: int) {
    Sorted(ms) && forall m :: m in ms ==> IsUtf8(m.key) && Carried(m.value, depth)
  }

  lemma AssignedCarried(ms: seq<Member>, key: bytes, value: JsonValue, depth: int)
    requires AllCarried(ms, depth) && IsUtf8(key) && Carried(value, depth)
    ensures AllCarried(Assigned(ms, key, value), depth)
  {
    hide Carried, IsUtf8, Sorted, Assigned;
    AssignedSorted(ms, key, value);
    AssignedElements(ms, key, value);
  }

  lemma NothingCarried(depth: int)
    ensures AllCarried([], depth)
  {
  }

  lemma CarriedObject(v: JsonValue, depth: int)
    requires v.JObject?
    ensures Carried(v, depth) <==> depth >= 1 && AllCarried(v.members, depth - 1)
  {
  }

  // ---- Decimal integers: std::to_string and std::from_chars -----------------------------------

  const MINUS: byte := 0x2D

  function Decimal(n: nat): bytes {
    if n < 10 then [DIGIT_0 + n] else Decimal(n / 10) + [DIGIT_0 + n % 10]
  }

  function IntText(i: int): bytes {
    if i < 0 then [MINUS] + Decimal(-i) else Decimal(i)
  }

  // The number a digit string spells.
  function Number(ds: bytes): int
  {
    if ds == [] then 0 else Number(ds[..|ds| - 1]) * 10 + (ds[|ds| - 1] as int - 0x30)
  }

  lemma {:induction false} DecimalLaws(n: nat)
    ensures AllDigits(Decimal(n)) && Decimal(n) != []
    ensures Decimal(n)[0] == DIGIT_0 ==> Decimal(n) == [DIGIT_0]
    ensures Number(Decimal(n)) == n
  {
    if n >= 10 {
      DecimalLaws(n / 10);
      assert Decimal(n)[..|Decimal(n)| - 1] == Decimal(n / 10);
    } else {
      assert Decimal(n)[..0] == [];
    }
  }

  lemma DecimalInjective(m: nat, n: nat)
    requires Decimal(m) == Decimal(n)
    ensures m == n
  {
    DecimalLaws(m);
    DecimalLaws(n);
  }
}
