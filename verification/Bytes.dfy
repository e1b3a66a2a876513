// Byte strings: the model of std::string and std::string_view.
module Bytes {

  type byte = b: int | 0 <= b < 0x100 witness 0

  type bytes = seq<byte>

  datatype Option<+T> = None | Some(value: T)

  function ToSeq<T>(o: Option<T>): seq<T> {
    if o.Some? then [o.value] else []
  }

  const DIGIT_0: byte := 0x30
  const QUOTE: byte := 0x22
  const BACKSLASH: byte := 0x5C
  const COMMA: byte := 0x2C
  const COLON: byte := 0x3A
  const LF: byte := 0x0A
  const CR: byte := 0x0D

  predicate IsDigit(b: byte) {
    0x30 <= b <= 0x39
  }

  // The text `x` stands in `s` at position `p`.
  predicate At(s: bytes, p: nat, x: bytes) {
    p + |x| <= |s| && forall i {:trigger x[i]} :: 0 <= i < |x| ==> s[p + i] == x[i]
  }

  lemma AtSlice(s: bytes, p: nat, x: bytes)
    ensures At(s, p, x) <==> p + |x| <= |s| && s[p..p + |x|] == x
  {
    if p + |x| <= |s| && s[p..p + |x|] == x {
      forall i | 0 <= i < |x| ensures s[p + i] == x[i] { assert s[p..p + |x|][i] == s[p + i]; }
    }
  }

  lemma AtConcat(s: bytes, p: nat, x: bytes, y: bytes)
    ensures At(s, p, x + y) <==> At(s, p, x) && At(s, p + |x|, y)
  {
    if At(s, p, x + y) {
      forall i | 0 <= i < |x| ensures s[p + i] == x[i] { assert (x + y)[i] == x[i]; }
      forall i | 0 <= i < |y| ensures s[p + |x| + i] == y[i] { assert (x + y)[|x| + i] == y[i]; }
    }
  }

  lemma AtByte(s: bytes, p: nat, b: byte)
    ensures At(s, p, [b]) <==> p < |s| && s[p] == b
  {
    assert [b][0] == b;
  }

  lemma AtFirst(s: bytes, p: nat, x: bytes)
    ensures At(s, p, x) && x != [] ==> p < |s| && s[p] == x[0]
  {
    if x != [] { assert x[0] == x[0]; }
  }

  predicate StartsWith(x: bytes, prefix: bytes) {
    |prefix| <= |x| && x[..|prefix|] == prefix
  }

  predicate EndsWith(x: bytes, suffix: bytes) {
    |suffix| <= |x| && x[|x| - |suffix|..] == suffix
  }

  lemma ConcatAssociative(x: bytes, y: bytes, z: bytes)
    ensures (x + y) + z == x + (y + z)
  {
  }

  lemma ConsConcat<T>(x: T, xs: seq<T>, ys: seq<T>)
    ensures ([x] + xs) + ys == [x] + (xs + ys)
  {
  }

  lemma SliceConcat(s: bytes, p: nat, q: nat, r: nat)
    requires p <= q <= r <= |s|
    ensures s[p..r] == s[p..q] + s[q..r]
  {
  }

  predicate AllDigits(x: bytes) {
    forall i :: 0 <= i < |x| ==> IsDigit(x[i])
  }

  // First position from `p` on that holds no digit.
  function SkipDigits(s: bytes, p: nat): (q: nat)
    requires p <= |s|
    ensures p <= q <= |s|
    ensures forall i :: p <= i < q ==> IsDigit(s[i])
    ensures q < |s| ==> !IsDigit(s[q])
    decreases |s| - p
  {
    if p < |s| && IsDigit(s[p]) then SkipDigits(s, p + 1) else p
  }

  // std::string_view::find of one byte, with the end for "not found".
  function FindByte(s: bytes, p: nat, c: byte): (q: nat)
    requires p <= |s|
    ensures p <= q <= |s| && (q < |s| ==> s[q] == c)
    ensures forall i :: p <= i < q ==> s[i] != c
    decreases |s| - p
  {
    if p == |s| || s[p] == c then p else FindByte(s, p + 1, c)
  }

  lemma FindByteAt(s: bytes, p: nat, c: byte, q: nat)
    requires p <= q <= |s| && (q < |s| ==> s[q] == c) && forall i :: p <= i < q ==> s[i] != c
    ensures FindByte(s, p, c) == q
  {
    var r := FindByte(s, p, c);
  }

  lemma FindShifted(s: bytes, p: nat, c: byte)
    requires p <= |s|
    ensures FindByte(s[p..], 0, c) == FindByte(s, p, c) - p
  {
    var q := FindByte(s, p, c);
    assert forall i :: 0 <= i < q - p ==> s[p..][i] == s[p + i];
    FindByteAt(s[p..], 0, c, q - p);
  }

  predicate FreeOf(x: bytes, c: byte) {
    forall i :: 0 <= i < |x| ==> x[i] != c
  }

  // A separator that does not occur in `x` is found right behind it.
  lemma SplitBehind(x: bytes, c: byte, rest: bytes)
    requires FreeOf(x, c)
    ensures var s := x + ([c] + rest);
            |x| < |s| && FindByte(s, 0, c) == |x| && s[..|x|] == x && s[|x| + 1..] == rest
  {
    var s := x + ([c] + rest);
    assert forall i :: 0 <= i < |x| ==> s[i] == x[i];
    assert s[|x|] == c;
    FindByteAt(s, 0, c, |x|);
  }

  // std::string_view::find
  function FindFrom(s: bytes, begin: nat, literal: bytes): (r: Option<nat>)
    requires begin <= |s|
    ensures r.Some? ==> begin <= r.value && At(s, r.value, literal)
    ensures forall j :: begin <= j < (if r.Some? then r.value else |s| + 1) ==> !At(s, j, literal)
    decreases |s| - begin
  {
    if At(s, begin, literal) then Some(begin)
    else if begin == |s| then None
    else FindFrom(s, begin + 1, literal)
  }
}
