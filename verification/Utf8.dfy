// UTF-8 as the JSON engine handles it: the validator inside the parser, the encoder for
// \u escapes, and JsonValue::SanitizeUtf8, against the table of section 4 of RFC 3629.
module Utf8 {
  import opened Bytes

  // ---- Section 4 of RFC 3629 -------------------------------------------------------------

  predicate IsTail(b: byte) {
    0x80 <= b <= 0xBF
  }

  // UTF8-char of RFC 3629: one row of the table per disjunct.
  predicate IsUtf8Char(x: bytes) {
    || (|x| == 1 && x[0] <= 0x7F)
    || (|x| == 2 && 0xC2 <= x[0] <= 0xDF && IsTail(x[1]))
    || (|x| == 3 && x[0] == 0xE0 && 0xA0 <= x[1] <= 0xBF && IsTail(x[2]))
    || (|x| == 3 && 0xE1 <= x[0] <= 0xEC && IsTail(x[1]) && IsTail(x[2]))
    || (|x| == 3 && x[0] == 0xED && 0x80 <= x[1] <= 0x9F && IsTail(x[2]))
    || (|x| == 3 && 0xEE <= x[0] <= 0xEF && IsTail(x[1]) && IsTail(x[2]))
    || (|x| == 4 && x[0] == 0xF0 && 0x90 <= x[1] <= 0xBF && IsTail(x[2]) && IsTail(x[3]))
    || (|x| == 4 && 0xF1 <= x[0] <= 0xF3 && IsTail(x[1]) && IsTail(x[2]) && IsTail(x[3]))
    || (|x| == 4 && x[0] == 0xF4 && 0x80 <= x[1] <= 0x8F && IsTail(x[2]) && IsTail(x[3]))
  }

  predicate AllChars(cs: seq<bytes>) {
    forall i :: 0 <= i < |cs| ==> IsUtf8Char(cs[i])
  }

  function Flatten(cs: seq<bytes>): bytes {
    if cs == [] then [] else cs[0] + Flatten(cs[1..])
  }

  // UTF8-octets of RFC 3629: a concatenation of UTF8-chars.
  ghost predicate IsUtf8(s: bytes) {
    exists cs :: AllChars(cs) && Flatten(cs) == s
  }

  type scalar = n: int | 0 <= n < 0xD800 || 0xE000 <= n < 0x110000 witness 0

  // ---- Parser::AppendUtf8 ----------------------------------------------------------------

  // Shifts and masks of the source are written as division and remainder; each OR joins
  // disjoint bits and is written as a sum.
  function Encode(cp: int): (x: bytes)
    requires 0 <= cp < 0x110000
  {
    if cp < 0x80 then
      [cp]
    else if cp < 0x800 then
      [0xC0 + cp / 0x40, 0x80 + cp % 0x40]
    else if cp < 0x10000 then
      [0xE0 + cp / 0x40 / 0x40, 0x80 + cp / 0x40 % 0x40, 0x80 + cp % 0x40]
    else
      [0xF0 + cp / 0x40 / 0x40 / 0x40, 0x80 + cp / 0x40 / 0x40 % 0x40, 0x80 + cp / 0x40 % 0x40, 0x80 + cp % 0x40]
  }

  // The number that the payload bits of a UTF8-char spell.
  function Decode(x: bytes): int
    requires IsUtf8Char(x)
  {
    var n: seq<int> := x;
    if |n| == 1 then n[0]
    else if |n| == 2 then (n[0] - 0xC0) * 0x40 + (n[1] - 0x80)
    else if |n| == 3 then (n[0] - 0xE0) * 0x1000 + (n[1] - 0x80) * 0x40 + (n[2] - 0x80)
    else (n[0] - 0xF0) * 0x40000 + (n[1] - 0x80) * 0x1000 + (n[2] - 0x80) * 0x40 + (n[3] - 0x80)
  }

  lemma EncodeIsUtf8Char(cp: scalar)
    ensures IsUtf8Char(Encode(cp))
    ensures Decode(Encode(cp)) == cp
  {
  }

  lemma Digits64(high: int, low: int)
    requires 0 <= low < 0x40
    ensures (high * 0x40 + low) / 0x40 == high && (high * 0x40 + low) % 0x40 == low
  {
  }

  lemma DecodeIsScalar(x: bytes)
    requires IsUtf8Char(x)
    ensures 0 <= Decode(x) < 0xD800 || 0xE000 <= Decode(x) < 0x110000
    ensures Encode(Decode(x)) == x
  {
    if |x| == 3 {
      DecodeIsScalar3(x);
    } else if |x| == 4 {
      DecodeIsScalar4(x);
    } else if |x| == 2 {
      var n: seq<int> := x;
      Digits64(n[0] - 0xC0, n[1] - 0x80);
    }
  }

  lemma DecodeIsScalar3(x: bytes)
    requires IsUtf8Char(x) && |x| == 3
    ensures 0x800 <= Decode(x) < 0xD800 || 0xE000 <= Decode(x) < 0x10000
    ensures Encode(Decode(x)) == x
  {
    var n: seq<int> := x;
    Digits64((n[0] - 0xE0) * 0x40 + (n[1] - 0x80), n[2] - 0x80);
    Digits64(n[0] - 0xE0, n[1] - 0x80);
  }

  lemma DecodeIsScalar4(x: bytes)
    requires IsUtf8Char(x) && |x| == 4
    ensures 0x10000 <= Decode(x) < 0x110000
    ensures Encode(Decode(x)) == x
  {
    var n: seq<int> := x;
    var high := (n[0] - 0xF0) * 0x40 + (n[1] - 0x80);
    var middle := high * 0x40 + (n[2] - 0x80);
    Digits64(middle, n[3] - 0x80);
    Digits64(high, n[2] - 0x80);
    Digits64(n[0] - 0xF0, n[1] - 0x80);
    assert Decode(x) == middle * 0x40 + (n[3] - 0x80);
  }

  // ---- The validator shared by Parser::ValidateUtf8Sequence and SanitizeUtf8 ---------------

  datatype Lead = BadLead | Lead(cont: nat, lo: byte, hi: byte)

  // What the leading byte announces: continuation bytes and the range of the first of them.
  function LeadOf(b0: byte): Lead {
    if 0xC2 <= b0 <= 0xDF then Lead(1, 0x80, 0xBF)
    else if 0xE0 <= b0 <= 0xEF then
      Lead(2, if b0 == 0xE0 then 0xA0 else 0x80, if b0 == 0xED then 0x9F else 0xBF)
    else if 0xF0 <= b0 <= 0xF4 then
      Lead(3, if b0 == 0xF0 then 0x90 else 0x80, if b0 == 0xF4 then 0x8F else 0xBF)
    else BadLead
  }

  datatype Scan = Good(width: nat) | BadLeading | Truncated | BadSequence | BadContinuation

  // Scan of the multi-byte sequence at position `p`; the order of the tests is the source's.
  function ScanAt(s: bytes, p: nat): Scan
    requires p < |s|
  {
    match LeadOf(s[p])
    case BadLead => BadLeading
    case Lead(cont, lo, hi) =>
      if p + cont >= |s| then Truncated
      else if s[p + 1] < lo || s[p + 1] > hi then BadSequence
      else if cont >= 2 && !IsTail(s[p + 2]) then BadContinuation
      else if cont >= 3 && !IsTail(s[p + 3]) then BadContinuation
      else Good(cont + 1)
  }

  // The validator accepts exactly the multi-byte rows of the RFC table.
  lemma ScanAcceptsTable(s: bytes, p: nat)
    requires p < |s| && s[p] >= 0x80
    ensures ScanAt(s, p).Good? ==>
              var w := ScanAt(s, p).width; 2 <= w && p + w <= |s| && IsUtf8Char(s[p..p + w])
    ensures forall x :: At(s, p, x) && IsUtf8Char(x) ==> ScanAt(s, p) == Good(|x|)
  {
    forall x | At(s, p, x) && IsUtf8Char(x) ensures ScanAt(s, p) == Good(|x|) {
      assert forall i :: 0 <= i < |x| ==> s[p + i] == x[i];
    }
  }

  // ---- Concatenations of UTF8-chars -------------------------------------------------------

  lemma {:induction false} FlattenConcat(a: seq<bytes>, b: seq<bytes>)
    ensures Flatten(a + b) == Flatten(a) + Flatten(b)
  {
    if a == [] {
      assert a + b == b;
    } else {
      assert (a + b)[1..] == a[1..] + b;
      FlattenConcat(a[1..], b);
    }
  }

  lemma ConcatIsUtf8(a: bytes, b: bytes)
    requires IsUtf8(a) && IsUtf8(b)
    ensures IsUtf8(a + b)
  {
    var ca :| AllChars(ca) && Flatten(ca) == a;
    var cb :| AllChars(cb) && Flatten(cb) == b;
    FlattenConcat(ca, cb);
    assert AllChars(ca + cb);
  }

  lemma CharIsUtf8(x: bytes)
    requires IsUtf8Char(x)
    ensures IsUtf8(x)
  {
    assert Flatten([x]) == x + Flatten([x][1..]) == x;
  }

  lemma EmptyIsUtf8()
    ensures IsUtf8([])
  {
    assert AllChars([]) && Flatten([]) == [];
  }

  lemma {:induction false} AsciiIsUtf8(s: bytes)
    requires forall i :: 0 <= i < |s| ==> s[i] < 0x80
    ensures IsUtf8(s)
  {
    if s == [] {
      EmptyIsUtf8();
    } else {
      AsciiIsUtf8(s[1..]);
      CharIsUtf8([s[0]]);
      ConcatIsUtf8([s[0]], s[1..]);
      assert s == [s[0]] + s[1..];
    }
  }

  // ---- JsonValue::SanitizeUtf8 ------------------------------------------------------------

  const REPLACEMENT: bytes := [0xEF, 0xBF, 0xBD]

  // Bytes consumed, and bytes written, for the character or faulty byte at position `p`.
  function Advance(s: bytes, p: nat): (w: nat)
    requires p < |s|
    ensures 1 <= w && p + w <= |s|
  {
    if s[p] < 0x80 then 1
    else match ScanAt(s, p)
      case Good(w) => w
      case _ => 1
  }

  function Piece(s: bytes, p: nat): bytes
    requires p < |s|
  {
    if s[p] < 0x80 || ScanAt(s, p).Good? then s[p..p + Advance(s, p)] else REPLACEMENT
  }

  // What sanitising the bytes from position `p` on produces.
  function Sanitized(s: bytes, p: nat): bytes
    requires p <= |s|
    decreases |s| - p
  {
    if p == |s| then [] else Piece(s, p) + Sanitized(s, p + Advance(s, p))
  }

  lemma {:induction false} SanitizedIsUtf8(s: bytes, p: nat)
    requires p <= |s|
    ensures IsUtf8(Sanitized(s, p))
    decreases |s| - p
  {
    if p == |s| {
      EmptyIsUtf8();
    } else {
      SanitizedIsUtf8(s, p + Advance(s, p));
      if s[p] >= 0x80 { ScanAcceptsTable(s, p); }
      CharIsUtf8(Piece(s, p));
      ConcatIsUtf8(Piece(s, p), Sanitized(s, p + Advance(s, p)));
    }
  }

  lemma {:induction false} SanitizedKeeps(s: bytes, p: nat, cs: seq<bytes>)
    requires p <= |s| && AllChars(cs) && s[p..] == Flatten(cs)
    ensures Sanitized(s, p) == s[p..]
    decreases |cs|
  {
    hide Sanitized, Advance, Piece, IsUtf8Char;
    if cs == [] {
      assert p == |s|;
      SanitizedEnd(s);
    } else {
      var x, rest := cs[0], Flatten(cs[1..]);
      CharKept(s, p, x, rest);
      SanitizedStep(s, p);
      assert forall i :: 0 <= i < |cs[1..]| ==> cs[1..][i] == cs[i + 1];
      SanitizedKeeps(s, p + |x|, cs[1..]);
    }
  }

  lemma CharKept(s: bytes, p: nat, x: bytes, rest: bytes)
    requires p <= |s| && IsUtf8Char(x) && s[p..] == x + rest
    ensures p < |s| && Advance(s, p) == |x| && Piece(s, p) == x && s[p + |x|..] == rest
  {
    assert s[p..p + |x|] == s[p..][..|x|] == x;
    assert s[p + |x|..] == s[p..][|x|..];
    AtSlice(s, p, x);
    AtFirst(s, p, x);
    if |x| > 1 { ScanAcceptsTable(s, p); }
    hide ScanAt, At, LeadOf;
  }

  // Sanitising any byte string gives valid UTF-8, leaves valid UTF-8 alone, and so is idempotent.
  lemma SanitizeLaws(s: bytes)
    ensures IsUtf8(Sanitized(s, 0))
    ensures Sanitized(s, 0) == s <==> IsUtf8(s)
    ensures Sanitized(Sanitized(s, 0), 0) == Sanitized(s, 0)
  {
    SanitizedIsUtf8(s, 0);
    var t := Sanitized(s, 0);
    forall u: bytes | IsUtf8(u) ensures Sanitized(u, 0) == u {
      var cs :| AllChars(cs) && Flatten(cs) == u;
      assert u[0..] == u;
      SanitizedKeeps(u, 0, cs);
    }
  }

  method SanitizeUtf8(text: bytes) returns (out: bytes)
    ensures out == Sanitized(text, 0)
    ensures IsUtf8(out) && (IsUtf8(text) ==> out == text)
  {
    hide Sanitized, IsUtf8, LeadOf;
    out := [];
    var i := 0;
    while i < |text|
      invariant 0 <= i <= |text|
      invariant out + Sanitized(text, i) == Sanitized(text, 0)
    {
      var from, before := i, out;
      if text[i] < 0x80 {
        out := out + [text[i]];
        i := i + 1;
      } else {
        var scan := ScanAt(text, i);
        if scan.Good? {
          out := out + text[i..i + scan.width];
          i := i + scan.width;
        } else {
          out := out + REPLACEMENT;
          i := i + 1;
        }
      }
      assert i == from + Advance(text, from);
      assert out == before + Piece(text, from);
      SanitizedStep(text, from);
      ConcatAssociative(before, Piece(text, from), Sanitized(text, i));
    }
    SanitizedEnd(text);
    assert out + [] == out;
    SanitizeLaws(text);
  }

  lemma SanitizedStep(s: bytes, p: nat)
    requires p < |s|
    ensures Sanitized(s, p) == Piece(s, p) + Sanitized(s, p + Advance(s, p))
  {
    hide Piece, Advance;
  }

  lemma SanitizedEnd(s: bytes)
    ensures Sanitized(s, |s|) == []
  {
  }
}
