// Standard base64 (section 4 of RFC 4648) of src/http/McpParamHeaders.hpp.
module Base64 {
  import opened Bytes

  const PAD: byte := 0x3D

  function Letter(sextet: int): byte
    requires 0 <= sextet < 64
  {
    if sextet < 26 then 0x41 + sextet
    else if sextet < 52 then 0x61 + sextet - 26
    else if sextet < 62 then 0x30 + sextet - 52
    else if sextet == 62 then 0x2B
    else 0x2F
  }

  // Base64SextetValue
  function SextetValue(c: byte): (r: Option<int>)
    ensures r.Some? ==> 0 <= r.value < 64
  {
    if 0x41 <= c <= 0x5A then Some(c - 0x41)
    else if 0x61 <= c <= 0x7A then Some(c - 0x61 + 26)
    else if 0x30 <= c <= 0x39 then Some(c - 0x30 + 52)
    else if c == 0x2B then Some(62)
    else if c == 0x2F then Some(63)
    else None
  }

  lemma LetterValue(sextet: int)
    requires 0 <= sextet < 64
    ensures SextetValue(Letter(sextet)) == Some(sextet) && Letter(sextet) != PAD
  {
  }

  // The four letters of a 24-bit group.
  function Quad(n: int): bytes
    requires 0 <= n < 0x1000000
  {
    [Letter(n / 0x40000), Letter(n / 0x1000 % 0x40), Letter(n / 0x40 % 0x40), Letter(n % 0x40)]
  }

  function Group(a: byte, b: byte, c: byte): (n: int)
    ensures 0 <= n < 0x1000000
  {
    a * 0x10000 + b * 0x100 + c
  }

  function Encoded(data: bytes): bytes {
    if data == [] then []
    else if |data| == 1 then Quad(Group(data[0], 0, 0))[..2] + [PAD, PAD]
    else if |data| == 2 then Quad(Group(data[0], data[1], 0))[..3] + [PAD]
    else Quad(Group(data[0], data[1], data[2])) + Encoded(data[3..])
  }

  // The bytes of one quad: at least one, and one less for each pad, which only close a quad.
  function QuadBytes(q: bytes): Option<bytes>
    requires |q| == 4
  {
    if q[0] == PAD || q[1] == PAD then None
    else if SextetValue(q[0]).None? || SextetValue(q[1]).None? then None
    else if q[2] == PAD && q[3] != PAD then None
    else if (q[2] != PAD && SextetValue(q[2]).None?) || (q[3] != PAD && SextetValue(q[3]).None?) then None
    else
      var s2 := if q[2] == PAD then 0 else SextetValue(q[2]).value;
      var s3 := if q[3] == PAD then 0 else SextetValue(q[3]).value;
      var n := SextetValue(q[0]).value * 0x40000 + SextetValue(q[1]).value * 0x1000 + s2 * 0x40 + s3;
      Some([n / 0x10000 % 0x100] + (if q[2] == PAD then [] else [n / 0x100 % 0x100])
           + (if q[3] == PAD then [] else [n % 0x100]))
  }

  function DecodedQuads(text: bytes): Option<bytes>
    requires |text| % 4 == 0
  {
    if text == [] then Some([])
    else match (QuadBytes(text[..4]), DecodedQuads(text[4..]))
      case (Some(x), Some(rest)) => Some(x + rest)
      case _ => None
  }

  function Decoded(text: bytes): Option<bytes> {
    if |text| % 4 != 0 then None else DecodedQuads(text)
  }

  // ---- Round trip ---------------------------------------------------------------------------------

  lemma SextetsOf(n: int)
    requires 0 <= n < 0x1000000
    ensures 0 <= n / 0x40000 < 0x40
    ensures n / 0x40000 * 0x40000 + n / 0x1000 % 0x40 * 0x1000 + n / 0x40 % 0x40 * 0x40 + n % 0x40 == n
  {
    assert n / 0x40 / 0x40 == n / 0x1000 && n / 0x1000 / 0x40 == n / 0x40000;
  }

  lemma BytesOfGroup(a: byte, b: byte, c: byte)
    ensures var n := Group(a, b, c);
            0 <= n < 0x1000000 && n / 0x10000 % 0x100 == a && n / 0x100 % 0x100 == b && n % 0x100 == c
  {
  }

  // A quad of letters spells the bytes of its number; pads stand for zero sextets.
  lemma QuadValue(q: bytes, s0: int, s1: int, s2: int, s3: int, n: int)
    requires |q| == 4 && SextetValue(q[0]) == Some(s0) && SextetValue(q[1]) == Some(s1)
    requires if q[2] == PAD then s2 == 0 && q[3] == PAD else SextetValue(q[2]) == Some(s2)
    requires if q[3] == PAD then s3 == 0 else SextetValue(q[3]) == Some(s3)
    requires n == s0 * 0x40000 + s1 * 0x1000 + s2 * 0x40 + s3
    ensures QuadBytes(q) == Some([n / 0x10000 % 0x100] + (if q[2] == PAD then [] else [n / 0x100 % 0x100])
                                 + (if q[3] == PAD then [] else [n % 0x100]))
  {
    assert SextetValue(PAD).None?;
    hide SextetValue;
  }

  lemma LettersOf(n: int)
    requires 0 <= n < 0x1000000
    ensures var q := Quad(n);
            && SextetValue(q[0]) == Some(n / 0x40000) && q[0] != PAD
            && SextetValue(q[1]) == Some(n / 0x1000 % 0x40) && q[1] != PAD
            && SextetValue(q[2]) == Some(n / 0x40 % 0x40) && q[2] != PAD
            && SextetValue(q[3]) == Some(n % 0x40) && q[3] != PAD
  {
    SextetsOf(n);
    LetterValue(n / 0x40000);
    LetterValue(n / 0x1000 % 0x40);
    LetterValue(n / 0x40 % 0x40);
    LetterValue(n % 0x40);
    hide Letter, SextetValue;
  }

  lemma QuadDecodes(a: byte, b: byte, c: byte)
    ensures QuadBytes(Quad(Group(a, b, c))) == Some([a, b, c])
  {
    hide SextetValue, Letter, Group, QuadBytes;
    var n := Group(a, b, c);
    BytesOfGroup(a, b, c);
    SextetsOf(n);
    LettersOf(n);
    QuadValue(Quad(n), n / 0x40000, n / 0x1000 % 0x40, n / 0x40 % 0x40, n % 0x40, n);
    assert [a] + [b] + [c] == [a, b, c];
  }

  lemma LowSextetsAreZero(a: byte, b: byte)
    ensures Group(a, b, 0) % 0x40 == 0
    ensures b == 0 ==> Group(a, b, 0) / 0x40 % 0x40 == 0
  {
  }

  lemma PairDecodes(a: byte, b: byte)
    ensures QuadBytes(Quad(Group(a, b, 0))[..3] + [PAD]) == Some([a, b])
  {
    hide SextetValue, Letter, Group, QuadBytes;
    var n := Group(a, b, 0);
    BytesOfGroup(a, b, 0);
    SextetsOf(n);
    LettersOf(n);
    LowSextetsAreZero(a, b);
    QuadValue(Quad(n)[..3] + [PAD], n / 0x40000, n / 0x1000 % 0x40, n / 0x40 % 0x40, 0, n);
    assert [a] + [b] + [] == [a, b];
  }

  lemma OneDecodes(a: byte)
    ensures QuadBytes(Quad(Group(a, 0, 0))[..2] + [PAD, PAD]) == Some([a])
  {
    hide SextetValue, Letter, Group, QuadBytes;
    var n := Group(a, 0, 0);
    BytesOfGroup(a, 0, 0);
    SextetsOf(n);
    LettersOf(n);
    LowSextetsAreZero(a, 0);
    QuadValue(Quad(n)[..2] + [PAD, PAD], n / 0x40000, n / 0x1000 % 0x40, 0, 0, n);
    assert [a] + [] + [] == [a];
  }

  // Decoding gives back every byte string.
  lemma {:induction false} RoundTrip(data: bytes)
    ensures |Encoded(data)| % 4 == 0
    ensures Decoded(Encoded(data)) == Some(data)
  {
    hide Quad, QuadBytes, Group;
    if data == [] {
    } else if |data| == 1 {
      QuadShape(Group(data[0], 0, 0));
      OneDecodes(data[0]);
      LastQuad(Quad(Group(data[0], 0, 0))[..2] + [PAD, PAD], data);
      assert data == [data[0]];
    } else if |data| == 2 {
      QuadShape(Group(data[0], data[1], 0));
      PairDecodes(data[0], data[1]);
      LastQuad(Quad(Group(data[0], data[1], 0))[..3] + [PAD], data);
      assert data == [data[0], data[1]];
    } else {
      var q, rest := Quad(Group(data[0], data[1], data[2])), Encoded(data[3..]);
      QuadShape(Group(data[0], data[1], data[2]));
      QuadDecodes(data[0], data[1], data[2]);
      RoundTrip(data[3..]);
      assert (q + rest)[..4] == q && (q + rest)[4..] == rest;
      assert data == [data[0], data[1], data[2]] + data[3..];
    }
  }

  lemma QuadShape(n: int)
    requires 0 <= n < 0x1000000
    ensures |Quad(n)| == 4
  {
  }

  lemma LastQuad(q: bytes, data: bytes)
    requires |q| == 4
    ensures DecodedQuads(q) == QuadBytes(q)
  {
    hide QuadBytes;
    assert q[..4] == q && q[4..] == [];
    assert DecodedQuads([]) == Some([]);
    if QuadBytes(q).Some? { assert QuadBytes(q).value + [] == QuadBytes(q).value; }
  }

  // The alphabet and the pad: printable ASCII, without blanks.
  predicate IsBase64Byte(c: byte) {
    SextetValue(c).Some? || c == PAD
  }

  lemma {:induction false} EncodedAlphabet(data: bytes)
    ensures forall i :: 0 <= i < |Encoded(data)| ==> IsBase64Byte(Encoded(data)[i])
  {
    if |data| >= 3 { EncodedAlphabet(data[3..]); }
    hide SextetValue, Group;
    if data != [] {
      var n := Group(data[0], if |data| > 1 then data[1] else 0, if |data| > 2 then data[2] else 0);
      BytesOfGroup(data[0], if |data| > 1 then data[1] else 0, if |data| > 2 then data[2] else 0);
      SextetsOf(n);
      QuadAlphabet(n);
      hide Quad, IsBase64Byte;
    }
  }

  lemma QuadAlphabet(n: int)
    requires 0 <= n < 0x1000000
    ensures |Quad(n)| == 4 && (forall i :: 0 <= i < 4 ==> IsBase64Byte(Quad(n)[i])) && IsBase64Byte(PAD)
  {
    SextetsOf(n);
    LetterValue(n / 0x40000);
    LetterValue(n / 0x1000 % 0x40);
    LetterValue(n / 0x40 % 0x40);
    LetterValue(n % 0x40);
    hide Letter, SextetValue;
  }

  // ---- The loops ----------------------------------------------------------------------------------

  method StandardBase64Encode(data: bytes) returns (out: bytes)
    ensures out == Encoded(data)
  {
    hide Quad, Group;
    out := [];
    var i := 0;
    assert data[0..] == data;
    while i + 3 <= |data|
      invariant 0 <= i <= |data|
      invariant out + Encoded(data[i..]) == Encoded(data)
    {
      BytesOfGroup(data[i], data[i + 1], data[i + 2]);
      var quad := Quad(Group(data[i], data[i + 1], data[i + 2]));
      assert data[i..][3..] == data[i + 3..];
      ConcatAssociative(out, quad, Encoded(data[i + 3..]));
      out := out + quad;
      i := i + 3;
    }
    var remaining := |data| - i;
    if remaining == 1 {
      BytesOfGroup(data[i], 0, 0);
      QuadShape(Group(data[i], 0, 0));
      out := out + (Quad(Group(data[i], 0, 0))[..2] + [PAD, PAD]);
    } else if remaining == 2 {
      BytesOfGroup(data[i], data[i + 1], 0);
      QuadShape(Group(data[i], data[i + 1], 0));
      out := out + (Quad(Group(data[i], data[i + 1], 0))[..3] + [PAD]);
    } else {
      assert out + [] == out;
    }
  }

  method StandardBase64Decode(text: bytes) returns (out: Option<bytes>)
    ensures out == Decoded(text)
  {
    hide QuadBytes;
    if |text| % 4 != 0 { return None; }
    var decoded: bytes := [];
    var i := 0;
    assert text[0..] == text;
    NothingAdded(DecodedQuads(text));
    while i < |text|
      invariant 0 <= i <= |text| && i % 4 == 0
      invariant Added(decoded, DecodedQuads(text[i..])) == DecodedQuads(text)
    {
      assert text[i..][..4] == text[i..i + 4] && text[i..][4..] == text[i + 4..];
      var part := DecodeQuad(text[i..i + 4]);
      AddedMore(decoded, part, DecodedQuads(text[i + 4..]));
      if part.None? { return None; }
      decoded := decoded + part.value;
      i := i + 4;
    }
    assert text[i..] == [] && decoded + [] == decoded;
    return Some(decoded);
  }

  function Added(x: bytes, rest: Option<bytes>): Option<bytes> {
    if rest.Some? then Some(x + rest.value) else None
  }

  lemma NothingAdded(rest: Option<bytes>)
    ensures Added([], rest) == rest
  {
    if rest.Some? { assert [] + rest.value == rest.value; }
  }

  lemma AddedMore(x: bytes, part: Option<bytes>, rest: Option<bytes>)
    ensures part.Some? && rest.Some? ==> x + (part.value + rest.value) == (x + part.value) + rest.value
  {
  }

  // The inner loop over the four letters of a quad.
  method DecodeQuad(q: bytes) returns (out: Option<bytes>)
    requires |q| == 4
    ensures out == QuadBytes(q)
  {
    assert SextetValue(PAD).None?;
    hide SextetValue;
    var sextets: seq<int>, padding, k := [], 0, 0;
    while k < 4
      invariant 0 <= k <= 4 && |sextets| == k
      invariant forall j :: 0 <= j < k ==> 0 <= sextets[j] < 64
      invariant forall j :: 0 <= j < k ==>
                  if q[j] == PAD then j >= 2 && sextets[j] == 0 else SextetValue(q[j]) == Some(sextets[j])
      invariant padding == (if k > 2 && q[2] == PAD then 1 else 0) + (if k > 3 && q[3] == PAD then 1 else 0)
      invariant k > 3 && q[2] == PAD ==> q[3] == PAD
    {
      var c := q[k];
      if c == PAD {
        if k < 2 { return None; }
        sextets := sextets + [0];
        padding := padding + 1;
      } else {
        if padding > 0 { return None; }
        var value := SextetValue(c);
        if value.None? { return None; }
        sextets := sextets + [value.value];
      }
      k := k + 1;
    }
    var n := sextets[0] * 0x40000 + sextets[1] * 0x1000 + sextets[2] * 0x40 + sextets[3];
    QuadValue(q, sextets[0], sextets[1], sextets[2], sextets[3], n);
    var decoded: bytes := [n / 0x10000 % 0x100];
    if padding < 2 { decoded := decoded + [n / 0x100 % 0x100]; }
    if padding < 1 { decoded := decoded + [n % 0x100]; }
    assert padding < 2 <==> q[2] != PAD;
    assert padding < 1 <==> q[3] != PAD;
    assert decoded == [n / 0x10000 % 0x100] + (if q[2] == PAD then [] else [n / 0x100 % 0x100])
           + (if q[3] == PAD then [] else [n % 0x100]);
    return Some(decoded);
  }
}
