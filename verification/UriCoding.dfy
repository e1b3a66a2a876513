// Character classes and percent-coding of src/detail/UriTemplate.hpp.
module UriCoding {
  import opened Bytes

  const PERCENT: byte := 0x25
  const EQUALS: byte := 0x3D

  predicate IsUnreserved(c: byte) {
    || 0x41 <= c <= 0x5A || 0x61 <= c <= 0x7A || IsDigit(c)
    || c == 0x2D || c == 0x2E || c == 0x5F || c == 0x7E
  }

  predicate IsReserved(c: byte) {
    || c == 0x3A || c == 0x2F || c == 0x3F || c == 0x23 || c == 0x5B || c == 0x5D || c == 0x40
    || c == 0x21 || c == 0x24 || 0x26 <= c <= 0x2C || c == 0x3B || c == 0x3D
  }

  predicate IsHexDigit(c: byte) {
    IsDigit(c) || 0x41 <= c <= 0x46 || 0x61 <= c <= 0x66
  }

  function HexValue(c: byte): (n: nat)
    requires IsHexDigit(c)
    ensures n < 16
  {
    if IsDigit(c) then c - 0x30 else if c <= 0x46 then c - 0x41 + 10 else c - 0x61 + 10
  }

  function HexDigit(n: nat): (c: byte)
    requires n < 16
    ensures IsHexDigit(c) && HexValue(c) == n
  {
    if n < 10 then 0x30 + n else 0x41 + n - 10
  }

  // A %XX triplet at the front.
  predicate StartsTriplet(v: bytes) {
    |v| >= 3 && v[0] == PERCENT && IsHexDigit(v[1]) && IsHexDigit(v[2])
  }

  // Bytes EncodeValue copies: `preserve` also keeps the reserved ones.
  predicate Copied(c: byte, preserve: bool) {
    IsUnreserved(c) || (preserve && IsReserved(c))
  }

  function Triplet(c: byte): bytes {
    [PERCENT, HexDigit(c / 16), HexDigit(c % 16)]
  }

  // EncodeValue
  function Encoded(v: bytes, preserve: bool): bytes {
    if v == [] then []
    else if Copied(v[0], preserve) then [v[0]] + Encoded(v[1..], preserve)
    else if StartsTriplet(v) then v[..3] + Encoded(v[3..], preserve)
    else Triplet(v[0]) + Encoded(v[1..], preserve)
  }

  // DecodeValue
  function Decoded(v: bytes): bytes {
    if v == [] then []
    else if StartsTriplet(v) then [HexValue(v[1]) * 16 + HexValue(v[2])] + Decoded(v[3..])
    else [v[0]] + Decoded(v[1..])
  }

  // IsValidEncodedValue
  predicate ValidEncoded(v: bytes) {
    v == [] ||
    if v[0] == PERCENT then StartsTriplet(v) && ValidEncoded(v[3..])
    else IsUnreserved(v[0]) && ValidEncoded(v[1..])
  }

  predicate TripletFree(v: bytes) {
    forall i :: 0 <= i < |v| ==> !StartsTriplet(v[i..])
  }

  // ---- Laws -------------------------------------------------------------------------------------

  lemma EncodedCopy(c: byte, x: bytes, preserve: bool)
    requires Copied(c, preserve)
    ensures Encoded([c] + x, preserve) == [c] + Encoded(x, preserve)
    ensures Decoded([c] + x) == [c] + Decoded(x)
  {
    assert ([c] + x)[1..] == x;
  }

  lemma EncodedTriplet(t: bytes, x: bytes, preserve: bool)
    requires |t| == 3 && StartsTriplet(t)
    ensures Encoded(t + x, preserve) == t + Encoded(x, preserve)
    ensures Decoded(t + x) == [HexValue(t[1]) * 16 + HexValue(t[2])] + Decoded(x)
    ensures ValidEncoded(t + x) == ValidEncoded(x)
  {
    var tx := t + x;
    assert tx[0] == t[0] && tx[1] == t[1] && tx[2] == t[2] && tx[3..] == x && tx[..3] == t;
    PercentIsNotCopied(preserve);
    hide IsHexDigit, HexValue, Copied, IsUnreserved;
  }

  lemma PercentIsNotCopied(preserve: bool)
    ensures !Copied(PERCENT, preserve)
  {
  }

  // Encoding twice is encoding once, and decoding undoes it as far as decoding the value itself does.
  lemma {:induction false} EncodeLaws(v: bytes, preserve: bool)
    ensures Encoded(Encoded(v, preserve), preserve) == Encoded(v, preserve)
    ensures Decoded(Encoded(v, preserve)) == Decoded(v)
    ensures !preserve ==> ValidEncoded(Encoded(v, preserve))
  {
    if v == [] {
    } else if Copied(v[0], preserve) {
      EncodeLaws(v[1..], preserve);
      EncodedCopy(v[0], Encoded(v[1..], preserve), preserve);
    } else if StartsTriplet(v) {
      EncodeLaws(v[3..], preserve);
      EncodedTriplet(v[..3], Encoded(v[3..], preserve), preserve);
    } else {
      EncodeLaws(v[1..], preserve);
      EncodedTriplet(Triplet(v[0]), Encoded(v[1..], preserve), preserve);
    }
  }

  lemma {:induction false} DecodedLength(v: bytes)
    ensures |Decoded(v)| <= |v|
  {
    if v == [] {
    } else if StartsTriplet(v) {
      DecodedLength(v[3..]);
    } else {
      DecodedLength(v[1..]);
    }
  }

  // A text in which every '%' starts a triplet, so that it can be decoded piece by piece.
  predicate Completed(v: bytes) {
    v == [] || if v[0] == PERCENT then StartsTriplet(v) && Completed(v[3..]) else Completed(v[1..])
  }

  lemma {:induction false} ValidIsCompleted(v: bytes)
    requires ValidEncoded(v)
    ensures Completed(v)
  {
    if v == [] {
    } else if v[0] == PERCENT {
      ValidIsCompleted(v[3..]);
    } else {
      ValidIsCompleted(v[1..]);
    }
  }

  lemma CompletedStep(t: bytes, x: bytes)
    requires Completed(x)
    requires if |t| == 1 then t[0] != PERCENT else |t| == 3 && StartsTriplet(t)
    ensures Completed(t + x)
  {
    assert (t + x)[|t|..] == x;
  }

  lemma {:induction false} EncodedIsCompleted(v: bytes, preserve: bool)
    ensures Completed(Encoded(v, preserve))
  {
    hide Completed, HexDigit;
    if v == [] {
      EmptyIsCompleted();
    } else if Copied(v[0], preserve) {
      EncodedIsCompleted(v[1..], preserve);
      CompletedStep([v[0]], Encoded(v[1..], preserve));
    } else if StartsTriplet(v) {
      EncodedIsCompleted(v[3..], preserve);
      CompletedStep(v[..3], Encoded(v[3..], preserve));
    } else {
      EncodedIsCompleted(v[1..], preserve);
      CompletedStep(Triplet(v[0]), Encoded(v[1..], preserve));
    }
  }

  lemma EmptyIsCompleted()
    ensures Completed([])
  {
  }

  // What follows a completed text decodes to at least one more byte.
  lemma {:induction false} DecodedConcat(x: bytes, z: bytes)
    requires Completed(x)
    ensures Decoded(x + z) == Decoded(x) + Decoded(z)
    ensures z != [] ==> Decoded(z) != []
  {
    if x == [] {
      assert [] + z == z;
    } else {
      var width := if x[0] == PERCENT then 3 else 1;
      var first := DecodedFirst(x, x[width..]);
      DecodedConcat(x[width..], z);
      assert (x + z)[width..] == x[width..] + z;
      var same := DecodedFirst(x + z, x[width..] + z);
      hide Decoded, Completed, StartsTriplet;
      ConcatAssociative([first], Decoded(x[width..]), Decoded(z));
    }
    hide IsHexDigit;
    SomethingDecoded(z);
  }

  lemma SomethingDecoded(z: bytes)
    ensures z != [] ==> Decoded(z) != []
  {
  }

  // The first byte a text decodes to, and what remains.
  lemma DecodedFirst(x: bytes, rest: bytes) returns (first: byte)
    requires x != [] && (x[0] == PERCENT ==> StartsTriplet(x))
    requires var width := if x[0] == PERCENT then 3 else 1; x[width..] == rest
    ensures first == if x[0] == PERCENT then HexValue(x[1]) * 16 + HexValue(x[2]) else x[0]
    ensures Decoded(x) == [first] + Decoded(rest)
  {
    first := if x[0] == PERCENT then HexValue(x[1]) * 16 + HexValue(x[2]) else x[0];
  }

  // A value survives encoding and decoding exactly when it contains no %XX triplet.
  lemma {:induction false} RoundTripExactly(v: bytes, preserve: bool)
    ensures Decoded(Encoded(v, preserve)) == v <==> TripletFree(v)
  {
    EncodeLaws(v, preserve);
    DecodedFixed(v);
  }

  lemma {:induction false} DecodedFixed(v: bytes)
    ensures Decoded(v) == v <==> TripletFree(v)
  {
    if v == [] {
    } else if StartsTriplet(v) {
      DecodedLength(v[3..]);
      assert v[0..] == v;
    } else {
      DecodedFixed(v[1..]);
      assert v == [v[0]] + v[1..] && v[0..] == v;
      if TripletFree(v) {
        forall i | 0 <= i < |v[1..]| ensures !StartsTriplet(v[1..][i..]) {
          assert v[1..][i..] == v[i + 1..];
        }
      } else {
        var i :| 0 <= i < |v| && StartsTriplet(v[i..]);
        assert v[1..][i - 1..] == v[i..];
      }
    }
  }

  // Outside the reserved modes an encoded value is made of unreserved bytes and '%'.
  lemma {:induction false} EncodedAlphabet(v: bytes)
    ensures forall i :: 0 <= i < |Encoded(v, false)| ==>
            IsUnreserved(Encoded(v, false)[i]) || Encoded(v, false)[i] == PERCENT
  {
    if v == [] {
    } else if Copied(v[0], false) {
      EncodedAlphabet(v[1..]);
    } else if StartsTriplet(v) {
      EncodedAlphabet(v[3..]);
    } else {
      EncodedAlphabet(v[1..]);
    }
  }

  // ---- The loops --------------------------------------------------------------------------------

  method EncodeValue(value: bytes, preserve: bool) returns (out: bytes)
    ensures out == Encoded(value, preserve)
  {
    out := [];
    var index := 0;
    while index < |value|
      invariant 0 <= index <= |value|
      invariant out + Encoded(value[index..], preserve) == Encoded(value, preserve)
    {
      var c, width := value[index], 1;
      ghost var before, rest := out, value[index..];
      if Copied(c, preserve) {
        out := out + [c];
      } else if c == PERCENT && index + 2 < |value| && IsHexDigit(value[index + 1]) && IsHexDigit(value[index + 2]) {
        out := out + value[index..index + 3];
        width := 3;
        assert rest[..3] == value[index..index + 3];
      } else {
        out := out + Triplet(c);
      }
      assert rest[width..] == value[index + width..];
      ConcatAssociative(before, out[|before|..], Encoded(rest[width..], preserve));
      index := index + width;
    }
  }

  method DecodeValue(text: bytes) returns (out: bytes)
    ensures out == Decoded(text)
  {
    assert text[0..] == text && Decoded([]) == [];
    hide Decoded, HexValue, IsHexDigit;
    out := [];
    var index := 0;
    while index < |text|
      invariant 0 <= index <= |text|
      invariant out + Decoded(text[index..]) == Decoded(text)
    {
      var width := 1;
      ghost var before := out;
      if text[index] == PERCENT && index + 2 < |text| && IsHexDigit(text[index + 1]) && IsHexDigit(text[index + 2]) {
        out := out + [HexValue(text[index + 1]) * 16 + HexValue(text[index + 2])];
        width := 3;
      } else {
        out := out + [text[index]];
      }
      DecodedStep(text, index);
      ConcatAssociative(before, out[|before|..], Decoded(text[index + width..]));
      index := index + width;
    }
    assert text[index..] == [] && out + [] == out;
  }

  lemma DecodedStep(text: bytes, index: nat)
    requires index < |text|
    ensures Decoded(text[index..]) ==
            if StartsTriplet(text[index..])
            then [HexValue(text[index + 1]) * 16 + HexValue(text[index + 2])] + Decoded(text[index + 3..])
            else [text[index]] + Decoded(text[index + 1..])
  {
    var rest := text[index..];
    if StartsTriplet(rest) {
      assert rest[3..] == text[index + 3..];
    } else {
      assert rest[1..] == text[index + 1..];
    }
  }

  method IsValidEncodedValue(value: bytes) returns (valid: bool)
    ensures valid == ValidEncoded(value)
  {
    var index := 0;
    while index < |value|
      invariant 0 <= index <= |value|
      invariant ValidEncoded(value[index..]) == ValidEncoded(value)
    {
      var c, rest, width := value[index], value[index..], 1;
      if c == PERCENT {
        if index + 2 >= |value| || !IsHexDigit(value[index + 1]) || !IsHexDigit(value[index + 2]) { return false; }
        width := 3;
      } else if !IsUnreserved(c) {
        return false;
      }
      assert rest[width..] == value[index + width..];
      index := index + width;
    }
    return true;
  }
}
