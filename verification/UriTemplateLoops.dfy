// The loops of Expand, BuildMatchParts and Match, proved against the functions of UriTemplate.
module UriTemplateLoops {
  import opened Bytes
  import opened UriCoding
  import opened UriTemplate
  import opened UriInverse

  method Expand(segments: seq<Segment>, vars: Bindings) returns (out: bytes)
    ensures out == Expanded(segments, vars)
  {
    out := [];
    for i := 0 to |segments|
      invariant out + Expanded(segments[i..], vars) == Expanded(segments, vars)
    {
      ghost var before, rest := out, segments[i..];
      assert rest[0] == segments[i] && rest[1..] == segments[i + 1..];
      match segments[i] {
        case Literal(text) => out := out + text;
        case Variables(e) =>
          var text := ExpandExpression(e, vars);
          out := out + text;
      }
      ConcatAssociative(before, out[|before|..], Expanded(segments[i + 1..], vars));
    }
    assert segments[|segments|..] == [];
  }

  method ExpandExpression(e: Expression, vars: Bindings) returns (out: bytes)
    ensures out == ExpandedExpression(e, vars)
  {
    var defined := DefinedNames(e.names, vars);
    DefinedBound(e.names, vars);
    if defined == [] { return []; }
    var joined := JoinDefined(e.op, defined, vars);
    return Prefix(e.op) + joined;
  }

  method DefinedNames(names: seq<bytes>, vars: Bindings) returns (defined: seq<bytes>)
    ensures defined == Defined(names, vars)
  {
    hide *;
    defined := [];
    assert names[0..] == names;
    for i := 0 to |names|
      invariant defined + Defined(names[i..], vars) == Defined(names, vars)
    {
      DefinedStep(names, i, vars, defined);
      if names[i] in vars { defined := defined + [names[i]]; }
    }
    NothingDefined(vars);
    assert names[|names|..] == [] && defined + [] == defined;
  }

  lemma NothingDefined(vars: Bindings)
    ensures Defined([], vars) == []
  {
  }

  lemma DefinedStep(names: seq<bytes>, i: nat, vars: Bindings, before: seq<bytes>)
    requires i < |names|
    ensures before + Defined(names[i..], vars) ==
            (if names[i] in vars then before + [names[i]] else before) + Defined(names[i + 1..], vars)
  {
    assert names[i..][0] == names[i] && names[i..][1..] == names[i + 1..];
  }

  method JoinDefined(op: Operator, defined: seq<bytes>, vars: Bindings) returns (out: bytes)
    requires defined != [] && forall n :: n in defined ==> n in vars
    ensures out == JoinValues(op, defined, vars)
  {
    hide JoinValues, ExpandedValue, Separator;
    out := [];
    assert defined[0..] == defined;
    for slot := 0 to |defined|
      invariant out + Joined(op, defined, vars, slot) == JoinValues(op, defined, vars)
    {
      ghost var before := out;
      if slot > 0 { out := out + Separator(op); }
      assert defined[slot] in defined;
      var text := AppendExpandedValue(op, defined[slot], vars[defined[slot]]);
      out := out + text;
      assert before + [] == before;
      JoinedStep(op, defined, vars, slot, before, out);
    }
  }

  // What is still to be written before the variable number `slot`.
  ghost function Joined(op: Operator, names: seq<bytes>, vars: Bindings, slot: nat): bytes
    requires slot <= |names| && forall n :: n in names ==> n in vars
  {
    if slot == |names| then [] else (if slot > 0 then Separator(op) else []) + JoinValues(op, names[slot..], vars)
  }

  lemma JoinedStep(op: Operator, names: seq<bytes>, vars: Bindings, slot: nat, before: bytes, after: bytes)
    requires slot < |names| && forall n :: n in names ==> n in vars
    requires after == before + (if slot > 0 then Separator(op) else [])
             + ExpandedValue(op, names[slot], vars[names[slot]])
    ensures after + Joined(op, names, vars, slot + 1) == before + Joined(op, names, vars, slot)
  {
    hide ExpandedValue, Separator;
    var sep := if slot > 0 then Separator(op) else [];
    var value, later := ExpandedValue(op, names[slot], vars[names[slot]]), Joined(op, names, vars, slot + 1);
    assert names[slot..][0] == names[slot] && names[slot..][1..] == names[slot + 1..];
    assert JoinValues(op, names[slot..], vars) == value + later;
    ConcatAssociative(before, sep, value);
    ConcatAssociative(before, sep + value, later);
    ConcatAssociative(sep, value, later);
  }

  method AppendExpandedValue(op: Operator, name: bytes, value: bytes) returns (text: bytes)
    ensures text == ExpandedValue(op, name, value)
  {
    match op {
      case PathStyle =>
        text := name;
        if value != [] {
          var encoded := EncodeValue(value, false);
          text := text + [EQUALS] + encoded;
          ConcatAssociative(name, [EQUALS], encoded);
        }
      case Form =>
        var encoded := EncodeValue(value, false);
        text := name + [EQUALS] + encoded;
        ConcatAssociative(name, [EQUALS], encoded);
      case FormCont =>
        var encoded := EncodeValue(value, false);
        text := name + [EQUALS] + encoded;
        ConcatAssociative(name, [EQUALS], encoded);
      case Reserved => text := EncodeValue(value, true);
      case Fragment => text := EncodeValue(value, true);
      case _ => text := EncodeValue(value, false);
    }
  }

  method BuildMatchParts(segments: seq<Segment>) returns (parts: seq<MatchPart>)
    ensures parts == Parts(segments, [])
  {
    hide Parts, NameParts, Prefix;
    parts := [];
    var pending: bytes := [];
    assert segments[0..] == segments && parts + Parts(segments, []) == Parts(segments, []);
    for i := 0 to |segments|
      invariant parts + Parts(segments[i..], pending) == Parts(segments, [])
    {
      PartsStep(segments, i, pending);
      match segments[i] {
        case Literal(text) => pending := pending + text;
        case Variables(e) =>
          ghost var before := parts;
          var more: seq<MatchPart>;
          more, pending := BuildNameParts(e, pending + Prefix(e.op));
          parts := parts + more;
          ConcatParts(before, more, Parts(segments[i + 1..], pending));
      }
    }
    NoMoreParts(pending);
    assert segments[|segments|..] == [];
    parts := parts + [MatchPart(pending, [], false, false)];
  }

  lemma PartsStep(segments: seq<Segment>, i: nat, pending: bytes)
    requires i < |segments|
    ensures segments[i].Literal? ==>
              Parts(segments[i..], pending) == Parts(segments[i + 1..], pending + segments[i].text)
    ensures segments[i].Variables? ==>
              var e := segments[i].e;
              Parts(segments[i..], pending) ==
              NameParts(e.op, e.names, pending + Prefix(e.op)) +
              Parts(segments[i + 1..], if e.names == [] then pending + Prefix(e.op) else [])
  {
    hide Prefix, PartOf, Separator;
    assert segments[i..][0] == segments[i] && segments[i..][1..] == segments[i + 1..];
    if segments[i].Variables? && segments[i].e.names == [] {
      var later := Parts(segments[i + 1..], pending + Prefix(segments[i].e.op));
      assert [] + later == later;
    }
  }

  lemma NoMoreParts(pending: bytes)
    ensures Parts([], pending) == [MatchPart(pending, [], false, false)]
  {
  }

  lemma ConcatParts(x: seq<MatchPart>, y: seq<MatchPart>, z: seq<MatchPart>)
    ensures (x + y) + z == x + (y + z)
  {
  }

  // The inner loop of BuildMatchParts: the parts of one expression, and what stays pending.
  method BuildNameParts(e: Expression, start: bytes) returns (parts: seq<MatchPart>, pending: bytes)
    ensures parts == NameParts(e.op, e.names, start)
    ensures pending == if e.names == [] then start else []
  {
    hide Separator, NameParts, Preserves;
    parts, pending := [], start;
    assert e.names[0..] == e.names && parts + NameParts(e.op, e.names, start) == NameParts(e.op, e.names, start);
    for index := 0 to |e.names|
      invariant pending == if index == 0 then start else []
      invariant parts + NameParts(e.op, e.names[index..], if index == 0 then start else Separator(e.op)) ==
                NameParts(e.op, e.names, start)
    {
      ghost var before, literal := parts, if index == 0 then start else Separator(e.op);
      NamePartsStep(e.op, e.names, index, literal);
      if index > 0 { pending := pending + Separator(e.op); }
      assert pending == literal;
      var name := e.names[index];
      if e.op.PathStyle? {
        pending := pending + name;
      } else if Named(e.op) {
        pending := pending + name;
        pending := pending + [EQUALS];
      }
      assert pending == literal + NameLiteral(e.op, name);
      parts := parts + [MatchPart(pending, name, e.op.PathStyle?, Preserves(e.op))];
      ConcatParts(before, [PartOf(e.op, name, literal)], NameParts(e.op, e.names[index + 1..], Separator(e.op)));
      pending := [];
    }
    NoMoreNames(e.op, start);
    NoMoreNames(e.op, Separator(e.op));
    assert e.names[|e.names|..] == [] && parts + [] == parts;
  }

  lemma NamePartsStep(op: Operator, names: seq<bytes>, i: nat, literal: bytes)
    requires i < |names|
    ensures NameParts(op, names[i..], literal) ==
            [PartOf(op, names[i], literal)] + NameParts(op, names[i + 1..], Separator(op))
  {
    hide Separator, PartOf;
    assert names[i..][0] == names[i] && names[i..][1..] == names[i + 1..];
  }

  lemma NoMoreNames(op: Operator, pending: bytes)
    ensures NameParts(op, [], pending) == []
  {
  }

  method MatchUri(segments: seq<Segment>, uri: bytes) returns (result: Option<Bindings>)
    ensures result == Match(segments, uri)
  {
    hide Parts, MatchFrom, At;
    if |uri| > MAX_MATCH_LENGTH { return None; }
    var parts := BuildMatchParts(segments);
    PartsNotEmpty(segments, []);
    if |parts| == 1 {
      return if uri == parts[0].literal then Some(map[]) else None;
    }
    var head, tail := parts[0].literal, parts[|parts| - 1].literal;
    if |uri| < |head| + |tail| { return None; }
    if !At(uri, 0, head) { return None; }
    if !At(uri, |uri| - |tail|, tail) { return None; }
    result := MatchVariables(parts, uri, |head|);
  }

  method MatchVariables(parts: seq<MatchPart>, uri: bytes, start: nat) returns (result: Option<Bindings>)
    requires parts != [] && start <= |uri|
    ensures result == MatchFrom(parts, uri, start, map[])
  {
    hide FindLiteral, ValidEncoded, Decoded;
    var variableCount: nat := |parts| - 1;
    var matched: Bindings := map[];
    var position: nat := start;
    assert parts[0..] == parts;
    for index := 0 to variableCount
      invariant position <= |uri|
      invariant MatchFrom(parts[index..], uri, position, matched) == MatchFrom(parts, uri, start, map[])
    {
      ghost var rest := parts[index..];
      assert rest[0] == parts[index] && rest[1] == parts[index + 1] && rest[1..] == parts[index + 1..];
      var part, next := parts[index], parts[index + 1].literal;
      var greedy := part.preserve || index + 1 == variableCount;
      var found := FindLiteral(uri, position, next, greedy);
      if found.None? { return None; }
      var text := RawToText(part, uri[position..found.value]);
      if text.None? { return None; }
      var value := DecodeValue(text.value);
      matched := matched[part.name := value];
      position := found.value + |next|;
    }
    if position != |uri| { return None; }
    return Some(matched);
  }

  method RawToText(part: MatchPart, piece: bytes) returns (text: Option<bytes>)
    ensures text == ValueText(part, piece)
  {
    var raw := piece;
    if part.optionalEquals && raw != [] {
      if raw[0] != EQUALS { return None; }
      raw := raw[1..];
    }
    if !part.preserve {
      var valid := IsValidEncodedValue(raw);
      if !valid { return None; }
    }
    return Some(raw);
  }

  // The label separator '.' may occur inside a value, and then the first one found cuts it:
  // "{.a,b}" with a = "1.1" and b = "1" expands to ".1.1.1" and matches as a = "1", b = "1.1".
  lemma LabelSeparatorIsAmbiguous()
    ensures var a: bytes, b: bytes := [0x61], [0x62];
            var segments := [Variables(Expression(Label, [a, b]))];
            var uri: bytes := [0x2E, 0x31, 0x2E, 0x31, 0x2E, 0x31];
            && Expanded(segments, map[a := [0x31, 0x2E, 0x31], b := [0x31]]) == uri
            && Match(segments, uri) == Some(map[a := [0x31], b := [0x31, 0x2E, 0x31]])
  {
    hide *;
    var a: bytes, b: bytes := [0x61], [0x62];
    var segments := [Variables(Expression(Label, [a, b]))];
    var one: bytes, dotted: bytes := [0x31], [0x31, 0x2E, 0x31];
    var uri: bytes := [0x2E, 0x31, 0x2E, 0x31, 0x2E, 0x31];
    LabelExpansion(a, b, one, dotted);
    LabelParts(a, b);
    var parts := [MatchPart([0x2E], a, false, false), MatchPart([0x2E], b, false, false), Tail([])];
    LabelMatch(a, b, one, dotted, parts);
    assert [0x2E] + (dotted + ([0x2E] + one)) == uri == [0x2E] + one + ([0x2E] + dotted);
    LabelEnds(segments, parts, uri);
  }

  lemma LabelEnds(segments: seq<Segment>, parts: seq<MatchPart>, uri: bytes)
    requires Parts(segments, []) == parts && |uri| == 6 && uri[0] == 0x2E
    requires |parts| == 3 && parts[0].literal == [0x2E] && parts[2] == Tail([])
    ensures Match(segments, uri) == MatchFrom(parts, uri, 1, map[])
  {
    hide MatchFrom, Parts;
  }

  lemma LabelExpansion(a: bytes, b: bytes, one: bytes, dotted: bytes)
    requires a != b && one == [0x31] && dotted == [0x31, 0x2E, 0x31]
    ensures Expanded([Variables(Expression(Label, [a, b]))], map[a := dotted, b := one]) ==
            [0x2E] + (dotted + ([0x2E] + one))
  {
    var vars: Bindings := map[a := dotted, b := one];
    var e := Expression(Label, [a, b]);
    UnreservedIsCopied(one);
    UnreservedIsCopied(dotted);
    hide Encoded;
    WholeExpression(e, vars);
    assert [a, b][1..] == [b];
    assert JoinValues(Label, [b], vars) == one;
    assert JoinValues(Label, [a, b], vars) == dotted + ([0x2E] + one);
    assert [Variables(e)][1..] == [];
    assert Expanded([Variables(e)], vars) == ExpandedExpression(e, vars) + [];
  }

  lemma LabelParts(a: bytes, b: bytes)
    ensures Parts([Variables(Expression(Label, [a, b]))], []) ==
            [MatchPart([0x2E], a, false, false), MatchPart([0x2E], b, false, false), Tail([])]
  {
    var vars: Bindings := map[a := [], b := []];
    var e := Expression(Label, [a, b]);
    NamesUnfold(Label, [a, b], vars, [0x2E]);
    NamesUnfold(Label, [b], vars, [0x2E]);
    assert [a, b][1..] == [b] && [b][1..] == [];
    assert [0x2E] + NameLiteral(Label, a) == [0x2E] == [0x2E] + NameLiteral(Label, b);
    assert [] + [0x2E] == [0x2E] && [Variables(e)][1..] == [];
    assert Parts([Variables(e)], []) == NameParts(Label, [a, b], [0x2E]) + [Tail([])];
  }

  lemma LabelMatch(a: bytes, b: bytes, one: bytes, dotted: bytes, parts: seq<MatchPart>)
    requires a != b && one == [0x31] && dotted == [0x31, 0x2E, 0x31]
    requires parts == [MatchPart([0x2E], a, false, false), MatchPart([0x2E], b, false, false), Tail([])]
    ensures MatchFrom(parts, [0x2E] + one + ([0x2E] + dotted), 1, map[]) == Some(map[a := one, b := dotted])
  {
    var uri := [0x2E] + one + ([0x2E] + dotted);
    UnreservedIsCopied(one);
    UnreservedIsCopied(dotted);
    hide Decoded, ValidEncoded;
    assert FindLiteral(uri, 1, [0x2E], false) == Some(2) by {
      AtByte(uri, 1, 0x2E);
      AtByte(uri, 2, 0x2E);
    }
    assert FindLiteral(uri, 3, [], true) == Some(6);
    hide At, FindLiteral, MatchFrom;
    assert uri[1..2] == one && uri[3..6] == dotted;
    MatchStep(parts, uri, 1, map[], 2, one);
    assert parts[1..] == [parts[1], parts[2]] && parts[1..][1..] == [parts[2]];
    MatchStep(parts[1..], uri, 3, map[a := one], 6, dotted);
    MatchStops([parts[2]], uri, map[a := one][b := dotted]);
  }

  lemma MatchStep(parts: seq<MatchPart>, uri: bytes, position: nat, matched: Bindings, found: nat, text: bytes)
    requires |parts| > 1
    requires FindLiteral(uri, position, parts[1].literal, parts[0].preserve || |parts| == 2) == Some(found)
    requires position <= found <= |uri| && ValueText(parts[0], uri[position..found]) == Some(text)
    ensures MatchFrom(parts, uri, position, matched) ==
            MatchFrom(parts[1..], uri, found + |parts[1].literal|, matched[parts[0].name := Decoded(text)])
  {
    hide FindLiteral, ValueText, Decoded;
  }

  lemma MatchStops(parts: seq<MatchPart>, uri: bytes, matched: Bindings)
    requires |parts| == 1
    ensures MatchFrom(parts, uri, |uri|, matched) == Some(matched)
  {
  }
}
