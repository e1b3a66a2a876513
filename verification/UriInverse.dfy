// When matching an expansion gives back the values it was made of: the exact condition, and
// conditions on the template alone.
module UriInverse {
  import opened Bytes
  import opened UriCoding
  import opened UriTemplate

  // ---- Searches that find the intended place ----------------------------------------------------

  // The search for the literal behind the first raw piece stops right behind that piece: a search
  // from the front meets the literal no earlier, a search from the back no later. The search for
  // the last literal always does.
  predicate Clear(parts: seq<MatchPart>, raws: seq<bytes>)
    requires raws != [] && |raws| == |parts| - 1
  {
    var raw, next, rest := raws[0], parts[1].literal, Interleaved(parts, raws);
    if |parts| == 2 then true
    else if parts[0].preserve then forall j :: |raw| < j <= |rest| ==> !At(rest, j, next)
    else forall j :: 0 <= j < |raw| ==> !At(raw + next, j, next)
  }

  predicate AllClear(parts: seq<MatchPart>, raws: seq<bytes>)
    requires |raws| == |parts| - 1
    decreases |parts|
  {
    raws == [] || (Clear(parts, raws) && AllClear(parts[1..], raws[1..]))
  }

  lemma SameAt(uri: bytes, position: nat, rest: bytes, j: nat, x: bytes)
    requires position <= |uri| && uri[position..] == rest
    ensures At(uri, position + j, x) <==> At(rest, j, x)
  {
    AtSlice(uri, position + j, x);
    AtSlice(rest, j, x);
    if j + |x| <= |rest| { assert uri[position..][j..j + |x|] == uri[position + j..position + j + |x|]; }
  }

  lemma AtInFront(x: bytes, y: bytes, j: nat, z: bytes)
    requires j + |z| <= |x|
    ensures At(x + y, j, z) <==> At(x, j, z)
  {
    AtSlice(x + y, j, z);
    AtSlice(x, j, z);
    assert (x + y)[j..j + |z|] == x[j..j + |z|];
  }

  lemma FrontSearch(uri: bytes, position: nat, raw: bytes, next: bytes, later: bytes)
    requires position <= |uri| && uri[position..] == raw + (next + later)
    ensures var found := FindLiteral(uri, position, next, false);
            && found.Some? && position <= found.value <= position + |raw|
            && (found.value == position + |raw| <==> forall j :: 0 <= j < |raw| ==> !At(raw + next, j, next))
  {
    var rest := raw + (next + later);
    ConcatAssociative(raw, next, later);
    forall j | 0 <= j <= |raw| ensures At(uri, position + j, next) <==> At(raw + next, j, next) {
      SameAt(uri, position, rest, j, next);
      AtInFront(raw + next, later, j, next);
    }
    assert At(raw + next, |raw| + 0, next) by { AtBehind(raw, next); }
    hide At;
    AtFits(uri, position + |raw|, next);
    if next == [] { NothingIsAnywhere(raw + next, 0); }
    assert forall j :: position <= j < position + |raw| ==> (At(uri, j, next) <==> At(raw + next, j - position, next));
  }

  lemma AtBehind(x: bytes, y: bytes)
    ensures At(x + y, |x|, y)
  {
    AtSlice(x + y, |x|, y);
  }

  lemma AtFits(s: bytes, p: nat, x: bytes)
    ensures At(s, p, x) ==> p + |x| <= |s|
  {
  }

  lemma NothingIsAnywhere(s: bytes, p: nat)
    ensures p <= |s| ==> At(s, p, [])
  {
  }

  lemma BackSearch(uri: bytes, position: nat, raw: bytes, next: bytes, later: bytes)
    requires position <= |uri| && uri[position..] == raw + (next + later)
    ensures var found := FindLiteral(uri, position, next, true);
            var rest := raw + (next + later);
            && found.Some? && position + |raw| <= found.value
            && (found.value == position + |raw| <==> forall j :: |raw| < j <= |rest| ==> !At(rest, j, next))
  {
    var rest := raw + (next + later);
    forall j | 0 <= j <= |rest| ensures At(uri, position + j, next) <==> At(rest, j, next) {
      SameAt(uri, position, rest, j, next);
    }
    assert At(rest, |raw| + 0, next) by {
      ConcatAssociative(raw, next, later);
      AtBehind(raw, next);
      AtInFront(raw + next, later, |raw|, next);
    }
    forall j | |raw| <= j <= |rest| ensures At(rest, j, next) ==> j + |next| <= |rest| { AtFits(rest, j, next); }
    hide At;
    if next == [] { NothingIsAnywhere(rest, |rest|); }
    assert forall j :: position <= j <= |uri| ==> (At(uri, j, next) <==> At(rest, j - position, next));
  }

  // The search behind the first raw piece never fails, and is right exactly if the piece is clear.
  lemma SearchIsRight(parts: seq<MatchPart>, raws: seq<bytes>, uri: bytes, position: nat)
    requires |parts| >= 2 && |raws| == |parts| - 1
    requires position <= |uri| && uri[position..] == Interleaved(parts, raws)
    ensures var found := FindLiteral(uri, position, parts[1].literal, parts[0].preserve || |parts| == 2);
            && found.Some? && position <= found.value
            && (Clear(parts, raws) <==> found.value == position + |raws[0]|)
            && (|parts| == 2 ==> found.value == position + |raws[0]|)
            && (parts[0].preserve ==> found.value >= position + |raws[0]|)
            && (!parts[0].preserve ==> found.value <= position + |raws[0]|)
  {
    var raw, next, later := raws[0], parts[1].literal, Interleaved(parts[1..], raws[1..]);
    hide FindLiteral, At;
    if |parts| == 2 {
      assert next + later == next;
      BackSearch(uri, position, raw, next, later);
      forall j | |raw| < j <= |raw + next| ensures !At(raw + next, j, next) { AtFits(raw + next, j, next); }
    } else if parts[0].preserve {
      BackSearch(uri, position, raw, next, later);
    } else {
      FrontSearch(uri, position, raw, next, later);
    }
  }

  lemma InterleavedSplit(uri: bytes, position: nat, parts: seq<MatchPart>, raws: seq<bytes>)
    requires |parts| >= 2 && |raws| == |parts| - 1
    requires position <= |uri| && uri[position..] == Interleaved(parts, raws)
    ensures position + |raws[0]| + |parts[1].literal| <= |uri|
    ensures uri[position..position + |raws[0]|] == raws[0]
    ensures uri[position + |raws[0]| + |parts[1].literal|..] == Interleaved(parts[1..], raws[1..])
  {
    var raw, next, rest := raws[0], parts[1].literal, Interleaved(parts[1..], raws[1..]);
    assert uri[position..] == raw + (next + rest);
    hide Interleaved;
    assert uri[position..position + |raw|] == uri[position..][..|raw|];
    assert uri[position + |raw| + |next|..] == uri[position..][|raw| + |next|..];
  }

  // If all pieces are clear, the intended decomposition is the one that is found.
  lemma {:induction false} MatchFromFinds(parts: seq<MatchPart>, raws: seq<bytes>, uri: bytes, position: nat,
                                          matched: Bindings)
    requires parts != [] && |raws| == |parts| - 1 && ValidRaws(parts, raws) && AllClear(parts, raws)
    requires position <= |uri| && uri[position..] == Interleaved(parts, raws)
    ensures MatchFrom(parts, uri, position, matched) == Some(Bound(parts, raws, matched))
    decreases |parts|
  {
    hide ValueText, Decoded, FindLiteral, Clear;
    if raws == [] {
      assert |uri[position..]| == 0;
    } else {
      var part, next, raw := parts[0], parts[1].literal, raws[0];
      SearchIsRight(parts, raws, uri, position);
      InterleavedSplit(uri, position, parts, raws);
      assert ValueText(part, raw).Some?;
      ValidTail(parts, raws);
      hide ValidRaws, Interleaved;
      MatchFromFinds(parts[1..], raws[1..], uri, position + |raw| + |next|,
                     matched[part.name := Decoded(ValueText(part, raw).value)]);
    }
  }

  lemma ValidTail(parts: seq<MatchPart>, raws: seq<bytes>)
    requires raws != [] && |raws| == |parts| - 1 && ValidRaws(parts, raws)
    ensures ValidRaws(parts[1..], raws[1..])
  {
    hide ValueText;
    assert forall i :: 0 <= i < |raws[1..]| ==> raws[1..][i] == raws[i + 1] && parts[1..][i] == parts[i + 1];
  }

  lemma WholeIsMatched(parts: seq<MatchPart>, raws: seq<bytes>)
    requires parts != [] && |raws| == |parts| - 1 && ValidRaws(parts, raws) && AllClear(parts, raws)
    ensures MatchParts(parts, Whole(parts, raws)) == Some(Bound(parts, raws, map[]))
  {
    hide *;
    if raws == [] {
      NothingIsMatched(parts, raws);
    } else {
      var uri := Whole(parts, raws);
      WholeIsTried(parts, raws);
      MatchFromFinds(parts, raws, uri, |parts[0].literal|, map[]);
    }
  }

  lemma NothingIsMatched(parts: seq<MatchPart>, raws: seq<bytes>)
    requires |parts| == 1 && raws == []
    ensures MatchParts(parts, Whole(parts, raws)) == Some(map[]) && Bound(parts, raws, map[]) == map[]
  {
    assert parts[0].literal + [] == parts[0].literal;
  }

  // The checks in front of the loop let a text of the template's own shape pass.
  lemma WholeIsTried(parts: seq<MatchPart>, raws: seq<bytes>)
    requires |parts| >= 2 && |raws| == |parts| - 1
    ensures var uri, start := Whole(parts, raws), |parts[0].literal|;
            && MatchParts(parts, uri) == MatchFrom(parts, uri, start, map[])
            && start <= |uri| && uri[start..] == Interleaved(parts, raws)
  {
    InterleavedEnds(parts, raws);
    EndsOfConcat(parts[0].literal, Interleaved(parts, raws), parts[|parts| - 1].literal);
    hide MatchFrom, Interleaved, At;
  }

  lemma EndsOfConcat(head: bytes, x: bytes, tail: bytes)
    requires |tail| <= |x| && x[|x| - |tail|..] == tail
    ensures var uri := head + x;
            && |uri| >= |head| + |tail| && At(uri, 0, head) && At(uri, |uri| - |tail|, tail) && uri[|head|..] == x
  {
    var uri := head + x;
    AtSlice(uri, 0, head);
    AtSlice(uri, |uri| - |tail|, tail);
    assert uri[|uri| - |tail|..] == x[|x| - |tail|..];
  }

  lemma {:induction false} InterleavedEnds(parts: seq<MatchPart>, raws: seq<bytes>)
    requires |parts| >= 2 && |raws| == |parts| - 1
    ensures var x, tail := Interleaved(parts, raws), parts[|parts| - 1].literal;
            |tail| <= |x| && x[|x| - |tail|..] == tail
    decreases |parts|
  {
    if |parts| > 2 {
      InterleavedEnds(parts[1..], raws[1..]);
    } else {
      assert Interleaved(parts, raws) == raws[0] + parts[1].literal;
    }
  }

  // ---- The raw pieces of an expansion -----------------------------------------------------------

  // How an expansion writes a value for a part; it depends on nothing but the part and the value.
  function RawFor(part: MatchPart, value: bytes): bytes {
    if part.optionalEquals then if value == [] then [] else [EQUALS] + Encoded(value, false)
    else Encoded(value, part.preserve)
  }

  predicate Spelled(part: MatchPart, raw: bytes, vars: Bindings) {
    part.name in vars && raw == RawFor(part, vars[part.name]) && !(part.optionalEquals && part.preserve)
  }

  predicate Spells(parts: seq<MatchPart>, raws: seq<bytes>, vars: Bindings)
    requires |raws| == |parts| - 1
  {
    forall i :: 0 <= i < |raws| ==> Spelled(parts[i], raws[i], vars)
  }

  lemma RawMeans(part: MatchPart, value: bytes)
    requires !(part.optionalEquals && part.preserve)
    ensures ValueText(part, RawFor(part, value)) == Some(Encoded(value, part.preserve))
    ensures Decoded(Encoded(value, part.preserve)) == Decoded(value)
  {
    EncodeLaws(value, part.preserve);
    NothingEncoded(part.preserve);
    hide Encoded, Decoded, ValidEncoded;
    if part.optionalEquals && value != [] { assert RawFor(part, value)[1..] == Encoded(value, false); }
  }

  lemma NothingEncoded(preserve: bool)
    ensures Encoded([], preserve) == []
  {
  }

  lemma {:induction false} NamesSpell(op: Operator, names: seq<bytes>, vars: Bindings, pending: bytes,
                                      rest: seq<MatchPart>, restRaws: seq<bytes>)
    requires rest != [] && |restRaws| == |rest| - 1 && Spells(rest, restRaws, vars)
    requires forall n :: n in names ==> n in vars
    ensures |NameRaws(op, names, vars)| == |NameParts(op, names, pending)|
    ensures Spells(NameParts(op, names, pending) + rest, NameRaws(op, names, vars) + restRaws, vars)
  {
    hide RawOf, Spells, PartOf;
    var parts, raws := NameParts(op, names, pending), NameRaws(op, names, vars);
    if names == [] {
      assert parts + rest == rest && raws + restRaws == restRaws;
    } else {
      NamesSpell(op, names[1..], vars, Separator(op), rest, restRaws);
      OneSpells(op, names[0], pending, vars);
      var parts', raws' := NameParts(op, names[1..], Separator(op)) + rest, NameRaws(op, names[1..], vars) + restRaws;
      ConsConcat(PartOf(op, names[0], pending), NameParts(op, names[1..], Separator(op)), rest);
      ConsConcat(RawOf(op, vars[names[0]]), NameRaws(op, names[1..], vars), restRaws);
      SpellsMore(PartOf(op, names[0], pending), RawOf(op, vars[names[0]]), parts', raws', vars);
    }
  }

  lemma OneSpells(op: Operator, name: bytes, pending: bytes, vars: Bindings)
    requires name in vars
    ensures Spelled(PartOf(op, name, pending), RawOf(op, vars[name]), vars)
  {
    hide Encoded;
  }

  lemma SpellsMore(part: MatchPart, raw: bytes, parts: seq<MatchPart>, raws: seq<bytes>, vars: Bindings)
    requires |raws| == |parts| - 1 && Spelled(part, raw, vars) && Spells(parts, raws, vars)
    ensures Spells([part] + parts, [raw] + raws, vars)
  {
    hide Spelled;
  }

  lemma {:induction false} SegmentsSpell(segments: seq<Segment>, vars: Bindings, pending: bytes)
    requires AllBound(segments, vars) && NamesEverywhere(segments)
    ensures Parts(segments, pending) != [] && |Raws(segments, vars)| == |Parts(segments, pending)| - 1
    ensures Spells(Parts(segments, pending), Raws(segments, vars), vars)
  {
    hide NameParts, NameRaws, Spells;
    ExpansionInterleaves(segments, vars, pending);
    if segments == [] {
      NothingSpells(Tail(pending), vars);
    } else {
      assert forall i :: 0 <= i < |segments[1..]| ==> segments[1..][i] == segments[i + 1];
      match segments[0] {
        case Literal(text) =>
          SegmentsSpell(segments[1..], vars, pending + text);
          assert [] + Raws(segments[1..], vars) == Raws(segments[1..], vars);
        case Variables(e) =>
          assert segments[0].e == e && forall n :: n in e.names ==> n in vars;
          SegmentsSpell(segments[1..], vars, []);
          NamesSpell(e.op, e.names, vars, pending + Prefix(e.op), Parts(segments[1..], []), Raws(segments[1..], vars));
      }
    }
  }

  lemma NothingSpells(part: MatchPart, vars: Bindings)
    ensures Spells([part], [], vars)
  {
  }

  // ---- The bindings a match returns -------------------------------------------------------------

  function NamesOf(parts: seq<MatchPart>): set<bytes> {
    set i | 0 <= i < |parts| - 1 :: parts[i].name
  }

  // The values of the named variables as far as decoding sees them.
  function DecodedValues(names: set<bytes>, vars: Bindings): Bindings {
    map n | n in names :: if n in vars then Decoded(vars[n]) else []
  }

  predicate BindsDecoded(m: Bindings, vars: Bindings) {
    forall n :: n in m ==> n in vars && m[n] == Decoded(vars[n])
  }

  lemma SameBindings(m: Bindings, names: set<bytes>, vars: Bindings)
    requires m.Keys == names && BindsDecoded(m, vars)
    ensures m == DecodedValues(names, vars)
  {
    hide Decoded;
  }

  lemma {:induction false} SpelledBinds(parts: seq<MatchPart>, raws: seq<bytes>, vars: Bindings, matched: Bindings)
    requires |raws| == |parts| - 1 && Spells(parts, raws, vars) && BindsDecoded(matched, vars)
    ensures ValidRaws(parts, raws) && BindsDecoded(Bound(parts, raws, matched), vars)
    ensures Bound(parts, raws, matched).Keys == matched.Keys + NamesOf(parts)
    decreases |parts|
  {
    hide ValueText, Decoded, Encoded, RawFor, NamesOf;
    if raws == [] {
      NoNames(parts);
    } else {
      var name := parts[0].name;
      assert Spelled(parts[0], raws[0], vars);
      RawMeans(parts[0], vars[name]);
      SpellsTail(parts, raws, vars);
      hide Spells;
      SpelledBinds(parts[1..], raws[1..], vars, matched[name := Decoded(vars[name])]);
      MorePieces(parts, raws);
      NamesOfTail(parts);
    }
  }

  lemma SpellsTail(parts: seq<MatchPart>, raws: seq<bytes>, vars: Bindings)
    requires raws != [] && |raws| == |parts| - 1 && Spells(parts, raws, vars)
    ensures Spells(parts[1..], raws[1..], vars)
  {
    hide Spelled;
    assert forall i :: 0 <= i < |raws[1..]| ==> raws[1..][i] == raws[i + 1] && parts[1..][i] == parts[i + 1];
  }

  lemma NoNames(parts: seq<MatchPart>)
    requires |parts| == 1
    ensures NamesOf(parts) == {}
  {
  }

  lemma NamesOfTail(parts: seq<MatchPart>)
    requires |parts| >= 2
    ensures NamesOf(parts) == {parts[0].name} + NamesOf(parts[1..])
  {
    forall n | n in NamesOf(parts) ensures n in {parts[0].name} + NamesOf(parts[1..]) {
      var i :| 0 <= i < |parts| - 1 && parts[i].name == n;
      if i > 0 { assert parts[1..][i - 1].name == n; }
    }
    forall n | n in NamesOf(parts[1..]) ensures n in NamesOf(parts) {
      var i :| 0 <= i < |parts[1..]| - 1 && parts[1..][i].name == n;
      assert parts[i + 1].name == n;
    }
  }

  lemma SpelledMatch(parts: seq<MatchPart>, raws: seq<bytes>, vars: Bindings)
    requires parts != [] && |raws| == |parts| - 1 && Spells(parts, raws, vars) && AllClear(parts, raws)
    ensures MatchParts(parts, Whole(parts, raws)) == Some(DecodedValues(NamesOf(parts), vars))
  {
    hide *;
    NothingBound(vars);
    SpelledBinds(parts, raws, vars, map[]);
    WholeIsMatched(parts, raws);
    assert Bound(parts, raws, map[]).Keys == NamesOf(parts);
    SameBindings(Bound(parts, raws, map[]), NamesOf(parts), vars);
  }

  lemma NothingBound(vars: Bindings)
    ensures BindsDecoded(map[], vars)
  {
  }

  // ---- The converse -----------------------------------------------------------------------------

  predicate DistinctNames(parts: seq<MatchPart>) {
    forall i, j :: 0 <= i < j < |parts| - 1 ==> parts[i].name != parts[j].name
  }

  predicate Returns(m: Bindings, parts: seq<MatchPart>, vars: Bindings) {
    forall i :: 0 <= i < |parts| - 1 ==>
      parts[i].name in m && parts[i].name in vars && m[parts[i].name] == Decoded(vars[parts[i].name])
  }

  // A piece of another length than the intended one, if it is let through at all, decodes to
  // another value: the front search can only stop early, the back search only late.
  lemma PieceDecides(part: MatchPart, value: bytes, raw: bytes)
    requires !(part.optionalEquals && part.preserve)
    requires if part.preserve then RawFor(part, value) <= raw else raw <= RawFor(part, value)
    requires ValueText(part, raw).Some? && Decoded(ValueText(part, raw).value) == Decoded(value)
    ensures raw == RawFor(part, value)
  {
    hide Encoded, Decoded, ValidEncoded;
    var right, text := RawFor(part, value), ValueText(part, raw).value;
    RawMeans(part, value);
    EncodedIsCompleted(value, part.preserve);
    if part.preserve {
      SameDecodingSameLength(right, raw);
    } else {
      ValidIsCompleted(text);
      if !part.optionalEquals {
        SameDecodingSameLength(raw, right);
      } else if raw == [] {
        NothingDecoded();
        DecodedConcat([], value);
        assert [] + value == value;
      } else {
        assert right == [EQUALS] + Encoded(value, false) && raw == [EQUALS] + raw[1..];
        assert right[1..] == Encoded(value, false) && raw[1..] <= right[1..];
        SameDecodingSameLength(raw[1..], right[1..]);
      }
    }
  }

  lemma NothingDecoded()
    ensures Decoded([]) == [] && Completed([])
  {
  }

  lemma SameDecodingSameLength(x: bytes, y: bytes)
    requires x <= y && Completed(x) && Decoded(x) == Decoded(y)
    ensures x == y
  {
    hide Decoded, Completed;
    var z := y[|x|..];
    assert x + z == y;
    DecodedConcat(x, z);
  }

  lemma {:induction false} MatchFromKeeps(parts: seq<MatchPart>, uri: bytes, position: nat, matched: Bindings,
                                          name: bytes)
    requires parts != [] && position <= |uri| && MatchFrom(parts, uri, position, matched).Some?
    requires name in matched && forall i :: 0 <= i < |parts| - 1 ==> parts[i].name != name
    ensures var m := MatchFrom(parts, uri, position, matched).value; name in m && m[name] == matched[name]
    decreases |parts|
  {
    hide ValueText, Decoded, FindLiteral, MatchFrom;
    if |parts| == 1 {
      MatchEnds(parts, uri, position, matched);
    } else {
      MatchGoesOn(parts, uri, position, matched);
      var part, next := parts[0], parts[1].literal;
      var found := FindLiteral(uri, position, next, part.preserve || |parts| == 2).value;
      AtFits(uri, found, next);
      var text := ValueText(part, uri[position..found]).value;
      assert forall i :: 0 <= i < |parts[1..]| - 1 ==> parts[1..][i] == parts[i + 1];
      MatchFromKeeps(parts[1..], uri, found + |next|, matched[part.name := Decoded(text)], name);
    }
  }

  // A match that returns the decoded values has found the intended decomposition.
  lemma {:induction false} ReturnedIsClear(parts: seq<MatchPart>, raws: seq<bytes>, vars: Bindings,
                                           uri: bytes, position: nat, matched: Bindings)
    requires parts != [] && |raws| == |parts| - 1 && Spells(parts, raws, vars) && DistinctNames(parts)
    requires position <= |uri| && uri[position..] == Interleaved(parts, raws)
    requires var m := MatchFrom(parts, uri, position, matched); m.Some? && Returns(m.value, parts, vars)
    ensures AllClear(parts, raws)
    decreases |parts|
  {
    hide ValueText, Decoded, FindLiteral, MatchFrom, RawFor, Clear, Interleaved;
    if raws != [] {
      FirstIsClear(parts, raws, vars, uri, position, matched);
      var part, next, raw := parts[0], parts[1].literal, raws[0];
      MatchGoesOn(parts, uri, position, matched);
      SearchIsRight(parts, raws, uri, position);
      InterleavedSplit(uri, position, parts, raws);
      SpellsTail(parts, raws, vars);
      NamesTail(MatchFrom(parts, uri, position, matched).value, parts, vars);
      hide Spells, DistinctNames, Returns;
      ReturnedIsClear(parts[1..], raws[1..], vars, uri, position + |raw| + |next|,
                      matched[part.name := Decoded(ValueText(part, raw).value)]);
    }
  }

  lemma NamesTail(m: Bindings, parts: seq<MatchPart>, vars: Bindings)
    requires |parts| >= 2 && DistinctNames(parts) && Returns(m, parts, vars)
    ensures DistinctNames(parts[1..]) && Returns(m, parts[1..], vars)
  {
    hide Decoded;
    assert forall i :: 0 <= i < |parts[1..]| ==> parts[1..][i] == parts[i + 1];
  }

  lemma FirstIsClear(parts: seq<MatchPart>, raws: seq<bytes>, vars: Bindings, uri: bytes, position: nat,
                     matched: Bindings)
    requires |parts| >= 2 && |raws| == |parts| - 1 && Spells(parts, raws, vars) && DistinctNames(parts)
    requires position <= |uri| && uri[position..] == Interleaved(parts, raws)
    requires var m := MatchFrom(parts, uri, position, matched); m.Some? && Returns(m.value, parts, vars)
    ensures Clear(parts, raws)
  {
    hide *;
    SearchIsRight(parts, raws, uri, position);
    if |parts| > 2 {
      FirstReturned(MatchFrom(parts, uri, position, matched).value, parts, raws, vars);
      var part, next, value := parts[0], parts[1].literal, vars[parts[0].name];
      MatchGoesOn(parts, uri, position, matched);
      var found := FindLiteral(uri, position, next, part.preserve || |parts| == 2).value;
      AtFits(uri, found, next);
      var text := ValueText(part, uri[position..found]).value;
      MatchFromKeeps(parts[1..], uri, found + |next|, matched[part.name := Decoded(text)], part.name);
      InterleavedSplit(uri, position, parts, raws);
      PrefixOf(uri, position, found, position + |raws[0]|);
      PieceDecides(part, value, uri[position..found]);
    }
  }

  lemma FirstReturned(m: Bindings, parts: seq<MatchPart>, raws: seq<bytes>, vars: Bindings)
    requires |parts| >= 2 && |raws| == |parts| - 1
    requires Spells(parts, raws, vars) && DistinctNames(parts) && Returns(m, parts, vars)
    ensures var part := parts[0];
            && part.name in vars && raws[0] == RawFor(part, vars[part.name]) && !(part.optionalEquals && part.preserve)
            && part.name in m && m[part.name] == Decoded(vars[part.name])
            && forall i :: 0 <= i < |parts[1..]| - 1 ==> parts[1..][i].name != part.name
  {
    hide Decoded, RawFor;
    assert Spelled(parts[0], raws[0], vars);
    assert forall i :: 0 <= i < |parts[1..]| - 1 ==> parts[1..][i] == parts[i + 1];
  }

  lemma PrefixOf(uri: bytes, position: nat, a: nat, b: nat)
    requires position <= a <= |uri| && position <= b <= |uri|
    ensures if a <= b then uri[position..a] <= uri[position..b] else uri[position..b] <= uri[position..a]
  {
  }

  lemma SpelledMatchExactly(parts: seq<MatchPart>, raws: seq<bytes>, vars: Bindings)
    requires parts != [] && |raws| == |parts| - 1 && Spells(parts, raws, vars) && DistinctNames(parts)
    ensures MatchParts(parts, Whole(parts, raws)) == Some(DecodedValues(NamesOf(parts), vars)) <==>
            AllClear(parts, raws)
  {
    hide *;
    if AllClear(parts, raws) {
      SpelledMatch(parts, raws, vars);
    } else if MatchParts(parts, Whole(parts, raws)) == Some(DecodedValues(NamesOf(parts), vars)) {
      if raws == [] {
        NothingToFind(parts, raws);
      } else {
        WholeIsTried(parts, raws);
        AllReturned(parts, raws, vars);
        ReturnedIsClear(parts, raws, vars, Whole(parts, raws), |parts[0].literal|, map[]);
      }
    }
  }

  lemma NothingToFind(parts: seq<MatchPart>, raws: seq<bytes>)
    requires |parts| == 1 && raws == []
    ensures AllClear(parts, raws)
  {
  }

  lemma AllReturned(parts: seq<MatchPart>, raws: seq<bytes>, vars: Bindings)
    requires |raws| == |parts| - 1 && Spells(parts, raws, vars)
    ensures Returns(DecodedValues(NamesOf(parts), vars), parts, vars)
  {
    hide Decoded, RawFor;
    forall i | 0 <= i < |parts| - 1 ensures parts[i].name in vars && parts[i].name in NamesOf(parts) {
      assert Spelled(parts[i], raws[i], vars);
    }
  }

  // ---- Templates --------------------------------------------------------------------------------

  // All searches of Match go right on this expansion.
  predicate Unambiguous(segments: seq<Segment>, vars: Bindings)
    requires AllBound(segments, vars)
  {
    && NamesEverywhere(segments)
    && (ExpansionInterleaves(segments, vars, []); AllClear(Parts(segments, []), Raws(segments, vars)))
  }

  lemma MatchOfExpansion(segments: seq<Segment>, vars: Bindings)
    requires AllBound(segments, vars) && NamesEverywhere(segments)
    ensures Parts(segments, []) != [] && |Raws(segments, vars)| == |Parts(segments, [])| - 1
    ensures Spells(Parts(segments, []), Raws(segments, vars), vars)
    ensures var uri := Expanded(segments, vars);
            Match(segments, uri) ==
            if |uri| > MAX_MATCH_LENGTH then None
              else MatchParts(Parts(segments, []), Whole(Parts(segments, []), Raws(segments, vars)))
  {
    ExpansionInterleaves(segments, vars, []);
    SegmentsSpell(segments, vars, []);
    hide MatchParts, Parts, Raws, Expanded, Whole, Spells;
    assert [] + Expanded(segments, vars) == Expanded(segments, vars);
  }

  // Matching an expansion returns every variable of the template, with its value as decoding
  // sees it, if all searches go right and the text is within the length limit.
  lemma UnambiguousInverts(segments: seq<Segment>, vars: Bindings)
    requires AllBound(segments, vars) && Unambiguous(segments, vars)
    ensures var uri := Expanded(segments, vars);
            Match(segments, uri) ==
            if |uri| > MAX_MATCH_LENGTH then None else Some(DecodedValues(NamesOf(Parts(segments, [])), vars))
  {
    hide AllClear, Match, MatchParts, DecodedValues, NamesOf, Spells, Whole, Expanded, Parts, Raws;
    MatchOfExpansion(segments, vars);
    SpelledMatch(Parts(segments, []), Raws(segments, vars), vars);
  }

  // And only then: for distinct names the values come back exactly if no search goes astray.
  lemma InvertsExactly(segments: seq<Segment>, vars: Bindings)
    requires AllBound(segments, vars) && NamesEverywhere(segments) && DistinctNames(Parts(segments, []))
    requires |Expanded(segments, vars)| <= MAX_MATCH_LENGTH
    ensures Match(segments, Expanded(segments, vars)) == Some(DecodedValues(NamesOf(Parts(segments, [])), vars)) <==>
            Unambiguous(segments, vars)
  {
    hide AllClear, Match, MatchParts, DecodedValues, NamesOf, Spells, Whole, Expanded, Parts, Raws, DistinctNames;
    MatchOfExpansion(segments, vars);
    SpelledMatchExactly(Parts(segments, []), Raws(segments, vars), vars);
  }

  // Values without triplets come back as they are under the same exact condition.
  lemma BindingsReturnExactly(segments: seq<Segment>, vars: Bindings)
    requires AllBound(segments, vars) && NamesEverywhere(segments) && DistinctNames(Parts(segments, []))
    requires |Expanded(segments, vars)| <= MAX_MATCH_LENGTH && vars.Keys == NamesOf(Parts(segments, []))
    requires forall n :: n in vars ==> TripletFree(vars[n])
    ensures Match(segments, Expanded(segments, vars)) == Some(vars) <==> Unambiguous(segments, vars)
  {
    InvertsExactly(segments, vars);
    DecodedBindings(NamesOf(Parts(segments, [])), vars);
  }

  // For unambiguous expansions the bindings themselves come back exactly when no value of the
  // template holds a triplet.
  lemma BindingsComeBack(segments: seq<Segment>, vars: Bindings)
    requires AllBound(segments, vars) && Unambiguous(segments, vars)
    requires |Expanded(segments, vars)| <= MAX_MATCH_LENGTH && vars.Keys == NamesOf(Parts(segments, []))
    ensures Match(segments, Expanded(segments, vars)) == Some(vars) <==>
            forall n :: n in vars ==> TripletFree(vars[n])
  {
    UnambiguousInverts(segments, vars);
    hide Parts, Expanded, Match, AllBound, Unambiguous, NamesOf;
    DecodedBindings(NamesOf(Parts(segments, [])), vars);
  }

  lemma DecodedBindings(names: set<bytes>, vars: Bindings)
    requires vars.Keys == names
    ensures DecodedValues(names, vars) == vars <==> forall n :: n in vars ==> TripletFree(vars[n])
  {
    forall n | n in vars ensures Decoded(vars[n]) == vars[n] <==> TripletFree(vars[n]) {
      DecodedFixed(vars[n]);
    }
    hide Decoded, TripletFree;
    var m := DecodedValues(names, vars);
    assert m == vars <==> forall n :: n in vars ==> m[n] == vars[n];
  }

  // ---- Conditions on the template alone ---------------------------------------------------------

  // Bytes that cannot occur in what is written for a part outside the reserved modes.
  predicate Foreign(part: MatchPart, c: byte) {
    !IsUnreserved(c) && c != PERCENT && (c == EQUALS ==> !part.optionalEquals)
  }

  predicate HasForeign(part: MatchPart, literal: bytes) {
    exists k :: 0 <= k < |literal| && Foreign(part, literal[k])
  }

  // Each literal between two variables holds a byte that cannot occur in the value in front of
  // it, and only the last variable may keep reserved bytes.
  predicate Separated(parts: seq<MatchPart>) {
    forall i :: 0 <= i < |parts| - 2 ==> !parts[i].preserve && HasForeign(parts[i], parts[i + 1].literal)
  }

  predicate NoForeign(part: MatchPart, raw: bytes) {
    forall k :: 0 <= k < |raw| ==> !Foreign(part, raw[k])
  }

  lemma RawHasNoForeign(part: MatchPart, value: bytes)
    requires !part.preserve
    ensures NoForeign(part, RawFor(part, value))
  {
    EncodedAlphabet(value);
    hide Encoded, IsUnreserved;
  }

  lemma {:induction false} FirstForeign(part: MatchPart, literal: bytes) returns (k: nat)
    requires HasForeign(part, literal)
    ensures k < |literal| && Foreign(part, literal[k]) && NoForeign(part, literal[..k])
  {
    hide Foreign;
    k := 0;
    while !Foreign(part, literal[k])
      invariant k < |literal| && forall i :: 0 <= i < k ==> !Foreign(part, literal[i])
      decreases |literal| - k
    {
      k := k + 1;
    }
  }

  // The first foreign byte of the literal can neither lie in the raw piece nor, for an occurrence
  // that starts in it, in the literal before itself.
  lemma ForeignIsNotFoundEarlier(part: MatchPart, raw: bytes, next: bytes, j: nat)
    requires NoForeign(part, raw) && HasForeign(part, next) && j < |raw|
    ensures !At(raw + next, j, next)
  {
    hide Foreign;
    var k := FirstForeign(part, next);
    var s, at := raw + next, j + k;
    if at < |raw| {
      assert s[at] == raw[at] && !Foreign(part, raw[at]);
    } else {
      assert s[at] == next[..k][at - |raw|] && !Foreign(part, next[..k][at - |raw|]);
    }
    DiffersAt(s, j, next, k);
  }

  lemma DiffersAt(s: bytes, p: nat, x: bytes, k: nat)
    requires k < |x| && p + k < |s| && s[p + k] != x[k]
    ensures !At(s, p, x)
  {
  }

  lemma {:induction false} SeparatedIsClear(parts: seq<MatchPart>, raws: seq<bytes>, vars: Bindings)
    requires |raws| == |parts| - 1 && Spells(parts, raws, vars) && Separated(parts)
    ensures AllClear(parts, raws)
    decreases |parts|
  {
    hide RawFor, HasForeign, NoForeign, At, Interleaved;
    if raws != [] {
      if |parts| > 2 {
        assert Spelled(parts[0], raws[0], vars) && !parts[0].preserve && HasForeign(parts[0], parts[0 + 1].literal);
        RawHasNoForeign(parts[0], vars[parts[0].name]);
        forall j | 0 <= j < |raws[0]| ensures !At(raws[0] + parts[1].literal, j, parts[1].literal) {
          ForeignIsNotFoundEarlier(parts[0], raws[0], parts[1].literal, j);
        }
      }
      SpellsTail(parts, raws, vars);
      SeparatedTail(parts);
      SeparatedIsClear(parts[1..], raws[1..], vars);
    }
  }

  lemma SeparatedTail(parts: seq<MatchPart>)
    requires |parts| >= 2 && Separated(parts)
    ensures Separated(parts[1..])
  {
    hide HasForeign;
    assert forall i :: 0 <= i < |parts[1..]| ==> parts[1..][i] == parts[i + 1];
  }

  // Separated templates are unambiguous for all values.
  lemma SeparatedIsUnambiguous(segments: seq<Segment>, vars: Bindings)
    requires AllBound(segments, vars) && NamesEverywhere(segments) && Separated(Parts(segments, []))
    ensures Unambiguous(segments, vars)
  {
    hide Parts, Raws, Spells, Separated, AllClear;
    ExpansionInterleaves(segments, vars, []);
    SegmentsSpell(segments, vars, []);
    SeparatedIsClear(Parts(segments, []), Raws(segments, vars), vars);
  }

  // So the values of a separated template always come back.
  lemma MatchInvertsExpand(segments: seq<Segment>, vars: Bindings)
    requires AllBound(segments, vars) && NamesEverywhere(segments) && Separated(Parts(segments, []))
    ensures var uri := Expanded(segments, vars);
            Match(segments, uri) ==
            if |uri| > MAX_MATCH_LENGTH then None else Some(DecodedValues(NamesOf(Parts(segments, [])), vars))
  {
    hide Separated, Unambiguous, Match, Expanded, Parts, DecodedValues, NamesOf;
    SeparatedIsUnambiguous(segments, vars);
    UnambiguousInverts(segments, vars);
  }

  predicate AllUnreserved(x: bytes) {
    forall i :: 0 <= i < |x| ==> IsUnreserved(x[i])
  }

  // A template in which only unreserved bytes, or none, stand between two variables fails for
  // every unreserved value that holds them; the dot of the label operator is one such literal.
  lemma UnreservedLiteralFails(segments: seq<Segment>, vars: Bindings, i: nat, j: nat)
    requires AllBound(segments, vars) && NamesEverywhere(segments) && DistinctNames(Parts(segments, []))
    requires |Expanded(segments, vars)| <= MAX_MATCH_LENGTH
    requires var parts := Parts(segments, []);
             && i < |parts| - 2 && !parts[i].preserve && parts[i].name in vars
             && AllUnreserved(vars[parts[i].name])
             && j < |vars[parts[i].name]| && At(vars[parts[i].name], j, parts[i + 1].literal)
    ensures Match(segments, Expanded(segments, vars)) != Some(DecodedValues(NamesOf(Parts(segments, [])), vars))
  {
    hide Parts, Raws, Expanded, Match, Spells, DecodedValues, NamesOf, AllClear, DistinctNames, At, AllUnreserved;
    InvertsExactly(segments, vars);
    ExpansionInterleaves(segments, vars, []);
    SegmentsSpell(segments, vars, []);
    NotAllClear(Parts(segments, []), Raws(segments, vars), vars, i, j);
  }

  lemma {:induction false} NotAllClear(parts: seq<MatchPart>, raws: seq<bytes>, vars: Bindings, i: nat, j: nat)
    requires |raws| == |parts| - 1 && Spells(parts, raws, vars)
    requires i < |parts| - 2 && !parts[i].preserve && parts[i].name in vars
    requires var value := vars[parts[i].name]; AllUnreserved(value) && j < |value| && At(value, j, parts[i + 1].literal)
    ensures !AllClear(parts, raws)
    decreases i
  {
    hide RawFor, Interleaved, At, AllUnreserved;
    if i == 0 {
      assert Spelled(parts[0], raws[0], vars);
      FoundInValue(parts[0], vars[parts[0].name], parts[1].literal, j);
    } else {
      SpellsTail(parts, raws, vars);
      assert parts[1..][i - 1] == parts[i] && parts[1..][i] == parts[i + 1];
      NotAllClear(parts[1..], raws[1..], vars, i - 1, j);
    }
  }

  lemma FoundInValue(part: MatchPart, value: bytes, next: bytes, j: nat)
    requires !part.preserve && AllUnreserved(value) && j < |value| && At(value, j, next)
    ensures var raw := RawFor(part, value); exists k :: 0 <= k < |raw| && At(raw + next, k, next)
  {
    UnreservedIsCopied(value);
    hide Encoded;
    var raw, shift := RawFor(part, value), if part.optionalEquals then 1 else 0;
    assert raw[shift..] == value;
    SameAt(raw, shift, value, j, next);
    AtFits(value, j, next);
    AtInFront(raw, next, shift + j, next);
  }

  lemma {:induction false} UnreservedIsCopied(v: bytes)
    requires AllUnreserved(v)
    ensures Encoded(v, false) == v && Decoded(v) == v && ValidEncoded(v)
  {
    if v != [] {
      UnreservedIsCopied(v[1..]);
      assert v == [v[0]] + v[1..];
    }
  }
}
