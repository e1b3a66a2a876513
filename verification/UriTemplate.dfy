// URI templates of src/detail/UriTemplate.hpp: Expand and Match, and what Match finds.
module UriTemplate {
  import opened Bytes
  import opened UriCoding

  datatype Operator = Simple | Reserved | Fragment | Label | Path | PathStyle | Form | FormCont

  datatype Expression = Expression(op: Operator, names: seq<bytes>)

  datatype Segment = Literal(text: bytes) | Variables(e: Expression)

  type Bindings = map<bytes, bytes>

  const MAX_MATCH_LENGTH := 8192

  // OperatorPrefix; empty where the source has no prefix.
  function Prefix(op: Operator): bytes {
    match op
    case Fragment => [0x23]
    case Label => [0x2E]
    case Path => [0x2F]
    case PathStyle => [0x3B]
    case Form => [0x3F]
    case FormCont => [0x26]
    case _ => []
  }

  function Separator(op: Operator): bytes {
    match op
    case Label => [0x2E]
    case Path => [0x2F]
    case PathStyle => [0x3B]
    case Form => [0x26]
    case FormCont => [0x26]
    case _ => [COMMA]
  }

  // IsMultiSegmentOperator
  predicate Preserves(op: Operator) {
    op.Reserved? || op.Fragment?
  }

  predicate Named(op: Operator) {
    op.Form? || op.FormCont?
  }

  // ---- Expand -----------------------------------------------------------------------------------

  // AppendExpandedValue
  function ExpandedValue(op: Operator, name: bytes, value: bytes): bytes {
    match op
    case PathStyle => name + if value == [] then [] else [EQUALS] + Encoded(value, false)
    case Form => name + ([EQUALS] + Encoded(value, false))
    case FormCont => name + ([EQUALS] + Encoded(value, false))
    case _ => Encoded(value, Preserves(op))
  }

  function Defined(names: seq<bytes>, vars: Bindings): seq<bytes> {
    if names == [] then []
    else (if names[0] in vars then [names[0]] else []) + Defined(names[1..], vars)
  }

  lemma {:induction false} DefinedBound(names: seq<bytes>, vars: Bindings)
    ensures forall n :: n in Defined(names, vars) ==> n in vars
    ensures (forall n :: n in names ==> n in vars) ==> Defined(names, vars) == names
  {
    if names != [] {
      DefinedBound(names[1..], vars);
      assert names == [names[0]] + names[1..];
    }
  }

  function JoinValues(op: Operator, names: seq<bytes>, vars: Bindings): bytes
    requires forall n :: n in names ==> n in vars
  {
    if names == [] then []
    else if |names| == 1 then ExpandedValue(op, names[0], vars[names[0]])
    else ExpandedValue(op, names[0], vars[names[0]]) + (Separator(op) + JoinValues(op, names[1..], vars))
  }

  function ExpandedExpression(e: Expression, vars: Bindings): bytes {
    DefinedBound(e.names, vars);
    var names := Defined(e.names, vars);
    if names == [] then [] else Prefix(e.op) + JoinValues(e.op, names, vars)
  }

  function Expanded(segments: seq<Segment>, vars: Bindings): bytes {
    if segments == [] then []
    else (match segments[0]
          case Literal(text) => text
          case Variables(e) => ExpandedExpression(e, vars)) + Expanded(segments[1..], vars)
  }

  // ---- BuildMatchParts --------------------------------------------------------------------------

  datatype MatchPart = MatchPart(literal: bytes, name: bytes, optionalEquals: bool, preserve: bool)

  // What a variable adds to the literal in front of its value.
  function NameLiteral(op: Operator, name: bytes): bytes {
    if op.PathStyle? then name else if Named(op) then name + [EQUALS] else []
  }

  function PartOf(op: Operator, name: bytes, pending: bytes): MatchPart {
    MatchPart(pending + NameLiteral(op, name), name, op.PathStyle?, Preserves(op))
  }

  // Parts of the variables of one expression, the first with `pending` in front.
  function NameParts(op: Operator, names: seq<bytes>, pending: bytes): seq<MatchPart> {
    if names == [] then []
    else [PartOf(op, names[0], pending)] + NameParts(op, names[1..], Separator(op))
  }

  function Tail(pending: bytes): MatchPart {
    MatchPart(pending, [], false, false)
  }

  function Parts(segments: seq<Segment>, pending: bytes): seq<MatchPart> {
    if segments == [] then [Tail(pending)]
    else match segments[0]
      case Literal(text) => Parts(segments[1..], pending + text)
      case Variables(e) =>
        if e.names == [] then Parts(segments[1..], pending + Prefix(e.op))
        else NameParts(e.op, e.names, pending + Prefix(e.op)) + Parts(segments[1..], [])
  }

  lemma {:induction false} PartsNotEmpty(segments: seq<Segment>, pending: bytes)
    ensures Parts(segments, pending) != []
  {
    if segments != [] {
      match segments[0] {
        case Literal(text) => PartsNotEmpty(segments[1..], pending + text);
        case Variables(e) =>
          PartsNotEmpty(segments[1..], pending + Prefix(e.op));
      }
    }
  }

  // ---- FindLiteral ------------------------------------------------------------------------------

  // std::string_view::rfind
  function FindBack(uri: bytes, from: nat, literal: bytes): (r: Option<nat>)
    ensures r.Some? ==> r.value <= from && At(uri, r.value, literal)
    ensures forall j :: (if r.Some? then r.value else -1) < j <= from ==> !At(uri, j, literal)
  {
    if At(uri, from, literal) then Some(from)
    else if from == 0 then None
    else FindBack(uri, from - 1, literal)
  }

  function FindLiteral(uri: bytes, begin: nat, literal: bytes, greedy: bool): (r: Option<nat>)
    ensures r.Some? ==> begin <= r.value && At(uri, r.value, literal)
  {
    if begin > |uri| then None
    else if literal == [] then Some(if greedy then |uri| else begin)
    else if |literal| > |uri| then None
    else if greedy then
      match FindBack(uri, |uri| - |literal|, literal)
      case None => None
      case Some(found) => if found < begin then None else Some(found)
    else FindFrom(uri, begin, literal)
  }

  // ---- Match ------------------------------------------------------------------------------------

  // The value text of a raw piece: PathStyle values come with their '='.
  function ValueText(part: MatchPart, raw: bytes): Option<bytes> {
    var text :=
      if part.optionalEquals && raw != [] then
        if raw[0] != EQUALS then None else Some(raw[1..])
      else Some(raw);
    if text.Some? && !part.preserve && !ValidEncoded(text.value) then None else text
  }

  // The loop over the variables: `parts` are those still to come, the first being the variable
  // whose value starts at `position`.
  function MatchFrom(parts: seq<MatchPart>, uri: bytes, position: nat, matched: Bindings): Option<Bindings>
    requires parts != []
    decreases |parts|
  {
    if |parts| == 1 then
      if position != |uri| then None else Some(matched)
    else
      var part, next := parts[0], parts[1].literal;
      match FindLiteral(uri, position, next, part.preserve || |parts| == 2)
      case None => None
      case Some(found) =>
        match ValueText(part, uri[position..found])
        case None => None
        case Some(text) => MatchFrom(parts[1..], uri, found + |next|, matched[part.name := Decoded(text)])
  }

  function MatchParts(parts: seq<MatchPart>, uri: bytes): Option<Bindings>
    requires parts != []
  {
    var head, tail := parts[0].literal, parts[|parts| - 1].literal;
    if |parts| == 1 then
      if uri == head then Some(map[]) else None
    else if |uri| < |head| + |tail| then None
    else if !At(uri, 0, head) || !At(uri, |uri| - |tail|, tail) then None
    else MatchFrom(parts, uri, |head|, map[])
  }

  function Match(segments: seq<Segment>, uri: bytes): Option<Bindings> {
    PartsNotEmpty(segments, []);
    if |uri| > MAX_MATCH_LENGTH then None else MatchParts(Parts(segments, []), uri)
  }

  // ---- What a match means -----------------------------------------------------------------------

  // The text of parts with a raw piece behind each literal but the last; the literal of the first
  // part is left to the caller.
  function Interleaved(parts: seq<MatchPart>, raws: seq<bytes>): bytes
    requires parts != [] && |raws| == |parts| - 1
  {
    if raws == [] then []
    else raws[0] + (parts[1].literal + Interleaved(parts[1..], raws[1..]))
  }

  function Whole(parts: seq<MatchPart>, raws: seq<bytes>): bytes
    requires parts != [] && |raws| == |parts| - 1
  {
    parts[0].literal + Interleaved(parts, raws)
  }

  predicate ValidRaws(parts: seq<MatchPart>, raws: seq<bytes>)
    requires |raws| == |parts| - 1
  {
    forall i :: 0 <= i < |raws| ==> ValueText(parts[i], raws[i]).Some?
  }

  // The bindings of a decomposition; a name that occurs twice keeps its last value.
  function Bound(parts: seq<MatchPart>, raws: seq<bytes>, matched: Bindings): Bindings
    requires |raws| == |parts| - 1 && ValidRaws(parts, raws)
  {
    if raws == [] then matched
    else
      assert ValueText(parts[0], raws[0]).Some?;
      Bound(parts[1..], raws[1..], matched[parts[0].name := Decoded(ValueText(parts[0], raws[0]).value)])
  }

  lemma {:induction false} MatchFromDecomposes(parts: seq<MatchPart>, uri: bytes, position: nat, matched: Bindings)
    returns (raws: seq<bytes>)
    requires parts != [] && position <= |uri| && MatchFrom(parts, uri, position, matched).Some?
    ensures |raws| == |parts| - 1 && ValidRaws(parts, raws)
    ensures uri[position..] == Interleaved(parts, raws)
    ensures MatchFrom(parts, uri, position, matched) == Some(Bound(parts, raws, matched))
    decreases |parts|
  {
    hide ValueText, Decoded, FindLiteral, MatchFrom, Interleaved;
    if |parts| == 1 {
      raws := [];
      MatchEnds(parts, uri, position, matched);
    } else {
      MatchGoesOn(parts, uri, position, matched);
      var part, next := parts[0], parts[1].literal;
      var found := FindLiteral(uri, position, next, part.preserve || |parts| == 2).value;
      var raw := uri[position..found];
      var rest := MatchFromDecomposes(parts[1..], uri, found + |next|,
                                      matched[part.name := Decoded(ValueText(part, raw).value)]);
      raws := [raw] + rest;
      assert raws[1..] == rest;
      MorePieces(parts, raws);
      SliceConcat(uri, position, found, |uri|);
      SliceConcat(uri, found, found + |next|, |uri|);
      AtSlice(uri, found, next);
      hide ValidRaws, At;
    }
  }

  lemma MatchEnds(parts: seq<MatchPart>, uri: bytes, position: nat, matched: Bindings)
    requires |parts| == 1 && position <= |uri| && MatchFrom(parts, uri, position, matched).Some?
    ensures MatchFrom(parts, uri, position, matched) == Some(matched) && uri[position..] == [] == Interleaved(parts, [])
  {
  }

  // One turn of the loop that did not fail.
  lemma MatchGoesOn(parts: seq<MatchPart>, uri: bytes, position: nat, matched: Bindings)
    requires |parts| > 1 && position <= |uri| && MatchFrom(parts, uri, position, matched).Some?
    ensures var part, next := parts[0], parts[1].literal;
            var found := FindLiteral(uri, position, next, part.preserve || |parts| == 2);
            && found.Some? && position <= found.value && At(uri, found.value, next)
            && var text := ValueText(part, uri[position..found.value]);
            && text.Some?
            && MatchFrom(parts, uri, position, matched) ==
               MatchFrom(parts[1..], uri, found.value + |next|, matched[part.name := Decoded(text.value)])
  {
    hide ValueText, Decoded, FindLiteral, At;
  }

  lemma MorePieces(parts: seq<MatchPart>, raws: seq<bytes>)
    requires raws != [] && |raws| == |parts| - 1 && ValueText(parts[0], raws[0]).Some?
             && ValidRaws(parts[1..], raws[1..])
    ensures ValidRaws(parts, raws)
    ensures Interleaved(parts, raws) == raws[0] + (parts[1].literal + Interleaved(parts[1..], raws[1..]))
  {
    hide ValueText;
    forall i | 0 <= i < |raws| ensures ValueText(parts[i], raws[i]).Some? {
      if i > 0 { assert raws[i] == raws[1..][i - 1] && parts[i] == parts[1..][i - 1]; }
    }
  }

  // Every match comes from a real decomposition of the URI: the template's literals interleaved
  // with raw pieces whose decodings are the bound values.
  lemma MatchDecomposes(segments: seq<Segment>, uri: bytes) returns (raws: seq<bytes>)
    requires Match(segments, uri).Some?
    ensures var parts := Parts(segments, []);
            && parts != [] && |raws| == |parts| - 1 && ValidRaws(parts, raws)
            && uri == Whole(parts, raws)
            && Match(segments, uri) == Some(Bound(parts, raws, map[]))
  {
    PartsNotEmpty(segments, []);
    var parts := Parts(segments, []);
    hide Parts, MatchFrom;
    var head := parts[0].literal;
    if |parts| == 1 {
      raws := [];
    } else {
      raws := MatchFromDecomposes(parts, uri, |head|, map[]);
      AtSlice(uri, 0, head);
      SliceConcat(uri, 0, |head|, |uri|);
      assert uri[0..|uri|] == uri;
    }
  }

  // ---- Expansions as decompositions --------------------------------------------------------------

  // The raw pieces an expansion writes, variable by variable.
  function RawOf(op: Operator, value: bytes): bytes {
    if op.PathStyle? then if value == [] then [] else [EQUALS] + Encoded(value, false)
    else Encoded(value, Preserves(op))
  }

  function NameRaws(op: Operator, names: seq<bytes>, vars: Bindings): seq<bytes>
    requires forall n :: n in names ==> n in vars
  {
    if names == [] then [] else [RawOf(op, vars[names[0]])] + NameRaws(op, names[1..], vars)
  }

  predicate AllBound(segments: seq<Segment>, vars: Bindings) {
    forall i, n :: 0 <= i < |segments| && segments[i].Variables? && n in segments[i].e.names ==> n in vars
  }

  predicate NamesEverywhere(segments: seq<Segment>) {
    forall i :: 0 <= i < |segments| && segments[i].Variables? ==> segments[i].e.names != []
  }

  function Raws(segments: seq<Segment>, vars: Bindings): seq<bytes>
    requires AllBound(segments, vars)
  {
    if segments == [] then []
    else (match segments[0]
          case Literal(_) => []
          case Variables(e) => NameRaws(e.op, e.names, vars)) + Raws(segments[1..], vars)
  }

  lemma RawSplits(op: Operator, name: bytes, value: bytes)
    ensures ExpandedValue(op, name, value) == NameLiteral(op, name) + RawOf(op, value)
  {
    hide Encoded, IsUnreserved;
    assert [] + RawOf(op, value) == RawOf(op, value) && name + [] == name;
    ConcatAssociative(name, [EQUALS], Encoded(value, false));
  }

  // An expression with all its variables bound writes its parts interleaved with their raws.
  lemma {:induction false} NamesInterleave(op: Operator, names: seq<bytes>, vars: Bindings, pending: bytes,
                                           rest: seq<MatchPart>, restRaws: seq<bytes>)
    requires names != [] && rest != [] && |restRaws| == |rest| - 1 && forall n :: n in names ==> n in vars
    ensures |NameRaws(op, names, vars)| == |NameParts(op, names, pending)| == |names|
    ensures Whole(NameParts(op, names, pending) + rest, NameRaws(op, names, vars) + restRaws) ==
            pending + (JoinValues(op, names, vars) + Whole(rest, restRaws))
  {
    hide *;
    var part, raw, tail := PartOf(op, names[0], pending), RawOf(op, vars[names[0]]), Whole(rest, restRaws);
    var parts, raws := NameParts(op, names, pending), NameRaws(op, names, vars);
    RawSplits(op, names[0], vars[names[0]]);
    NamesUnfold(op, names, vars, pending);
    if |names| == 1 {
      OneInterleaves(part, raw, rest, restRaws);
      ConcatAssociative(pending, NameLiteral(op, names[0]), raw + tail);
      ConcatAssociative(NameLiteral(op, names[0]), raw, tail);
    } else {
      var parts', raws' := NameParts(op, names[1..], Separator(op)), NameRaws(op, names[1..], vars);
      NamesInterleave(op, names[1..], vars, Separator(op), rest, restRaws);
      ConsConcat(part, parts', rest);
      ConsConcat(raw, raws', restRaws);
      OneInterleaves(part, raw, parts' + rest, raws' + restRaws);
      FourParts(pending, NameLiteral(op, names[0]), raw, Separator(op), JoinValues(op, names[1..], vars), tail);
    }
  }

  lemma FourParts(pending: bytes, literal: bytes, raw: bytes, separator: bytes, later: bytes, tail: bytes)
    ensures (pending + literal) + (raw + (separator + (later + tail))) ==
            pending + (((literal + raw) + (separator + later)) + tail)
  {
    ConcatAssociative(separator, later, tail);
    ConcatAssociative(literal + raw, separator + later, tail);
    ConcatAssociative(pending, literal, raw + (separator + (later + tail)));
    ConcatAssociative(literal, raw, separator + (later + tail));
  }

  lemma NamesUnfold(op: Operator, names: seq<bytes>, vars: Bindings, pending: bytes)
    requires names != [] && forall n :: n in names ==> n in vars
    ensures NameParts(op, names, pending) == [PartOf(op, names[0], pending)] + NameParts(op, names[1..], Separator(op))
    ensures NameRaws(op, names, vars) == [RawOf(op, vars[names[0]])] + NameRaws(op, names[1..], vars)
    ensures JoinValues(op, names, vars) ==
            if |names| == 1 then ExpandedValue(op, names[0], vars[names[0]])
            else ExpandedValue(op, names[0], vars[names[0]]) + (Separator(op) + JoinValues(op, names[1..], vars))
    ensures PartOf(op, names[0], pending).literal == pending + NameLiteral(op, names[0])
    ensures |names| == 1 ==>
              && NameParts(op, names, pending) == [PartOf(op, names[0], pending)]
              && NameRaws(op, names, vars) == [RawOf(op, vars[names[0]])]
  {
    hide ExpandedValue, NameLiteral, RawOf, Separator;
  }

  lemma OneInterleaves(part: MatchPart, raw: bytes, rest: seq<MatchPart>, restRaws: seq<bytes>)
    requires rest != [] && |restRaws| == |rest| - 1
    ensures Whole([part] + rest, [raw] + restRaws) == part.literal + (raw + Whole(rest, restRaws))
  {
    assert ([part] + rest)[1..] == rest && ([raw] + restRaws)[1..] == restRaws;
  }

  // Expand, read as a decomposition of its own result.
  lemma {:induction false} ExpansionInterleaves(segments: seq<Segment>, vars: Bindings, pending: bytes)
    requires AllBound(segments, vars) && NamesEverywhere(segments)
    ensures Parts(segments, pending) != [] && |Raws(segments, vars)| == |Parts(segments, pending)| - 1
    ensures pending + Expanded(segments, vars) == Whole(Parts(segments, pending), Raws(segments, vars))
  {
    hide JoinValues, NameParts, NameRaws, ExpandedExpression, Prefix;
    if segments == [] {
    } else {
      assert forall i :: 0 <= i < |segments[1..]| ==> segments[1..][i] == segments[i + 1];
      match segments[0] {
        case Literal(text) =>
          ExpansionInterleaves(segments[1..], vars, pending + text);
          ConcatAssociative(pending, text, Expanded(segments[1..], vars));
          assert [] + Raws(segments[1..], vars) == Raws(segments[1..], vars);
        case Variables(e) =>
          assert segments[0].e == e && forall n :: n in e.names ==> n in vars;
          ExpansionInterleaves(segments[1..], vars, []);
          var rest, raws, tail := Parts(segments[1..], []), Raws(segments[1..], vars), Expanded(segments[1..], vars);
          assert [] + tail == tail;
          NamesInterleave(e.op, e.names, vars, pending + Prefix(e.op), rest, raws);
          WholeExpression(e, vars);
          ConcatAssociative(Prefix(e.op), JoinValues(e.op, e.names, vars), tail);
          ConcatAssociative(pending, Prefix(e.op), JoinValues(e.op, e.names, vars) + tail);
      }
    }
  }

  lemma WholeExpression(e: Expression, vars: Bindings)
    requires e.names != [] && forall n :: n in e.names ==> n in vars
    ensures ExpandedExpression(e, vars) == Prefix(e.op) + JoinValues(e.op, e.names, vars)
  {
    DefinedBound(e.names, vars);
  }
}
