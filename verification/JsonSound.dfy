// Whatever is read has a derivation in the grammar, with the same text and the same value.
module JsonSound {
  import opened Bytes
  import opened Utf8
  import opened JsonValue
  import opened JsonGrammar
  import opened JsonReader

  lemma SkippedIsWs(s: bytes, p: nat)
    requires p <= |s|
    ensures AllWs(s[p..SkipWs(s, p)])
  {
  }

  // ---- Numbers ----------------------------------------------------------------------------------

  lemma FractionDerived(s: bytes, from: nat, p: nat) returns (frac: Option<bytes>)
    requires from <= p <= |s| && FractionEnd(s, from, p).Ok?
    ensures frac.Some? <==> FractionEnd(s, from, p).value
    ensures s[p..FractionEnd(s, from, p).next] == FracText(frac)
    ensures frac.Some? ==> frac.value != [] && AllDigits(frac.value)
  {
    var q := FractionEnd(s, from, p).next;
    if FractionEnd(s, from, p).value {
      frac := Some(s[p + 1..q]);
      SliceConcat(s, p, p + 1, q);
    } else {
      frac := None;
    }
  }

  lemma SignDerived(s: bytes, i: nat)
    requires i <= |s|
    ensures var sign := s[i..AfterSign(s, i)]; sign == [] || sign == [PLUS] || sign == [MINUS]
  {
  }

  lemma ExponentDerived(s: bytes, from: nat, p: nat) returns (exp: Option<Exp>)
    requires from <= p <= |s| && ExponentEnd(s, from, p).Ok?
    ensures exp.Some? <==> ExponentEnd(s, from, p).value
    ensures s[p..ExponentEnd(s, from, p).next] == ExpText(exp)
    ensures exp.Some? ==>
              && IsExpMark(exp.value.mark)
              && (exp.value.sign == [] || exp.value.sign == [PLUS] || exp.value.sign == [MINUS])
              && exp.value.digits != [] && AllDigits(exp.value.digits)
  {
    var q := ExponentEnd(s, from, p).next;
    if ExponentEnd(s, from, p).value {
      var j := AfterSign(s, p + 1);
      assert q == SkipDigits(s, j) && DigitAt(s, j);
      exp := Some(Exp(s[p], s[p + 1..j], s[j..q]));
      SliceConcat(s, p, p + 1, q);
      SliceConcat(s, p + 1, j, q);
      assert s[p..p + 1] == [s[p]];
      SignDerived(s, p + 1);
    } else {
      exp := None;
    }
  }

  lemma NumberEndDerived(s: bytes, p: nat) returns (t: Num)
    requires p < |s| && NumberEnd(s, p).Ok?
    ensures ValidNum(t) && IsFloat(t) == NumberEnd(s, p).value
    ensures s[p..NumberEnd(s, p).next] == NumText(t)
  {
    var i := if s[p] == MINUS then p + 1 else p;
    var j := IntegerEnd(s, p, i).next;
    var k := FractionEnd(s, p, j).next;
    var q := NumberEnd(s, p).next;
    assert ExponentEnd(s, p, k).Ok? && ExponentEnd(s, p, k).next == q;
    var ints := IntegerDerived(s, p, i);
    var frac := FractionDerived(s, p, j);
    var exp := ExponentDerived(s, p, k);
    t := Num(s[p] == MINUS, ints, frac, exp);
    NumberParts(s, p, i, j, k, q, t);
  }

  lemma IntegerDerived(s: bytes, p: nat, i: nat) returns (ints: bytes)
    requires p <= i <= |s| && IntegerEnd(s, p, i).Ok?
    ensures ints == s[i..IntegerEnd(s, p, i).next] && ints != [] && AllDigits(ints)
    ensures ints[0] == DIGIT_0 ==> |ints| == 1
  {
    ints := s[i..IntegerEnd(s, p, i).next];
  }

  lemma NumberParts(s: bytes, p: nat, i: nat, j: nat, k: nat, q: nat, t: Num)
    requires p <= i <= j <= k <= q <= |s| && p < |s|
    requires i == if s[p] == MINUS then p + 1 else p
    requires t.neg == (s[p] == MINUS) && t.ints == s[i..j] && FracText(t.frac) == s[j..k] && ExpText(t.exp) == s[k..q]
    ensures s[p..q] == NumText(t)
  {
    SliceConcat(s, p, i, q);
    SliceConcat(s, i, j, q);
    SliceConcat(s, j, k, q);
    assert s[p..i] == SignText(t.neg);
  }

  lemma NumberDerived(lib: FloatLib, s: bytes, p: nat) returns (t: Num)
    requires p < |s| && NumberAt(lib, s, p).Ok?
    ensures ValidNum(t) && s[p..NumberAt(lib, s, p).next] == NumText(t)
    ensures NumValue(lib, t) == Some(NumberAt(lib, s, p).value)
  {
    t := NumberEndDerived(s, p);
    TokenDerived(lib, t);
  }

  lemma TokenDerived(lib: FloatLib, t: Num)
    requires ValidNum(t)
    ensures NumText(t) != []
    ensures TokenValue(lib, NumText(t), IsFloat(t)).Ok? ==>
              NumValue(lib, t) == Some(TokenValue(lib, NumText(t), IsFloat(t)).value)
  {
    var token := NumText(t);
    if !IsFloat(t) {
      assert token == SignText(t.neg) + t.ints;
      if t.neg { assert token[1..] == t.ints; } else { assert token == t.ints && IsDigit(token[0]); }
    }
  }

  // ---- Strings ----------------------------------------------------------------------------------

  lemma UnicodeDerived(s: bytes, p: nat) returns (c: StrPiece)
    requires p + 1 < |s| && s[p] == BACKSLASH && s[p + 1] == LETTER_U && UnicodeAt(s, p + 2).Ok?
    ensures ValidPiece(c) && s[p..UnicodeAt(s, p + 2).next] == PieceText(c)
    ensures PieceValue(c) == UnicodeAt(s, p + 2).value
  {
    var h, q := s[p + 2..p + 6], p + 6;
    assert s[p..q] == [BACKSLASH, LETTER_U] + h;
    if IsHighSurrogate(Hex4(h)) {
      var low := s[q + 2..q + 6];
      c := Pair(h, low);
      assert s[q..q + 6] == [BACKSLASH, LETTER_U] + low;
      SliceConcat(s, p, q, q + 6);
    } else {
      c := Escape(h);
    }
  }

  lemma CharDerived(s: bytes, p: nat) returns (c: StrPiece)
    requires p < |s| && s[p] != QUOTE && CharAt(s, p).Ok?
    ensures ValidPiece(c) && s[p..CharAt(s, p).next] == PieceText(c)
    ensures PieceValue(c) == CharAt(s, p).value
  {
    if s[p] == BACKSLASH {
      if ShortEscape(s[p + 1]).Some? {
        c := Short(s[p + 1]);
      } else {
        c := UnicodeDerived(s, p);
      }
    } else if s[p] < 0x80 {
      c := Plain(s[p]);
    } else {
      ScanAcceptsTable(s, p);
      c := Multi(CharAt(s, p).value);
    }
  }

  lemma {:induction false} CharsDerived(s: bytes, p: nat, acc: bytes) returns (cs: seq<StrPiece>)
    requires p <= |s| && CharsAt(s, p, acc).Ok?
    ensures ValidPieces(cs) && s[p..CharsAt(s, p, acc).next] == PiecesText(cs) + [QUOTE]
    ensures CharsAt(s, p, acc).value == acc + PiecesValue(cs)
    decreases |s| - p
  {
    hide CharAt, PieceText, PieceValue, ValidPiece;
    if s[p] == QUOTE {
      cs := [];
      assert acc + PiecesValue(cs) == acc;
      assert s[p..p + 1] == PiecesText(cs) + [QUOTE];
    } else {
      var q := CharAt(s, p).next;
      var c := CharDerived(s, p);
      var rest := CharsDerived(s, q, acc + CharAt(s, p).value);
      cs := [c] + rest;
      assert cs[1..] == rest;
      SliceConcat(s, p, q, CharsAt(s, p, acc).next);
      ConcatAssociative(PieceText(c), PiecesText(rest), [QUOTE]);
      ConcatAssociative(acc, PieceValue(c), PiecesValue(rest));
    }
  }

  lemma StringDerived(s: bytes, p: nat) returns (cs: seq<StrPiece>)
    requires p < |s| && s[p] == QUOTE && CharsAt(s, p + 1, []).Ok?
    ensures ValidPieces(cs) && s[p..CharsAt(s, p + 1, []).next] == StringText(cs)
    ensures CharsAt(s, p + 1, []).value == PiecesValue(cs)
  {
    cs := CharsDerived(s, p + 1, []);
    SliceConcat(s, p, p + 1, CharsAt(s, p + 1, []).next);
    assert [] + PiecesValue(cs) == PiecesValue(cs);
    assert s[p..p + 1] == [QUOTE];
  }

  // ---- Values -----------------------------------------------------------------------------------

  lemma ScalarDerived(lib: FloatLib, s: bytes, p: nat, room: int) returns (c: Cst)
    requires p < |s| && ScalarAt(lib, s, p).Ok?
    ensures Valid(lib, c, room) && s[p..ScalarAt(lib, s, p).next] == Text(c)
    ensures Value(lib, c) == ScalarAt(lib, s, p).value
  {
    if s[p] == QUOTE {
      var pieces := StringDerived(s, p);
      c := CStr(pieces);
    } else if s[p] == MINUS || IsDigit(s[p]) {
      var t := NumberDerived(lib, s, p);
      c := CNum(t);
    } else {
      c := LiteralDerived(lib, s, p, room);
    }
  }

  lemma LiteralDerived(lib: FloatLib, s: bytes, p: nat, room: int) returns (c: Cst)
    requires p < |s| && LiteralAt(s, p).Ok?
    ensures Valid(lib, c, room) && s[p..LiteralAt(s, p).next] == Text(c)
    ensures Value(lib, c) == LiteralAt(s, p).value
  {
    AtSlice(s, p, NULL_TEXT);
    AtSlice(s, p, TRUE_TEXT);
    AtSlice(s, p, FALSE_TEXT);
    c := match LiteralAt(s, p).value case JBool(b) => CBool(b) case _ => CNull;
  }

  lemma {:induction false} ValueDerived(lib: FloatLib, s: bytes, p: nat, open: nat) returns (c: Cst)
    requires p <= |s| && open <= MAX_DEPTH && ValueAt(lib, s, p, open).Ok?
    ensures Valid(lib, c, MAX_DEPTH - open) && s[p..ValueAt(lib, s, p, open).next] == Text(c)
    ensures Value(lib, c) == ValueAt(lib, s, p, open).value
    decreases |s| - p, 1
  {
    hide ScalarAt, ArrayAt, ObjectAt;
    if s[p] == OPEN_ARRAY {
      c := ArrayDerived(lib, s, p, open);
    } else if s[p] == OPEN_OBJECT {
      c := ObjectDerived(lib, s, p, open);
    } else {
      c := ScalarDerived(lib, s, p, MAX_DEPTH - open);
    }
    hide Valid, Text, Value;
  }

  lemma ArrayDerived(lib: FloatLib, s: bytes, p: nat, open: nat) returns (c: Cst)
    requires p < |s| && s[p] == OPEN_ARRAY && open < MAX_DEPTH && ArrayAt(lib, s, p + 1, open + 1, []).Ok?
    ensures Valid(lib, c, MAX_DEPTH - open) && s[p..ArrayAt(lib, s, p + 1, open + 1, []).next] == Text(c)
    ensures Value(lib, c) == ArrayAt(lib, s, p + 1, open + 1, []).value
    decreases |s| - p, 0
  {
    hide ItemAt, ItemsText, ValidItem, SkipWs;
    var n := ArrayAt(lib, s, p + 1, open + 1, []).next;
    var q := SkipWs(s, p + 1);
    SkippedIsWs(s, p + 1);
    FirstSlice(s, p, n);
    if s[q] == CLOSE_ARRAY {
      c := CArr(s[p + 1..q], []);
      SliceConcat(s, p + 1, q, n);
      LastSlice(s, q, n);
    } else {
      var items := ItemsDerived(lib, s, p + 1, q, open + 1, []);
      c := CArr([], items);
      assert [] + ItemValues(lib, items) == ItemValues(lib, items);
    }
  }

  lemma ObjectDerived(lib: FloatLib, s: bytes, p: nat, open: nat) returns (c: Cst)
    requires p < |s| && s[p] == OPEN_OBJECT && open < MAX_DEPTH && ObjectAt(lib, s, p + 1, open + 1, []).Ok?
    ensures Valid(lib, c, MAX_DEPTH - open) && s[p..ObjectAt(lib, s, p + 1, open + 1, []).next] == Text(c)
    ensures Value(lib, c) == ObjectAt(lib, s, p + 1, open + 1, []).value
    decreases |s| - p, 0
  {
    hide MemberAt, MembersText, ValidMember, SkipWs;
    var n := ObjectAt(lib, s, p + 1, open + 1, []).next;
    var q := SkipWs(s, p + 1);
    SkippedIsWs(s, p + 1);
    FirstSlice(s, p, n);
    if s[q] == CLOSE_OBJECT {
      c := CObj(s[p + 1..q], []);
      SliceConcat(s, p + 1, q, n);
      LastSlice(s, q, n);
    } else {
      var members := MembersDerived(lib, s, p + 1, q, open + 1, []);
      c := CObj([], members);
    }
  }

  lemma FirstSlice(s: bytes, p: nat, n: nat)
    requires p < n <= |s|
    ensures s[p..n] == [s[p]] + s[p + 1..n]
  {
  }

  lemma LastSlice(s: bytes, q: nat, n: nat)
    requires q < |s| && n == q + 1
    ensures s[q..n] == [s[q]]
  {
  }

  // The elements from `p` on; the white space from `w` to `p` belongs to the first.
  lemma {:induction false} ItemsDerived(lib: FloatLib, s: bytes, w: nat, p: nat, open: nat, acc: seq<JsonValue>)
    returns (items: seq<CItem>)
    requires w <= p < |s| && open <= MAX_DEPTH && AllWs(s[w..p]) && ItemAt(lib, s, p, open, acc).Ok?
    ensures items != [] && forall x :: x in items ==> ValidItem(lib, x, MAX_DEPTH - open)
    ensures s[w..ItemAt(lib, s, p, open, acc).next] == ItemsText(items) + [CLOSE_ARRAY]
    ensures ItemAt(lib, s, p, open, acc).value == JArray(acc + ItemValues(lib, items))
    decreases |s| - p, 2
  {
    hide ValueAt, Text, Valid, Value, SkipWs, ItemText, ItemAt, AfterItem, ValidItem, ItemsText, ItemValues;
    ItemGoesOn(lib, s, p, open, acc);
    var n := ItemAt(lib, s, p, open, acc).next;
    var v, e := ValueAt(lib, s, p, open).value, ValueAt(lib, s, p, open).next;
    var c := ValueDerived(lib, s, p, open);
    var q := SkipWs(s, e);
    SkippedIsWs(s, e);
    var item := CItem(s[w..p], c, s[e..q]);
    ItemIsValid(lib, item, MAX_DEPTH - open);
    ItemSlice(s, w, p, e, q, n, item);
    if s[q] == CLOSE_ARRAY {
      items := [item];
      OneItem(lib, item);
      assert s[q..n] == [CLOSE_ARRAY];
    } else {
      var k := SkipWs(s, q + 1);
      SkippedIsWs(s, q + 1);
      var rest := ItemsDerived(lib, s, q + 1, k, open, acc + [v]);
      items := [item] + rest;
      MoreItems(lib, item, rest);
      assert acc + [v] + ItemValues(lib, rest) == acc + ([v] + ItemValues(lib, rest));
      CommaSlice(s, q, n, ItemsText(rest), CLOSE_ARRAY);
      ConcatAssociative(ItemText(item), [COMMA] + ItemsText(rest), [CLOSE_ARRAY]);
    }
  }

  // An accepted item is followed by ']' or by a comma and an accepted rest.
  lemma ItemGoesOn(lib: FloatLib, s: bytes, p: nat, open: nat, acc: seq<JsonValue>)
    requires p <= |s| && ItemAt(lib, s, p, open, acc).Ok?
    ensures ValueAt(lib, s, p, open).Ok?
    ensures var v, e := ValueAt(lib, s, p, open).value, ValueAt(lib, s, p, open).next;
            var q := SkipWs(s, e);
            && q < |s| && (s[q] == CLOSE_ARRAY || s[q] == COMMA)
            && (s[q] == CLOSE_ARRAY ==> ItemAt(lib, s, p, open, acc) == Ok(JArray(acc + [v]), q + 1))
            && (s[q] == COMMA ==>
                  var k := SkipWs(s, q + 1);
                  k < |s| && ItemAt(lib, s, p, open, acc) == ItemAt(lib, s, k, open, acc + [v]))
  {
    hide ValueAt, SkipWs;
    var v, e := ValueAt(lib, s, p, open).value, ValueAt(lib, s, p, open).next;
    assert ItemAt(lib, s, p, open, acc) == AfterItem(lib, s, e, open, acc + [v]);
  }

  lemma ItemIsValid(lib: FloatLib, item: CItem, room: int)
    requires AllWs(item.before) && Valid(lib, item.v, room) && AllWs(item.after)
    ensures ValidItem(lib, item, room)
  {
    hide Valid;
  }

  lemma OneItem(lib: FloatLib, item: CItem)
    ensures ItemsText([item]) == ItemText(item) && ItemValues(lib, [item]) == [Value(lib, item.v)]
  {
    hide ItemText, Value;
    assert [item][1..] == [];
  }

  lemma MoreItems(lib: FloatLib, item: CItem, rest: seq<CItem>)
    requires rest != []
    ensures ItemsText([item] + rest) == ItemText(item) + ([COMMA] + ItemsText(rest))
    ensures ItemValues(lib, [item] + rest) == [Value(lib, item.v)] + ItemValues(lib, rest)
  {
    hide ItemText, Value;
    assert ([item] + rest)[1..] == rest;
  }

  lemma CommaSlice(s: bytes, q: nat, n: nat, rest: bytes, close: byte)
    requires q < n <= |s| && s[q] == COMMA && s[q + 1..n] == rest + [close]
    ensures s[q..n] == [COMMA] + rest + [close]
  {
    SliceConcat(s, q, q + 1, n);
    assert s[q..q + 1] == [COMMA];
    ConcatAssociative([COMMA], rest, [close]);
  }

  lemma ItemSlice(s: bytes, w: nat, p: nat, e: nat, q: nat, n: nat, item: CItem)
    requires w <= p <= e <= q <= n <= |s|
    requires item.before == s[w..p] && Text(item.v) == s[p..e] && item.after == s[e..q]
    ensures s[w..n] == ItemText(item) + s[q..n]
  {
    hide Text;
    SliceConcat(s, w, q, n);
    SliceConcat(s, w, p, q);
    SliceConcat(s, p, e, q);
  }

  lemma {:induction false} MembersDerived(lib: FloatLib, s: bytes, w: nat, p: nat, open: nat, acc: seq<Member>)
    returns (ms: seq<CMember>)
    requires w <= p < |s| && open <= MAX_DEPTH && AllWs(s[w..p]) && MemberAt(lib, s, p, open, acc).Ok?
    ensures ms != [] && forall m :: m in ms ==> ValidMember(lib, m, MAX_DEPTH - open)
    ensures s[w..MemberAt(lib, s, p, open, acc).next] == MembersText(ms) + [CLOSE_OBJECT]
    ensures MemberAt(lib, s, p, open, acc).value == JObject(MemberValues(lib, ms, acc))
    decreases |s| - p, 2
  {
    hide ValueAt, Text, Valid, Value, SkipWs, KeyAt, StringText, PiecesValue, Emplace, ValidMember;
    var n := MemberAt(lib, s, p, open, acc).next;
    var m, e := MemberDerived(lib, s, w, p, open, acc);
    var q := SkipWs(s, e);
    var acc' := Emplace(acc, PiecesValue(m.key), Value(lib, m.v));
    assert MemberAt(lib, s, p, open, acc) == AfterMember(lib, s, e, open, acc');
    SliceConcat(s, w, q, n);
    if s[q] == CLOSE_OBJECT {
      ms := [m];
      assert MemberValues(lib, ms, acc) == acc';
      assert s[q..n] == [CLOSE_OBJECT];
    } else {
      var k := SkipWs(s, q + 1);
      SkippedIsWs(s, q + 1);
      var rest := MembersDerived(lib, s, q + 1, k, open, acc');
      ms := [m] + rest;
      assert ms[1..] == rest;
      CommaSlice(s, q, n, MembersText(rest), CLOSE_OBJECT);
      ConcatAssociative(MemberText(m), [COMMA] + MembersText(rest), [CLOSE_OBJECT]);
    }
  }

  // One member, up to the white space behind its value, which ends at SkipWs(s, e).
  lemma MemberDerived(lib: FloatLib, s: bytes, w: nat, p: nat, open: nat, acc: seq<Member>)
    returns (m: CMember, e: nat)
    requires w <= p < |s| && open <= MAX_DEPTH && AllWs(s[w..p]) && MemberAt(lib, s, p, open, acc).Ok?
    ensures p < e <= |s| && ValidMember(lib, m, MAX_DEPTH - open)
    ensures s[w..SkipWs(s, e)] == MemberText(m)
    ensures MemberAt(lib, s, p, open, acc) ==
            AfterMember(lib, s, e, open, Emplace(acc, PiecesValue(m.key), Value(lib, m.v)))
    decreases |s| - p, 1
  {
    hide ValueAt, Text, Valid, Value, SkipWs, StringText, PiecesValue, Emplace, AfterMember;
    var k := KeyAt(s, p).next;
    assert MemberAt(lib, s, p, open, acc) == MemberValueAt(lib, s, k, open, acc, KeyAt(s, p).value);
    var key, a := KeyDerived(s, p);
    var b := SkipWs(s, k);
    SkippedIsWs(s, k);
    e := ValueAt(lib, s, b, open).next;
    var c := ValueDerived(lib, s, b, open);
    SkippedIsWs(s, e);
    m := CMember(s[w..p], key, s[a..k - 1], s[k..b], c, s[e..SkipWs(s, e)]);
    MemberSlice(s, w, p, a, k, b, e, SkipWs(s, e), m);
  }

  lemma KeyDerived(s: bytes, p: nat) returns (key: seq<StrPiece>, a: nat)
    requires p < |s| && KeyAt(s, p).Ok?
    ensures var k := KeyAt(s, p).next;
            && p < a < k <= |s| && s[k - 1] == COLON && AllWs(s[a..k - 1])
            && ValidPieces(key) && s[p..a] == StringText(key) && KeyAt(s, p).value == PiecesValue(key)
  {
    hide CharsAt, StringText, PiecesValue;
    key := StringDerived(s, p);
    a := CharsAt(s, p + 1, []).next;
    SkippedIsWs(s, a);
  }

  lemma MemberSlice(s: bytes, w: nat, p: nat, a: nat, k: nat, b: nat, e: nat, q: nat, m: CMember)
    requires w <= p <= a < k <= b <= e <= q <= |s| && s[k - 1] == COLON
    requires m.before == s[w..p] && StringText(m.key) == s[p..a] && m.beforeColon == s[a..k - 1]
    requires m.afterColon == s[k..b] && Text(m.v) == s[b..e] && m.after == s[e..q]
    ensures s[w..q] == MemberText(m)
  {
    hide *;
    SliceConcat(s, w, p, q);
    SliceConcat(s, p, a, q);
    SliceConcat(s, a, k - 1, q);
    SliceConcat(s, k - 1, k, q);
    SliceConcat(s, k, b, q);
    SliceConcat(s, b, e, q);
    assert s[k - 1..k] == [COLON];
    MemberTextIs(m);
  }

  lemma MemberTextIs(m: CMember)
    ensures MemberText(m) ==
            m.before + (StringText(m.key) + (m.beforeColon + ([COLON] + (m.afterColon + (Text(m.v) + m.after)))))
  {
  }

  // Soundness: an accepted text has a derivation that denotes the returned value.
  lemma DocDerived(lib: FloatLib, s: bytes) returns (doc: Doc)
    requires ParseText(lib, s).Ok?
    ensures ValidDoc(lib, doc) && DocText(doc) == s && DocValue(lib, doc) == ParseText(lib, s).value
  {
    hide ValueAt, Text, Valid, Value, SkipWs;
    var p := SkipWs(s, 0);
    var q := ValueAt(lib, s, p, 0).next;
    SkippedIsWs(s, 0);
    SkippedIsWs(s, q);
    var c := ValueDerived(lib, s, p, 0);
    doc := Doc(s[0..p], c, s[q..|s|]);
    SliceConcat(s, 0, p, |s|);
    SliceConcat(s, p, q, |s|);
    assert s[0..|s|] == s;
  }
}
