// Every derivation of the grammar is read, with the value the derivation denotes.
module JsonComplete {
  import opened Bytes
  import opened Utf8
  import opened JsonValue
  import opened JsonGrammar
  import opened JsonReader

  // ---- Numbers ----------------------------------------------------------------------------------

  // No byte that could prolong a number token.
  predicate NumberStops(s: bytes, p: nat) {
    p < |s| ==> !IsDigit(s[p]) && s[p] != DOT && !IsExpMark(s[p])
  }

  lemma DigitsRead(s: bytes, p: nat, ds: bytes)
    requires At(s, p, ds) && AllDigits(ds) && ds != []
    requires p + |ds| < |s| ==> !IsDigit(s[p + |ds|])
    ensures DigitAt(s, p) && s[p] == ds[0] && SkipDigits(s, p) == p + |ds|
  {
    AtFirst(s, p, ds);
    forall i | p <= i < p + |ds| ensures IsDigit(s[i]) { assert s[i] == ds[i - p]; }
  }

  lemma ExponentRead(s: bytes, from: nat, p: nat, exp: Option<Exp>, t: Num)
    requires ValidNum(t) && exp == t.exp && from <= p
    requires At(s, p, ExpText(exp)) && NumberStops(s, p + |ExpText(exp)|)
    ensures ExponentEnd(s, from, p) == Ok(exp.Some?, p + |ExpText(exp)|)
  {
    match exp {
      case None =>
      case Some(e) =>
        AtConcat(s, p, [e.mark], e.sign + e.digits);
        AtByte(s, p, e.mark);
        AtConcat(s, p + 1, e.sign, e.digits);
        DigitsRead(s, p + 1 + |e.sign|, e.digits);
        if e.sign != [] { AtByte(s, p + 1, e.sign[0]); }
    }
  }

  lemma FractionRead(s: bytes, from: nat, p: nat, frac: Option<bytes>, t: Num)
    requires ValidNum(t) && frac == t.frac && from <= p
    requires At(s, p, FracText(frac))
    requires var q := p + |FracText(frac)|; q < |s| ==> !IsDigit(s[q]) && s[q] != DOT
    ensures FractionEnd(s, from, p) == Ok(frac.Some?, p + |FracText(frac)|)
  {
    match frac {
      case None =>
      case Some(ds) =>
        AtConcat(s, p, [DOT], ds);
        AtByte(s, p, DOT);
        DigitsRead(s, p + 1, ds);
    }
  }

  lemma NumberEndRead(s: bytes, p: nat, t: Num)
    requires ValidNum(t) && At(s, p, NumText(t)) && NumberStops(s, p + |NumText(t)|)
    ensures p < |s| && (s[p] == MINUS || IsDigit(s[p]))
    ensures NumberEnd(s, p) == Ok(IsFloat(t), p + |NumText(t)|)
  {
    hide At, SkipDigits, IntegerEnd, FractionEnd, ExponentEnd, IsDigit, IsExpMark, NumText, SignText, FracText, ExpText,
         ValidNum, NumberStops;
    var i, j, k := NumberSplit(s, p, t);
    NumberBegins(s, p, i, t);
    PartsStop(s, j, k, t);
    IntegerRead(s, p, i, t);
    FractionRead(s, p, j, t.frac, t);
    ExponentRead(s, p, k, t.exp, t);
  }

  lemma NumberSplit(s: bytes, p: nat, t: Num) returns (i: nat, j: nat, k: nat)
    requires At(s, p, NumText(t))
    ensures i == p + |SignText(t.neg)| && j == i + |t.ints| && k == j + |FracText(t.frac)|
    ensures p + |NumText(t)| == k + |ExpText(t.exp)|
    ensures At(s, p, SignText(t.neg)) && At(s, i, t.ints) && At(s, j, FracText(t.frac)) && At(s, k, ExpText(t.exp))
  {
    hide At, SignText, FracText, ExpText;
    var sign, frac, exp := SignText(t.neg), FracText(t.frac), ExpText(t.exp);
    i := p + |sign|;
    j := i + |t.ints|;
    k := j + |frac|;
    AtConcat(s, p, sign, t.ints + (frac + exp));
    AtConcat(s, i, t.ints, frac + exp);
    AtConcat(s, j, frac, exp);
  }

  lemma NumberBegins(s: bytes, p: nat, i: nat, t: Num)
    requires ValidNum(t) && i == p + |SignText(t.neg)| && At(s, p, SignText(t.neg)) && At(s, i, t.ints)
    ensures p < |s| && (s[p] == MINUS || IsDigit(s[p])) && i == if s[p] == MINUS then p + 1 else p
  {
    AtFirst(s, p, SignText(t.neg));
    AtFirst(s, i, t.ints);
    hide At;
  }

  // Behind the digits of a part stands the next part or what stops the number.
  lemma PartsStop(s: bytes, j: nat, k: nat, t: Num)
    requires ValidNum(t) && k == j + |FracText(t.frac)| && At(s, j, FracText(t.frac)) && At(s, k, ExpText(t.exp))
    requires NumberStops(s, k + |ExpText(t.exp)|)
    ensures j < |s| ==> !IsDigit(s[j])
    ensures k < |s| ==> !IsDigit(s[k]) && s[k] != DOT
  {
    hide At;
    FracStart(s, j, t.frac);
    ExpStart(s, k, t.exp);
  }

  lemma ExpStart(s: bytes, p: nat, exp: Option<Exp>)
    requires At(s, p, ExpText(exp))
    requires exp.Some? ==> IsExpMark(exp.value.mark)
    ensures exp.Some? ==> p < |s| && IsExpMark(s[p])
  {
    AtFirst(s, p, ExpText(exp));
  }

  lemma FracStart(s: bytes, p: nat, frac: Option<bytes>)
    requires At(s, p, FracText(frac))
    ensures frac.Some? ==> p < |s| && s[p] == DOT
  {
    AtFirst(s, p, FracText(frac));
  }

  lemma IntegerRead(s: bytes, p: nat, i: nat, t: Num)
    requires p <= i && ValidNum(t) && At(s, i, t.ints)
    requires i + |t.ints| < |s| ==> !IsDigit(s[i + |t.ints|])
    ensures IntegerEnd(s, p, i) == Ok((), i + |t.ints|)
  {
    DigitsRead(s, i, t.ints);
  }

  lemma NumberRead(lib: FloatLib, s: bytes, p: nat, t: Num)
    requires ValidNum(t) && At(s, p, NumText(t)) && NumberStops(s, p + |NumText(t)|)
    requires NumValue(lib, t).Some?
    ensures p < |s| && (s[p] == MINUS || IsDigit(s[p]))
    ensures NumberAt(lib, s, p) == Ok(NumValue(lib, t).value, p + |NumText(t)|)
  {
    hide NumText, NumValue, NumberEnd, TokenValue, IsFloat, ValidNum, NumberStops, At, IsDigit;
    NumberEndRead(s, p, t);
    AtSlice(s, p, NumText(t));
    var token := NumText(t);
    TokenRead(lib, t);
    assert s[p..p + |token|] == token;
  }

  lemma TokenRead(lib: FloatLib, t: Num)
    requires ValidNum(t) && NumValue(lib, t).Some?
    ensures NumText(t) != [] && TokenValue(lib, NumText(t), IsFloat(t)) == Ok(NumValue(lib, t).value, 0)
  {
    var token := NumText(t);
    if !IsFloat(t) {
      assert token == SignText(t.neg) + t.ints;
      if t.neg { assert token[1..] == t.ints; } else { assert token == t.ints && IsDigit(token[0]); }
    }
  }

  // ---- Strings ----------------------------------------------------------------------------------

  lemma Hex4Read(s: bytes, p: nat, h: bytes)
    requires At(s, p, h) && IsHex4(h)
    ensures Hex4At(s, p) == Ok(Hex4(h), p + 4)
  {
    AtSlice(s, p, h);
  }

  lemma PieceRead(s: bytes, p: nat, c: StrPiece)
    requires At(s, p, PieceText(c)) && ValidPiece(c)
    ensures p < |s| && s[p] != QUOTE
    ensures CharAt(s, p) == Ok(PieceValue(c), p + |PieceText(c)|)
  {
    hide At, UnicodeAt, HexDigit, Encode, LeadOf, ScanAt, IsUtf8Char;
    match c {
      case Plain(b) =>
        AtByte(s, p, b);
      case Multi(x) =>
        MultiRead(s, p, x);
      case Short(e) =>
        ShortRead(s, p, e);
      case Escape(h) =>
        EscapeRead(s, p, h);
      case Pair(high, low) =>
        PairRead(s, p, high, low);
    }
  }

  lemma EscapeRead(s: bytes, p: nat, h: bytes)
    requires At(s, p, [BACKSLASH, LETTER_U] + h) && ValidPiece(Escape(h))
    ensures p + 1 < |s| && s[p] == BACKSLASH && s[p + 1] == LETTER_U
    ensures UnicodeAt(s, p + 2) == Ok(Encode(Hex4(h)), p + 6)
  {
    hide At, Hex4At, Hex4, HexDigit, Encode, IsHex4;
    EscapeStart(s, p, h);
    assert IsHex4(h);
    Hex4Read(s, p + 2, h);
  }

  lemma PairRead(s: bytes, p: nat, high: bytes, low: bytes)
    requires At(s, p, [BACKSLASH, LETTER_U] + high + ([BACKSLASH, LETTER_U] + low)) && ValidPiece(Pair(high, low))
    ensures p + 1 < |s| && s[p] == BACKSLASH && s[p + 1] == LETTER_U
    ensures UnicodeAt(s, p + 2) == Ok(Encode(PairScalar(Hex4(high), Hex4(low))), p + 12)
  {
    hide At, Hex4At, Hex4, HexDigit, Encode;
    AtConcat(s, p, [BACKSLASH, LETTER_U] + high, [BACKSLASH, LETTER_U] + low);
    EscapeStart(s, p, high);
    EscapeStart(s, p + 6, low);
    Hex4Read(s, p + 2, high);
    Hex4Read(s, p + 8, low);
  }

  lemma MultiRead(s: bytes, p: nat, x: bytes)
    requires At(s, p, x) && |x| >= 2 && IsUtf8Char(x)
    ensures p < |s| && s[p] >= 0x80 && ScanAt(s, p) == Good(|x|) && p + |x| <= |s| && s[p..p + |x|] == x
  {
    AtFirst(s, p, x);
    AtSlice(s, p, x);
    ScanAcceptsTable(s, p);
    hide ScanAt, LeadOf, At;
  }

  lemma ShortRead(s: bytes, p: nat, e: byte)
    requires At(s, p, [BACKSLASH, e])
    ensures p + 1 < |s| && s[p] == BACKSLASH && s[p + 1] == e
  {
    assert [BACKSLASH, e] == [BACKSLASH] + [e];
    AtConcat(s, p, [BACKSLASH], [e]);
    AtByte(s, p, BACKSLASH);
    AtByte(s, p + 1, e);
    hide At;
  }

  lemma EscapeStart(s: bytes, p: nat, h: bytes)
    requires At(s, p, [BACKSLASH, LETTER_U] + h)
    ensures p + 1 < |s| && s[p] == BACKSLASH && s[p + 1] == LETTER_U && At(s, p + 2, h)
  {
    AtConcat(s, p, [BACKSLASH, LETTER_U], h);
    assert [BACKSLASH, LETTER_U][1] == LETTER_U;
    AtFirst(s, p, [BACKSLASH, LETTER_U]);
  }

  lemma {:induction false} CharsRead(s: bytes, p: nat, cs: seq<StrPiece>, acc: bytes)
    requires ValidPieces(cs) && At(s, p, PiecesText(cs) + [QUOTE])
    ensures CharsAt(s, p, acc) == Ok(acc + PiecesValue(cs), p + |PiecesText(cs)| + 1)
    decreases |cs|
  {
    hide At, PieceText, PieceValue, CharAt, ValidPiece, CharsAt;
    if cs == [] {
      assert PiecesText(cs) + [QUOTE] == [QUOTE];
      AtByte(s, p, QUOTE);
      CharsAtQuote(s, p, acc);
      assert acc + [] == acc;
    } else {
      var x, rest := PieceText(cs[0]), PiecesText(cs[1..]);
      ConcatAssociative(x, rest, [QUOTE]);
      AtConcat(s, p, x, rest + [QUOTE]);
      assert cs[0] in cs;
      PieceRead(s, p, cs[0]);
      var v := PieceValue(cs[0]);
      CharsAtStep(s, p, acc, v, p + |x|);
      assert forall c :: c in cs[1..] ==> c in cs;
      CharsRead(s, p + |x|, cs[1..], acc + v);
      ConcatAssociative(acc, v, PiecesValue(cs[1..]));
    }
  }

  lemma CharsAtQuote(s: bytes, p: nat, acc: bytes)
    requires p < |s| && s[p] == QUOTE
    ensures CharsAt(s, p, acc) == Ok(acc, p + 1)
  {
  }

  lemma CharsAtStep(s: bytes, p: nat, acc: bytes, x: bytes, q: nat)
    requires p < |s| && s[p] != QUOTE && CharAt(s, p) == Ok(x, q)
    ensures q <= |s| && CharsAt(s, p, acc) == CharsAt(s, q, acc + x)
  {
    hide CharAt;
  }

  lemma StringRead(s: bytes, p: nat, cs: seq<StrPiece>)
    requires ValidPieces(cs) && At(s, p, StringText(cs))
    ensures p < |s| && s[p] == QUOTE
    ensures CharsAt(s, p + 1, []) == Ok(PiecesValue(cs), p + |StringText(cs)|)
  {
    AtConcat(s, p, [QUOTE], PiecesText(cs) + [QUOTE]);
    AtByte(s, p, QUOTE);
    CharsRead(s, p + 1, cs, []);
    assert [] + PiecesValue(cs) == PiecesValue(cs);
  }

  // ---- Values -----------------------------------------------------------------------------------

  // What may follow a value: the end, white space, a comma, or a closing bracket.
  predicate ValueStops(s: bytes, p: nat) {
    p < |s| ==> IsWs(s[p]) || s[p] == COMMA || s[p] == CLOSE_ARRAY || s[p] == CLOSE_OBJECT
  }

  predicate StartsValue(b: byte) {
    || b == QUOTE || b == OPEN_ARRAY || b == OPEN_OBJECT || b == MINUS || IsDigit(b)
    || b == 0x6E || b == 0x74 || b == 0x66
  }

  lemma WsRead(s: bytes, p: nat, ws: bytes)
    requires At(s, p, ws) && AllWs(ws)
    requires p + |ws| < |s| ==> !IsWs(s[p + |ws|])
    ensures SkipWs(s, p) == p + |ws|
  {
    forall i | p <= i < p + |ws| ensures IsWs(s[i]) { assert s[i] == ws[i - p]; }
  }

  lemma TextStart(lib: FloatLib, c: Cst, room: int)
    requires Valid(lib, c, room)
    ensures Text(c) != [] && StartsValue(Text(c)[0])
  {
    match c {
      case CNum(num) => if !num.neg { assert Text(c)[0] == num.ints[0]; }
      case _ =>
    }
  }

  // The byte behind some white space that is followed by `x`.
  lemma StartBehindWs(s: bytes, p: nat, ws: bytes, x: bytes)
    requires At(s, p, ws + x) && AllWs(ws) && x != [] && !IsWs(x[0])
    ensures At(s, p, ws) && At(s, p + |ws|, x) && p + |ws| < |s| && s[p + |ws|] == x[0]
    ensures SkipWs(s, p) == p + |ws|
  {
    AtConcat(s, p, ws, x);
    AtFirst(s, p + |ws|, x);
    WsRead(s, p, ws);
  }

  lemma ScalarRead(lib: FloatLib, s: bytes, p: nat, c: Cst, room: int)
    requires Valid(lib, c, room) && !c.CArr? && !c.CObj?
    requires At(s, p, Text(c)) && (c.CNum? ==> ValueStops(s, p + |Text(c)|))
    ensures p < |s| && StartsValue(s[p]) && s[p] != OPEN_ARRAY && s[p] != OPEN_OBJECT
    ensures ScalarAt(lib, s, p) == Ok(Value(lib, c), p + |Text(c)|)
  {
    hide NumberAt, NumText, StringText, CharsAt;
    AtFirst(s, p, Text(c));
    match c {
      case CNull =>
      case CBool(b) =>
        AtFirst(s, p, NULL_TEXT);
        AtFirst(s, p, TRUE_TEXT);
      case CNum(num) => NumberRead(lib, s, p, num);
      case CStr(pieces) => StringRead(s, p, pieces);
    }
  }

  lemma {:induction false} ValueRead(lib: FloatLib, s: bytes, p: nat, open: nat, c: Cst)
    requires open <= MAX_DEPTH && Valid(lib, c, MAX_DEPTH - open)
    requires At(s, p, Text(c)) && (c.CNum? ==> ValueStops(s, p + |Text(c)|))
    ensures ValueAt(lib, s, p, open) == Ok(Value(lib, c), p + |Text(c)|)
    decreases c, 0
  {
    hide At, ItemAt, MemberAt, ItemsText, MembersText, ScalarAt, NumText, StringText, ValidNum, NumValue;
    AtFirst(s, p, Text(c));
    match c {
      case CArr(blank, items) =>
        var inside := if items == [] then blank else ItemsText(items);
        AtConcat(s, p, [OPEN_ARRAY], inside + [CLOSE_ARRAY]);
        if items == [] {
          StartBehindWs(s, p + 1, blank, [CLOSE_ARRAY]);
        } else {
          ItemsRead(lib, s, p + 1, open + 1, items, []);
          assert [] + ItemValues(lib, items) == ItemValues(lib, items);
        }
      case CObj(blank, members) =>
        var inside := if members == [] then blank else MembersText(members);
        AtConcat(s, p, [OPEN_OBJECT], inside + [CLOSE_OBJECT]);
        if members == [] {
          StartBehindWs(s, p + 1, blank, [CLOSE_OBJECT]);
        } else {
          MembersRead(lib, s, p + 1, open + 1, members, []);
        }
      case _ =>
        ScalarRead(lib, s, p, c, MAX_DEPTH - open);
    }
  }

  // The text of a list of items, element by element.
  lemma ItemsShape(items: seq<CItem>, close: bytes) returns (tail: bytes)
    requires items != []
    ensures tail == if |items| == 1 then close else [COMMA] + (ItemsText(items[1..]) + close)
    ensures ItemsText(items) + close == items[0].before + (Text(items[0].v) + (items[0].after + tail))
  {
    var x := items[0];
    tail := if |items| == 1 then close else [COMMA] + (ItemsText(items[1..]) + close);
    if |items| > 1 {
      ConcatAssociative([COMMA], ItemsText(items[1..]), close);
      ConcatAssociative(ItemText(x), [COMMA] + ItemsText(items[1..]), close);
    }
    ConcatAssociative(x.before, Text(x.v) + x.after, tail);
    ConcatAssociative(Text(x.v), x.after, tail);
  }

  // One element: from its leading white space to what follows it.
  lemma ElementRead(lib: FloatLib, s: bytes, p: nat, open: nat, before: bytes, c: Cst, after: bytes, tail: bytes)
    returns (n: nat)
    requires open <= MAX_DEPTH && AllWs(before) && Valid(lib, c, MAX_DEPTH - open) && AllWs(after)
    requires At(s, p, before + (Text(c) + (after + tail)))
    requires tail != [] && (tail[0] == COMMA || tail[0] == CLOSE_ARRAY || tail[0] == CLOSE_OBJECT)
    ensures var q := p + |before|;
            && SkipWs(s, p) == q < |s| && StartsValue(s[q])
            && ValueAt(lib, s, q, open) == Ok(Value(lib, c), q + |Text(c)|)
            && n == q + |Text(c)| + |after| < |s| && SkipWs(s, q + |Text(c)|) == n
            && s[n] == tail[0] && At(s, n, tail)
    decreases c, 1
  {
    hide At, Text, Valid, Value, ValueAt;
    var q, e := p + |before|, p + |before| + |Text(c)|;
    n := e + |after|;
    TextStart(lib, c, MAX_DEPTH - open);
    StartBehindWs(s, p, before, Text(c) + (after + tail));
    AtConcat(s, q, Text(c), after + tail);
    StartBehindWs(s, e, after, tail);
    AtFirst(s, e, after);
    ValueRead(lib, s, q, open, c);
  }

  lemma FirstItemRead(lib: FloatLib, s: bytes, p: nat, open: nat, items: seq<CItem>) returns (q: nat, e: nat, n: nat)
    requires open <= MAX_DEPTH && items != [] && ValidItem(lib, items[0], MAX_DEPTH - open)
    requires At(s, p, ItemsText(items) + [CLOSE_ARRAY])
    ensures SkipWs(s, p) == q < e <= n < |s| && s[q] != CLOSE_ARRAY && SkipWs(s, e) == n
    ensures ValueAt(lib, s, q, open) == Ok(Value(lib, items[0].v), e)
    ensures |items| == 1 ==> s[n] == CLOSE_ARRAY && n == p + |ItemsText(items)|
    ensures |items| > 1 ==>
              && s[n] == COMMA && At(s, n + 1, ItemsText(items[1..]) + [CLOSE_ARRAY])
              && n + 1 + |ItemsText(items[1..])| == p + |ItemsText(items)|
    decreases items, 0
  {
    hide At, Text, Valid, Value, ValueAt;
    var item := items[0];
    var tail := ItemsShape(items, [CLOSE_ARRAY]);
    n := ElementRead(lib, s, p, open, item.before, item.v, item.after, tail);
    q, e := p + |item.before|, p + |item.before| + |Text(item.v)|;
    if |items| > 1 { AtConcat(s, n, [COMMA], ItemsText(items[1..]) + [CLOSE_ARRAY]); }
  }

  lemma {:induction false} ItemsRead(lib: FloatLib, s: bytes, p: nat, open: nat, items: seq<CItem>, acc: seq<JsonValue>)
    requires open <= MAX_DEPTH && items != []
    requires forall x :: x in items ==> ValidItem(lib, x, MAX_DEPTH - open)
    requires At(s, p, ItemsText(items) + [CLOSE_ARRAY])
    ensures var q := SkipWs(s, p);
            && q < |s| && s[q] != CLOSE_ARRAY
            && ItemAt(lib, s, q, open, acc) ==
               Ok(JArray(acc + ItemValues(lib, items)), p + |ItemsText(items)| + 1)
    decreases items, 1
  {
    hide At, ItemAt, AfterItem, ValueAt, SkipWs, ValidItem, Value;
    assert items[0] in items;
    var q, e, n := FirstItemRead(lib, s, p, open, items);
    var v := Value(lib, items[0].v);
    if |items| == 1 {
      LastItem(lib, s, q, open, acc, v, e, n);
      assert ItemValues(lib, items) == [v];
    } else {
      assert forall x :: x in items[1..] ==> x in items;
      ItemsRead(lib, s, n + 1, open, items[1..], acc + [v]);
      NextItem(lib, s, q, open, acc, v, e, n);
      ConcatValues(acc, v, ItemValues(lib, items[1..]));
    }
  }

  lemma ConcatValues(acc: seq<JsonValue>, v: JsonValue, rest: seq<JsonValue>)
    ensures acc + [v] + rest == acc + ([v] + rest)
  {
  }

  lemma LastItem(lib: FloatLib, s: bytes, q: nat, open: nat, acc: seq<JsonValue>, v: JsonValue, e: nat, n: nat)
    requires q < |s| && ValueAt(lib, s, q, open) == Ok(v, e)
    requires e <= n < |s| && SkipWs(s, e) == n && s[n] == CLOSE_ARRAY
    ensures ItemAt(lib, s, q, open, acc) == Ok(JArray(acc + [v]), n + 1)
  {
  }

  lemma NextItem(lib: FloatLib, s: bytes, q: nat, open: nat, acc: seq<JsonValue>, v: JsonValue, e: nat, n: nat)
    requires q < |s| && ValueAt(lib, s, q, open) == Ok(v, e)
    requires e <= n < |s| && SkipWs(s, e) == n && s[n] == COMMA
    requires var k := SkipWs(s, n + 1); k < |s| && s[k] != CLOSE_ARRAY
    ensures ItemAt(lib, s, q, open, acc) == ItemAt(lib, s, SkipWs(s, n + 1), open, acc + [v])
  {
    BehindComma(lib, s, open, acc + [v], e, n);
    hide ValueAt, AfterItem, SkipWs;
  }

  lemma BehindComma(lib: FloatLib, s: bytes, open: nat, acc: seq<JsonValue>, e: nat, n: nat)
    requires e <= n < |s| && SkipWs(s, e) == n && s[n] == COMMA
    requires var k := SkipWs(s, n + 1); k < |s| && s[k] != CLOSE_ARRAY
    ensures AfterItem(lib, s, e, open, acc) == ItemAt(lib, s, SkipWs(s, n + 1), open, acc)
  {
    hide SkipWs, ItemAt;
  }

  lemma FirstMemberRead(lib: FloatLib, s: bytes, p: nat, open: nat, ms: seq<CMember>, acc: seq<Member>)
    returns (q: nat, e: nat, n: nat)
    requires open <= MAX_DEPTH && ms != [] && ValidMember(lib, ms[0], MAX_DEPTH - open)
    requires At(s, p, MembersText(ms) + [CLOSE_OBJECT])
    ensures SkipWs(s, p) == q < e <= n < |s| && s[q] == QUOTE && SkipWs(s, e) == n
    ensures MemberAt(lib, s, q, open, acc) ==
            AfterMember(lib, s, e, open, Emplace(acc, PiecesValue(ms[0].key), Value(lib, ms[0].v)))
    ensures |ms| == 1 ==> s[n] == CLOSE_OBJECT && n == p + |MembersText(ms)|
    ensures |ms| > 1 ==>
              && s[n] == COMMA && At(s, n + 1, MembersText(ms[1..]) + [CLOSE_OBJECT])
              && n + 1 + |MembersText(ms[1..])| == p + |MembersText(ms)|
    decreases ms, 0
  {
    hide *;
    var m := ms[0];
    var k;
    q, k := FirstKeyRead(lib, s, p, open, ms);
    e, n := FirstValueRead(lib, s, k, open, m, TailOf(ms));
    OneMember(lib, s, q, k, open, acc, PiecesValue(m.key), Value(lib, m.v), e);
    TailRead(s, n, ms);
  }

  // What follows the colon of a member, and what follows the member.
  function ValueOn(m: CMember, tail: bytes): bytes {
    m.afterColon + (Text(m.v) + (m.after + tail))
  }

  function TailOf(ms: seq<CMember>): (tail: bytes)
    requires ms != []
    ensures tail != [] && (tail[0] == COMMA || tail[0] == CLOSE_OBJECT)
  {
    if |ms| == 1 then [CLOSE_OBJECT] else [COMMA] + (MembersText(ms[1..]) + [CLOSE_OBJECT])
  }

  lemma FirstValueRead(lib: FloatLib, s: bytes, k: nat, open: nat, m: CMember, tail: bytes) returns (e: nat, n: nat)
    requires open <= MAX_DEPTH && ValidMember(lib, m, MAX_DEPTH - open) && At(s, k, ValueOn(m, tail))
    requires tail != [] && (tail[0] == COMMA || tail[0] == CLOSE_OBJECT)
    ensures k <= e <= n < |s| && n + |tail| == k + |ValueOn(m, tail)|
    ensures SkipWs(s, k) < |s| && ValueAt(lib, s, SkipWs(s, k), open) == Ok(Value(lib, m.v), e)
    ensures SkipWs(s, e) == n && s[n] == tail[0] && At(s, n, tail)
    decreases m, 0
  {
    hide At, Text, Valid, Value, ValueAt, AllWs, ValidPieces, SkipWs, StartsValue;
    n := ElementRead(lib, s, k, open, m.afterColon, m.v, m.after, tail);
    e := k + |m.afterColon| + |Text(m.v)|;
  }

  lemma TailRead(s: bytes, n: nat, ms: seq<CMember>)
    requires ms != [] && At(s, n, TailOf(ms))
    ensures n < |s| && |TailOf(ms)| == 1 + if |ms| == 1 then 0 else |MembersText(ms[1..])| + 1
    ensures s[n] == if |ms| == 1 then CLOSE_OBJECT else COMMA
    ensures |ms| > 1 ==> At(s, n + 1, MembersText(ms[1..]) + [CLOSE_OBJECT])
  {
    AtFirst(s, n, TailOf(ms));
    hide At, MembersText;
    if |ms| > 1 { AtConcat(s, n, [COMMA], MembersText(ms[1..]) + [CLOSE_OBJECT]); }
  }

  lemma FirstKeyRead(lib: FloatLib, s: bytes, p: nat, open: nat, ms: seq<CMember>)
    returns (q: nat, k: nat)
    requires open <= MAX_DEPTH && ms != [] && ValidMember(lib, ms[0], MAX_DEPTH - open)
    requires At(s, p, MembersText(ms) + [CLOSE_OBJECT])
    ensures SkipWs(s, p) == q < k <= |s| && s[q] == QUOTE && KeyAt(s, q) == Ok(PiecesValue(ms[0].key), k)
    ensures At(s, k, ValueOn(ms[0], TailOf(ms)))
    ensures k + |ValueOn(ms[0], TailOf(ms))| == p + |MembersText(ms)| + 1
  {
    var m := ms[0];
    var tail, valueOn := MembersShape(ms, [CLOSE_OBJECT]);
    var keyOn := StringText(m.key) + (m.beforeColon + ([COLON] + valueOn));
    assert keyOn[0] == QUOTE;
    hide At, Text, Valid, KeyAt, StringText, PiecesValue, MembersText;
    StartBehindWs(s, p, m.before, keyOn);
    q := p + |m.before|;
    k := KeyRead(s, q, m, valueOn);
  }

  lemma {:induction false} MembersRead(lib: FloatLib, s: bytes, p: nat, open: nat, ms: seq<CMember>, acc: seq<Member>)
    requires open <= MAX_DEPTH && ms != []
    requires forall m :: m in ms ==> ValidMember(lib, m, MAX_DEPTH - open)
    requires At(s, p, MembersText(ms) + [CLOSE_OBJECT])
    ensures var q := SkipWs(s, p);
            && q < |s| && s[q] == QUOTE
            && MemberAt(lib, s, q, open, acc) ==
               Ok(JObject(MemberValues(lib, ms, acc)), p + |MembersText(ms)| + 1)
    decreases ms, 1
  {
    hide At, MemberAt, AfterMember, SkipWs, ValidMember, Emplace, Value, PiecesValue;
    assert ms[0] in ms;
    var q, e, n := FirstMemberRead(lib, s, p, open, ms, acc);
    var acc' := Emplace(acc, PiecesValue(ms[0].key), Value(lib, ms[0].v));
    if |ms| == 1 {
      LastMember(lib, s, open, acc', e, n);
      assert MemberValues(lib, ms, acc) == acc';
    } else {
      assert forall m :: m in ms[1..] ==> m in ms;
      MembersRead(lib, s, n + 1, open, ms[1..], acc');
      NextMember(lib, s, open, acc', e, n);
    }
  }

  lemma OneMember(lib: FloatLib, s: bytes, q: nat, k: nat, open: nat, acc: seq<Member>, key: bytes, v: JsonValue,
                  e: nat)
    requires q < |s| && KeyAt(s, q) == Ok(key, k)
    requires SkipWs(s, k) < |s| && ValueAt(lib, s, SkipWs(s, k), open) == Ok(v, e)
    ensures e <= |s| && MemberAt(lib, s, q, open, acc) == AfterMember(lib, s, e, open, Emplace(acc, key, v))
  {
    assert MemberAt(lib, s, q, open, acc) == MemberValueAt(lib, s, k, open, acc, key);
  }

  lemma LastMember(lib: FloatLib, s: bytes, open: nat, acc: seq<Member>, e: nat, n: nat)
    requires e <= n < |s| && SkipWs(s, e) == n && s[n] == CLOSE_OBJECT
    ensures AfterMember(lib, s, e, open, acc) == Ok(JObject(acc), n + 1)
  {
  }

  lemma NextMember(lib: FloatLib, s: bytes, open: nat, acc: seq<Member>, e: nat, n: nat)
    requires e <= n < |s| && SkipWs(s, e) == n && s[n] == COMMA
    requires var k := SkipWs(s, n + 1); k < |s| && s[k] != CLOSE_OBJECT
    ensures AfterMember(lib, s, e, open, acc) == MemberAt(lib, s, SkipWs(s, n + 1), open, acc)
  {
  }

  // The text of a list of members, part by part.
  lemma MembersShape(ms: seq<CMember>, close: bytes) returns (tail: bytes, valueOn: bytes)
    requires ms != []
    ensures tail == if |ms| == 1 then close else [COMMA] + (MembersText(ms[1..]) + close)
    ensures valueOn == ms[0].afterColon + (Text(ms[0].v) + (ms[0].after + tail))
    ensures MembersText(ms) + close ==
            ms[0].before + (StringText(ms[0].key) + (ms[0].beforeColon + ([COLON] + valueOn)))
    ensures |MembersText(ms)| + |close| ==
            |ms[0].before| + |StringText(ms[0].key)| + |ms[0].beforeColon| + 1 + |valueOn|
    ensures |valueOn| == |ms[0].afterColon| + |Text(ms[0].v)| + |ms[0].after| + |tail|
  {
    hide StringText;
    var m := ms[0];
    tail := if |ms| == 1 then close else [COMMA] + (MembersText(ms[1..]) + close);
    valueOn := m.afterColon + (Text(m.v) + (m.after + tail));
    if |ms| > 1 {
      ConcatAssociative([COMMA], MembersText(ms[1..]), close);
      ConcatAssociative(MemberText(m), [COMMA] + MembersText(ms[1..]), close);
    }
    var v1 := Text(m.v) + m.after;
    var v2 := m.afterColon + v1;
    var v3 := [COLON] + v2;
    var v4 := m.beforeColon + v3;
    ConcatAssociative(m.before, StringText(m.key) + v4, tail);
    ConcatAssociative(StringText(m.key), v4, tail);
    ConcatAssociative(m.beforeColon, v3, tail);
    ConcatAssociative([COLON], v2, tail);
    ConcatAssociative(m.afterColon, v1, tail);
    ConcatAssociative(Text(m.v), m.after, tail);
  }

  lemma KeyRead(s: bytes, q: nat, m: CMember, valueOn: bytes) returns (k: nat)
    requires ValidPieces(m.key) && AllWs(m.beforeColon)
    requires At(s, q, StringText(m.key) + (m.beforeColon + ([COLON] + valueOn)))
    ensures k == q + |StringText(m.key)| + |m.beforeColon| + 1
    ensures q < |s| && KeyAt(s, q) == Ok(PiecesValue(m.key), k) && At(s, k, valueOn)
  {
    hide At, StringText, CharsAt, PiecesValue, ValidPieces;
    AtConcat(s, q, StringText(m.key), m.beforeColon + ([COLON] + valueOn));
    StringRead(s, q, m.key);
    var n := q + |StringText(m.key)|;
    StartBehindWs(s, n, m.beforeColon, [COLON] + valueOn);
    AtConcat(s, n + |m.beforeColon|, [COLON], valueOn);
    k := n + |m.beforeColon| + 1;
  }

  // Completeness: a JSON text is accepted with the value its derivation denotes.
  lemma DocRead(lib: FloatLib, doc: Doc)
    requires ValidDoc(lib, doc)
    ensures ParseText(lib, DocText(doc)) == Ok(DocValue(lib, doc), |DocText(doc)|)
  {
    hide At, Text, Valid, Value, ValueAt, SkipWs, AllWs, StartsValue, ValueStops;
    TextStart(lib, doc.v, MAX_DEPTH);
    BetweenBlanks(doc.before, Text(doc.v), doc.after);
    ValueRead(lib, DocText(doc), |doc.before|, 0, doc.v);
  }

  // A text that starts with no blank, between blanks.
  lemma BetweenBlanks(before: bytes, x: bytes, after: bytes)
    requires AllWs(before) && AllWs(after) && x != [] && StartsValue(x[0])
    ensures var s, q := before + (x + after), |before| + |x|;
            && SkipWs(s, 0) == |before| && At(s, |before|, x)
            && SkipWs(s, q) == |s| == q + |after| && ValueStops(s, q)
  {
    hide *;
    var s, q := before + (x + after), |before| + |x|;
    AtStart(s);
    ValueIsNoWs(x, after);
    StartBehindWs(s, 0, before, x + after);
    AtConcat(s, |before|, x, after);
    WsRead(s, q, after);
    BlankStops(s, q, after);
  }

  lemma AtStart(s: bytes)
    ensures At(s, 0, s)
  {
  }

  lemma ValueIsNoWs(x: bytes, after: bytes)
    requires x != [] && StartsValue(x[0])
    ensures !IsWs((x + after)[0])
  {
  }

  lemma BlankStops(s: bytes, q: nat, after: bytes)
    requires At(s, q, after) && AllWs(after) && |s| == q + |after|
    ensures ValueStops(s, q)
  {
    AtFirst(s, q, after);
  }
}
