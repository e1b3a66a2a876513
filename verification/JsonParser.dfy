// The Parser class of src/core/JsonParser.cpp: a cursor that every method moves, and one loop
// over an explicit stack of frames instead of recursion. Each method is proved to return what
// the recursive reading in JsonReader returns, down to the reason and offset of a failure.
module JsonParser {
  import opened Bytes
  import opened Utf8
  import opened JsonValue
  import opened JsonGrammar
  import opened JsonReader

  // A returned value, or the McpError that Fail throws.
  datatype Outcome<+T> = Done(value: T) | Failed(reason: Reason, at: nat)

  // The method ended as `r` says, with the cursor behind the value.
  predicate Follows<T(==)>(out: Outcome<T>, pos: nat, r: Parsed<T>) {
    match r
    case Ok(v, next) => out == Done(v) && pos == next
    case Err(e, a) => out == Failed(e, a)
  }

  // Phases: 0 before the first element or a key, 1 before a value, 2 behind a value.
  datatype Frame = Frame(isObject: bool, items: seq<JsonValue>, members: seq<Member>, key: bytes, phase: nat)

  // Behind the comma of an array.
  function NextItemAt(lib: FloatLib, s: bytes, p: nat, open: nat, acc: seq<JsonValue>): (r: Parsed<JsonValue>)
    requires p <= |s|
    ensures r.Within(p, |s|)
  {
    var q := SkipWs(s, p);
    if q == |s| then Err(EndOfArray, q)
    else if s[q] == CLOSE_ARRAY then Err(TrailingComma, q)
    else ItemAt(lib, s, q, open, acc)
  }

  // What the recursive reading makes of the innermost container from here on.
  function ResumeTop(lib: FloatLib, s: bytes, f: Frame, p: nat, open: nat): (r: Parsed<JsonValue>)
    requires p <= |s|
    ensures r.Within(p, |s|)
  {
    if f.isObject then
      if f.phase == 0 then ObjectAt(lib, s, p, open, f.members)
      else if f.phase == 1 then MemberValueAt(lib, s, p, open, f.members, f.key)
      else AfterMember(lib, s, p, open, f.members)
    else
      if f.phase == 0 then ArrayAt(lib, s, p, open, f.items)
      else if f.phase == 1 then NextItemAt(lib, s, p, open, f.items)
      else AfterItem(lib, s, p, open, f.items)
  }

  // complete_value: hand a finished value to the container around it.
  function Complete(f: Frame, v: JsonValue): Frame {
    if f.isObject then f.(members := Emplace(f.members, f.key, v), key := [], phase := 2)
    else f.(items := f.items + [v], phase := 2)
  }

  // What the recursive reading makes of the outermost container from here on.
  function Resume(lib: FloatLib, s: bytes, stack: seq<Frame>, p: nat): (r: Parsed<JsonValue>)
    requires p <= |s| && stack != []
    decreases |stack|
  {
    var n := |stack| - 1;
    match ResumeTop(lib, s, stack[n], p, |stack|)
    case Err(e, a) => Err(e, a)
    case Ok(v, q) => if n == 0 then Ok(v, q) else Resume(lib, s, Popped(stack, v), q)
  }

  // The stack once the innermost container is finished with value `v`.
  function Popped(stack: seq<Frame>, v: JsonValue): seq<Frame>
    requires |stack| >= 2
  {
    var n := |stack| - 1;
    stack[..n - 1] + [Complete(stack[n - 1], v)]
  }

  // Frames below the top wait for a value: they are in phase 1, or an array's first element.
  predicate Waiting(f: Frame) {
    f.phase == 1 || (!f.isObject && f.phase == 0)
  }

  predicate WellStacked(stack: seq<Frame>) {
    && (forall i :: 0 <= i < |stack| - 1 ==> Waiting(stack[i]))
    && (forall i :: 0 <= i < |stack| ==> stack[i].phase <= 2)
  }

  // One turn of the loop: go on with a stack, return a value, or throw.
  datatype Turn = Next(stack: seq<Frame>) | Return(value: JsonValue) | Throw(reason: Reason, at: nat)

  // The turn that moved the cursor from `p` to `q` keeps what the stack stands for.
  predicate TurnKeeps(lib: FloatLib, s: bytes, stack: seq<Frame>, p: nat, turn: Turn, q: nat)
    requires stack != [] && p <= |s| && q <= |s|
  {
    match turn
    case Next(later) =>
      && 1 <= |later| <= MAX_DEPTH && WellStacked(later) && p < q
      && Resume(lib, s, later, q) == Resume(lib, s, stack, p)
    case Return(v) => Resume(lib, s, stack, p) == Ok(v, q)
    case Throw(e, a) => Resume(lib, s, stack, p) == Err(e, a)
  }

  // One character of a string, as CharsAt takes it.
  lemma CharsAtOnce(s: bytes, p: nat, acc: bytes)
    requires p < |s| && s[p] != QUOTE
    ensures CharAt(s, p).Err? ==> CharsAt(s, p, acc) == Err(CharAt(s, p).reason, CharAt(s, p).at)
    ensures CharAt(s, p).Ok? ==> CharsAt(s, p, acc) == CharsAt(s, CharAt(s, p).next, acc + CharAt(s, p).value)
  {
    hide CharAt;
  }

  lemma SkippingKeepsResume(lib: FloatLib, s: bytes, stack: seq<Frame>, p: nat)
    requires p <= |s| && stack != []
    ensures Resume(lib, s, stack, p) == Resume(lib, s, stack, SkipWs(s, p))
  {
    SkippingKeepsTop(lib, s, stack[|stack| - 1], p, |stack|);
    hide ResumeTop, SkipWs, Popped;
  }

  lemma SkippingKeepsTop(lib: FloatLib, s: bytes, f: Frame, p: nat, open: nat)
    requires p <= |s|
    ensures ResumeTop(lib, s, f, p, open) == ResumeTop(lib, s, f, SkipWs(s, p), open)
  {
    SkippedTwice(s, p);
    hide SkipWs, ValueAt, KeyAt, MemberAt, ItemAt;
  }

  lemma SkippedTwice(s: bytes, p: nat)
    requires p <= |s|
    ensures SkipWs(s, SkipWs(s, p)) == SkipWs(s, p)
  {
  }

  lemma TopChangeKeepsResume(lib: FloatLib, s: bytes, stack: seq<Frame>, p: nat, f: Frame, q: nat)
    requires p <= |s| && q <= |s| && stack != []
    requires ResumeTop(lib, s, stack[|stack| - 1], p, |stack|) == ResumeTop(lib, s, f, q, |stack|)
    ensures Resume(lib, s, stack, p) == Resume(lib, s, stack[|stack| - 1 := f], q)
  {
    var n := |stack| - 1;
    if n > 0 { assert stack[n := f][..n - 1] == stack[..n - 1]; }
  }

  // A failure of the innermost container is the failure of all.
  lemma TopFails(lib: FloatLib, s: bytes, stack: seq<Frame>, p: nat)
    requires p <= |s| && stack != []
    ensures var r := ResumeTop(lib, s, stack[|stack| - 1], p, |stack|);
            r.Err? ==> Resume(lib, s, stack, p) == Err(r.reason, r.at)
  {
    hide ResumeTop;
  }

  // A waiting frame takes the value at `p` and goes on behind it.
  lemma TopTakesValue(lib: FloatLib, s: bytes, f: Frame, p: nat, open: nat)
    requires p < |s| && !IsWs(s[p]) && Waiting(f)
    requires f.isObject || s[p] != CLOSE_ARRAY
    ensures ResumeTop(lib, s, f, p, open) ==
            match ValueAt(lib, s, p, open)
            case Err(e, a) => Err(e, a)
            case Ok(v, q) => ResumeTop(lib, s, Complete(f, v), q, open)
  {
    assert SkipWs(s, p) == p;
    match ValueAt(lib, s, p, open) {
      case Err(e, a) =>
        if f.isObject {
          assert MemberValueAt(lib, s, p, open, f.members, f.key) == Err(e, a);
        } else {
          assert ItemAt(lib, s, p, open, f.items) == Err(e, a);
        }
      case Ok(v, q) =>
        if f.isObject {
          assert MemberValueAt(lib, s, p, open, f.members, f.key) ==
                 AfterMember(lib, s, q, open, Emplace(f.members, f.key, v));
        } else {
          assert ItemAt(lib, s, p, open, f.items) == AfterItem(lib, s, q, open, f.items + [v]);
        }
    }
  }

  // So the stack as a whole takes it, too.
  lemma StackTakesValue(lib: FloatLib, s: bytes, stack: seq<Frame>, p: nat)
    requires stack != [] && p < |s| && !IsWs(s[p]) && Waiting(stack[|stack| - 1])
    requires stack[|stack| - 1].isObject || s[p] != CLOSE_ARRAY
    ensures var n := |stack| - 1;
            Resume(lib, s, stack, p) ==
            match ValueAt(lib, s, p, |stack|)
            case Err(e, a) => Err(e, a)
            case Ok(v, q) => Resume(lib, s, stack[..n] + [Complete(stack[n], v)], q)
  {
    hide ResumeTop, ValueAt, Complete;
    var n := |stack| - 1;
    TopTakesValue(lib, s, stack[n], p, |stack|);
    match ValueAt(lib, s, p, |stack|) {
      case Err(_, _) =>
      case Ok(v, q) =>
        var completed := stack[..n] + [Complete(stack[n], v)];
        if n > 0 { assert completed[..n - 1] == stack[..n - 1] && completed[n - 1] == stack[n - 1]; }
    }
  }

  // Pushing a frame for the container at `p` does not change the outcome.
  lemma PushKeepsResume(lib: FloatLib, s: bytes, stack: seq<Frame>, p: nat, isObject: bool)
    requires stack != [] && |stack| < MAX_DEPTH && p < |s| && Waiting(stack[|stack| - 1])
    requires s[p] == if isObject then OPEN_OBJECT else OPEN_ARRAY
    ensures Resume(lib, s, stack, p) == Resume(lib, s, stack + [Frame(isObject, [], [], [], 0)], p + 1)
  {
    var pushed := stack + [Frame(isObject, [], [], [], 0)];
    StackTakesValue(lib, s, stack, p);
    assert pushed[..|stack| - 1] == stack[..|stack| - 1];
    assert ResumeTop(lib, s, pushed[|stack|], p + 1, |pushed|) == ValueAt(lib, s, p, |stack|);
  }

  class Parser {
    const lib: FloatLib
    const input: bytes
    var pos: nat

    constructor (lib: FloatLib, input: bytes)
      ensures this.lib == lib && this.input == input && pos == 0
    {
      this.lib, this.input, pos := lib, input, 0;
    }

    ghost predicate Valid()
      reads this
    {
      pos <= |input|
    }

    method SkipWhitespace()
      requires Valid()
      modifies this
      ensures Valid() && pos == SkipWs(input, old(pos))
    {
      while pos < |input| && IsWs(input[pos])
        invariant Valid() && SkipWs(input, pos) == SkipWs(input, old(pos))
      {
        pos := pos + 1;
      }
    }

    method ParseLiteral() returns (out: Outcome<JsonValue>)
      requires pos < |input|
      modifies this
      ensures Valid() && Follows(out, pos, LiteralAt(input, old(pos)))
    {
      if At(input, pos, NULL_TEXT) {
        pos := pos + 4;
        return Done(JNull);
      }
      if At(input, pos, TRUE_TEXT) {
        pos := pos + 4;
        return Done(JBool(true));
      }
      if At(input, pos, FALSE_TEXT) {
        pos := pos + 5;
        return Done(JBool(false));
      }
      return Failed(InvalidLiteral, pos);
    }

    method DigitsEnd(from: nat) returns (i: nat)
      requires from <= |input|
      ensures i == SkipDigits(input, from)
    {
      i := from;
      while i < |input| && IsDigit(input[i])
        invariant from <= i <= |input| && SkipDigits(input, i) == SkipDigits(input, from)
      {
        i := i + 1;
      }
    }

    // The scanning part of ParseNumber; the cursor does not move yet.
    method ScanNumber() returns (r: Parsed<bool>)
      requires pos < |input|
      ensures r == NumberEnd(input, pos)
    {
      hide SkipDigits, ExponentEnd, IsDigit, IsExpMark;
      var i, isFloat := pos, false;
      if input[i] == MINUS { i := i + 1; }
      if i >= |input| || !IsDigit(input[i]) { return Err(InvalidNumber, pos); }
      ghost var first := i;
      if input[i] == DIGIT_0 {
        i := i + 1;
        if i < |input| && IsDigit(input[i]) { return Err(LeadingZeros, pos); }
      } else {
        i := DigitsEnd(i);
      }
      assert IntegerEnd(input, pos, first) == Ok((), i);
      ghost var afterInteger := i;
      if i < |input| && input[i] == DOT {
        isFloat := true;
        i := i + 1;
        if i >= |input| || !IsDigit(input[i]) {
          assert FractionEnd(input, pos, afterInteger) == Err(InvalidFraction, pos);
          return Err(InvalidFraction, pos);
        }
        i := DigitsEnd(i);
      }
      assert FractionEnd(input, pos, afterInteger) == Ok(isFloat, i);
      var e := ScanExponent(i);
      match e {
        case Ok(exp, k) => return Ok(isFloat || exp, k);
        case Err(reason, a) => return Err(reason, a);
      }
    }

    method ScanExponent(from: nat) returns (r: Parsed<bool>)
      requires pos <= from <= |input|
      ensures r == ExponentEnd(input, pos, from)
    {
      var i := from;
      if i >= |input| || !IsExpMark(input[i]) { return Ok(false, i); }
      i := i + 1;
      if i < |input| && (input[i] == PLUS || input[i] == MINUS) { i := i + 1; }
      if i >= |input| || !IsDigit(input[i]) { return Err(InvalidExponent, pos); }
      i := DigitsEnd(i);
      return Ok(true, i);
    }

    method ParseNumber() returns (out: Outcome<JsonValue>)
      requires pos < |input|
      modifies this
      ensures Valid() && Follows(out, pos, NumberAt(lib, input, old(pos)))
    {
      var start := pos;
      var end := ScanNumber();
      match end {
        case Err(e, a) => return Failed(e, a);
        case Ok(isFloat, i) =>
          pos := i;
          match TokenValue(lib, input[start..i], isFloat) {
            case Ok(v, _) => return Done(v);
            case Err(e, _) => return Failed(e, pos);
          }
      }
    }

    method ParseHex4() returns (out: Outcome<nat>)
      requires Valid()
      modifies this
      ensures Valid() && Follows(out, pos, Hex4At(input, old(pos)))
      ensures out.Failed? ==> pos == old(pos)
    {
      if pos + 4 > |input| { return Failed(TruncatedEscape, pos); }
      var v, i := 0, 0;
      ghost var h := input[pos..pos + 4];
      while i < 4
        invariant 0 <= i <= 4 && forall k :: 0 <= k < i ==> IsHex(h[k])
        invariant i == 1 ==> v == HexDigit(h[0])
        invariant i == 2 ==> v == HexDigit(h[0]) * 0x10 + HexDigit(h[1])
        invariant i == 3 ==> v == HexDigit(h[0]) * 0x100 + HexDigit(h[1]) * 0x10 + HexDigit(h[2])
        invariant i == 4 ==> v == Hex4(h)
        invariant i == 0 ==> v == 0
      {
        var c := input[pos + i];
        assert c == h[i];
        if !IsHex(c) { return Failed(InvalidHexDigit, pos); }
        v := v * 0x10 + HexDigit(c);
        i := i + 1;
      }
      pos := pos + 4;
      return Done(v);
    }

    // The bytes AppendUtf8 adds to `result` are returned instead of appended.
    method ParseUnicodeEscape() returns (out: Outcome<bytes>)
      requires pos < |input|
      modifies this
      ensures Valid() && Follows(out, pos, UnicodeAt(input, old(pos) + 1))
    {
      pos := pos + 1;
      var first := ParseHex4();
      if first.Failed? { return Failed(first.reason, first.at); }
      var cp := first.value;
      if IsHighSurrogate(cp) {
        if pos + 1 >= |input| || input[pos] != BACKSLASH || input[pos + 1] != LETTER_U {
          return Failed(UnpairedHigh, pos);
        }
        pos := pos + 2;
        var second := ParseHex4();
        if second.Failed? { return Failed(second.reason, second.at); }
        if !IsLowSurrogate(second.value) { return Failed(InvalidLow, pos); }
        cp := PairScalar(cp, second.value);
      } else if IsLowSurrogate(cp) {
        return Failed(UnpairedLow, pos);
      }
      return Done(Encode(cp));
    }

    // The inner loop of ParseString: a run of bytes that are copied as they are.
    method PlainRun(ghost acc: bytes) returns (out: Outcome<bytes>)
      requires Valid()
      modifies this
      ensures old(pos) <= pos <= |input|
      ensures match out
              case Done(x) =>
                && CharsAt(input, old(pos), acc) == CharsAt(input, pos, acc + x)
                && (pos < |input| ==> input[pos] == QUOTE || input[pos] == BACKSLASH)
              case Failed(e, a) => CharsAt(input, old(pos), acc) == Err(e, a)
    {
      hide CharsAt, ScanAt, LeadOf;
      var start := pos;
      assert acc + input[start..pos] == acc;
      while pos < |input| && input[pos] != QUOTE && input[pos] != BACKSLASH
        invariant start <= pos <= |input|
        invariant CharsAt(input, pos, acc + input[start..pos]) == CharsAt(input, start, acc)
        decreases |input| - pos
      {
        CharsAtOnce(input, pos, acc + input[start..pos]);
        if input[pos] < 0x20 { return Failed(ControlCharacter, pos); }
        var width := 1;
        assert [input[pos]] == input[pos..pos + 1];
        if input[pos] >= 0x80 {
          var scan := ScanAt(input, pos);
          if !scan.Good? { return Failed(ScanReason(scan), pos); }
          width := scan.width;
        }
        assert CharAt(input, pos) == Ok(input[pos..pos + width], pos + width);
        SliceConcat(input, start, pos, pos + width);
        ConcatAssociative(acc, input[start..pos], input[pos..pos + width]);
        pos := pos + width;
      }
      return Done(input[start..pos]);
    }

    // The switch of ParseString, from the backslash on.
    method ParseEscape() returns (out: Outcome<bytes>)
      requires pos < |input|
      modifies this
      ensures Valid() && Follows(out, pos, EscapeAt(input, old(pos)))
    {
      pos := pos + 1;
      if pos >= |input| { return Failed(UnterminatedString, pos); }
      var e := input[pos];
      if ShortEscape(e).Some? {
        pos := pos + 1;
        return Done([ShortEscape(e).value]);
      } else if e == LETTER_U {
        out := ParseUnicodeEscape();
      } else {
        return Failed(InvalidEscape, pos);
      }
    }

    method ParseString() returns (out: Outcome<bytes>)
      requires pos < |input|
      modifies this
      ensures Valid() && Follows(out, pos, CharsAt(input, old(pos) + 1, []))
    {
      pos := pos + 1;
      var result: bytes := [];
      ghost var from := pos;
      while true
        invariant from <= pos <= |input|
        invariant CharsAt(input, pos, result) == CharsAt(input, from, [])
        decreases |input| - pos
      {
        var run := PlainRun(result);
        if run.Failed? { return Failed(run.reason, run.at); }
        result := result + run.value;
        if pos >= |input| { return Failed(UnterminatedString, pos); }
        if input[pos] == QUOTE {
          pos := pos + 1;
          return Done(result);
        }
        assert CharAt(input, pos) == EscapeAt(input, pos);
        var escaped := ParseEscape();
        if escaped.Failed? { return Failed(escaped.reason, escaped.at); }
        result := result + escaped.value;
      }
    }

    method ParseScalarValue() returns (out: Outcome<JsonValue>)
      requires pos < |input|
      modifies this
      ensures Valid() && Follows(out, pos, ScalarAt(lib, input, old(pos)))
    {
      var c := input[pos];
      if c == QUOTE {
        var text := ParseString();
        match text {
          case Done(t) => return Done(JString(t));
          case Failed(e, a) => return Failed(e, a);
        }
      } else if c == 0x74 || c == 0x66 || c == 0x6E {
        out := ParseLiteral();
      } else if c == MINUS || IsDigit(c) {
        out := ParseNumber();
      } else {
        return Failed(UnexpectedCharacter, pos);
      }
    }

    method ObjectTurn(stack: seq<Frame>) returns (turn: Turn)
      requires 1 <= |stack| <= MAX_DEPTH && WellStacked(stack) && stack[|stack| - 1].isObject
      requires pos < |input| && !IsWs(input[pos])
      modifies this
      ensures Valid() && TurnKeeps(lib, input, stack, old(pos), turn, pos)
    {
      hide Resume;
      TopFails(lib, input, stack, pos);
      var n := |stack| - 1;
      var top, c := stack[n], input[pos];
      assert SkipWs(input, pos) == pos;
      if top.phase == 0 {
        if c == CLOSE_OBJECT {
          turn := Close(stack, JObject(top.members));
          return;
        }
        ghost var start := pos;
        assert ResumeTop(lib, input, top, start, |stack|) == MemberAt(lib, input, start, |stack|, top.members);
        if c != QUOTE { return Throw(ExpectedKey, pos); }
        var key := ParseString();
        if key.Failed? { return Throw(key.reason, key.at); }
        SkipWhitespace();
        if pos >= |input| || input[pos] != COLON { return Throw(ExpectedColon, pos); }
        pos := pos + 1;
        assert KeyAt(input, start) == Ok(key.value, pos);
        TopChangeKeepsResume(lib, input, stack, start, top.(key := key.value, phase := 1), pos);
        return Next(stack[n := top.(key := key.value, phase := 1)]);
      }
      if top.phase == 1 {
        turn := TakeValue(stack);
        return;
      }
      if c == COMMA {
        ghost var start := pos;
        pos := pos + 1;
        SkipWhitespace();
        if pos >= |input| { return Throw(EndOfObject, pos); }
        if input[pos] == CLOSE_OBJECT { return Throw(TrailingComma, pos); }
        assert SkipWs(input, pos) == pos;
        TopChangeKeepsResume(lib, input, stack, start, top.(phase := 0), pos);
        return Next(stack[n := top.(phase := 0)]);
      }
      if c == CLOSE_OBJECT {
        turn := Close(stack, JObject(top.members));
        return;
      }
      return Throw(ExpectedCommaOrBrace, pos);
    }

    method ArrayTurn(stack: seq<Frame>) returns (turn: Turn)
      requires 1 <= |stack| <= MAX_DEPTH && WellStacked(stack) && !stack[|stack| - 1].isObject
      requires pos < |input| && !IsWs(input[pos])
      modifies this
      ensures Valid() && TurnKeeps(lib, input, stack, old(pos), turn, pos)
    {
      var n := |stack| - 1;
      var top, c := stack[n], input[pos];
      assert SkipWs(input, pos) == pos;
      if top.phase == 2 {
        if c == COMMA {
          ghost var start := pos;
          pos := pos + 1;
          SkipWhitespace();
          if pos >= |input| { return Throw(EndOfArray, pos); }
          if input[pos] == CLOSE_ARRAY { return Throw(TrailingComma, pos); }
          assert SkipWs(input, pos) == pos;
          TopChangeKeepsResume(lib, input, stack, start, top.(phase := 1), pos);
          return Next(stack[n := top.(phase := 1)]);
        }
        if c == CLOSE_ARRAY {
          turn := Close(stack, JArray(top.items));
          return;
        }
        return Throw(ExpectedCommaOrBracket, pos);
      }
      if c == CLOSE_ARRAY {
        if top.phase == 1 { return Throw(TrailingComma, pos); }
        turn := Close(stack, JArray(top.items));
        return;
      }
      turn := TakeValue(stack);
    }

    // The closing bracket at the cursor finishes the innermost container.
    method Close(stack: seq<Frame>, built: JsonValue) returns (turn: Turn)
      requires 1 <= |stack| <= MAX_DEPTH && WellStacked(stack) && pos < |input|
      requires ResumeTop(lib, input, stack[|stack| - 1], pos, |stack|) == Ok(built, pos + 1)
      modifies this
      ensures Valid() && TurnKeeps(lib, input, stack, old(pos), turn, pos)
    {
      pos := pos + 1;
      if |stack| == 1 { return Return(built); }
      return Next(Popped(stack, built));
    }

    // push_frame for a bracket, or a scalar that is handed to the innermost container.
    method TakeValue(stack: seq<Frame>) returns (turn: Turn)
      requires 1 <= |stack| <= MAX_DEPTH && WellStacked(stack) && Waiting(stack[|stack| - 1])
      requires pos < |input| && !IsWs(input[pos])
      requires stack[|stack| - 1].isObject || input[pos] != CLOSE_ARRAY
      modifies this
      ensures Valid() && TurnKeeps(lib, input, stack, old(pos), turn, pos)
    {
      var n, c := |stack| - 1, input[pos];
      StackTakesValue(lib, input, stack, pos);
      if c == OPEN_OBJECT || c == OPEN_ARRAY {
        if |stack| >= MAX_DEPTH { return Throw(DepthExceeded, pos); }
        PushKeepsResume(lib, input, stack, pos, c == OPEN_OBJECT);
        pos := pos + 1;
        return Next(stack + [Frame(c == OPEN_OBJECT, [], [], [], 0)]);
      }
      var child := ParseScalarValue();
      if child.Failed? { return Throw(child.reason, child.at); }
      return Next(stack[..n] + [Complete(stack[n], child.value)]);
    }

    // The loop over the frame stack. The cursor stands at the opening bracket.
    method ParseContainer() returns (out: Outcome<JsonValue>)
      requires pos < |input| && (input[pos] == OPEN_OBJECT || input[pos] == OPEN_ARRAY)
      modifies this
      ensures Valid() && Follows(out, pos, ValueAt(lib, input, old(pos), 0))
    {
      var stack := [Frame(input[pos] == OPEN_OBJECT, [], [], [], 0)];
      pos := pos + 1;
      while true
        invariant Valid() && 1 <= |stack| <= MAX_DEPTH && WellStacked(stack)
        invariant Resume(lib, input, stack, pos) == ValueAt(lib, input, old(pos), 0)
        decreases |input| - pos
      {
        SkippingKeepsResume(lib, input, stack, pos);
        SkipWhitespace();
        var top := stack[|stack| - 1];
        if pos >= |input| {
          return Failed(if top.isObject then EndOfObject else EndOfArray, pos);
        }
        var turn: Turn;
        if top.isObject {
          turn := ObjectTurn(stack);
        } else {
          turn := ArrayTurn(stack);
        }
        match turn {
          case Next(later) => stack := later;
          case Return(v) => return Done(v);
          case Throw(e, a) => return Failed(e, a);
        }
      }
    }

    method ParseDocument() returns (out: Outcome<JsonValue>)
      requires pos == 0
      modifies this
      ensures Valid() && Follows(out, pos, ParseText(lib, input))
    {
      SkipWhitespace();
      if pos >= |input| { return Failed(UnexpectedEnd, pos); }
      if input[pos] == OPEN_OBJECT || input[pos] == OPEN_ARRAY {
        out := ParseContainer();
      } else {
        out := ParseScalarValue();
      }
      if out.Failed? { return; }
      SkipWhitespace();
      if pos != |input| { return Failed(TrailingCharacters, pos); }
    }
  }
}
