// Reading requests off a connection, src/http/HttpServerImpl.cpp: the bytes arrive in chunks of
// any size, and what is read must not depend on where they were cut.
module HttpReader {
  import opened Bytes

  const SPACE: byte := 0x20
  const TAB: byte := 0x09
  const CHUNK := 4096
  const BODY_CHUNK := 16384
  const MAX_REQUEST_LINE := 8 * 1024
  const MAX_HEADER_BYTES := 64 * 1024
  const MAX_HEADER_COUNT := 100

  // Each element is what the socket has for one read; an empty one is a read that times out, and
  // behind the last one comes the end of the stream.
  type Arrivals = seq<bytes>

  function Flat(arrivals: Arrivals): bytes {
    if arrivals == [] then [] else arrivals[0] + Flat(arrivals[1..])
  }

  predicate Flowing(arrivals: Arrivals) {
    forall i :: 0 <= i < |arrivals| ==> arrivals[i] != []
  }

  // A read takes at most `limit` bytes and leaves the rest of the arrival.
  function Taken(arrivals: Arrivals, limit: nat): bytes
    requires arrivals != []
  {
    if |arrivals[0]| <= limit then arrivals[0] else arrivals[0][..limit]
  }

  function Left(arrivals: Arrivals, limit: nat): Arrivals
    requires arrivals != []
  {
    if |arrivals[0]| <= limit then arrivals[1..] else [arrivals[0][limit..]] + arrivals[1..]
  }

  lemma TakenLaws(arrivals: Arrivals, limit: nat)
    requires arrivals != [] && limit > 0
    ensures Flat(arrivals) == Taken(arrivals, limit) + Flat(Left(arrivals, limit))
    ensures Flowing(arrivals) ==> Flowing(Left(arrivals, limit)) && Taken(arrivals, limit) != []
    ensures |Flat(Left(arrivals, limit))| + |Left(arrivals, limit)| < |Flat(arrivals)| + |arrivals|
  {
    if |arrivals[0]| > limit {
      var left := Left(arrivals, limit);
      assert left[1..] == arrivals[1..] && left[0] == arrivals[0][limit..];
      ConcatAssociative(arrivals[0][..limit], arrivals[0][limit..], Flat(arrivals[1..]));
      assert arrivals[0][..limit] + arrivals[0][limit..] == arrivals[0];
    }
  }

  // ---- Lines --------------------------------------------------------------------------------------

  datatype LineResult = LineOk | LineTooLong | LineEof | LineTimeout

  function StripCr(line: bytes): bytes {
    if line != [] && line[|line| - 1] == CR then line[..|line| - 1] else line
  }

  datatype LineRead = LineRead(result: LineResult, line: bytes, buffer: bytes, arrivals: Arrivals)

  // ReadLine
  function LineFrom(buffer: bytes, arrivals: Arrivals, limit: nat): LineRead
    decreases |Flat(arrivals)| + |arrivals|
  {
    var nl := FindByte(buffer, 0, LF);
    if nl < |buffer| then
      var line := StripCr(buffer[..nl]);
      LineRead(if |line| > limit then LineTooLong else LineOk, line, buffer[nl + 1..], arrivals)
    else if |buffer| > limit then LineRead(LineTooLong, [], buffer, arrivals)
    else if arrivals == [] then LineRead(LineEof, [], buffer, arrivals)
    else
      TakenLaws(arrivals, CHUNK);
      var chunk, left := Taken(arrivals, CHUNK), Left(arrivals, CHUNK);
      if chunk == [] then LineRead(LineTimeout, [], buffer, left) else LineFrom(buffer + chunk, left, limit)
  }

  // The only line whose fate depends on the cuts: one of exactly the limit, with its CR.
  predicate OnEdge(text: bytes, limit: nat) {
    var nl := FindByte(text, 0, LF);
    nl < |text| && nl == limit + 1 && text[nl - 1] == CR
  }

  // What the text alone says.
  function LineOf(text: bytes, limit: nat): LineResult {
    var nl := FindByte(text, 0, LF);
    if nl < |text| then if |StripCr(text[..nl])| > limit then LineTooLong else LineOk
    else if |text| > limit then LineTooLong
    else LineEof
  }

  lemma FindInFront(a: bytes, b: bytes, c: byte)
    ensures FindByte(a, 0, c) < |a| ==> FindByte(a + b, 0, c) == FindByte(a, 0, c)
    ensures FindByte(a, 0, c) == |a| ==> FindByte(a + b, 0, c) >= |a|
  {
    var nl := FindByte(a, 0, c);
    if nl < |a| {
      assert forall i :: 0 <= i < nl ==> (a + b)[i] == a[i];
      FindByteAt(a + b, 0, c, nl);
    } else {
      forall i | 0 <= i < |a| ensures (a + b)[i] != c { assert (a + b)[i] == a[i]; }
    }
  }

  // Whatever the cuts: a line that is read is the first line of the text and is removed from it;
  // otherwise no byte is lost, unless the line is too long.
  lemma {:induction false} LineLaws(buffer: bytes, arrivals: Arrivals, limit: nat)
    ensures var r := LineFrom(buffer, arrivals, limit);
            var text, rest := buffer + Flat(arrivals), r.buffer + Flat(r.arrivals);
            var nl := FindByte(text, 0, LF);
            && (r.result.LineOk? ==>
                  nl < |text| && r.line == StripCr(text[..nl]) && |r.line| <= limit && rest == text[nl + 1..])
            && (r.result.LineEof? || r.result.LineTimeout? ==> rest == text)
            && (r.result.LineTooLong? ==> nl > limit)
            && (r.result.LineEof? ==> nl == |text| && |text| <= limit)
            && (r.result.LineTimeout? ==> |r.arrivals| < |arrivals|)
            && |r.arrivals| <= |arrivals| && (Flowing(arrivals) ==> Flowing(r.arrivals))
    decreases |Flat(arrivals)| + |arrivals|
  {
    hide FindByte, StripCr, Flat, Flowing;
    var text := buffer + Flat(arrivals);
    FindInFront(buffer, Flat(arrivals), LF);
    var nl := FindByte(buffer, 0, LF);
    if nl < |buffer| {
      CutInFront(buffer, Flat(arrivals), nl);
      StripShortens(buffer[..nl]);
    } else if |buffer| > limit {
    } else if arrivals == [] {
      NothingFlat();
      assert text == buffer;
    } else {
      TakenLaws(arrivals, CHUNK);
      var chunk, left := Taken(arrivals, CHUNK), Left(arrivals, CHUNK);
      ConcatAssociative(buffer, chunk, Flat(left));
      if chunk == [] {
        NothingTaken(arrivals);
        assert [] + Flat(left) == Flat(left);
      } else {
        LineLaws(buffer + chunk, left, limit);
      }
    }
  }

  lemma CutInFront(a: bytes, b: bytes, p: nat)
    requires p < |a|
    ensures (a + b)[..p] == a[..p] && (a + b)[p + 1..] == a[p + 1..] + b
  {
  }

  lemma NothingTaken(arrivals: Arrivals)
    requires arrivals != [] && Taken(arrivals, CHUNK) == []
    ensures |Left(arrivals, CHUNK)| < |arrivals|
  {
  }

  lemma NothingFlat()
    ensures Flat([]) == []
  {
  }

  lemma StripShortens(line: bytes)
    ensures |StripCr(line)| <= |line| <= |StripCr(line)| + 1
    ensures |StripCr(line)| < |line| <==> line != [] && line[|line| - 1] == CR
  {
  }

  // Off the edge the outcome is a function of the text, as long as no read times out.
  lemma {:induction false} LineIsOfText(buffer: bytes, arrivals: Arrivals, limit: nat)
    requires Flowing(arrivals) && !OnEdge(buffer + Flat(arrivals), limit)
    ensures LineFrom(buffer, arrivals, limit).result == LineOf(buffer + Flat(arrivals), limit)
    decreases |Flat(arrivals)| + |arrivals|
  {
    hide FindByte, StripCr, Flat, Flowing;
    var text := buffer + Flat(arrivals);
    FindInFront(buffer, Flat(arrivals), LF);
    var nl := FindByte(buffer, 0, LF);
    if nl < |buffer| {
      assert text[..nl] == buffer[..nl];
    } else if |buffer| > limit {
      var end := FindByte(text, 0, LF);
      if end < |text| {
        StripShortens(text[..end]);
        assert end > 0 ==> text[..end][end - 1] == text[end - 1];
      }
    } else if arrivals == [] {
      NothingFlat();
      assert text == buffer;
    } else {
      TakenLaws(arrivals, CHUNK);
      var chunk, left := Taken(arrivals, CHUNK), Left(arrivals, CHUNK);
      ConcatAssociative(buffer, chunk, Flat(left));
      LineIsOfText(buffer + chunk, left, limit);
    }
  }

  // Reading on: bytes without a line feed that stay within the limit are buffered.
  lemma {:induction false} BuffersOn(buffer: bytes, front: bytes, later: Arrivals, limit: nat)
    requires front != [] && FreeOf(buffer + front, LF) && |buffer + front| <= limit
    ensures LineFrom(buffer, [front] + later, limit) == LineFrom(buffer + front, later, limit)
    decreases |front|
  {
    hide LineFrom, Flat, StripCr, FreeOf;
    OneRead(buffer, front, later, limit);
    if |front| > CHUNK {
      SplitRead(buffer, front);
      BuffersOn(buffer + front[..CHUNK], front[CHUNK..], later, limit);
    }
  }

  // Bytes without a line feed that go beyond the limit end the line.
  lemma {:induction false} BuffersTooMuch(buffer: bytes, front: bytes, later: Arrivals, limit: nat)
    requires |buffer| <= limit < |buffer + front| && FreeOf(buffer + front, LF)
    ensures LineFrom(buffer, [front] + later, limit).result == LineTooLong
    decreases |front|
  {
    hide LineFrom, Flat, StripCr, FreeOf;
    OneRead(buffer, front, later, limit);
    if |front| > CHUNK {
      SplitRead(buffer, front);
      var more := buffer + front[..CHUNK];
      if |more| > limit {
        FrontIsFree(more, front[CHUNK..]);
        TooLong(more, [front[CHUNK..]] + later, limit);
      } else {
        BuffersTooMuch(more, front[CHUNK..], later, limit);
      }
    } else {
      TooLong(buffer + front, later, limit);
    }
  }

  lemma SplitRead(buffer: bytes, front: bytes)
    requires |front| > CHUNK
    ensures (buffer + front[..CHUNK]) + front[CHUNK..] == buffer + front
  {
    assert front[..CHUNK] + front[CHUNK..] == front;
    ConcatAssociative(buffer, front[..CHUNK], front[CHUNK..]);
  }

  lemma FrontIsFree(x: bytes, y: bytes)
    requires FreeOf(x + y, LF)
    ensures FreeOf(x, LF)
  {
    assert forall i :: 0 <= i < |x| ==> x[i] == (x + y)[i];
  }

  lemma TooLong(buffer: bytes, arrivals: Arrivals, limit: nat)
    requires FreeOf(buffer, LF) && |buffer| > limit
    ensures LineFrom(buffer, arrivals, limit).result == LineTooLong
  {
    FindByteAt(buffer, 0, LF, |buffer|);
    hide FindByte, Flat, StripCr, FreeOf;
  }

  lemma OneRead(buffer: bytes, front: bytes, later: Arrivals, limit: nat)
    requires front != [] && FreeOf(buffer + front, LF) && |buffer| <= limit
    ensures LineFrom(buffer, [front] + later, limit) ==
            if |front| > CHUNK then LineFrom(buffer + front[..CHUNK], [front[CHUNK..]] + later, limit)
            else LineFrom(buffer + front, later, limit)
  {
    FrontIsFree(buffer, front);
    FindByteAt(buffer, 0, LF, |buffer|);
    hide FindByte, Flat, StripCr, FreeOf;
    var arrivals := [front] + later;
    assert arrivals[0] == front && arrivals[1..] == later;
  }

  // CR and LF in one read: the line ends within the limit.
  lemma EdgeRead(text: bytes, limit: nat)
    requires OnEdge(text, limit)
    ensures LineFrom(text[..limit], [text[limit..]], limit).result == LineOk
  {
    var buffer, rest := text[..limit], text[limit..];
    var arrivals := [rest];
    var chunk := if |rest| > CHUNK then rest[..CHUNK] else rest;
    var more := buffer + chunk;
    assert more == text[..|more|];
    FindByteAt(buffer, 0, LF, limit);
    FindByteAt(more, 0, LF, limit + 1);
    assert more[..limit + 1][limit] == CR;
    var left := Left(arrivals, CHUNK);
    StripShortens(more[..limit + 1]);
    hide FindByte, Flat, StripCr;
    assert LineFrom(more, left, limit).result == LineOk;
  }

  // The two ways to cut a text on the edge: in front of the CR, or behind it.
  lemma EdgeDependsOnCuts(text: bytes, limit: nat) returns (kept: Arrivals, cut: Arrivals)
    requires OnEdge(text, limit)
    ensures Delivers(kept, text) && Delivers(cut, text)
    ensures LineFrom([], kept, limit).result == LineOk && LineFrom([], cut, limit).result == LineTooLong
  {
    hide *;
    kept := CutBeforeCr(text, limit);
    cut := CutBehindCr(text, limit);
  }

  lemma CutBeforeCr(text: bytes, limit: nat) returns (arrivals: Arrivals)
    requires OnEdge(text, limit)
    ensures Delivers(arrivals, text) && LineFrom([], arrivals, limit).result == LineOk
  {
    hide *;
    EdgeRead(text, limit);
    EdgeFront(text, limit);
    var front, rest := text[..limit], text[limit..];
    arrivals := if front == [] then [rest] else [front, rest];
    TwoDeliver(front, rest, text);
    if front != [] {
      assert [front, rest] == [front] + [rest] && [] + front == front;
      BuffersOn([], front, [rest], limit);
    }
  }

  lemma CutBehindCr(text: bytes, limit: nat) returns (arrivals: Arrivals)
    requires OnEdge(text, limit)
    ensures Delivers(arrivals, text) && LineFrom([], arrivals, limit).result == LineTooLong
  {
    hide *;
    EdgeFront(text, limit);
    var before, behind := text[..limit + 1], text[limit + 1..];
    arrivals := [before, behind];
    TwoDeliver(before, behind, text);
    assert [] + before == before && arrivals == [before] + [behind];
    BuffersTooMuch([], before, [behind], limit);
  }

  lemma EdgeFront(text: bytes, limit: nat)
    requires OnEdge(text, limit)
    ensures limit + 1 < |text| && FreeOf(text[..limit], LF) && FreeOf(text[..limit + 1], LF)
  {
  }

  // A connection on which no read times out delivers the text.
  predicate Delivers(arrivals: Arrivals, text: bytes) {
    Flowing(arrivals) && Flat(arrivals) == text
  }

  lemma TwoDeliver(x: bytes, y: bytes, text: bytes)
    requires x + y == text && y != []
    ensures Delivers(if x == [] then [y] else [x, y], text)
  {
    assert [y][1..] == [] && [x, y][1..] == [y];
    assert Flat([y]) == y + [] == y;
  }

  // So the outcome depends on the cuts exactly for the lines on the edge.
  lemma LineDependsOnCutsExactly(text: bytes, limit: nat)
    ensures OnEdge(text, limit) <==>
            exists a, b :: Delivers(a, text) && Delivers(b, text)
              && LineFrom([], a, limit).result != LineFrom([], b, limit).result
  {
    hide LineFrom, OnEdge, Delivers;
    if OnEdge(text, limit) {
      var kept, cut := EdgeDependsOnCuts(text, limit);
    } else {
      forall a | Delivers(a, text) ensures LineFrom([], a, limit).result ==
        LineOf(text, limit) { DeliveredLine(a, text, limit); }
    }
  }

  lemma DeliveredLine(arrivals: Arrivals, text: bytes, limit: nat)
    requires Delivers(arrivals, text) && !OnEdge(text, limit)
    ensures LineFrom([], arrivals, limit).result == LineOf(text, limit)
  {
    hide LineFrom, OnEdge, LineOf;
    assert [] + text == text;
    LineIsOfText([], arrivals, limit);
  }

  // The request line of a connection, in particular.
  lemma RequestLineDependsOnCutsExactly(text: bytes)
    ensures OnEdge(text, MAX_REQUEST_LINE) <==>
            exists a, b :: Delivers(a, text) && Delivers(b, text) &&
                           LineFrom([], a, MAX_REQUEST_LINE).result != LineFrom([], b, MAX_REQUEST_LINE).result
  {
    LineDependsOnCutsExactly(text, MAX_REQUEST_LINE);
  }

  // ---- The request line -----------------------------------------------------------------------------

  const HTTP_1_0: bytes := [0x48, 0x54, 0x54, 0x50, 0x2F, 0x31, 0x2E, 0x30]
  const HTTP_1_1: bytes := [0x48, 0x54, 0x54, 0x50, 0x2F, 0x31, 0x2E, 0x31]

  datatype RequestLine = RequestLine(verb: bytes, path: bytes)

  // The parsing part of ReadRequestLine.
  function RequestLineOf(line: bytes): Option<RequestLine> {
    var sp1 := FindByte(line, 0, SPACE);
    if sp1 == |line| then None
    else
      var sp2 := FindByte(line, sp1 + 1, SPACE);
      if sp2 == |line| || FindByte(line, sp2 + 1, SPACE) < |line| then None
      else
        var verb, path, version := line[..sp1], line[sp1 + 1..sp2], line[sp2 + 1..];
        if verb == [] || path == [] || (version != HTTP_1_0 && version != HTTP_1_1) then None
        else Some(RequestLine(verb, path))
  }

  lemma SpacesFound(line: bytes, tail: bytes, verb: bytes, path: bytes, version: bytes)
    requires line == verb + ([SPACE] + tail) && tail == path + ([SPACE] + version)
    requires FreeOf(verb, SPACE) && FreeOf(path, SPACE) && FreeOf(version, SPACE)
    ensures var sp1, sp2 := |verb|, |verb| + 1 + |path|;
            && sp2 < |line| && FindByte(line, 0, SPACE) == sp1 && FindByte(line, sp1 + 1, SPACE) == sp2
            && FindByte(line, sp2 + 1, SPACE) == |line|
            && line[..sp1] == verb && line[sp1 + 1..sp2] == path && line[sp2 + 1..] == version
  {
    hide *;
    SplitBehind(verb, SPACE, tail);
    SplitBehind(path, SPACE, version);
    SpacesAfter(line, |verb| + 1, tail, path, version);
  }

  lemma SpacesAfter(line: bytes, p: nat, tail: bytes, path: bytes, version: bytes)
    requires p <= |line| && line[p..] == tail && FreeOf(version, SPACE)
    requires |path| < |tail| && FindByte(tail, 0, SPACE) == |path| && tail[..|path|] == path
             && tail[|path| + 1..] == version
    ensures var sp2 := p + |path|;
            && FindByte(line, p, SPACE) == sp2 && FindByte(line, sp2 + 1, SPACE) == |line|
            && line[p..sp2] == path && line[sp2 + 1..] == version
  {
    hide FindByte;
    var sp2 := p + |path|;
    FindShifted(line, p, SPACE);
    FindShifted(line, sp2 + 1, SPACE);
    FindByteAt(version, 0, SPACE, |version|);
    assert line[p..sp2] == line[p..][..|path|];
    assert line[sp2 + 1..] == line[p..][|path| + 1..];
  }

  predicate IsRequestLine(line: bytes, r: RequestLine, version: bytes) {
    && (version == HTTP_1_0 || version == HTTP_1_1)
    && r.verb != [] && r.path != [] && FreeOf(r.verb, SPACE) && FreeOf(r.path, SPACE)
    && line == r.verb + ([SPACE] + (r.path + ([SPACE] + version)))
  }

  // A request line is accepted exactly if it is verb, path and version with single spaces between.
  lemma RequestLineExactly(line: bytes, r: RequestLine)
    ensures RequestLineOf(line) == Some(r) <==>
            exists version :: IsRequestLine(line, r, version)
  {
    hide FreeOf, FindByte, HTTP_1_0, HTTP_1_1, RequestLineOf;
    if RequestLineOf(line) == Some(r) { RequestLineSplit(line); }
    forall version | IsRequestLine(line, r, version) ensures RequestLineOf(line) == Some(r) {
      VersionHasNoSpace(version);
      LineIsRead(line, r, version);
    }
  }

  lemma LineIsRead(line: bytes, r: RequestLine, version: bytes)
    requires IsRequestLine(line, r, version) && FreeOf(version, SPACE)
    ensures RequestLineOf(line) == Some(r)
  {
    hide FreeOf, FindByte, HTTP_1_0, HTTP_1_1;
    SpacesFound(line, r.path + ([SPACE] + version), r.verb, r.path, version);
  }

  lemma VersionHasNoSpace(version: bytes)
    requires version == HTTP_1_0 || version == HTTP_1_1
    ensures FreeOf(version, SPACE)
  {
  }

  lemma RequestLineSplit(line: bytes)
    requires RequestLineOf(line).Some?
    ensures exists version :: IsRequestLine(line, RequestLineOf(line).value, version)
  {
    var r := RequestLineOf(line).value;
    var sp1 := FindByte(line, 0, SPACE);
    var sp2 := FindByte(line, sp1 + 1, SPACE);
    var version := line[sp2 + 1..];
    TwoCuts(line, sp1, sp2);
    assert FreeOf(r.verb, SPACE) && FreeOf(r.path, SPACE);
    hide FreeOf, FindByte;
    assert IsRequestLine(line, r, version);
  }

  lemma TwoCuts(line: bytes, i: nat, j: nat)
    requires i < j < |line| && line[i] == SPACE == line[j]
    ensures line == line[..i] + ([SPACE] + (line[i + 1..j] + ([SPACE] + line[j + 1..])))
  {
    assert line[i + 1..] == line[i + 1..j] + ([SPACE] + line[j + 1..]);
    assert line == line[..i] + ([SPACE] + line[i + 1..]);
  }

  // ---- Header fields --------------------------------------------------------------------------------

  function LowerByte(c: byte): byte {
    if 0x41 <= c <= 0x5A then c + 0x20 else c
  }

  // ToLowerInPlace
  function Lower(x: bytes): bytes {
    seq(|x|, i requires 0 <= i < |x| => LowerByte(x[i]))
  }

  predicate IsBlank(c: byte) {
    c == SPACE || c == TAB
  }

  function TrimLeft(x: bytes): bytes {
    if x != [] && IsBlank(x[0]) then TrimLeft(x[1..]) else x
  }

  function TrimRight(x: bytes): bytes {
    if x != [] && IsBlank(x[|x| - 1]) then TrimRight(x[..|x| - 1]) else x
  }

  function Trimmed(x: bytes): bytes {
    TrimRight(TrimLeft(x))
  }

  const CONTENT_LENGTH: bytes := [0x63, 0x6F, 0x6E, 0x74, 0x65, 0x6E, 0x74, 0x2D, 0x6C, 0x65, 0x6E, 0x67, 0x74, 0x68]
  const TRANSFER_ENCODING: bytes :=
    [0x74, 0x72, 0x61, 0x6E, 0x73, 0x66, 0x65, 0x72, 0x2D, 0x65, 0x6E, 0x63, 0x6F, 0x64, 0x69, 0x6E, 0x67]
  const HOST: bytes := [0x68, 0x6F, 0x73, 0x74]
  const AUTHORIZATION: bytes := [0x61, 0x75, 0x74, 0x68, 0x6F, 0x72, 0x69, 0x7A, 0x61, 0x74, 0x69, 0x6F, 0x6E]
  const MCP_SESSION_ID: bytes := [0x6D, 0x63, 0x70, 0x2D, 0x73, 0x65, 0x73, 0x73, 0x69, 0x6F, 0x6E, 0x2D, 0x69, 0x64]

  predicate IsCritical(name: bytes) {
    name == CONTENT_LENGTH || name == HOST || name == TRANSFER_ENCODING || name == AUTHORIZATION
      || name == MCP_SESSION_ID
  }

  type Headers = map<bytes, bytes>

  datatype Field = Field(name: bytes, value: bytes) | EndOfHeaders | BadField

  // One line of the block; `total` counts the bytes of the lines before it.
  function FieldOf(line: bytes, headers: Headers, total: nat): Field {
    if line == [] then EndOfHeaders
    else if total + |line| + 2 > MAX_HEADER_BYTES || |headers| >= MAX_HEADER_COUNT then BadField
    else
      var colon := FindByte(line, 0, COLON);
      if colon == |line| || colon == 0 then BadField
      else
        var name := Lower(line[..colon]);
        if IsCritical(name) && name in headers then BadField else Field(name, Trimmed(line[colon + 1..]))
  }

  datatype HeaderOutcome = HeadersRead(headers: Headers, length: nat) | HeadersBad | HeadersClosed | HeadersTooLarge

  // The digits of Content-Length, left to right; the limit applies at every digit.
  function LengthFrom(value: bytes, n: nat, limit: nat): HeaderOutcome {
    if value == [] then HeadersRead(map[], n)
    else if !IsDigit(value[0]) then HeadersBad
    else
      var m := n * 10 + (value[0] as int - 0x30);
      if m > limit then HeadersTooLarge else LengthFrom(value[1..], m, limit)
  }

  // The tests behind the empty line.
  function Finished(headers: Headers, bodyLimit: nat): HeaderOutcome {
    var length :=
      if CONTENT_LENGTH !in headers then HeadersRead(map[], 0)
      else if headers[CONTENT_LENGTH] == [] then HeadersBad
      else LengthFrom(headers[CONTENT_LENGTH], 0, bodyLimit);
    if !length.HeadersRead? then length
    else if TRANSFER_ENCODING in headers then HeadersBad
    else HeadersRead(headers, length.length)
  }

  // ReadHeaderBlock on a connection with time enough; a line read that times out is tried again.
  function HeadersFrom(buffer: bytes, arrivals: Arrivals, bodyLimit: nat, headers: Headers,
                       total: nat): (HeaderOutcome, bytes, Arrivals)
    decreases |buffer + Flat(arrivals)| + |arrivals|
  {
    LineLaws(buffer, arrivals, MAX_HEADER_BYTES);
    var r := LineFrom(buffer, arrivals, MAX_HEADER_BYTES);
    match r.result
    case LineEof => (HeadersClosed, r.buffer, r.arrivals)
    case LineTooLong => (HeadersBad, r.buffer, r.arrivals)
    case LineTimeout => HeadersFrom(r.buffer, r.arrivals, bodyLimit, headers, total)
    case LineOk =>
      match FieldOf(r.line, headers, total)
      case EndOfHeaders => (Finished(headers, bodyLimit), r.buffer, r.arrivals)
      case BadField => (HeadersBad, r.buffer, r.arrivals)
      case Field(name, value) =>
        HeadersFrom(r.buffer, r.arrivals, bodyLimit, headers[name := value], total + |r.line| + 2)
  }

  // The same within a time budget: `turns` of the loop begin before it is over, and the next one
  // finds that it is.
  function HeadersWithin(buffer: bytes, arrivals: Arrivals, bodyLimit: nat, headers: Headers, total: nat,
                         turns: nat): (HeaderOutcome, bytes, Arrivals)
    decreases turns
  {
    if turns == 0 then (HeadersBad, buffer, arrivals)
    else
      var r := LineFrom(buffer, arrivals, MAX_HEADER_BYTES);
      match r.result
      case LineEof => (HeadersClosed, r.buffer, r.arrivals)
      case LineTooLong => (HeadersBad, r.buffer, r.arrivals)
      case LineTimeout => HeadersWithin(r.buffer, r.arrivals, bodyLimit, headers, total, turns - 1)
      case LineOk =>
        match FieldOf(r.line, headers, total)
        case EndOfHeaders => (Finished(headers, bodyLimit), r.buffer, r.arrivals)
        case BadField => (HeadersBad, r.buffer, r.arrivals)
        case Field(name, value) =>
          HeadersWithin(r.buffer, r.arrivals, bodyLimit, headers[name := value], total + |r.line| + 2, turns - 1)
  }

  // How many turns the block takes: one for each of its lines and for each read that times out.
  function TurnsOf(buffer: bytes, arrivals: Arrivals, headers: Headers, total: nat): nat
    decreases |buffer + Flat(arrivals)| + |arrivals|
  {
    LineLaws(buffer, arrivals, MAX_HEADER_BYTES);
    var r := LineFrom(buffer, arrivals, MAX_HEADER_BYTES);
    1 + match r.result
        case LineTimeout => TurnsOf(r.buffer, r.arrivals, headers, total)
        case LineOk =>
          (match FieldOf(r.line, headers, total)
           case Field(name, value) => TurnsOf(r.buffer, r.arrivals, headers[name := value], total + |r.line| + 2)
           case _ => 0)
        case _ => 0
  }

  // A budget that is long enough does not show, and a shorter one makes the request a bad one.
  lemma {:induction false} BudgetDecides(buffer: bytes, arrivals: Arrivals, bodyLimit: nat, headers: Headers,
                                         total: nat, turns: nat)
    ensures var r := HeadersWithin(buffer, arrivals, bodyLimit, headers, total, turns);
            if TurnsOf(buffer, arrivals, headers, total) <= turns
            then r == HeadersFrom(buffer, arrivals, bodyLimit, headers, total) else r.0 == HeadersBad
    decreases turns
  {
    hide LineFrom, FieldOf, Finished, Flat, HeadersFrom;
    HeadersStep(buffer, arrivals, bodyLimit, headers, total);
    LineLaws(buffer, arrivals, MAX_HEADER_BYTES);
    if turns > 0 {
      var r := LineFrom(buffer, arrivals, MAX_HEADER_BYTES);
      match r.result {
        case LineTimeout => BudgetDecides(r.buffer, r.arrivals, bodyLimit, headers, total, turns - 1);
        case LineOk =>
          var field := FieldOf(r.line, headers, total);
          if field.Field? {
            BudgetDecides(r.buffer, r.arrivals, bodyLimit, headers[field.name := field.value], total + |r.line| + 2,
                          turns - 1);
          }
        case _ =>
      }
    }
  }

  function Stalls(arrivals: Arrivals): nat {
    if arrivals == [] then 0 else Stalls(arrivals[1..]) + if arrivals[0] == [] then 1 else 0
  }

  lemma StallsLeft(arrivals: Arrivals)
    requires arrivals != []
    ensures Stalls(arrivals) == Stalls(Left(arrivals, CHUNK)) + if Taken(arrivals, CHUNK) == [] then 1 else 0
  {
    if |arrivals[0]| > CHUNK { assert Left(arrivals, CHUNK)[1..] == arrivals[1..]; }
  }

  // A line read stalls at most once, and then it times out.
  lemma {:induction false} LineStalls(buffer: bytes, arrivals: Arrivals, limit: nat)
    ensures var r := LineFrom(buffer, arrivals, limit);
            Stalls(arrivals) == Stalls(r.arrivals) + if r.result.LineTimeout? then 1 else 0
    decreases |Flat(arrivals)| + |arrivals|
  {
    hide Stalls, FindByte, StripCr, Flat;
    if FindByte(buffer, 0, LF) >= |buffer| && |buffer| <= limit && arrivals != [] {
      StallsLeft(arrivals);
      TakenLaws(arrivals, CHUNK);
      var chunk, left := Taken(arrivals, CHUNK), Left(arrivals, CHUNK);
      if chunk != [] { LineStalls(buffer + chunk, left, limit); }
    }
  }

  // A field takes four bytes of the block at least, which bounds the turns of a block.
  lemma {:induction false} TurnsBounded(buffer: bytes, arrivals: Arrivals, headers: Headers, total: nat)
    requires total <= MAX_HEADER_BYTES
    ensures TurnsOf(buffer, arrivals, headers, total) <= 1 + (MAX_HEADER_BYTES - total) / 4 + Stalls(arrivals)
    decreases |buffer + Flat(arrivals)| + |arrivals|
  {
    hide LineFrom, Flat, Stalls, FieldOf;
    LineLaws(buffer, arrivals, MAX_HEADER_BYTES);
    LineStalls(buffer, arrivals, MAX_HEADER_BYTES);
    var r := LineFrom(buffer, arrivals, MAX_HEADER_BYTES);
    match r.result {
      case LineTimeout => TurnsBounded(r.buffer, r.arrivals, headers, total);
      case LineOk =>
        FieldTakesRoom(r.line, headers, total);
        var field := FieldOf(r.line, headers, total);
        if field.Field? {
          TurnsBounded(r.buffer, r.arrivals, headers[field.name := field.value], total + |r.line| + 2);
        }
      case _ =>
    }
  }

  lemma FieldTakesRoom(line: bytes, headers: Headers, total: nat)
    ensures FieldOf(line, headers, total).Field? ==> |line| >= 2 && total + |line| + 2 <= MAX_HEADER_BYTES
  {
    hide FindByte;
  }

  // The same of a whole text.
  function HeadersOf(text: bytes, bodyLimit: nat, headers: Headers, total: nat): (HeaderOutcome, bytes)
    decreases |text|
  {
    var nl := FindByte(text, 0, LF);
    if nl == |text| then (if |text| > MAX_HEADER_BYTES then HeadersBad else HeadersClosed, text)
    else
      var line := StripCr(text[..nl]);
      match FieldOf(line, headers, total)
      case EndOfHeaders => (Finished(headers, bodyLimit), text[nl + 1..])
      case BadField => (HeadersBad, text[nl + 1..])
      case Field(name, value) => HeadersOf(text[nl + 1..], bodyLimit, headers[name := value], total + |line| + 2)
  }

  // The header block is a function of the text, wherever it was cut and however often it stalled.
  // The edge of the line limit does not show: a line of the limit is over the limit of the block.
  lemma {:induction false} HeadersAreOfText(buffer: bytes, arrivals: Arrivals, bodyLimit: nat, headers: Headers,
                                            total: nat)
    ensures var r := HeadersFrom(buffer, arrivals, bodyLimit, headers, total);
            var s := HeadersOf(buffer + Flat(arrivals), bodyLimit, headers, total);
            r.0 == s.0 && (r.0.HeadersRead? ==> r.1 + Flat(r.2) == s.1) && (Flowing(arrivals) ==> Flowing(r.2))
    decreases |buffer + Flat(arrivals)| + |arrivals|
  {
    hide FindByte, StripCr, Flat, Flowing, LineFrom, FieldOf, HeadersFrom, HeadersOf;
    var text := buffer + Flat(arrivals);
    var r := LineFrom(buffer, arrivals, MAX_HEADER_BYTES);
    LineLaws(buffer, arrivals, MAX_HEADER_BYTES);
    HeadersStep(buffer, arrivals, bodyLimit, headers, total);
    HeaderTextStep(text, bodyLimit, headers, total);
    match r.result {
      case LineOk =>
        if FieldOf(r.line, headers, total).Field? {
          var field := FieldOf(r.line, headers, total);
          HeadersAreOfText(r.buffer, r.arrivals, bodyLimit, headers[field.name := field.value], total + |r.line| + 2);
        }
      case LineTimeout => HeadersAreOfText(r.buffer, r.arrivals, bodyLimit, headers, total);
      case LineTooLong => LongLineIsBad(text, headers, total);
      case LineEof =>
    }
  }

  // One line of the block on a connection.
  lemma HeadersStep(buffer: bytes, arrivals: Arrivals, bodyLimit: nat, headers: Headers, total: nat)
    ensures var r := LineFrom(buffer, arrivals, MAX_HEADER_BYTES);
            HeadersFrom(buffer, arrivals, bodyLimit, headers, total) ==
            match r.result {
              case LineEof => (HeadersClosed, r.buffer, r.arrivals)
              case LineTooLong => (HeadersBad, r.buffer, r.arrivals)
              case LineTimeout => HeadersFrom(r.buffer, r.arrivals, bodyLimit, headers, total)
              case LineOk =>
                match FieldOf(r.line, headers, total)
                case EndOfHeaders => (Finished(headers, bodyLimit), r.buffer, r.arrivals)
                case BadField => (HeadersBad, r.buffer, r.arrivals)
                case Field(name, value) =>
                  HeadersFrom(r.buffer, r.arrivals, bodyLimit, headers[name := value], total + |r.line| + 2)
            }
  {
    hide LineFrom, FieldOf, Finished, Flat;
    LineLaws(buffer, arrivals, MAX_HEADER_BYTES);
  }

  // One line of the block in a text.
  lemma HeaderTextStep(text: bytes, bodyLimit: nat, headers: Headers, total: nat)
    ensures var nl := FindByte(text, 0, LF);
            HeadersOf(text, bodyLimit, headers, total) ==
            if nl == |text| then (if |text| > MAX_HEADER_BYTES then HeadersBad else HeadersClosed, text)
            else
              match FieldOf(StripCr(text[..nl]), headers, total)
              case EndOfHeaders => (Finished(headers, bodyLimit), text[nl + 1..])
              case BadField => (HeadersBad, text[nl + 1..])
              case Field(name, value) =>
                HeadersOf(text[nl + 1..], bodyLimit, headers[name := value], total + |StripCr(text[..nl])| + 2)
  {
    hide FieldOf, Finished, StripCr;
  }

  lemma LongLineIsBad(text: bytes, headers: Headers, total: nat)
    requires FindByte(text, 0, LF) > MAX_HEADER_BYTES
    ensures FieldOf(StripCr(text[..FindByte(text, 0, LF)]), headers, total) == BadField
  {
    StripShortens(text[..FindByte(text, 0, LF)]);
    hide FindByte, StripCr;
  }

  // ---- Bodies ---------------------------------------------------------------------------------------

  // ReadBody behind the buffered bytes: `got` is read, `want` is still missing.
  function BodyFrom(got: bytes, want: nat, arrivals: Arrivals): (Option<bytes>, Arrivals)
    decreases |Flat(arrivals)| + |arrivals|
  {
    if want == 0 then (Some(got), arrivals)
    else if arrivals == [] then (None, arrivals)
    else
      var limit := if want < BODY_CHUNK then want else BODY_CHUNK;
      TakenLaws(arrivals, limit);
      var chunk, left := Taken(arrivals, limit), Left(arrivals, limit);
      if chunk == [] then (None, left) else BodyFrom(got + chunk, want - |chunk|, left)
  }

  lemma {:induction false} BodyLaws(got: bytes, want: nat, arrivals: Arrivals)
    ensures var (body, left) := BodyFrom(got, want, arrivals);
            && (body.Some? ==>
                  && |Flat(arrivals)| >= want && body.value == got + Flat(arrivals)[..want]
                  && Flat(left) == Flat(arrivals)[want..])
            && (Flowing(arrivals) ==> Flowing(left) && (body.Some? <==> |Flat(arrivals)| >= want))
    decreases |Flat(arrivals)| + |arrivals|
  {
    hide Flat, Flowing, BodyFrom, Taken, Left;
    BodyStep(got, want, arrivals);
    if want == 0 {
      assert got + Flat(arrivals)[..0] == got;
    } else if arrivals == [] {
      NothingFlat();
    } else {
      var limit := if want < BODY_CHUNK then want else BODY_CHUNK;
      TakenLaws(arrivals, limit);
      TakenFits(arrivals, limit);
      var chunk, left := Taken(arrivals, limit), Left(arrivals, limit);
      if chunk != [] {
        BodyLaws(got + chunk, want - |chunk|, left);
        if |Flat(arrivals)| >= want {
          CutBehind(got, chunk, Flat(left), want);
        }
      }
    }
  }

  lemma TakenFits(arrivals: Arrivals, limit: nat)
    requires arrivals != []
    ensures |Taken(arrivals, limit)| <= limit
  {
  }

  // One read of BodyFrom.
  lemma BodyStep(got: bytes, want: nat, arrivals: Arrivals)
    ensures want == 0 ==> BodyFrom(got, want, arrivals) == (Some(got), arrivals)
    ensures want > 0 && arrivals == [] ==> BodyFrom(got, want, arrivals) == (None, arrivals)
    ensures want > 0 && arrivals != [] ==>
              var limit := if want < BODY_CHUNK then want else BODY_CHUNK;
              var chunk, left := Taken(arrivals, limit), Left(arrivals, limit);
              && |chunk| <= want
              && BodyFrom(got, want, arrivals) ==
                 if chunk == [] then (None, left) else BodyFrom(got + chunk, want - |chunk|, left)
  {
    hide Flat, Left;
  }

  lemma CutBehind(got: bytes, chunk: bytes, rest: bytes, want: nat)
    requires |chunk| <= want <= |chunk + rest|
    ensures (got + chunk) + rest[..want - |chunk|] == got + (chunk + rest)[..want]
    ensures rest[want - |chunk|..] == (chunk + rest)[want..]
  {
    assert (chunk + rest)[..want] == chunk + rest[..want - |chunk|];
  }

  // ---- Whole requests -------------------------------------------------------------------------------

  datatype Request = Request(line: RequestLine, headers: Headers, body: bytes)

  datatype Outcome = Received(request: Request) | Rejected | PayloadTooLarge | Gone

  // The request a text starts with.
  function RequestOf(text: bytes, bodyLimit: nat): Outcome {
    match LineOf(text, MAX_REQUEST_LINE)
    case LineOk =>
      var nl := FindByte(text, 0, LF);
      var parsed := RequestLineOf(StripCr(text[..nl]));
      if parsed.None? then Rejected
      else
        var (outcome, rest) := HeadersOf(text[nl + 1..], bodyLimit, map[], 0);
        (match outcome
         case HeadersRead(headers, length) =>
           if |rest| < length then Gone else Received(Request(parsed.value, headers, rest[..length]))
         case HeadersBad => Rejected
         case HeadersTooLarge => PayloadTooLarge
         case HeadersClosed => Gone)
    case LineTooLong => Rejected
    case _ => Gone
  }

  // What is left of the text behind a received request.
  function RestOf(text: bytes, bodyLimit: nat): bytes
    requires RequestOf(text, bodyLimit).Received?
  {
    var (outcome, rest) := HeadersOf(text[FindByte(text, 0, LF) + 1..], bodyLimit, map[], 0);
    rest[outcome.length..]
  }

  class HttpConnection {
    var buffer: bytes
    var arrivals: Arrivals

    constructor (arrivals: Arrivals)
      ensures this.arrivals == arrivals && buffer == []
    {
      this.arrivals := arrivals;
      buffer := [];
    }

    ghost function Rest(): bytes
      reads this
    {
      buffer + Flat(arrivals)
    }

    // conn.Read: nothing at the end of the stream and when it times out.
    method Receive(limit: nat) returns (chunk: bytes, eof: bool)
      requires limit > 0
      modifies this`arrivals
      ensures eof == (old(arrivals) == [])
      ensures eof ==> chunk == [] && arrivals == old(arrivals)
      ensures !eof ==> chunk == Taken(old(arrivals), limit) && arrivals == Left(old(arrivals), limit)
    {
      if arrivals == [] { return [], true; }
      chunk, eof := Taken(arrivals, limit), false;
      arrivals := Left(arrivals, limit);
    }

    method ReadLine(limit: nat) returns (result: LineResult, line: bytes)
      modifies this
      ensures LineRead(result, line, buffer, arrivals) == LineFrom(old(buffer), old(arrivals), limit)
    {
      hide FindByte, Flat, StripCr;
      line := [];
      while true
        invariant LineFrom(buffer, arrivals, limit) == LineFrom(old(buffer), old(arrivals), limit)
        invariant line == []
        decreases |Flat(arrivals)| + |arrivals|
      {
        var nl := FindByte(buffer, 0, LF);
        if nl < |buffer| {
          line := StripCr(buffer[..nl]);
          buffer := buffer[nl + 1..];
          return if |line| > limit then LineTooLong else LineOk, line;
        }
        if |buffer| > limit { return LineTooLong, []; }
        if arrivals != [] { TakenLaws(arrivals, CHUNK); }
        var chunk, eof := Receive(CHUNK);
        if chunk == [] { return if eof then LineEof else LineTimeout, []; }
        buffer := buffer + chunk;
      }
    }

    // `turns`: how many turns of the loop begin before the deadline.
    method ReadHeaderBlock(bodyLimit: nat, turns: nat) returns (outcome: HeaderOutcome)
      modifies this
      ensures (outcome, buffer, arrivals) == HeadersWithin(old(buffer), old(arrivals), bodyLimit, map[], 0, turns)
    {
      hide FindByte, Flat, StripCr, LineFrom, FieldOf, Finished;
      var headers: Headers, total: nat := map[], 0;
      var remaining := turns;
      while true
        invariant HeadersWithin(buffer, arrivals, bodyLimit, headers, total, remaining) ==
                  HeadersWithin(old(buffer), old(arrivals), bodyLimit, map[], 0, turns)
        decreases remaining
      {
        if remaining == 0 { return HeadersBad; }
        remaining := remaining - 1;
        var result, line := ReadLine(MAX_HEADER_BYTES);
        match result {
          case LineEof => return HeadersClosed;
          case LineTimeout =>
          case LineTooLong => return HeadersBad;
          case LineOk =>
            var field := FieldOf(line, headers, total);
            match field {
              case EndOfHeaders => return Finished(headers, bodyLimit);
              case BadField => return HeadersBad;
              case Field(name, value) =>
                headers := headers[name := value];
                total := total + |line| + 2;
            }
        }
      }
    }

    method ReadBody(length: nat) returns (body: Option<bytes>)
      modifies this
      ensures body.Some? ==>
                && |old(Rest())| >= length && body.value == old(Rest())[..length]
                && Rest() == old(Rest())[length..]
      ensures Flowing(old(arrivals)) ==> (body.Some? <==> |old(Rest())| >= length)
    {
      hide Flat, Flowing, BodyFrom;
      var fromBuffer := if length < |buffer| then length else |buffer|;
      var got, want := buffer[..fromBuffer], length - fromBuffer;
      buffer := buffer[fromBuffer..];
      BodyLaws(got, want, arrivals);
      BodyParts(got, buffer, Flat(arrivals), want, length);
      body := Fill(got, want);
    }

    // The header block is read before its deadline.
    ghost predicate InTime(turns: nat)
      reads this
    {
      var r := LineFrom(buffer, arrivals, MAX_REQUEST_LINE);
      r.result.LineOk? ==> TurnsOf(r.buffer, r.arrivals, map[], 0) <= turns
    }

    // ReadRequestLine, ReadHeaderBlock and ReadBody, as a connection runs them for each request.
    // Wherever the bytes are cut, the request is the one its text starts with, and the bytes
    // behind it stay for the next one; only a deadline that passes makes it a bad one.
    method ReadRequest(bodyLimit: nat, turns: nat) returns (outcome: Outcome)
      modifies this
      ensures Flowing(old(arrivals)) && !OnEdge(old(Rest()), MAX_REQUEST_LINE) && old(InTime(turns)) ==>
                && outcome == RequestOf(old(Rest()), bodyLimit)
                && (outcome.Received? ==> Rest() == RestOf(old(Rest()), bodyLimit))
      ensures !old(InTime(turns)) ==> outcome == Rejected
    {
      hide FindByte, Flat, Flowing, StripCr, LineFrom, HeadersFrom, HeadersOf, HeadersWithin, TurnsOf, RequestLineOf,
           OnEdge;
      LineLaws(buffer, arrivals, MAX_REQUEST_LINE);
      ghost var text := Rest();
      if Flowing(arrivals) && !OnEdge(text, MAX_REQUEST_LINE) { LineIsOfText(buffer, arrivals, MAX_REQUEST_LINE); }
      var result, line := ReadLine(MAX_REQUEST_LINE);
      if result.LineTooLong? { return Rejected; }
      if !result.LineOk? { return Gone; }
      var parsed := RequestLineOf(line);
      if parsed.None? { return Rejected; }
      HeadersAreOfText(buffer, arrivals, bodyLimit, map[], 0);
      BudgetDecides(buffer, arrivals, bodyLimit, map[], 0, turns);
      var headers := ReadHeaderBlock(bodyLimit, turns);
      match headers {
        case HeadersClosed => return Gone;
        case HeadersBad => return Rejected;
        case HeadersTooLarge => return PayloadTooLarge;
        case HeadersRead(fields, length) =>
          var body := ReadBody(length);
          if body.None? { return Gone; }
          return Received(Request(parsed.value, fields, body.value));
      }
    }

    // The loop of ReadBody.
    method Fill(start: bytes, missing: nat) returns (body: Option<bytes>)
      modifies this`arrivals
      ensures (body, arrivals) == BodyFrom(start, missing, old(arrivals))
    {
      hide Flat, Flowing, Left;
      var got, want: nat := start, missing;
      while want > 0
        invariant BodyFrom(got, want, arrivals) == BodyFrom(start, missing, old(arrivals))
        decreases |Flat(arrivals)| + |arrivals|
      {
        var limit := if want < BODY_CHUNK then want else BODY_CHUNK;
        if arrivals != [] { TakenLaws(arrivals, limit); }
        var chunk, eof := Receive(limit);
        if chunk == [] { return None; }
        got, want := got + chunk, want - |chunk|;
      }
      return Some(got);
    }
  }

  lemma BodyParts(got: bytes, buffered: bytes, coming: bytes, want: nat, length: nat)
    requires |got| + want == length && (want > 0 ==> buffered == [])
    ensures var text := got + buffered + coming;
            && (|text| >= length <==> |buffered + coming| >= want)
            && (|coming| >= want ==> text[..length] == got + coming[..want])
            && (|coming| >= want && want > 0 ==> text[length..] == buffered + coming[want..])
            && (want == 0 ==> text[..length] == got && text[length..] == buffered + coming)
  {
  }
}
