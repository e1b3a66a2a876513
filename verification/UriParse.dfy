// UriTemplate::Parse: the templates it accepts, and the segments it makes of them.
module UriParse {
  import opened Bytes
  import opened UriCoding
  import opened UriTemplate
  import opened UriInverse

  const MAX_TEMPLATE_LENGTH := 2048
  const MAX_VARIABLES := 32
  const OPEN_BRACE: byte := 0x7B
  const CLOSE_BRACE: byte := 0x7D
  const STAR: byte := 0x2A
  const DOT: byte := 0x2E

  datatype TemplateError =
    | TooLong | UnexpectedClose | Unbalanced | EmptyExpression | UnsupportedOperator
    | NoVariableName | EmptyVariableName | InvalidVariableName
    | TooManyVariables | MultipleMultiSegment | Adjacent

  datatype Result<+T> = Ok(value: T) | Err(error: TemplateError)

  // ---- The accepted language --------------------------------------------------------------------

  predicate IsVarchar(c: byte) {
    0x41 <= c <= 0x5A || 0x61 <= c <= 0x7A || IsDigit(c) || c == 0x5F
  }

  // Groups of varchars and %XX triplets with single dots between; `grouped`: a group is open.
  predicate ValidName(name: bytes, grouped: bool) {
    if name == [] then grouped
    else if name[0] == DOT then grouped && ValidName(name[1..], false)
    else if name[0] == PERCENT then StartsTriplet(name) && ValidName(name[3..], true)
    else IsVarchar(name[0]) && ValidName(name[1..], true)
  }

  // A variable with the explode star that Parse drops.
  datatype Item = Item(name: bytes, star: bool)

  datatype Node = Plain(text: bytes) | Braces(op: Operator, items: seq<Item>)

  function OperatorText(op: Operator): bytes {
    if op.Reserved? then [0x2B] else Prefix(op)
  }

  function ItemText(item: Item): bytes {
    item.name + if item.star then [STAR] else []
  }

  function ItemsText(items: seq<Item>): bytes {
    if items == [] then []
    else if |items| == 1 then ItemText(items[0])
    else ItemText(items[0]) + ([COMMA] + ItemsText(items[1..]))
  }

  function NodeText(node: Node): bytes {
    match node
    case Plain(text) => text
    case Braces(op, items) => [OPEN_BRACE] + ((OperatorText(op) + ItemsText(items)) + [CLOSE_BRACE])
  }

  function NodesText(nodes: seq<Node>): bytes {
    if nodes == [] then [] else NodeText(nodes[0]) + NodesText(nodes[1..])
  }

  predicate NoBraces(text: bytes) {
    forall i :: 0 <= i < |text| ==> text[i] != OPEN_BRACE && text[i] != CLOSE_BRACE
  }

  predicate ValidItems(items: seq<Item>) {
    forall i :: 0 <= i < |items| ==> ValidName(items[i].name, false)
  }

  predicate ValidNode(node: Node) {
    match node
    case Plain(text) => text != [] && NoBraces(text)
    case Braces(_, items) => items != [] && ValidItems(items)
  }

  // `after`: what stands in front. Literal runs are maximal, and an expression directly behind
  // another one needs an operator that writes a prefix.
  datatype Before = Start | AfterText | AfterBraces

  predicate Follows(after: Before, node: Node) {
    match node
    case Plain(_) => after != AfterText
    case Braces(op, _) => after != AfterBraces || Prefix(op) != []
  }

  function Kind(node: Node): Before {
    if node.Plain? then AfterText else AfterBraces
  }

  predicate ValidNodes(nodes: seq<Node>, after: Before) {
    nodes == [] || (ValidNode(nodes[0]) && Follows(after, nodes[0]) && ValidNodes(nodes[1..], Kind(nodes[0])))
  }

  function VariableCount(nodes: seq<Node>): nat {
    if nodes == [] then 0
    else (if nodes[0].Braces? then |nodes[0].items| else 0) + VariableCount(nodes[1..])
  }

  function MultiCount(nodes: seq<Node>): nat {
    if nodes == [] then 0
    else (if nodes[0].Braces? && Preserves(nodes[0].op) then 1 else 0) + MultiCount(nodes[1..])
  }

  ghost predicate ValidTemplate(nodes: seq<Node>) {
    && ValidNodes(nodes, Start)
    && |NodesText(nodes)| <= MAX_TEMPLATE_LENGTH
    && VariableCount(nodes) <= MAX_VARIABLES && MultiCount(nodes) <= 1
  }

  function NamesOfItems(items: seq<Item>): seq<bytes> {
    if items == [] then [] else [items[0].name] + NamesOfItems(items[1..])
  }

  function SegmentOf(node: Node): Segment {
    match node
    case Plain(text) => Literal(text)
    case Braces(op, items) => Variables(Expression(op, NamesOfItems(items)))
  }

  function SegmentsOf(nodes: seq<Node>): seq<Segment> {
    if nodes == [] then [] else [SegmentOf(nodes[0])] + SegmentsOf(nodes[1..])
  }

  // ---- The parser as a function -----------------------------------------------------------------

  predicate IsOperatorChar(c: byte) {
    c == 0x2B || c == 0x23 || c == 0x2E || c == 0x2F || c == 0x3B || c == 0x3F || c == 0x26
  }

  predicate IsFutureOperatorChar(c: byte) {
    c == 0x3D || c == 0x2C || c == 0x21 || c == 0x40 || c == 0x7C
  }

  function OperatorFromChar(c: byte): Operator {
    if c == 0x2B then Reserved
    else if c == 0x23 then Fragment
    else if c == 0x2E then Label
    else if c == 0x2F then Path
    else if c == 0x3B then PathStyle
    else if c == 0x3F then Form
    else if c == 0x26 then FormCont
    else Simple
  }

  // One list item without its explode star.
  function ItemName(item: bytes): Result<bytes> {
    if item == [] then Err(EmptyVariableName)
    else
      var name := if item[|item| - 1] == STAR then item[..|item| - 1] else item;
      if name == [] || !ValidName(name, false) then Err(InvalidVariableName) else Ok(name)
  }

  function NamesFrom(text: bytes): Result<seq<bytes>> {
    var comma := FindByte(text, 0, COMMA);
    match ItemName(text[..comma])
    case Err(e) => Err(e)
    case Ok(name) =>
      if comma == |text| then Ok([name])
      else match NamesFrom(text[comma + 1..])
        case Err(e) => Err(e)
        case Ok(names) => Ok([name] + names)
  }

  function ParseExpressionText(body: bytes): Result<Expression> {
    if body == [] then Err(EmptyExpression)
    else if !IsOperatorChar(body[0]) && IsFutureOperatorChar(body[0]) then Err(UnsupportedOperator)
    else
      var rest := if IsOperatorChar(body[0]) then body[1..] else body;
      if rest == [] then Err(NoVariableName)
      else match NamesFrom(rest)
        case Err(e) => Err(e)
        case Ok(names) => Ok(Expression(OperatorFromChar(body[0]), names))
  }

  function Flushed(segments: seq<Segment>, literal: bytes): seq<Segment> {
    if literal == [] then segments else segments + [Literal(literal)]
  }

  predicate EndsInVariables(segments: seq<Segment>) {
    segments != [] && segments[|segments| - 1].Variables?
  }

  // The loop of Parse, from `position` on.
  function ParseFrom(tmpl: bytes, position: nat, literal: bytes, segments: seq<Segment>, variables: nat,
                     multi: nat): Result<seq<Segment>>
    requires position <= |tmpl|
    decreases |tmpl| - position
  {
    if position == |tmpl| then Ok(Flushed(segments, literal))
    else if tmpl[position] == CLOSE_BRACE then Err(UnexpectedClose)
    else if tmpl[position] != OPEN_BRACE then
      ParseFrom(tmpl, position + 1, literal + [tmpl[position]], segments, variables, multi)
    else
      var close := FindByte(tmpl, position + 1, CLOSE_BRACE);
      if close == |tmpl| then Err(Unbalanced)
      else match ParseExpressionText(tmpl[position + 1..close])
        case Err(e) => Err(e)
        case Ok(e) =>
          var variables' := variables + |e.names|;
          var multi' := if Preserves(e.op) then multi + 1 else multi;
          if variables' > MAX_VARIABLES then Err(TooManyVariables)
          else if Preserves(e.op) && multi' > 1 then Err(MultipleMultiSegment)
          else if literal == [] && EndsInVariables(segments) && Prefix(e.op) == [] then Err(Adjacent)
          else ParseFrom(tmpl, close + 1, [], Flushed(segments, literal) + [Variables(e)], variables', multi')
  }

  function ParseTemplate(tmpl: bytes): Result<seq<Segment>> {
    if |tmpl| > MAX_TEMPLATE_LENGTH then Err(TooLong) else ParseFrom(tmpl, 0, [], [], 0, 0)
  }

  // ---- Names ------------------------------------------------------------------------------------

  predicate IsNameByte(c: byte) {
    IsVarchar(c) || c == DOT || c == PERCENT
  }

  lemma {:induction false} NameBytes(name: bytes, grouped: bool)
    requires ValidName(name, grouped)
    ensures forall i :: 0 <= i < |name| ==> IsNameByte(name[i])
    ensures name == [] ==> grouped
  {
    if name == [] {
    } else if name[0] == DOT {
      NameBytes(name[1..], false);
    } else if name[0] == PERCENT {
      NameBytes(name[3..], true);
      assert IsNameByte(name[1]) && IsNameByte(name[2]);
    } else {
      NameBytes(name[1..], true);
    }
  }

  lemma ItemBytes(item: Item)
    requires ValidName(item.name, false)
    ensures ItemText(item) != [] && forall i :: 0 <= i < |ItemText(item)| ==>
            IsNameByte(ItemText(item)[i]) || ItemText(item)[i] == STAR
    ensures ItemText(item)[0] != STAR && ItemText(item)[0] != DOT
    ensures ItemName(ItemText(item)) == Ok(item.name)
  {
    NameBytes(item.name, false);
    if item.star {
      assert ItemText(item)[..|ItemText(item)| - 1] == item.name;
    } else {
      assert ItemText(item) == item.name;
    }
  }

  predicate ListBytes(x: bytes) {
    forall i :: 0 <= i < |x| ==> IsNameByte(x[i]) || x[i] == STAR || x[i] == COMMA
  }

  lemma ListBytesConcat(x: bytes, y: bytes)
    requires ListBytes(x) && ListBytes(y)
    ensures ListBytes(x + y)
  {
    hide IsNameByte;
  }

  // The list text of valid items: no brace anywhere, and no operator in front.
  lemma {:induction false} ItemsBytes(items: seq<Item>)
    requires items != [] && ValidItems(items)
    ensures ItemsText(items) != [] && ListBytes(ItemsText(items))
    ensures !IsOperatorChar(ItemsText(items)[0]) && !IsFutureOperatorChar(ItemsText(items)[0])
  {
    hide ValidName;
    ItemBytes(items[0]);
    FirstOfItem(items[0]);
    assert ListBytes(ItemText(items[0])) && ListBytes([COMMA]);
    hide ItemText, ListBytes;
    if |items| > 1 {
      ItemsBytes(items[1..]);
      ListBytesConcat([COMMA], ItemsText(items[1..]));
      ListBytesConcat(ItemText(items[0]), [COMMA] + ItemsText(items[1..]));
      assert ItemsText(items)[0] == ItemText(items[0])[0];
    }
  }

  lemma FirstOfItem(item: Item)
    requires ValidName(item.name, false)
    ensures ItemText(item) != [] && !IsOperatorChar(ItemText(item)[0]) && !IsFutureOperatorChar(ItemText(item)[0])
  {
    ItemBytes(item);
  }

  lemma {:induction false} NamesRead(items: seq<Item>)
    requires items != [] && ValidItems(items)
    ensures NamesFrom(ItemsText(items)) == Ok(NamesOfItems(items))
  {
    var item, text := ItemText(items[0]), ItemsText(items);
    ItemBytes(items[0]);
    assert FreeOf(item, COMMA);
    hide ValidName, ItemName, ItemText, IsNameByte;
    if |items| == 1 {
      FindByteAt(text, 0, COMMA, |text|);
      assert text[..|text|] == text == item;
      assert items[1..] == [] && NamesOfItems(items) == [items[0].name];
    } else {
      var rest := ItemsText(items[1..]);
      NamesRead(items[1..]);
      SplitBehind(item, COMMA, rest);
      assert text == item + ([COMMA] + rest);
      hide FindByte;
      assert NamesFrom(text) == Ok([items[0].name] + NamesOfItems(items[1..]));
    }
  }

  lemma ItemDerived(part: bytes) returns (item: Item)
    requires ItemName(part).Ok?
    ensures ValidName(item.name, false) && ItemText(item) == part && item.name == ItemName(part).value
  {
    hide ValidName;
    item := Item(ItemName(part).value, part[|part| - 1] == STAR);
    if item.star { assert part == part[..|part| - 1] + [STAR]; }
  }

  lemma {:induction false} NamesDerived(text: bytes) returns (items: seq<Item>)
    requires NamesFrom(text).Ok?
    ensures items != [] && ValidItems(items) && ItemsText(items) == text && NamesOfItems(items) == NamesFrom(text).value
    decreases |text|
  {
    hide ValidName, ItemName, ItemText;
    var comma := FindByte(text, 0, COMMA);
    var item := ItemDerived(text[..comma]);
    if comma == |text| {
      items := [item];
      assert items[1..] == [] && text[..|text|] == text;
    } else {
      var rest := NamesDerived(text[comma + 1..]);
      items := [item] + rest;
      assert items[1..] == rest;
      assert text == text[..comma] + ([COMMA] + text[comma + 1..]);
    }
  }

  lemma ExpressionRead(op: Operator, items: seq<Item>)
    requires items != [] && ValidItems(items)
    ensures ParseExpressionText(OperatorText(op) + ItemsText(items)) == Ok(Expression(op, NamesOfItems(items)))
  {
    hide *;
    ItemsBytes(items);
    NamesRead(items);
    OperatorRead(op, ItemsText(items));
  }

  // The operator in front of a list is split off again.
  lemma OperatorRead(op: Operator, list: bytes)
    requires list != [] && !IsOperatorChar(list[0]) && !IsFutureOperatorChar(list[0])
    ensures NamesFrom(list).Ok? ==>
              ParseExpressionText(OperatorText(op) + list) == Ok(Expression(op, NamesFrom(list).value))
  {
    hide NamesFrom;
    var body := OperatorText(op) + list;
    if op.Simple? {
      assert body == list;
    } else {
      assert |OperatorText(op)| == 1 && body[0] == OperatorText(op)[0] && body[1..] == list;
    }
  }

  lemma ExpressionDerived(body: bytes) returns (op: Operator, items: seq<Item>)
    requires ParseExpressionText(body).Ok?
    ensures items != [] && ValidItems(items) && body == OperatorText(op) + ItemsText(items)
    ensures ParseExpressionText(body).value == Expression(op, NamesOfItems(items))
  {
    hide NamesFrom, ItemsText, ValidItems, NamesOfItems;
    op := OperatorFromChar(body[0]);
    var rest := if IsOperatorChar(body[0]) then body[1..] else body;
    items := NamesDerived(rest);
    assert ParseExpressionText(body).value == Expression(op, NamesOfItems(items));
    OperatorSplit(body);
  }

  lemma OperatorSplit(body: bytes)
    requires body != []
    ensures body == OperatorText(OperatorFromChar(body[0])) + if IsOperatorChar(body[0]) then body[1..] else body
  {
    if IsOperatorChar(body[0]) {
      assert OperatorText(OperatorFromChar(body[0])) == [body[0]];
    } else {
      assert OperatorText(OperatorFromChar(body[0])) == [];
    }
  }

  lemma {:induction false} NamesCount(items: seq<Item>)
    ensures |NamesOfItems(items)| == |items|
  {
    if items != [] { NamesCount(items[1..]); }
  }

  // ---- Templates --------------------------------------------------------------------------------

  // Where the parser stands, seen from the next node.
  function Standing(segments: seq<Segment>, literal: bytes): Before {
    if EndsInVariables(segments) then AfterBraces else Start
  }

  // What is left to be read, the pending literal included, is the text of some valid nodes, and
  // the result has their segments.
  lemma {:induction false} ParseDerived(tmpl: bytes, p: nat, literal: bytes, segments: seq<Segment>, variables: nat,
                                        multi: nat)
    returns (nodes: seq<Node>)
    requires p <= |tmpl| && NoBraces(literal) && variables <= MAX_VARIABLES && multi <= 1
    requires segments != [] ==> segments[|segments| - 1].Variables?
    requires ParseFrom(tmpl, p, literal, segments, variables, multi).Ok?
    ensures ValidNodes(nodes, Standing(segments, literal)) && NodesText(nodes) == literal + tmpl[p..]
    ensures ParseFrom(tmpl, p, literal, segments, variables, multi).value == segments + SegmentsOf(nodes)
    ensures variables + VariableCount(nodes) <= MAX_VARIABLES && multi + MultiCount(nodes) <= 1
    decreases |tmpl| - p
  {
    hide ParseExpressionText, ItemsText, OperatorText, ValidItems, Prefix;
    hide NodesText, NodeText, ValidNodes, SegmentsOf, VariableCount, MultiCount, NoBraces;
    if p == |tmpl| {
      assert literal + tmpl[p..] == literal;
      nodes := LastLiteral(literal, segments);
    } else if tmpl[p] != OPEN_BRACE {
      assert NoBraces(literal + [tmpl[p]]) by { OneMore(tmpl, p, literal, segments, variables, multi); }
      nodes := ParseDerived(tmpl, p + 1, literal + [tmpl[p]], segments, variables, multi);
      assert literal + [tmpl[p]] + tmpl[p + 1..] == literal + tmpl[p..];
    } else {
      nodes := BracesDerived(tmpl, p, literal, segments, variables, multi);
    }
  }

  lemma OneMore(tmpl: bytes, p: nat, literal: bytes, segments: seq<Segment>, variables: nat, multi: nat)
    requires p < |tmpl| && tmpl[p] != OPEN_BRACE && NoBraces(literal)
    requires ParseFrom(tmpl, p, literal, segments, variables, multi).Ok?
    ensures NoBraces(literal + [tmpl[p]])
  {
  }

  lemma LastLiteral(literal: bytes, segments: seq<Segment>) returns (nodes: seq<Node>)
    requires NoBraces(literal)
    ensures ValidNodes(nodes, Standing(segments, literal)) && NodesText(nodes) == literal
    ensures Flushed(segments, literal) == segments + SegmentsOf(nodes)
    ensures VariableCount(nodes) == 0 && MultiCount(nodes) == 0
  {
    nodes := if literal == [] then [] else [Plain(literal)];
    if literal != [] { assert nodes[1..] == []; }
  }

  lemma BracesDerived(tmpl: bytes, p: nat, literal: bytes, segments: seq<Segment>, variables: nat, multi: nat)
    returns (nodes: seq<Node>)
    requires p < |tmpl| && tmpl[p] == OPEN_BRACE && NoBraces(literal) && variables <= MAX_VARIABLES && multi <= 1
    requires segments != [] ==> segments[|segments| - 1].Variables?
    requires ParseFrom(tmpl, p, literal, segments, variables, multi).Ok?
    ensures ValidNodes(nodes, Standing(segments, literal)) && NodesText(nodes) == literal + tmpl[p..]
    ensures ParseFrom(tmpl, p, literal, segments, variables, multi).value == segments + SegmentsOf(nodes)
    ensures variables + VariableCount(nodes) <= MAX_VARIABLES && multi + MultiCount(nodes) <= 1
    decreases |tmpl| - p, 0
  {
    hide ParseFrom, ParseExpressionText, NodeText, ValidItems, Prefix, NodesText, VariableCount, MultiCount, SegmentsOf,
         ValidNodes, Preserves, Flushed, Standing;
    var close, op, items := BracesStep(tmpl, p, literal, segments, variables, multi);
    var e, tail := Expression(op, NamesOfItems(items)), tmpl[close + 1..];
    EndsAfterBraces(segments, literal, e);
    var rest := ParseDerived(tmpl, close + 1, [], Flushed(segments, literal) + [Variables(e)], variables + |items|,
                             if Preserves(op) then multi + 1 else multi);
    assert [] + tail == tail;
    nodes := Prepended(segments, literal, Braces(op, items), rest, tail);
  }

  // One expression read: its braces, and the state of the loop behind them.
  lemma BracesStep(tmpl: bytes, p: nat, literal: bytes, segments: seq<Segment>, variables: nat, multi: nat)
    returns (close: nat, op: Operator, items: seq<Item>)
    requires p < |tmpl| && tmpl[p] == OPEN_BRACE && variables <= MAX_VARIABLES && multi <= 1
    requires ParseFrom(tmpl, p, literal, segments, variables, multi).Ok?
    ensures p < close < |tmpl| && ValidNode(Braces(op, items)) && |NamesOfItems(items)| == |items|
    ensures tmpl[p..] == NodeText(Braces(op, items)) + tmpl[close + 1..]
    ensures variables + |items| <= MAX_VARIABLES && (Preserves(op) ==> multi == 0)
    ensures literal == [] && EndsInVariables(segments) ==> Prefix(op) != []
    ensures SegmentOf(Braces(op, items)) == Variables(Expression(op, NamesOfItems(items)))
    ensures ParseFrom(tmpl, p, literal, segments, variables, multi) ==
            ParseFrom(tmpl, close + 1, [],
                      Flushed(segments, literal) + [Variables(Expression(op, NamesOfItems(items)))],
                      variables + |items|, if Preserves(op) then multi + 1 else multi)
  {
    hide ParseExpressionText, ItemsText, OperatorText, ValidItems, Flushed, EndsInVariables, FindByte, NamesOfItems;
    close := FindByte(tmpl, p + 1, CLOSE_BRACE);
    var body := tmpl[p + 1..close];
    op, items := ExpressionDerived(body);
    NamesCount(items);
    BracesSplit(tmpl, p, close);
    assert NodeText(Braces(op, items)) == [OPEN_BRACE] + (body + [CLOSE_BRACE]);
  }

  lemma BracesSplit(tmpl: bytes, p: nat, close: nat)
    requires p < close < |tmpl| && tmpl[p] == OPEN_BRACE && tmpl[close] == CLOSE_BRACE
    ensures tmpl[p..] == [OPEN_BRACE] + (tmpl[p + 1..close] + [CLOSE_BRACE]) + tmpl[close + 1..]
  {
  }

  lemma Prepended(segments: seq<Segment>, literal: bytes, node: Node, rest: seq<Node>, tail: bytes)
    returns (nodes: seq<Node>)
    requires node.Braces? && ValidNode(node) && ValidNodes(rest, AfterBraces) && NodesText(rest) == tail
             && NoBraces(literal)
    requires segments != [] ==> segments[|segments| - 1].Variables?
    requires literal == [] && EndsInVariables(segments) ==> Prefix(node.op) != []
    ensures ValidNodes(nodes, Standing(segments, literal)) && NodesText(nodes) == literal + (NodeText(node) + tail)
    ensures segments + SegmentsOf(nodes) == (Flushed(segments, literal) + [SegmentOf(node)]) + SegmentsOf(rest)
    ensures VariableCount(nodes) == |node.items| + VariableCount(rest)
    ensures MultiCount(nodes) == (if Preserves(node.op) then 1 else 0) + MultiCount(rest)
  {
    hide NodeText, SegmentOf, ValidItems, NodesText, SegmentsOf, VariableCount, MultiCount, ValidNodes, ValidNode,
         Prefix;
    var inner := [node] + rest;
    NodesCons(node, rest);
    if literal == [] {
      nodes := inner;
      assert [] + NodesText(inner) == NodesText(inner);
      ConcatAssociative3(segments, [SegmentOf(node)], SegmentsOf(rest));
    } else {
      LiteralNode(literal);
      NodesCons(Plain(literal), inner);
      nodes := [Plain(literal)] + inner;
      ConcatAssociative3(segments + [Literal(literal)], [SegmentOf(node)], SegmentsOf(rest));
      ConcatAssociative3(segments, [Literal(literal)], [SegmentOf(node)] + SegmentsOf(rest));
    }
  }

  lemma ConcatAssociative3(x: seq<Segment>, y: seq<Segment>, z: seq<Segment>)
    ensures (x + y) + z == x + (y + z)
  {
  }

  lemma NodesCons(node: Node, rest: seq<Node>)
    ensures NodesText([node] + rest) == NodeText(node) + NodesText(rest)
    ensures SegmentsOf([node] + rest) == [SegmentOf(node)] + SegmentsOf(rest)
    ensures VariableCount([node] + rest) == (if node.Braces? then |node.items| else 0) + VariableCount(rest)
    ensures MultiCount([node] + rest) == (if node.Braces? && Preserves(node.op) then 1 else 0) + MultiCount(rest)
    ensures forall after :: ValidNodes([node] + rest, after) <==>
            ValidNode(node) && Follows(after, node) && ValidNodes(rest, Kind(node))
  {
    hide NodeText, SegmentOf, ValidNode;
    var nodes := [node] + rest;
    assert nodes[0] == node && nodes[1..] == rest;
  }

  lemma LiteralNode(literal: bytes)
    ensures NodeText(Plain(literal)) == literal && SegmentOf(Plain(literal)) == Literal(literal)
    ensures literal != [] && NoBraces(literal) ==> ValidNode(Plain(literal))
  {
  }

  // Valid nodes whose first literal has been read as far as `literal` are parsed to their segments.
  lemma {:induction false} ParseReads(tmpl: bytes, p: nat, literal: bytes, segments: seq<Segment>, variables: nat,
                                      multi: nat, nodes: seq<Node>)
    requires p <= |tmpl| && literal + tmpl[p..] == NodesText(nodes)
    requires segments != [] ==> segments[|segments| - 1].Variables?
    requires ValidNodes(nodes, Standing(segments, literal))
    requires variables + VariableCount(nodes) <= MAX_VARIABLES && multi + MultiCount(nodes) <= 1
    requires if nodes != [] && nodes[0].Plain? then literal <= nodes[0].text else literal == []
    ensures ParseFrom(tmpl, p, literal, segments, variables, multi) == Ok(segments + SegmentsOf(nodes))
    decreases |tmpl| - p
  {
    hide ParseFrom, NodesText, SegmentsOf, VariableCount, MultiCount, ValidNodes;
    if nodes == [] {
      NothingRead(tmpl, p, segments, variables, multi);
    } else if nodes[0].Plain? && |literal| < |nodes[0].text| {
      PlainStart(nodes);
      LiteralGrows(tmpl, p, literal, nodes[0].text, NodesText(nodes[1..]));
      ParseReads(tmpl, p + 1, literal + [tmpl[p]], segments, variables, multi, nodes);
      LiteralStep(tmpl, p, literal, segments, variables, multi);
    } else {
      var rest := if nodes[0].Plain? then nodes[1..] else nodes;
      if nodes[0].Plain? {
        PlainStart(nodes);
        LiteralEnds(literal, nodes[0].text);
        assert nodes == [Plain(literal)] + rest;
      }
      SameTail(literal, tmpl[p..], NodesText(rest));
      BracesRead(tmpl, p, literal, segments, variables, multi, nodes, rest);
    }
  }

  lemma NothingRead(tmpl: bytes, p: nat, segments: seq<Segment>, variables: nat, multi: nat)
    requires p <= |tmpl| && [] + tmpl[p..] == NodesText([])
    ensures ParseFrom(tmpl, p, [], segments, variables, multi) == Ok(segments + SegmentsOf([]))
  {
    assert |tmpl[p..]| == 0 && segments + [] == segments;
  }

  lemma PlainStart(nodes: seq<Node>)
    requires nodes != [] && nodes[0].Plain?
    ensures NodesText(nodes) == nodes[0].text + NodesText(nodes[1..])
    ensures forall after :: ValidNodes(nodes, after) ==> nodes[0].text != [] && NoBraces(nodes[0].text)
  {
  }

  lemma LiteralGrows(tmpl: bytes, p: nat, literal: bytes, text: bytes, more: bytes)
    requires p <= |tmpl| && literal + tmpl[p..] == text + more && literal <= text && |literal| < |text|
    ensures p < |tmpl| && tmpl[p] == text[|literal|] && literal + [tmpl[p]] <= text
    ensures literal + [tmpl[p]] + tmpl[p + 1..] == literal + tmpl[p..]
  {
    assert |literal + tmpl[p..]| == |literal| + (|tmpl| - p);
    assert (text + more)[|literal|] == text[|literal|] && (literal + tmpl[p..])[|literal|] == tmpl[p];
    assert tmpl[p..] == [tmpl[p]] + tmpl[p + 1..];
    ConcatAssociative(literal, [tmpl[p]], tmpl[p + 1..]);
    assert text == text[..|literal|] + text[|literal|..];
  }

  lemma LiteralEnds(literal: bytes, text: bytes)
    requires literal <= text && |literal| >= |text|
    ensures literal == text
  {
  }

  lemma SameTail(x: bytes, y: bytes, z: bytes)
    requires x + y == x + z
    ensures y == z
  {
    assert (x + y)[|x|..] == y && (x + z)[|x|..] == z;
  }

  lemma LiteralStep(tmpl: bytes, p: nat, literal: bytes, segments: seq<Segment>, variables: nat, multi: nat)
    requires p < |tmpl| && tmpl[p] != OPEN_BRACE && tmpl[p] != CLOSE_BRACE
    ensures ParseFrom(tmpl, p, literal, segments, variables, multi) ==
            ParseFrom(tmpl, p + 1, literal + [tmpl[p]], segments, variables, multi)
  {
  }

  // The pending literal is complete; an expression or the end of the template follows.
  lemma BracesRead(tmpl: bytes, p: nat, literal: bytes, segments: seq<Segment>, variables: nat, multi: nat,
                   nodes: seq<Node>, rest: seq<Node>)
    requires p <= |tmpl| && tmpl[p..] == NodesText(rest)
    requires segments != [] ==> segments[|segments| - 1].Variables?
    requires ValidNodes(nodes, Standing(segments, literal)) && nodes != []
    requires if literal == [] then rest == nodes && nodes[0].Braces? else nodes == [Plain(literal)] + rest
    requires variables + VariableCount(nodes) <= MAX_VARIABLES && multi + MultiCount(nodes) <= 1
    ensures ParseFrom(tmpl, p, literal, segments, variables, multi) == Ok(segments + SegmentsOf(nodes))
    decreases |tmpl| - p, 0
  {
    hide *;
    if rest == [] {
      EndRead(tmpl, p, literal, segments, variables, multi, nodes);
    } else {
      RestIsValid(nodes, rest, literal, segments);
      var op, items, tail := rest[0].op, rest[0].items, rest[1..];
      RestSegments(nodes, rest, literal, segments);
      var close := NextBraces(tmpl, p, rest);
      var e := Expression(op, NamesOfItems(items));
      var segments' := Flushed(segments, literal) + [Variables(e)];
      assert [] + tmpl[close + 1..] == NodesText(tail);
      EndsAfterBraces(segments, literal, e);
      ParseReads(tmpl, close + 1, [], segments', variables + |items|, if Preserves(op) then multi + 1 else multi, tail);
      StepOverBraces(tmpl, p, literal, segments, variables, multi, close, e);
    }
  }

  lemma NextBraces(tmpl: bytes, p: nat, rest: seq<Node>) returns (close: nat)
    requires p <= |tmpl| && rest != [] && rest[0].Braces? && ValidNode(rest[0]) && tmpl[p..] == NodesText(rest)
    ensures p < close < |tmpl| && tmpl[p] == OPEN_BRACE && FindByte(tmpl, p + 1, CLOSE_BRACE) == close
    ensures tmpl[close + 1..] == NodesText(rest[1..])
    ensures ParseExpressionText(tmpl[p + 1..close]) == Ok(Expression(rest[0].op, NamesOfItems(rest[0].items)))
    ensures |NamesOfItems(rest[0].items)| == |rest[0].items|
  {
    hide NodesText, NodeText, ValidItems, ParseExpressionText, FindByte, NamesOfItems, OperatorText, ItemsText;
    var op, items := rest[0].op, rest[0].items;
    NodesUnfold(rest);
    BodyFound(tmpl, p, op, items, NodesText(rest[1..]));
    ExpressionRead(op, items);
    NamesCount(items);
    close := p + 1 + |OperatorText(op) + ItemsText(items)|;
  }

  lemma NodesUnfold(nodes: seq<Node>)
    requires nodes != []
    ensures NodesText(nodes) == NodeText(nodes[0]) + NodesText(nodes[1..])
  {
    hide NodeText;
  }

  lemma EndsAfterBraces(segments: seq<Segment>, literal: bytes, e: Expression)
    ensures Standing(Flushed(segments, literal) + [Variables(e)], []) == AfterBraces
  {
  }

  lemma EndRead(tmpl: bytes, p: nat, literal: bytes, segments: seq<Segment>, variables: nat, multi: nat,
                nodes: seq<Node>)
    requires p <= |tmpl| && tmpl[p..] == NodesText([]) && literal != [] && nodes == [Plain(literal)] + []
    ensures ParseFrom(tmpl, p, literal, segments, variables, multi) == Ok(segments + SegmentsOf(nodes))
  {
    assert p == |tmpl| && nodes[1..] == [];
    assert SegmentsOf(nodes) == [Literal(literal)] + SegmentsOf(nodes[1..]) == [Literal(literal)];
  }

  lemma StepOverBraces(tmpl: bytes, p: nat, literal: bytes, segments: seq<Segment>, variables: nat, multi: nat,
                       close: nat, e: Expression)
    requires p < close < |tmpl| && tmpl[p] == OPEN_BRACE && FindByte(tmpl, p + 1, CLOSE_BRACE) == close
    requires ParseExpressionText(tmpl[p + 1..close]) == Ok(e)
    requires variables + |e.names| <= MAX_VARIABLES && (Preserves(e.op) ==> multi == 0)
    requires literal == [] && EndsInVariables(segments) ==> Prefix(e.op) != []
    ensures ParseFrom(tmpl, p, literal, segments, variables, multi) ==
            ParseFrom(tmpl, close + 1, [], Flushed(segments, literal) + [Variables(e)], variables + |e.names|,
                      if Preserves(e.op) then multi + 1 else multi)
  {
    hide ParseExpressionText, FindByte, Flushed, EndsInVariables, Prefix;
  }

  lemma RestIsValid(nodes: seq<Node>, rest: seq<Node>, literal: bytes, segments: seq<Segment>)
    requires nodes != [] && rest != []
    requires if literal == [] then rest == nodes && nodes[0].Braces? else nodes == [Plain(literal)] + rest
    requires ValidNodes(nodes, Standing(segments, literal))
    ensures rest[0].Braces? && ValidNodes(rest[1..], AfterBraces)
    ensures VariableCount(nodes) == |rest[0].items| + VariableCount(rest[1..])
    ensures MultiCount(nodes) == (if Preserves(rest[0].op) then 1 else 0) + MultiCount(rest[1..])
    ensures ValidNode(rest[0])
    ensures literal == [] && EndsInVariables(segments) ==> Prefix(rest[0].op) != []
  {
    hide ValidItems;
    if literal != [] { assert nodes[1..] == rest; }
  }

  lemma RestSegments(nodes: seq<Node>, rest: seq<Node>, literal: bytes, segments: seq<Segment>)
    requires nodes != [] && rest != [] && rest[0].Braces?
    requires if literal == [] then rest == nodes else nodes == [Plain(literal)] + rest
    ensures (Flushed(segments, literal) + [SegmentOf(rest[0])]) + SegmentsOf(rest[1..]) == segments + SegmentsOf(nodes)
    ensures SegmentOf(rest[0]) == Variables(Expression(rest[0].op, NamesOfItems(rest[0].items)))
  {
    hide NamesOfItems, SegmentsOf;
    var first := rest[0];
    assert rest == [first] + rest[1..];
    NodesCons(first, rest[1..]);
    if literal == [] {
      ConcatAssociative3(segments, [SegmentOf(first)], SegmentsOf(rest[1..]));
    } else {
      NodesCons(Plain(literal), rest);
      LiteralNode(literal);
      ConcatAssociative3(segments + [Literal(literal)], [SegmentOf(first)], SegmentsOf(rest[1..]));
      ConcatAssociative3(segments, [Literal(literal)], [SegmentOf(first)] + SegmentsOf(rest[1..]));
    }
  }

  lemma BodyFound(tmpl: bytes, p: nat, op: Operator, items: seq<Item>, tail: bytes)
    requires p <= |tmpl| && items != [] && ValidItems(items)
    requires tmpl[p..] == NodeText(Braces(op, items)) + tail
    ensures var body := OperatorText(op) + ItemsText(items);
            var close := p + 1 + |body|;
            && close < |tmpl| && tmpl[p] == OPEN_BRACE
            && FindByte(tmpl, p + 1, CLOSE_BRACE) == close
            && tmpl[p + 1..close] == body && tmpl[close + 1..] == tail
  {
    hide *;
    BodyHasNoBrace(op, items);
    BracedBody(tmpl, p, OperatorText(op) + ItemsText(items), tail);
  }

  lemma BodyHasNoBrace(op: Operator, items: seq<Item>)
    requires items != [] && ValidItems(items)
    ensures var body := OperatorText(op) + ItemsText(items);
            && NodeText(Braces(op, items)) == [OPEN_BRACE] + (body + [CLOSE_BRACE])
            && forall i :: 0 <= i < |body| ==> body[i] != CLOSE_BRACE
  {
    ItemsBytes(items);
    hide ItemsText, ValidItems;
  }

  lemma BracedBody(tmpl: bytes, p: nat, body: bytes, tail: bytes)
    requires p <= |tmpl| && tmpl[p..] == [OPEN_BRACE] + (body + [CLOSE_BRACE]) + tail
    requires forall i :: 0 <= i < |body| ==> body[i] != CLOSE_BRACE
    ensures var close := p + 1 + |body|;
            && close < |tmpl| && tmpl[p] == OPEN_BRACE
            && FindByte(tmpl, p + 1, CLOSE_BRACE) == close
            && tmpl[p + 1..close] == body && tmpl[close + 1..] == tail
  {
    hide FindByte;
    ConcatAssociative([OPEN_BRACE], body + [CLOSE_BRACE], tail);
    ConcatAssociative(body, [CLOSE_BRACE], tail);
    var t := body + ([CLOSE_BRACE] + tail);
    FirstByte(tmpl, p, OPEN_BRACE, t);
    SplitBehind(body, CLOSE_BRACE, tail);
    FindShifted(tmpl, p + 1, CLOSE_BRACE);
    assert tmpl[p + 1..p + 1 + |body|] == tmpl[p + 1..][..|body|];
    assert tmpl[p + 1 + |body| + 1..] == tmpl[p + 1..][|body| + 1..];
  }

  lemma FirstByte(tmpl: bytes, p: nat, c: byte, rest: bytes)
    requires p <= |tmpl| && tmpl[p..] == [c] + rest
    ensures p < |tmpl| && tmpl[p] == c && tmpl[p + 1..] == rest
  {
    assert tmpl[p..][0] == c && tmpl[p + 1..] == tmpl[p..][1..];
  }

  // Parse accepts exactly the texts of valid templates, and returns their segments.
  lemma ParseAcceptsExactly(tmpl: bytes, segments: seq<Segment>)
    ensures ParseTemplate(tmpl) == Ok(segments) <==>
            exists nodes :: ValidTemplate(nodes) && NodesText(nodes) == tmpl && SegmentsOf(nodes) == segments
  {
    hide ParseFrom, ValidNodes, NodesText, SegmentsOf, VariableCount, MultiCount;
    assert [] + tmpl[0..] == tmpl;
    if ParseTemplate(tmpl) == Ok(segments) {
      var nodes := ParseDerived(tmpl, 0, [], [], 0, 0);
      assert [] + SegmentsOf(nodes) == SegmentsOf(nodes);
      assert ValidTemplate(nodes);
    }
    forall nodes | ValidTemplate(nodes) && NodesText(nodes) == tmpl && SegmentsOf(nodes) == segments
      ensures ParseTemplate(tmpl) == Ok(segments)
    {
      ParseReads(tmpl, 0, [], [], 0, 0, nodes);
      assert [] + SegmentsOf(nodes) == SegmentsOf(nodes);
    }
  }

  lemma {:induction false} SegmentsHaveNames(nodes: seq<Node>, after: Before)
    requires ValidNodes(nodes, after)
    ensures NamesEverywhere(SegmentsOf(nodes))
  {
    hide ValidItems, Prefix;
    if nodes != [] {
      SegmentsHaveNames(nodes[1..], Kind(nodes[0]));
      if nodes[0].Braces? { NamesCount(nodes[0].items); }
    }
  }

  // The promise of templates: for every accepted template that is separated, matching an
  // expansion gives back every variable, decoded.
  lemma ParsedTemplatesInvert(tmpl: bytes, vars: Bindings)
    requires ParseTemplate(tmpl).Ok?
    requires AllBound(ParseTemplate(tmpl).value, vars) && Separated(Parts(ParseTemplate(tmpl).value, []))
    ensures var segments := ParseTemplate(tmpl).value;
            var uri := Expanded(segments, vars);
            Match(segments, uri) ==
            if |uri| > MAX_MATCH_LENGTH then None
            else Some(DecodedValues(NamesOf(Parts(segments, [])), vars))
  {
    hide ParseTemplate, AllBound, Separated, Parts, Expanded, Match, DecodedValues, NamesOf, NamesEverywhere;
    var segments := ParseTemplate(tmpl).value;
    ParseAcceptsExactly(tmpl, segments);
    var nodes :| ValidTemplate(nodes) && NodesText(nodes) == tmpl && SegmentsOf(nodes) == segments;
    SegmentsHaveNames(nodes, Start);
    MatchInvertsExpand(segments, vars);
  }

  // For an accepted template with distinct names it does so exactly if no search of Match can go
  // astray on this expansion.
  lemma ParsedTemplatesInvertExactly(tmpl: bytes, vars: Bindings)
    requires ParseTemplate(tmpl).Ok?
    requires var segments := ParseTemplate(tmpl).value;
             && AllBound(segments, vars) && DistinctNames(Parts(segments, []))
             && |Expanded(segments, vars)| <= MAX_MATCH_LENGTH
    ensures var segments := ParseTemplate(tmpl).value;
            Match(segments, Expanded(segments, vars)) == Some(DecodedValues(NamesOf(Parts(segments, [])), vars)) <==>
            Unambiguous(segments, vars)
  {
    hide ParseTemplate, AllBound, Parts, Expanded, Match, DecodedValues, NamesOf, NamesEverywhere, Unambiguous,
         DistinctNames;
    var segments := ParseTemplate(tmpl).value;
    ParseAcceptsExactly(tmpl, segments);
    var nodes :| ValidTemplate(nodes) && NodesText(nodes) == tmpl && SegmentsOf(nodes) == segments;
    SegmentsHaveNames(nodes, Start);
    InvertsExactly(segments, vars);
  }

  // ---- The loops --------------------------------------------------------------------------------

  method ValidateVarName(name: bytes) returns (valid: bool)
    ensures valid == ValidName(name, false)
  {
    var index, groupLength := 0, 0;
    while index < |name|
      invariant 0 <= index <= |name| && groupLength >= 0
      invariant ValidName(name[index..], groupLength > 0) == ValidName(name, false)
    {
      var c := name[index];
      ghost var rest := name[index..];
      if c == DOT {
        if groupLength == 0 { return false; }
        groupLength := 0;
        index := index + 1;
        assert rest[1..] == name[index..];
      } else if c == PERCENT {
        if index + 2 >= |name| || !IsHexDigit(name[index + 1]) || !IsHexDigit(name[index + 2]) { return false; }
        groupLength := groupLength + 1;
        index := index + 3;
        assert rest[3..] == name[index..];
      } else {
        if !IsVarchar(c) { return false; }
        groupLength := groupLength + 1;
        index := index + 1;
        assert rest[1..] == name[index..];
      }
    }
    return groupLength > 0;
  }

  function Prepend(names: seq<bytes>, rest: Result<seq<bytes>>): Result<seq<bytes>> {
    match rest
    case Ok(more) => Ok(names + more)
    case Err(e) => Err(e)
  }

  method ParseExpression(body: bytes) returns (result: Result<Expression>)
    ensures result == ParseExpressionText(body)
  {
    if body == [] { return Err(EmptyExpression); }
    var op, position := Simple, 0;
    if IsOperatorChar(body[0]) {
      op, position := OperatorFromChar(body[0]), 1;
    } else if IsFutureOperatorChar(body[0]) {
      return Err(UnsupportedOperator);
    }
    if position >= |body| { return Err(NoVariableName); }
    var names := ParseNames(body, position);
    assert body[0..] == body;
    match names {
      case Ok(list) => return Ok(Expression(op, list));
      case Err(e) => return Err(e);
    }
  }

  // The list loop of ParseExpression.
  method ParseNames(body: bytes, start: nat) returns (result: Result<seq<bytes>>)
    requires start <= |body|
    ensures result == NamesFrom(body[start..])
  {
    hide *;
    var position := start;
    var names: seq<bytes> := [];
    NothingPrepended(NamesFrom(body[start..]));
    while true
      invariant start <= position <= |body|
      invariant Prepend(names, NamesFrom(body[position..])) == NamesFrom(body[start..])
      decreases |body| - position
    {
      NamesStep(body, position);
      var comma := FindByte(body, position, COMMA);
      var item := body[position..comma];
      PrependAll(names);
      ItemNameCases(item);
      if item == [] { return Err(EmptyVariableName); }
      if item[|item| - 1] == STAR { item := item[..|item| - 1]; }
      var valid := ValidateVarName(item);
      if item == [] || !valid { return Err(InvalidVariableName); }
      if comma == |body| { return Ok(names + [item]); }
      PrependOne(names, item, NamesFrom(body[comma + 1..]));
      names := names + [item];
      position := comma + 1;
    }
  }

  lemma NamesStep(body: bytes, position: nat)
    requires position <= |body|
    ensures var comma := FindByte(body, position, COMMA);
            NamesFrom(body[position..]) ==
            match ItemName(body[position..comma])
            case Err(e) => Err(e)
            case Ok(name) => if comma == |body| then Ok([name]) else Prepend([name], NamesFrom(body[comma + 1..]))
  {
    hide ItemName;
    var rest, comma := body[position..], FindByte(body, position, COMMA);
    FindShifted(body, position, COMMA);
    assert rest[..comma - position] == body[position..comma];
    if comma < |body| { assert rest[comma - position + 1..] == body[comma + 1..]; }
  }

  lemma ItemNameCases(item: bytes)
    ensures item == [] ==> ItemName(item) == Err(EmptyVariableName)
    ensures item != [] ==>
              var name := if item[|item| - 1] == STAR then item[..|item| - 1] else item;
              ItemName(item) == if name == [] || !ValidName(name, false) then Err(InvalidVariableName) else Ok(name)
  {
    hide ValidName;
  }

  lemma PrependAll(names: seq<bytes>)
    ensures forall e :: Prepend(names, Err(e)) == Err(e)
    ensures forall more :: Prepend(names, Ok(more)) == Ok(names + more)
  {
  }

  lemma NothingPrepended(rest: Result<seq<bytes>>)
    ensures Prepend([], rest) == rest
  {
    if rest.Ok? { assert [] + rest.value == rest.value; }
  }

  lemma PrependOne(names: seq<bytes>, name: bytes, rest: Result<seq<bytes>>)
    ensures Prepend(names, Prepend([name], rest)) == Prepend(names + [name], rest)
  {
    if rest.Ok? { assert names + ([name] + rest.value) == (names + [name]) + rest.value; }
  }

  method Parse(tmpl: bytes) returns (result: Result<seq<Segment>>)
    ensures result == ParseTemplate(tmpl)
  {
    hide ParseExpressionText, Prefix;
    if |tmpl| > MAX_TEMPLATE_LENGTH { return Err(TooLong); }
    var segments: seq<Segment>, literal: bytes := [], [];
    var variableCount: nat, multiSegmentCount: nat, position: nat := 0, 0, 0;
    while position < |tmpl|
      invariant position <= |tmpl|
      invariant ParseFrom(tmpl, position, literal, segments, variableCount, multiSegmentCount) ==
                ParseFrom(tmpl, 0, [], [], 0, 0)
      decreases |tmpl| - position
    {
      var c := tmpl[position];
      if c == CLOSE_BRACE { return Err(UnexpectedClose); }
      if c != OPEN_BRACE {
        literal := literal + [c];
        position := position + 1;
      } else {
        var close := FindByte(tmpl, position + 1, CLOSE_BRACE);
        if close == |tmpl| { return Err(Unbalanced); }
        var parsed := ParseExpression(tmpl[position + 1..close]);
        if parsed.Err? { return Err(parsed.error); }
        var e := parsed.value;
        variableCount := variableCount + |e.names|;
        if variableCount > MAX_VARIABLES { return Err(TooManyVariables); }
        if Preserves(e.op) {
          multiSegmentCount := multiSegmentCount + 1;
          if multiSegmentCount > 1 { return Err(MultipleMultiSegment); }
        }
        if literal == [] {
          if EndsInVariables(segments) && Prefix(e.op) == [] { return Err(Adjacent); }
        } else {
          segments := segments + [Literal(literal)];
          literal := [];
        }
        segments := segments + [Variables(e)];
        position := close + 1;
      }
    }
    if literal != [] { segments := segments + [Literal(literal)]; }
    return Ok(segments);
  }
}
