/** Text that makes no node: comments, instructions, DOCTYPE and other declarations, white space
    and the byte order mark, and documents with all of them between their nodes. */
module XmlMarkup {
  import opened Wrappers
  import opened Bytes
  import opened XmlGrammar
  import opened XmlPrint
  import opened XmlRoundTrip

  // What may stand between the nodes of a document.
  datatype Misc =
    | Comment(text: seq<byte>)
    | Instruction(text: seq<byte>)               // and the XML declaration
    | Doctype(space: byte, text: seq<byte>)
    | Declaration(text: seq<byte>)

  function MiscText(m: Misc): seq<byte> {
    match m
    case Comment(text) => [LT, BANG, MINUS, MINUS] + text + COMMENT_END
    case Instruction(text) => [LT, QUESTION] + text + PI_END
    case Doctype(space, text) => [LT, BANG] + DOCTYPE + [space] + text + [GT]
    case Declaration(text) => [LT, BANG] + text + [GT]
  }

  // The mark does not stand anywhere before its own place behind the text.
  ghost predicate FirstMark(text: seq<byte>, mark: seq<byte>) {
    forall k :: 0 <= k < |text| ==> !At(text + mark, k, mark)
  }

  // Brackets open and close, and > stands inside of them only: how many are open behind the text.
  function Brackets(text: seq<byte>, open: nat): Option<nat> {
    if text == [] then Some(open)
    else if text[0] == NUL || (open == 0 && text[0] == GT) then None
    else
      Brackets(text[1..], if text[0] == OPEN then open + 1 else if text[0] == CLOSE && open > 0 then open - 1 else open)
  }

  ghost predicate MiscOk(m: Misc) {
    && NulFree(MiscText(m))
    && match m
       case Comment(text) => FirstMark(text, COMMENT_END)
       case Instruction(text) => FirstMark(text, PI_END)
       case Doctype(space, text) => IsSpace(space) && Brackets(text, 0) == Some(0)
       case Declaration(text) => GT !in text && IsOther(text)
  }

  // Neither a comment, CDATA nor a DOCTYPE.
  ghost predicate IsOther(text: seq<byte>) {
    && !([MINUS, MINUS] <= text) && !(CDATA_OPEN <= text)
    && !(DOCTYPE <= text && |text| > |DOCTYPE| && IsSpace(text[|DOCTYPE|]))
  }

  lemma {:induction false} SkipPastReads(s: seq<byte>, i: nat, text: seq<byte>, mark: seq<byte>)
    requires CString(s) && mark != [] && NUL !in mark && NUL !in text
    requires At(s, i, text + mark) && FirstMark(text, mark)
    ensures i < |s| && SkipPast(s, i, mark) == Some(i + |text| + |mark|)
    decreases |text|
  {
    hide CString, SkipPast, At;
    AtConcat(s, i, text, mark);
    AtBytes(s, i, text + mark);
    if text == [] {
      assert text + mark == mark;
      SkipPastStep(s, i, mark);
    } else {
      var tail := text[1..];
      assert text == [text[0]] + tail && [text[0]] + (tail + mark) == text + mark;
      AtConcat(s, i, [text[0]], tail + mark);
      AtShift(s, i, text + mark, 0, mark);
      FirstMarkTail(text, mark);
      SkipPastReads(s, i + 1, tail, mark);
      SkipPastStep(s, i, mark);
    }
  }

  lemma FirstMarkTail(text: seq<byte>, mark: seq<byte>)
    requires text != [] && FirstMark(text, mark)
    ensures FirstMark(text[1..], mark)
  {
    hide At;
    var tail := text[1..];
    assert [text[0]] + (tail + mark) == text + mark;
    forall k | 0 <= k < |tail|
      ensures !At(tail + mark, k, mark)
    {
      AtShift(text + mark, 1, tail + mark, k, mark);
      AtWhole(text + mark, 1, tail + mark);
    }
  }

  lemma AtWhole(s: seq<byte>, i: nat, p: seq<byte>)
    requires i <= |s| && s[i..] == p
    ensures At(s, i, p)
  {
  }

  // A pattern inside one that stands in s.
  lemma AtShift(s: seq<byte>, i: nat, p: seq<byte>, k: nat, q: seq<byte>)
    ensures At(s, i, p) && k + |q| <= |p| ==> (At(s, i + k, q) <==> At(p, k, q))
  {
    if At(s, i, p) && k + |q| <= |p| {
      SliceAt(s, i, i + |p|, k, q);
    }
  }

  // ---- Each kind is skipped ----

  lemma CommentSkips(s: seq<byte>, i: nat, text: seq<byte>)
    requires CString(s) && NulFree(text) && FirstMark(text, COMMENT_END)
    requires At(s, i, [LT, BANG, MINUS, MINUS] + text + COMMENT_END)
    ensures i + 1 < |s| && ParseNode(s, i + 1) == Parsed(None, i + 7 + |text|)
  {
    hide CString, SkipPast, At, SkipDoctype;
    var open := [LT, BANG, MINUS, MINUS];
    assert open + text + COMMENT_END == open + (text + COMMENT_END);
    AtConcat(s, i, open, text + COMMENT_END);
    AtBytes(s, i, open);
    SkipPastReads(s, i + 4, text, COMMENT_END);
  }

  lemma InstructionSkips(s: seq<byte>, i: nat, text: seq<byte>)
    requires CString(s) && NulFree(text) && FirstMark(text, PI_END)
    requires At(s, i, [LT, QUESTION] + text + PI_END)
    ensures i + 1 < |s| && ParseNode(s, i + 1) == Parsed(None, i + 4 + |text|)
  {
    hide CString, SkipPast, At, ParseBang, ParseElement;
    var open := [LT, QUESTION];
    assert open + text + PI_END == open + (text + PI_END);
    AtConcat(s, i, open, text + PI_END);
    AtBytes(s, i, open);
    AtBytes(s, i + 2, text + PI_END);
    SkipPastReads(s, i + 2, text, PI_END);
    assert forall k :: 0 <= k < |text| ==> (text + PI_END)[k] == text[k];
    if |text| >= 4 {
      FirstMarkFrom(text, PI_END, 4);
      AtBehind(s, i + 2, text, PI_END, 4);
      SkipPastReads(s, i + 6, text[4..], PI_END);
    }
  }

  // Four bytes of the text are no question mark, so they lie in it.
  lemma {:induction false} FirstMarkFrom(text: seq<byte>, mark: seq<byte>, n: nat)
    requires FirstMark(text, mark) && n <= |text|
    ensures FirstMark(text[n..], mark)
  {
    if n == 0 {
      assert text[0..] == text;
    } else {
      FirstMarkTail(text, mark);
      FirstMarkFrom(text[1..], mark, n - 1);
      assert text[1..][n - 1..] == text[n..];
    }
  }

  lemma AtBehind(s: seq<byte>, i: nat, text: seq<byte>, mark: seq<byte>, n: nat)
    requires At(s, i, text + mark) && n <= |text|
    ensures At(s, i + n, text[n..] + mark)
  {
    hide At;
    assert text + mark == text[..n] + (text[n..] + mark);
    AtConcat(s, i, text[..n], text[n..] + mark);
  }

  lemma DeclarationSkips(s: seq<byte>, i: nat, text: seq<byte>)
    requires CString(s) && NulFree(text) && GT !in text && IsOther(text)
    requires At(s, i, [LT, BANG] + text + [GT])
    ensures i + 1 < |s| && ParseNode(s, i + 1) == Parsed(None, i + 3 + |text|)
  {
    hide CString, SkipPast, At, SkipDoctype;
    var open := [LT, BANG];
    assert open + text + [GT] == open + (text + [GT]);
    AtConcat(s, i, open, text + [GT]);
    AtBytes(s, i, open);
    NoGt(text);
    SkipPastReads(s, i + 2, text, [GT]);
    OtherBranch(s, i + 2, text);
  }

  lemma NoGt(text: seq<byte>)
    requires GT !in text
    ensures FirstMark(text, [GT])
  {
    forall k | 0 <= k < |text|
      ensures !At(text + [GT], k, [GT])
    {
      assert text[k] in text && (text + [GT])[k] == text[k];
      AtByte(text + [GT], k, GT);
    }
  }

  // The text behind <! does not look like the start of anything else.
  lemma OtherBranch(s: seq<byte>, i: nat, text: seq<byte>)
    requires CString(s) && GT !in text && IsOther(text) && At(s, i, text + [GT])
    ensures i < |s|
    ensures !(s[i] == MINUS && s[i + 1] == MINUS) && !At(s, i, CDATA_OPEN)
    ensures At(s, i, DOCTYPE) ==> i + 7 < |s| && !IsSpace(s[i + 7])
  {
    hide CString, At;
    AtBytes(s, i, text + [GT]);
    assert forall k :: 0 <= k < |text| ==> s[i + k] == text[k];
    assert s[i + |text|] == GT;
    assert [MINUS, MINUS] <= text <==> |text| >= 2 && text[0] == MINUS && text[1] == MINUS;
    if At(s, i, CDATA_OPEN) {
      AtBytes(s, i, CDATA_OPEN);
      Prefixed(s, i, text, CDATA_OPEN);
    }
    if At(s, i, DOCTYPE) {
      AtBytes(s, i, DOCTYPE);
      Prefixed(s, i, text, DOCTYPE);
    }
  }

  lemma Prefixed(s: seq<byte>, i: nat, text: seq<byte>, p: seq<byte>)
    requires i + |text| < |s| && i + |p| <= |s| && s[i + |text|] == GT && GT !in p
    requires forall k :: 0 <= k < |text| ==> s[i + k] == text[k]
    requires forall k :: i <= k < i + |p| ==> s[k] == p[k - i]
    ensures p <= text
  {
    if |text| < |p| {
      assert false;
    }
    assert forall k :: 0 <= k < |p| ==> s[i + k] == p[k];
  }

  lemma DoctypeSkips(s: seq<byte>, i: nat, space: byte, text: seq<byte>)
    requires CString(s) && NulFree(text) && IsSpace(space) && Brackets(text, 0) == Some(0)
    requires At(s, i, [LT, BANG] + DOCTYPE + [space] + text + [GT])
    ensures i + 1 < |s| && ParseNode(s, i + 1) == Parsed(None, i + 11 + |text|)
  {
    hide CString, SkipPast, At, Brackets;
    var open := [LT, BANG] + DOCTYPE + [space];
    assert open + text + [GT] == open + (text + [GT]);
    AtConcat(s, i, open, text + [GT]);
    AtConcat(s, i, [LT, BANG] + DOCTYPE, [space]);
    AtConcat(s, i, [LT, BANG], DOCTYPE);
    AtBytes(s, i, open);
    assert open[0] == LT && open[1] == BANG && open[2] == DOCTYPE[0] && open[9] == space;
    BracketsSkip(s, i + 10, text, 0);
    NotCData(s, i + 2);
  }

  lemma NotCData(s: seq<byte>, i: nat)
    requires i < |s| && s[i] == DOCTYPE[0]
    ensures !At(s, i, CDATA_OPEN)
  {
    if At(s, i, CDATA_OPEN) {
      AtBytes(s, i, CDATA_OPEN);
    }
  }

  // With brackets open, the scan leaves them and then goes on to the >.
  lemma {:induction false} BracketsSkip(s: seq<byte>, i: nat, text: seq<byte>, open: nat)
    requires CString(s) && At(s, i, text + [GT]) && Brackets(text, open) == Some(0)
    ensures i + |text| + 1 < |s|
    ensures open == 0 ==> SkipDoctype(s, i) == Some(i + |text| + 1)
    ensures open > 0 ==> var inner := SkipBrackets(s, i, open);
                         inner.Some? && SkipDoctype(s, inner.value) == Some(i + |text| + 1)
    decreases |text|
  {
    hide CString, At;
    AtBytes(s, i, text + [GT]);
    EndsBefore(s, i + |text|);
    if text == [] {
      assert text + [GT] == [GT];
    } else {
      var b, tail := text[0], text[1..];
      assert text + [GT] == [b] + (tail + [GT]);
      AtConcat(s, i, [b], tail + [GT]);
      BracketsSkip(s, i + 1, tail, if b == OPEN then open + 1 else if b == CLOSE && open > 0 then open - 1 else open);
    }
  }

  // Whatever it is, it makes no node.
  lemma MiscReads(s: seq<byte>, i: nat, m: Misc)
    requires CString(s) && MiscOk(m) && At(s, i, MiscText(m))
    ensures i + 1 < |s| && s[i] == LT && s[i + 1] != SLASH && i + |MiscText(m)| < |s|
    ensures ParseNode(s, i + 1) == Parsed(None, i + |MiscText(m)|)
  {
    hide CString, At, ParseNode, FirstMark, Brackets, IsOther;
    MiscStarts(s, i, m);
    assert forall b :: b in m.text ==> b in MiscText(m);
    match m
    case Comment(text) => CommentSkips(s, i, text);
    case Instruction(text) => InstructionSkips(s, i, text);
    case Doctype(space, text) => DoctypeSkips(s, i, space, text);
    case Declaration(text) => DeclarationSkips(s, i, text);
  }

  lemma MiscStarts(s: seq<byte>, i: nat, m: Misc)
    requires CString(s) && NulFree(MiscText(m)) && At(s, i, MiscText(m))
    ensures i + 1 < |s| && s[i] == LT && s[i + 1] != SLASH && i + |MiscText(m)| < |s|
  {
    hide CString;
    var p := MiscText(m);
    AtBytes(s, i, p);
    assert p[0] == LT && (p[1] == BANG || p[1] == QUESTION);
    assert p[|p| - 1] in p && s[i + |p| - 1] == p[|p| - 1];
    EndsBefore(s, i + |p| - 1);
  }

  // Between the children of an element nothing changes either.
  lemma MiscInElement(s: seq<byte>, i: nat, m: Misc, children: seq<Node>, value: seq<byte>)
    requires CString(s) && MiscOk(m) && At(s, i, MiscText(m))
    ensures i + |MiscText(m)| < |s| && s[i] == LT
    ensures ParseTag(s, i, children, value) == ParseContents(s, i + |MiscText(m)|, children, value)
  {
    hide CString, At, ParseNode, ParseContents, MiscOk;
    MiscReads(s, i, m);
  }

  // ---- Documents ----

  datatype Item = Tree(node: Node) | Other(m: Misc) | Blank(space: seq<byte>)

  function ItemText(item: Item): seq<byte> {
    match item
    case Tree(node) => PrintNode(node)
    case Other(m) => MiscText(m)
    case Blank(space) => space
  }

  function ItemsText(items: seq<Item>): seq<byte> {
    if items == [] then [] else ItemText(items[0]) + ItemsText(items[1..])
  }

  ghost predicate ItemOk(item: Item) {
    match item
    case Tree(node) => Legal(node) && !node.Data?
    case Other(m) => MiscOk(m)
    case Blank(space) => OnlySpace(space)
  }

  function Trees(items: seq<Item>): seq<Node> {
    if items == [] then [] else (if items[0].Tree? then [Normal(items[0].node)] else []) + Trees(items[1..])
  }

  lemma {:induction false} ItemsRead(s: seq<byte>, i: nat, items: seq<Item>, before: seq<Node>)
    requires CString(s) && At(s, i, ItemsText(items) + [NUL])
    requires forall k :: 0 <= k < |items| ==> ItemOk(items[k])
    ensures i < |s| && ParseNodes(s, i, before) == Document(before + Trees(items))
    decreases |items|
  {
    hide CString, At, PrintNode, Normal, Legal, MiscText, MiscOk, OnlySpace, ParseNodes;
    if items == [] {
      NoItems(s, i, before);
    } else {
      var first, tail := items[0], items[1..];
      var rest := ItemsText(tail) + [NUL];
      assert ItemsText(items) + [NUL] == ItemText(first) + rest;
      ItemReads(s, i, first, rest, before);
      assert forall k :: 0 <= k < |tail| ==> tail[k] == items[k + 1];
      var nodes := if first.Tree? then [Normal(first.node)] else [];
      ItemsRead(s, i + |ItemText(first)|, tail, before + nodes);
      assert before + nodes + Trees(tail) == before + (nodes + Trees(tail));
    }
  }

  lemma NoItems(s: seq<byte>, i: nat, before: seq<Node>)
    requires CString(s) && At(s, i, ItemsText([]) + [NUL])
    ensures i < |s| && ParseNodes(s, i, before) == Document(before + Trees([]))
  {
    hide CString;
    assert ItemsText([]) + [NUL] == [NUL];
    AtBytes(s, i, [NUL]);
    SkipNone(s, i, Whitespace);
    assert before + [] == before;
  }

  lemma ItemReads(s: seq<byte>, i: nat, item: Item, rest: seq<byte>, before: seq<Node>)
    requires CString(s) && ItemOk(item) && rest != [] && At(s, i, ItemText(item) + rest)
    ensures i + |ItemText(item)| < |s| && At(s, i + |ItemText(item)|, rest)
    ensures ParseNodes(s, i, before)
         == ParseNodes(s, i + |ItemText(item)|, before + if item.Tree? then [Normal(item.node)] else [])
  {
    hide CString, At, PrintNode, Normal, Legal, MiscText, MiscOk, OnlySpace, ParseNodes;
    AtConcat(s, i, ItemText(item), rest);
    match item
    case Tree(node) => NodesReadOne(s, i, node, rest, before);
    case Other(m) => MiscReadOne(s, i, m, before);
    case Blank(space) => BlankReadOne(s, i, space, rest, before);
  }

  lemma MiscReadOne(s: seq<byte>, i: nat, m: Misc, before: seq<Node>)
    requires CString(s) && MiscOk(m) && At(s, i, MiscText(m))
    ensures i + |MiscText(m)| < |s|
    ensures ParseNodes(s, i, before) == ParseNodes(s, i + |MiscText(m)|, before + [])
  {
    hide CString, At, ParseNode, MiscOk, Skip;
    MiscReads(s, i, m);
    SkipNone(s, i, Whitespace);
    assert before + [] == before;
  }

  lemma BlankReadOne(s: seq<byte>, i: nat, space: seq<byte>, rest: seq<byte>, before: seq<Node>)
    requires CString(s) && OnlySpace(space) && rest != [] && At(s, i, space + rest)
    ensures i + |space| < |s|
    ensures ParseNodes(s, i, before) == ParseNodes(s, i + |space|, before + [])
  {
    hide CString, At, ParseNode;
    AtConcat(s, i, space, rest);
    AtBytes(s, i + |space|, rest);
    SkipOver(s, i, space);
    assert before + [] == before;
  }

  // White space skipped in two parts
  lemma {:induction false} SkipOver(s: seq<byte>, i: nat, space: seq<byte>)
    requires CString(s) && OnlySpace(space) && At(s, i, space) && i + |space| < |s|
    ensures Skip(s, i, Whitespace) == Skip(s, i + |space|, Whitespace)
    decreases |space|
  {
    hide CString, At;
    if space != [] {
      AtBytes(s, i, space);
      assert space == [space[0]] + space[1..];
      AtConcat(s, i, [space[0]], space[1..]);
      SkipOver(s, i + 1, space[1..]);
    }
  }

  // A document may start with a byte order mark and have comments, instructions, declarations and
  // white space around its nodes: it parses to the normal forms of the nodes alone.
  lemma DocumentReads(bom: bool, items: seq<Item>)
    requires forall k :: 0 <= k < |items| ==> ItemOk(items[k])
    requires NulFree(ItemsText(items)) && (!bom ==> !(BOM <= ItemsText(items)))
    ensures var s := ByteOrderMark(bom) + ItemsText(items) + [NUL];
            CString(s) && Parse(s) == Document(Trees(items))
  {
    hide ParseNodes, ItemsText, ItemOk, CString, At, NulFree, AfterBom, Trees;
    var text := ItemsText(items);
    var mark := ByteOrderMark(bom);
    MarkedIsCString(mark, text);
    MarkFound(mark + text + [NUL], bom, text);
    ItemsRead(mark + text + [NUL], |mark|, items, []);
    assert [] + Trees(items) == Trees(items);
  }

  function ByteOrderMark(bom: bool): (mark: seq<byte>)
    ensures NulFree(mark) && |mark| == if bom then 3 else 0
  {
    if bom then BOM else []
  }

  lemma MarkedIsCString(mark: seq<byte>, text: seq<byte>)
    requires NulFree(mark) && NulFree(text)
    ensures CString(mark + text + [NUL]) && At(mark + text + [NUL], |mark|, text + [NUL])
  {
    var p := mark + text;
    assert (p + [NUL])[|mark|..] == text + [NUL];
    assert forall k :: 0 <= k < |p| ==> p[k] in p;
  }

  lemma MarkFound(s: seq<byte>, bom: bool, text: seq<byte>)
    requires CString(s) && s == ByteOrderMark(bom) + text + [NUL] && (!bom ==> !(BOM <= text))
    ensures AfterBom(s) == if bom then 3 else 0
  {
    hide CString;
    if bom {
      assert s[0..3] == BOM;
    } else if |text| >= 3 {
      assert s[0..3] == text[..3];
    } else if |s| >= 3 {
      assert s[0..3][|text|] == NUL;
    }
  }
}
