/** The trees that parse<0> builds, and which of them survive being printed and parsed again. */
module XmlParsed {
  import opened Wrappers
  import opened Bytes
  import opened XmlGrammar
  import opened XmlPrint
  import opened XmlRoundTrip
  import XmlCut

  // No text in the tree holds a NUL. References such as &#0; can put one there.
  ghost predicate TextNulFree(node: Node)
    decreases node
  {
    match node
    case Data(value) => NulFree(value)
    case CData(value) => NulFree(value)
    case Element(name, attributes, children, value) =>
      && (forall k :: 0 <= k < |attributes| ==> NulFree(attributes[k].value))
      && NulFree(value)
      && (forall k :: 0 <= k < |children| ==> TextNulFree(children[k]))
  }

  ghost predicate Named(a: Attribute) {
    a.name != [] && All(a.name, AttributeName)
  }

  ghost predicate AllNamed(list: seq<Attribute>) {
    forall k :: 0 <= k < |list| ==> Named(list[k])
  }

  // The shape of what the parser builds: legal names, CDATA up to its first end mark, no empty
  // data, and for an element's value its first data child that does not start with a NUL, or the
  // last one if all do.
  ghost predicate Built(node: Node)
    decreases node, 1
  {
    match node
    case Data(value) => value != []
    case CData(value) => NulFree(value) && forall k :: 0 <= k <= |value| ==> !At(value, k, CDATA_END)
    case Element(name, attributes, children, value) =>
      && name != [] && All(name, NodeName) && name[0] != BANG && AllNamed(attributes)
      && (forall k :: 0 <= k < |children| ==> Built(children[k]))
      && value == ElementValue(children)
  }

  ghost predicate AllBuilt(nodes: seq<Node>) {
    forall k :: 0 <= k < |nodes| ==> Built(nodes[k])
  }

  ghost predicate DataNulFree(children: seq<Node>) {
    forall k :: 0 <= k < |children| && children[k].Data? ==> NulFree(children[k].value)
  }

  function ElementValue(children: seq<Node>): seq<byte> {
    if children == [] then []
    else if !children[0].Data? then ElementValue(children[1..])
    else
      var later := ElementValue(children[1..]);
      if NoValue(children[0].value) && later != [] then later else children[0].value
  }

  ghost predicate DataNotEmptyIn(children: seq<Node>) {
    forall k :: 0 <= k < |children| && children[k].Data? ==> children[k].value != []
  }

  // ---- What the parser builds ----

  lemma {:induction false} ElementValueSnoc(children: seq<Node>, x: Node)
    requires DataNotEmptyIn(children) && (x.Data? ==> x.value != [])
    ensures ElementValue(children + [x])
         == if x.Data? && NoValue(ElementValue(children)) then x.value else ElementValue(children)
  {
    if children == [] {
      assert children + [x] == [x] && [x][1..] == [];
    } else {
      assert (children + [x])[1..] == children[1..] + [x];
      ElementValueSnoc(children[1..], x);
    }
  }

  lemma {:induction false} FirstIsValue(children: seq<Node>)
    requires DataNulFree(children) && DataNotEmptyIn(children)
    ensures ElementValue(children) == FirstData(children)
  {
    if children != [] && !children[0].Data? {
      FirstIsValue(children[1..]);
    }
  }

  lemma BuiltMore(children: seq<Node>, x: Node)
    requires AllBuilt(children) && Built(x)
    ensures AllBuilt(children + [x])
    ensures ElementValue(children + [x])
         == if x.Data? && NoValue(ElementValue(children)) then x.value else ElementValue(children)
  {
    hide ElementValue, NoValue;
    ElementValueSnoc(children, x);
  }

  // Only the end of the text or a < makes data empty.
  lemma DataNotEmpty(s: seq<byte>, i: nat)
    requires CString(s) && i < |s| && s[i] != LT && s[i] != NUL
    ensures var e := Expand(s, i, Text, i); e.Expanded? ==> e.bytes != []
  {
    hide CString;
  }

  lemma {:induction false} AttributesBuilt(s: seq<byte>, i: nat, before: seq<Attribute>)
    requires CString(s) && i < |s| && AllNamed(before)
    ensures var r := ParseAttributes(s, i, before); r.Attributes? ==> AllNamed(r.list)
    decreases |s| - i
  {
    hide CString, ParseValue;
    if Test(AttributeName, s[i]) {
      var r := ParseAttribute(s, i);
      if r.OneAttribute? {
        AttributesBuilt(s, r.next, before + [r.attribute]);
      }
    }
  }

  lemma {:induction false} SkipPastFirst(s: seq<byte>, i: nat, pattern: seq<byte>)
    requires CString(s) && i < |s| && |pattern| > 0 && NUL !in pattern
    ensures var r := SkipPast(s, i, pattern);
            r.Some? ==> forall k :: i <= k < r.value - |pattern| ==> !At(s, k, pattern)
    decreases |s| - i
  {
    hide At;
    if !At(s, i, pattern) && s[i] != NUL {
      SkipPastFirst(s, i + 1, pattern);
    }
  }

  lemma BangBuilt(s: seq<byte>, i: nat)
    requires CString(s) && i < |s| && s[i] == BANG
    ensures var r := ParseBang(s, i); r.Parsed? && r.node.Some? ==> Built(r.node.value) && r.node.value.CData?
  {
    hide SkipPast, SkipDoctype;
    var r := ParseBang(s, i);
    if r.Parsed? && r.node.Some? {
      InText(s, i + 1, CDATA_OPEN);
      SkipPastFirst(s, i + 8, CDATA_END);
      CDataBuilt(s, i + 8, r.next - 3);
    }
  }

  lemma CDataBuilt(s: seq<byte>, from: nat, end: nat)
    requires CString(s) && from <= end && end + 3 < |s|
    requires forall k :: from <= k < end ==> !At(s, k, CDATA_END)
    ensures Built(CData(s[from..end]))
  {
    hide At;
    var value := s[from..end];
    forall k | 0 <= k <= |value|
      ensures !At(value, k, CDATA_END)
    {
      if k + 3 > |value| {
        TooShort(value, k, CDATA_END);
      } else {
        SliceAt(s, from, end, k, CDATA_END);
        assert !At(s, from + k, CDATA_END);
      }
    }
  }

  lemma TooShort(s: seq<byte>, k: nat, p: seq<byte>)
    requires |s| < k + |p|
    ensures !At(s, k, p)
  {
  }

  lemma {:induction false} NodeBuilt(s: seq<byte>, i: nat)
    requires CString(s) && i < |s|
    ensures var r := ParseNode(s, i); r.Parsed? && r.node.Some? ==> Built(r.node.value) && !r.node.value.Data?
    decreases |s| - i, 4
  {
    hide SkipPast, ParseBang, ParseElement, Built, CString;
    if s[i] == BANG {
      BangBuilt(s, i);
    } else if s[i] != QUESTION {
      ElementBuilt(s, i);
    }
  }

  lemma {:induction false} ElementBuilt(s: seq<byte>, i: nat)
    requires CString(s) && i < |s| && s[i] != BANG
    ensures var r := ParseElement(s, i); r.Parsed? && r.node.Some? ==> Built(r.node.value) && r.node.value.Element?
    decreases |s| - i, 3
  {
    hide ParseAttributes, ParseBody, Skip, CString, ElementValue;
    var nameEnd := Skip(s, i, NodeName);
    if nameEnd > i {
      var at := Skip(s, nameEnd, Whitespace);
      AttributesBuilt(s, at, []);
      var a := ParseAttributes(s, at, []);
      if a.Attributes? {
        BodyBuilt(s, a.next);
      }
    }
  }

  lemma {:induction false} BodyBuilt(s: seq<byte>, j: nat)
    requires CString(s) && j < |s|
    ensures var r := ParseBody(s, j); r.Contents? ==> AllBuilt(r.children) && r.value == ElementValue(r.children)
    decreases |s| - j, 2
  {
    hide ParseContents;
    if s[j] == GT {
      ContentsBuilt(s, j + 1, [], []);
    }
  }

  lemma {:induction false} ContentsBuilt(s: seq<byte>, i: nat, children: seq<Node>, value: seq<byte>)
    requires CString(s) && i < |s| && AllBuilt(children) && value == ElementValue(children)
    ensures var r := ParseContents(s, i, children, value);
            r.Contents? ==> AllBuilt(r.children) && r.value == ElementValue(r.children)
    decreases |s| - i, 2
  {
    hide CString, Expand, ParseTag, AfterData, AllBuilt, ElementValue, NoValue;
    var j := Skip(s, i, Whitespace);
    if s[j] == LT {
      TagBuilt(s, j, children, value);
    } else if s[j] != NUL {
      DataNotEmpty(s, i);
      var e := Expand(s, i, Text, i);
      if e.Expanded? {
        BuiltMore(children, Data(e.bytes));
        AfterDataBuilt(s, e.end, children + [Data(e.bytes)], if NoValue(value) then e.bytes else value);
      }
    }
  }

  lemma {:induction false} AfterDataBuilt(s: seq<byte>, i: nat, children: seq<Node>, value: seq<byte>)
    requires CString(s) && i < |s| && AllBuilt(children) && value == ElementValue(children)
    ensures var r := AfterData(s, i, children, value);
            r.Contents? ==> AllBuilt(r.children) && r.value == ElementValue(r.children)
    decreases |s| - i, 1
  {
    hide CString, ParseTag, AllBuilt, ElementValue;
    if s[i] == LT {
      TagBuilt(s, i, children, value);
    }
  }

  lemma {:induction false} TagBuilt(s: seq<byte>, i: nat, children: seq<Node>, value: seq<byte>)
    requires CString(s) && i < |s| && s[i] == LT && AllBuilt(children) && value == ElementValue(children)
    ensures var r := ParseTag(s, i, children, value);
            r.Contents? ==> AllBuilt(r.children) && r.value == ElementValue(r.children)
    decreases |s| - i, 0
  {
    hide ParseNode, ParseContents, AllBuilt, ElementValue, Built, Skip;
    if s[i + 1] != SLASH {
      NodeBuilt(s, i + 1);
      var r := ParseNode(s, i + 1);
      if r.Parsed? {
        if r.node.Some? {
          BuiltMore(children, r.node.value);
        }
        ContentsBuilt(s, r.next, if r.node.Some? then children + [r.node.value] else children, value);
      }
    }
  }

  ghost predicate BuiltDocument(nodes: seq<Node>) {
    forall k :: 0 <= k < |nodes| ==> Built(nodes[k]) && !nodes[k].Data?
  }

  lemma {:induction false} NodesBuilt(s: seq<byte>, i: nat, nodes: seq<Node>)
    requires CString(s) && i < |s| && BuiltDocument(nodes)
    ensures var d := ParseNodes(s, i, nodes); d.Document? ==> BuiltDocument(d.nodes)
    decreases |s| - i
  {
    hide ParseNode, Built, Skip;
    var j := Skip(s, i, Whitespace);
    if s[j] == LT {
      NodeBuilt(s, j + 1);
      var r := ParseNode(s, j + 1);
      if r.Parsed? {
        NodesBuilt(s, r.next, if r.node.Some? then nodes + [r.node.value] else nodes);
      }
    }
  }

  lemma ParseBuilds(s: seq<byte>)
    requires CString(s)
    ensures var d := Parse(s); d.Document? ==> BuiltDocument(d.nodes)
  {
    hide Built;
    NodesBuilt(s, AfterBom(s), []);
  }

  // ---- Printing what was parsed ----

  lemma {:induction false} BuiltLegal(node: Node)
    requires Built(node)
    ensures Legal(node) <==> TextNulFree(node)
    decreases node
  {
    if node.Element? {
      assert forall k :: 0 <= k < |node.attributes| ==> Named(node.attributes[k]);
      forall k | 0 <= k < |node.children|
        ensures Legal(node.children[k]) <==> TextNulFree(node.children[k])
      {
        BuiltLegal(node.children[k]);
      }
    }
  }

  // A parsed document is one the printer can print if and only if no text in it holds a NUL, and
  // then parsing what is printed gives its normal form: nothing but blank text, and the borders
  // between adjacent texts, gets lost.
  lemma ParsedPrints(s: seq<byte>)
    requires CString(s) && Parse(s).Document?
    ensures var nodes := Parse(s).nodes;
            && (LegalDocument(nodes) <==> forall k :: 0 <= k < |nodes| ==> TextNulFree(nodes[k]))
            && (LegalDocument(nodes) ==>
                  && CString(PrintChildren(nodes) + [NUL])
                  && Parse(PrintChildren(nodes) + [NUL]) == Document(NormalAll(nodes)))
  {
    hide Parse, Built, Legal, TextNulFree, PrintChildren;
    var nodes := Parse(s).nodes;
    ParseBuilds(s);
    forall k | 0 <= k < |nodes|
      ensures Legal(nodes[k]) <==> TextNulFree(nodes[k])
    {
      BuiltLegal(nodes[k]);
    }
    if LegalDocument(nodes) {
      PrintParseNormalizes(nodes);
    }
  }

  // No blank text and no two texts side by side, at any depth.
  ghost predicate Neat(node: Node)
    decreases node
  {
    && (node.Data? ==> !OnlySpace(node.value))
    && (node.Element? ==>
          Alternating(node.children) && forall k :: 0 <= k < |node.children| ==> Neat(node.children[k]))
  }

  lemma {:induction false} BuiltPrintable(node: Node)
    requires Built(node) && TextNulFree(node)
    ensures Printable(node) <==> Neat(node)
    decreases node
  {
    hide OnlySpace;
    BuiltLegal(node);
    if node.Element? {
      assert DataNulFree(node.children) by {
        assert forall k :: 0 <= k < |node.children| ==> TextNulFree(node.children[k]);
      }
      assert DataNotEmptyIn(node.children) by {
        assert forall k :: 0 <= k < |node.children| ==> Built(node.children[k]);
      }
      FirstIsValue(node.children);
      forall k | 0 <= k < |node.children|
        ensures Printable(node.children[k]) <==> Neat(node.children[k])
      {
        BuiltPrintable(node.children[k]);
      }
    }
  }

  // ---- Printing text with NULs ----

  // The same with another byte for every NUL.
  function Mask(v: seq<byte>): seq<byte> {
    seq(|v|, k requires 0 <= k < |v| => if v[k] == NUL then LOWER_X else v[k])
  }

  function MaskAttributes(attributes: seq<Attribute>): seq<Attribute> {
    if attributes == [] then []
    else [Attribute(attributes[0].name, Mask(attributes[0].value))] + MaskAttributes(attributes[1..])
  }

  function MaskNode(node: Node): Node
    decreases node, 0
  {
    match node
    case Data(value) => Data(Mask(value))
    case CData(_) => node
    case Element(name, attributes, children, value) =>
      Element(name, MaskAttributes(attributes), MaskAll(children), Mask(value))
  }

  function MaskAll(nodes: seq<Node>): (r: seq<Node>)
    ensures |r| == |nodes| && forall k :: 0 <= k < |nodes| ==> r[k] == MaskNode(nodes[k])
    decreases nodes
  {
    if nodes == [] then [] else [MaskNode(nodes[0])] + MaskAll(nodes[1..])
  }

  lemma MaskConcat(a: seq<byte>, b: seq<byte>)
    ensures Mask(a + b) == Mask(a) + Mask(b)
  {
  }

  lemma MaskNothing(v: seq<byte>)
    requires NulFree(v)
    ensures Mask(v) == v
  {
  }

  lemma MaskEscapeByte(b: byte, noexpand: byte)
    requires noexpand != LOWER_X
    ensures Mask(EscapeByte(b, noexpand)) == if b == NUL then [LOWER_X] else EscapeByte(b, noexpand)
    ensures EscapeByte(LOWER_X, noexpand) == [LOWER_X]
  {
  }

  lemma {:induction false} MaskEscape(v: seq<byte>, noexpand: byte)
    requires noexpand != LOWER_X
    ensures Escape(Mask(v), noexpand) == Mask(Escape(v, noexpand))
  {
    hide EscapeByte;
    if v == [] {
      assert Mask(v) == [];
    } else {
      assert Mask(v) == [if v[0] == NUL then LOWER_X else v[0]] + Mask(v[1..]);
      MaskEscape(v[1..], noexpand);
      MaskEscapeByte(v[0], noexpand);
      MaskConcat(EscapeByte(v[0], noexpand), Escape(v[1..], noexpand));
    }
  }

  lemma MaskAttribute(a: Attribute)
    requires Named(a)
    ensures PrintAttribute(Attribute(a.name, Mask(a.value))) == Mask(PrintAttribute(a))
    ensures LegalAttribute(Attribute(a.name, Mask(a.value)))
  {
    hide Escape;
    var quote := QuoteFor(a.value);
    assert QUOT in Mask(a.value) <==> QUOT in a.value by {
      assert forall k :: 0 <= k < |a.value| ==> (Mask(a.value)[k] == QUOT <==> a.value[k] == QUOT);
    }
    AllNulFree(a.name, AttributeName);
    MaskEscape(a.value, OtherQuote(quote));
    var text := Escape(a.value, OtherQuote(quote));
    var before := [SPACE] + a.name + [EQ, quote];
    MaskNothing(before);
    MaskNothing([quote]);
    MaskConcat(before, text);
    MaskConcat(before + text, [quote]);
  }

  lemma {:induction false} MaskAttributesPrints(attributes: seq<Attribute>)
    requires AllNamed(attributes)
    ensures PrintAttributes(MaskAttributes(attributes)) == Mask(PrintAttributes(attributes))
    ensures forall k :: 0 <= k < |MaskAttributes(attributes)| ==> LegalAttribute(MaskAttributes(attributes)[k])
  {
    hide PrintAttribute, LegalAttribute, Mask;
    if attributes == [] {
      MaskNothing([]);
    } else {
      var a, tail := attributes[0], attributes[1..];
      MaskAttribute(a);
      MaskAttributesPrints(tail);
      MaskConcat(PrintAttribute(a), PrintAttributes(tail));
      var m := MaskAttributes(attributes);
      assert m == [Attribute(a.name, Mask(a.value))] + MaskAttributes(tail) && m[1..] == MaskAttributes(tail);
    }
  }

  // What is printed changes in the same way, and is legal.
  lemma {:induction false} MaskPrints(node: Node)
    requires Built(node)
    ensures PrintNode(MaskNode(node)) == Mask(PrintNode(node)) && Legal(MaskNode(node))
    decreases node
  {
    hide Mask, Escape;
    match node
    case Data(value) =>
      MaskEscape(value, NUL);
      MaskLegal(value);
    case CData(value) => MaskNothing(PrintNode(node));
    case Element(name, attributes, children, value) =>
      MaskAllPrints(children);
      MaskElement(node);
  }

  lemma MaskLegal(value: seq<byte>)
    ensures NulFree(Mask(value))
    ensures Mask(value) == [] <==> value == []
  {
  }

  lemma {:induction false} MaskAllPrints(nodes: seq<Node>)
    requires AllBuilt(nodes)
    ensures PrintChildren(MaskAll(nodes)) == Mask(PrintChildren(nodes))
    ensures forall k :: 0 <= k < |nodes| ==> Legal(MaskNode(nodes[k]))
    decreases nodes
  {
    hide Mask, PrintNode, MaskNode, Legal, Built;
    if nodes == [] {
      MaskNothing([]);
    } else {
      MaskPrints(nodes[0]);
      MaskAllPrints(nodes[1..]);
      MaskConcat(PrintNode(nodes[0]), PrintChildren(nodes[1..]));
      assert MaskAll(nodes)[1..] == MaskAll(nodes[1..]);
      assert forall k :: 0 < k < |nodes| ==> nodes[k] == nodes[1..][k - 1];
    }
  }

  lemma MaskElement(node: Node)
    requires Built(node) && node.Element?
    requires PrintChildren(MaskAll(node.children)) == Mask(PrintChildren(node.children))
    requires forall k :: 0 <= k < |node.children| ==> Legal(MaskNode(node.children[k]))
    ensures PrintNode(MaskNode(node)) == Mask(PrintNode(node)) && Legal(MaskNode(node))
  {
    var masked := MaskNode(node);
    MaskAttributesPrints(node.attributes);
    AllNulFree(node.name, NodeName);
    MaskLegal(node.value);
    hide Mask, Escape, PrintAttributes, PrintChildren, MaskAttributes;
    assert Legal(masked);
    hide Built, Legal, LegalAttribute;
    MaskElementPrints(node);
  }

  lemma MaskElementPrints(node: Node)
    requires node.Element? && NulFree(node.name)
    requires PrintChildren(MaskAll(node.children)) == Mask(PrintChildren(node.children))
    requires PrintAttributes(MaskAttributes(node.attributes)) == Mask(PrintAttributes(node.attributes))
    ensures PrintNode(MaskNode(node)) == Mask(PrintNode(node))
  {
    hide Mask, PrintNode, PrintAttributes, PrintChildren, MaskAttributes, TagTail;
    ElementText(node);
    ElementText(MaskNode(node));
    MaskTail(node);
    var attributes := PrintAttributes(node.attributes);
    MaskNothing([LT]);
    MaskNothing(node.name);
    MaskConcat(attributes, TagTail(node));
    MaskConcat(node.name, attributes + TagTail(node));
    MaskConcat([LT], node.name + (attributes + TagTail(node)));
  }

  lemma MaskTail(node: Node)
    requires node.Element? && NulFree(node.name)
    requires PrintChildren(MaskAll(node.children)) == Mask(PrintChildren(node.children))
    ensures TagTail(MaskNode(node)) == Mask(TagTail(node))
  {
    MaskLegal(node.value);
    MaskNothing([SLASH, GT]);
    hide Mask, Escape, PrintChildren, MaskAttributes;
    var text, children, close := Escape(OwnText(node), NUL), PrintChildren(node.children), ClosingTag(node.name);
    NothingMasked();
    MaskEscape(OwnText(node), NUL);
    MaskNothing([GT]);
    MaskNothing(close);
    MaskConcat(children, close);
    MaskConcat(text, children + close);
    MaskConcat([GT], text + (children + close));
  }

  lemma NothingMasked()
    ensures Mask([]) == []
  {
  }

  // Text that is printed stops at its first NUL for who reads it.
  function PrintedText(nodes: seq<Node>): seq<byte> {
    CText(PrintChildren(nodes)) + [NUL]
  }

  // What is left of a text with NULs parses, if at all, to nodes without: not to what was printed.
  lemma NulLost(nodes: seq<Node>)
    requires BuiltDocument(nodes) && exists k :: 0 <= k < |nodes| && !TextNulFree(nodes[k])
    ensures CString(PrintedText(nodes)) && Parse(PrintedText(nodes)) != Document(nodes)
  {
    hide Parse, Built, Legal, TextNulFree, PrintChildren, MaskNode, Normal, Mask;
    MaskAllPrints(nodes);
    MaskKinds(nodes);
    var masked, whole := MaskAll(nodes), PrintChildren(nodes);
    PrintParseNormalizes(masked);
    var t, c := Mask(whole) + [NUL], |CText(whole)|;
    MaskAgrees(whole);
    assert PrintedText(nodes) == t[..c] + [NUL];
    XmlCut.CutDocument(t, c);
    forall k | 0 <= k < |nodes|
      ensures Legal(NormalAll(masked)[k]) && (Legal(nodes[k]) ==> TextNulFree(nodes[k]))
    {
      NormalPrintable(masked[k]);
      PrintableLegal(Normal(masked[k]));
      BuiltLegal(nodes[k]);
    }
  }

  lemma MaskAgrees(v: seq<byte>)
    ensures var c := |CText(v)|; c <= |v| == |Mask(v)| && CText(v) == Mask(v)[..c]
  {
  }

  lemma MaskKinds(nodes: seq<Node>)
    requires BuiltDocument(nodes)
    ensures forall k :: 0 <= k < |nodes| ==> !MaskAll(nodes)[k].Data?
  {
  }

  lemma PrintableLegal(node: Node)
    requires Printable(node)
    ensures Legal(node)
  {
  }

  // A parsed document survives being printed and parsed again if and only if, at any depth, no
  // text in it holds a NUL, no text is blank, and no two texts stand side by side.
  lemma ParsedSurvivesIff(s: seq<byte>)
    requires CString(s) && Parse(s).Document?
    ensures var nodes := Parse(s).nodes;
            && CString(PrintedText(nodes))
            && (Parse(PrintedText(nodes)) == Document(nodes)
                <==> forall k :: 0 <= k < |nodes| ==> TextNulFree(nodes[k]) && Neat(nodes[k]))
  {
    hide Parse, Built, Legal, TextNulFree, PrintChildren, Printable, Neat;
    var nodes := Parse(s).nodes;
    ParseBuilds(s);
    if forall k :: 0 <= k < |nodes| ==> TextNulFree(nodes[k]) {
      ParsedPrints(s);
      forall k | 0 <= k < |nodes|
        ensures Printable(nodes[k]) <==> Neat(nodes[k])
      {
        BuiltPrintable(nodes[k]);
      }
      RoundTripIff(nodes);
      PrintedWhole(nodes);
    } else {
      NulLost(nodes);
    }
  }

  lemma PrintedWhole(nodes: seq<Node>)
    requires CString(PrintChildren(nodes) + [NUL])
    ensures PrintedText(nodes) == PrintChildren(nodes) + [NUL]
  {
    var p := PrintChildren(nodes);
    assert forall k :: 0 <= k < |p| ==> p[k] == (p + [NUL])[k];
    WholeText(p);
  }

  // <a>&#32;</a>
  const BLANK_TEXT: seq<byte> := [60, 97, 62, 38, 35, 51, 50, 59, 60, 47, 97, 62, 0]

  // <a>x<!>y</a>
  const SPLIT_TEXT: seq<byte> := [60, 97, 62, 120, 60, 33, 62, 121, 60, 47, 97, 62, 0]

  // <a>&#00;</a>
  const NUL_TEXT: seq<byte> := [60, 97, 62, 38, 35, 48, 48, 59, 60, 47, 97, 62, 0]

  const X := Data([LOWER_X])
  const Y := Data([121])

  // What stands in the first element of these texts becomes the only node.
  lemma OnlyElement(s: seq<byte>, children: seq<Node>, value: seq<byte>)
    requires CString(s) && |s| == 13 && s[..3] == [LT, LOWER_A, GT]
    requires ParseContents(s, 3, [], []) == Contents(children, value, 12)
    ensures Parse(s) == Document([Element([LOWER_A], [], children, value)])
  {
    hide ParseNode;
    var a := Element([LOWER_A], [], children, value);
    FirstElement(s, children, value);
    assert s[0] == s[..3][0];
    assert s[0..3] == s[..3] && !At(s, 0, BOM);
    hide At, ParseContents;
    assert s[12] == NUL && [] + [a] == [a];
    assert ParseNodes(s, 12, [a]) == Document([a]);
    assert ParseNodes(s, 0, []) == Document([a]);
  }

  lemma FirstElement(s: seq<byte>, children: seq<Node>, value: seq<byte>)
    requires CString(s) && |s| == 13 && s[..3] == [LT, LOWER_A, GT]
    requires ParseContents(s, 3, [], []) == Contents(children, value, 12)
    ensures ParseNode(s, 1) == Parsed(Some(Element([LOWER_A], [], children, value)), 12)
  {
    hide ParseContents;
    assert s[1] == s[..3][1] && s[2] == s[..3][2];
    assert s[1..2] == [LOWER_A];
    assert Skip(s, 2, Whitespace) == 2;
    assert Skip(s, 1, NodeName) == 2;
    hide Skip;
    assert ParseAttributes(s, 2, []) == Attributes([], 2);
    assert ParseBody(s, 2) == Contents(children, value, 12);
  }

  // And is closed at position 8.
  lemma ElementEnds(s: seq<byte>, children: seq<Node>, value: seq<byte>)
    requires CString(s) && |s| == 13 && s[8] == LT && s[9] == SLASH && s[10] == LOWER_A && s[11] == GT
    ensures ParseTag(s, 8, children, value) == Contents(children, value, 12)
  {
    hide ParseNode, ParseContents;
    assert Skip(s, 10, NodeName) == 11 && Skip(s, 11, Whitespace) == 11;
  }

  // A parsed document with blank text: it came from a reference.
  lemma BlankTextParsed()
    ensures Parse(BLANK_TEXT) == Document([Element([LOWER_A], [], [Data([SPACE])], [SPACE])])
  {
    hide Parse, ParseContents;
    BlankTextContents();
    OnlyElement(BLANK_TEXT, [Data([SPACE])], [SPACE]);
  }

  lemma BlankTextExpands()
    ensures Expand(BLANK_TEXT, 3, Text, 3) == Expanded([SPACE], 8)
  {
    assert Numeric(BLANK_TEXT, 3) == (32, 7);
  }

  lemma BlankTextContents()
    ensures ParseContents(BLANK_TEXT, 3, [], []) == Contents([Data([SPACE])], [SPACE], 12)
  {
    hide ParseTag, Expand;
    BlankTextExpands();
    assert Skip(BLANK_TEXT, 3, Whitespace) == 3;
    assert [] + [Data([SPACE])] == [Data([SPACE])];
    ElementEnds(BLANK_TEXT, [Data([SPACE])], [SPACE]);
  }

  // And one with two texts side by side: markup that makes no node stood between them.
  lemma SplitTextParsed()
    ensures Parse(SPLIT_TEXT) == Document([Element([LOWER_A], [], [X, Y], [LOWER_X])])
  {
    hide Parse, ParseContents;
    SplitTextStarts();
    OnlyElement(SPLIT_TEXT, [X, Y], [LOWER_X]);
  }

  lemma SplitTextStarts()
    ensures ParseContents(SPLIT_TEXT, 3, [], []) == Contents([X, Y], [LOWER_X], 12)
  {
    hide ParseTag;
    SplitTextGoesOn();
    assert Expand(SPLIT_TEXT, 3, Text, 3) == Expanded([LOWER_X], 4);
    hide Expand;
    assert [] + [X] == [X];
  }

  lemma SplitTextSkips()
    ensures ParseNode(SPLIT_TEXT, 5) == Parsed(None, 7)
  {
    hide ParseElement, SkipDoctype;
    assert SPLIT_TEXT[6..7] == [GT] && SkipPast(SPLIT_TEXT, 6, [GT]) == Some(7);
    hide SkipPast;
  }

  lemma SplitTextGoesOn()
    ensures ParseTag(SPLIT_TEXT, 4, [X], [LOWER_X]) == Contents([X, Y], [LOWER_X], 12)
  {
    hide ParseNode, ParseContents;
    SplitTextSkips();
    SplitTextEnds();
  }

  lemma SplitTextEnds()
    ensures ParseContents(SPLIT_TEXT, 7, [X], [LOWER_X]) == Contents([X, Y], [LOWER_X], 12)
  {
    hide ParseTag;
    assert Expand(SPLIT_TEXT, 7, Text, 7) == Expanded(Y.value, 8);
    hide Expand;
    assert [X] + [Y] == [X, Y];
    ElementEnds(SPLIT_TEXT, [X, Y], [LOWER_X]);
  }

  // And one with a NUL in its text, which ends what is printed in the middle of the element.
  lemma NulTextParsed()
    ensures var nodes := [Element([LOWER_A], [], [Data([NUL])], [NUL])];
            && Parse(NUL_TEXT) == Document(nodes)
            && PrintedText(nodes) == [LT, LOWER_A, GT, NUL]
            && Parse(PrintedText(nodes)) == BadDocument(ParseError(UnexpectedEnd, 3))
  {
    hide Parse, ParseContents;
    NulTextContents();
    OnlyElement(NUL_TEXT, [Data([NUL])], [NUL]);
    NulTextPrints();
    NulTextFails();
  }

  lemma NulTextContents()
    ensures ParseContents(NUL_TEXT, 3, [], []) == Contents([Data([NUL])], [NUL], 12)
  {
    hide ParseTag, Expand;
    NulTextExpands();
    assert Skip(NUL_TEXT, 3, Whitespace) == 3;
    assert [] + [Data([NUL])] == [Data([NUL])];
    ElementEnds(NUL_TEXT, [Data([NUL])], [NUL]);
  }

  lemma NulTextExpands()
    ensures Expand(NUL_TEXT, 3, Text, 3) == Expanded([NUL], 8)
  {
    assert Numeric(NUL_TEXT, 3) == (0, 7);
  }

  lemma NulTextPrints()
    ensures PrintedText([Element([LOWER_A], [], [Data([NUL])], [NUL])]) == [LT, LOWER_A, GT, NUL]
  {
    var node := Element([LOWER_A], [], [Data([NUL])], [NUL]);
    var close := ClosingTag([LOWER_A]);
    assert [NUL][1..] == [] && Escape([NUL], NUL) == [NUL];
    assert PrintInner([Data([NUL])], [NUL]) == [NUL];
    hide PrintInner;
    assert PrintNode(node) == [LT, LOWER_A, GT, NUL] + close;
    hide PrintNode;
    assert [node][1..] == [] && PrintChildren([node]) == [LT, LOWER_A, GT, NUL] + close;
    assert PrintChildren([node])[3] == NUL;
  }

  lemma NulTextFails()
    ensures Parse([LT, LOWER_A, GT, NUL]) == BadDocument(ParseError(UnexpectedEnd, 3))
  {
    var s := [LT, LOWER_A, GT, NUL];
    assert ParseContents(s, 3, [], []) == FailedContents(ParseError(UnexpectedEnd, 3));
    hide ParseContents;
    assert s[1..2] == [LOWER_A];
    assert ParseAttributes(s, 2, []) == Attributes([], 2);
    assert ParseBody(s, 2) == FailedContents(ParseError(UnexpectedEnd, 3));
    assert Skip(s, 1, NodeName) == 2 && Skip(s, 2, Whitespace) == 2;
    assert ParseNode(s, 1) == Failed(ParseError(UnexpectedEnd, 3));
  }
}
