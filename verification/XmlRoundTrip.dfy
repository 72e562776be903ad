/** What printing a document and parsing the text does to it: the tree comes back in normal form,
    and the normal forms are exactly the trees that come back unchanged. */
module XmlRoundTrip {
  import opened Wrappers
  import opened Bytes
  import opened XmlGrammar
  import opened XmlPrint

  ghost predicate All(v: seq<byte>, c: Class) {
    forall k :: 0 <= k < |v| ==> Test(c, v[k])
  }

  predicate NulFree(v: seq<byte>) {
    NUL !in v
  }

  predicate OnlySpace(v: seq<byte>) {
    forall k :: 0 <= k < |v| ==> IsSpace(v[k])
  }

  ghost predicate LegalAttribute(a: Attribute) {
    a.name != [] && All(a.name, AttributeName) && NulFree(a.value)
  }

  // The text of the first data child: what the parser makes the element's value.
  function FirstData(children: seq<Node>): seq<byte> {
    if children == [] then []
    else if children[0].Data? then children[0].value
    else FirstData(children[1..])
  }

  // A tree with legal names, text without NUL, and CDATA that does not end early.
  ghost predicate Legal(node: Node)
    decreases node
  {
    match node
    case Data(value) => NulFree(value)
    case CData(value) => NulFree(value) && forall k :: 0 <= k <= |value| ==> !At(value, k, CDATA_END)
    case Element(name, attributes, children, value) =>
      && name != [] && All(name, NodeName) && name[0] != BANG
      && (forall k :: 0 <= k < |attributes| ==> LegalAttribute(attributes[k]))
      && NulFree(value)
      && (forall k :: 0 <= k < |children| ==> Legal(children[k]))
  }

  // The further conditions a tree meets that comes back as it is: data is more than white space
  // and not split into adjacent nodes, and an element's value is its first data child.
  ghost predicate Printable(node: Node)
    decreases node
  {
    && Legal(node)
    && (node.Data? ==> !OnlySpace(node.value))
    && (node.Element? ==>
          && node.value == FirstData(node.children)
          && Alternating(node.children)
          && forall k :: 0 <= k < |node.children| ==> Printable(node.children[k]))
  }

  // Text becomes one data node, or none if it is white space.
  function TextNode(text: seq<byte>): seq<Node> {
    if OnlySpace(text) then [] else [Data(text)]
  }

  // The children with adjacent data joined, white space dropped and elements in normal form;
  // `text` is data standing before them.
  function Merge(children: seq<Node>, text: seq<byte>): seq<Node>
    decreases children, 0
  {
    if children == [] then TextNode(text)
    else if children[0].Data? then Merge(children[1..], text + children[0].value)
    else TextNode(text) + [Normal(children[0])] + Merge(children[1..], [])
  }

  function Normal(node: Node): Node
    decreases node, 1
  {
    if node.Element? then
      var children := Merge(node.children, OwnText(node));
      Element(node.name, node.attributes, children, FirstData(children))
    else node
  }

  // The value is printed as text when there are no children.
  function OwnText(node: Node): seq<byte>
    requires node.Element?
  {
    if node.children == [] then node.value else []
  }

  ghost predicate Alternating(children: seq<Node>) {
    forall k :: 0 < k < |children| ==> !(children[k].Data? && children[k - 1].Data?)
  }

  // ---- Positions ----

  lemma AtConcat(s: seq<byte>, i: nat, a: seq<byte>, b: seq<byte>)
    ensures At(s, i, a + b) <==> At(s, i, a) && At(s, i + |a|, b)
  {
    var n := |a| + |b|;
    if i + n <= |s| {
      assert s[i..i + n] == s[i..i + |a|] + s[i + |a|..i + n];
      if s[i..i + n] == a + b {
        assert s[i..i + |a|] == s[i..i + n][..|a|] == a;
        assert s[i + |a|..i + n] == s[i..i + n][|a|..] == b;
      }
    }
  }

  lemma AtByte(s: seq<byte>, i: nat, b: byte)
    ensures At(s, i, [b]) <==> i < |s| && s[i] == b
  {
  }

  lemma AtBytes(s: seq<byte>, i: nat, p: seq<byte>)
    requires At(s, i, p)
    ensures i + |p| <= |s|
    ensures forall k :: i <= k < i + |p| ==> s[k] == p[k - i]
  {
    assert forall k :: i <= k < i + |p| ==> s[k] == s[i..i + |p|][k - i];
  }

  lemma SliceAt(s: seq<byte>, from: nat, end: nat, k: nat, p: seq<byte>)
    requires from <= end <= |s| && from + k + |p| <= end
    ensures At(s[from..end], k, p) <==> At(s, from + k, p)
  {
    var a, b := s[from..end][k..k + |p|], s[from + k..from + k + |p|];
    forall j | 0 <= j < |p|
      ensures a[j] == b[j]
    {
      assert a[j] == s[from..end][k + j] == s[from + k + j];
    }
    assert a == b;
  }

  // ---- Skipping ----

  lemma {:induction false} SkipAll(s: seq<byte>, i: nat, p: seq<byte>, c: Class)
    requires CString(s) && At(s, i, p) && All(p, c) && i + |p| < |s| && !Test(c, s[i + |p|])
    ensures Skip(s, i, c) == i + |p|
    decreases |p|
  {
    if p != [] {
      AtBytes(s, i, p);
      assert p == [p[0]] + p[1..];
      AtConcat(s, i, [p[0]], p[1..]);
      SkipAll(s, i + 1, p[1..], c);
    }
  }

  // ---- References ----

  // The classes the printer's output is read in, with the byte each leaves unescaped.
  predicate Reads(c: Class, noexpand: byte) {
    (c == Text && noexpand == NUL) || (c == Single && noexpand == QUOT) || (c == Double && noexpand == APOS)
  }

  lemma EscapedByteReads(s: seq<byte>, i: nat, b: byte, noexpand: byte, c: Class)
    requires CString(s) && Reads(c, noexpand) && b != NUL
    requires At(s, i, EscapeByte(b, noexpand))
    ensures i + |EscapeByte(b, noexpand)| < |s| && Test(c, s[i])
    ensures s[i] == AMP ==> s[i + 1] != HASH && Named(s, i) == Some((b, |EscapeByte(b, noexpand)|))
    ensures s[i] != AMP ==> s[i] == b && |EscapeByte(b, noexpand)| == 1
  {
    var p := EscapeByte(b, noexpand);
    AtBytes(s, i, p);
    if p[0] == AMP {
      assert p == p[..2] + p[2..];
      AtConcat(s, i, p[..2], p[2..]);
      NamedReads(s, i, b);
    }
  }

  lemma NamedReads(s: seq<byte>, i: nat, b: byte)
    requires CString(s) && b in {LT, GT, APOS, QUOT, AMP} && At(s, i, EscapeByte(b, NUL))
    ensures i + |EscapeByte(b, NUL)| < |s|
    ensures s[i] == AMP && s[i + 1] != HASH && Named(s, i) == Some((b, |EscapeByte(b, NUL)|))
  {
    var p := EscapeByte(b, NUL);
    InText(s, i, p);
    var rest := p[2..];
    assert s[i + 2..i + |p|] == rest by {
      assert s[i..i + |p|][2..] == s[i + 2..i + |p|];
    }
    if b == APOS {
      assert s[i + 2] == 112;
      assert !At(s, i + 2, MP_SEMI) by {
        if At(s, i + 2, MP_SEMI) {
          AtBytes(s, i + 2, MP_SEMI);
        }
      }
    }
  }

  // Expanding an escaped text gives the text back.
  lemma {:induction false} ExpandEscape(s: seq<byte>, i: nat, v: seq<byte>, noexpand: byte, c: Class, dest: nat)
    requires CString(s) && Reads(c, noexpand) && NulFree(v)
    requires At(s, i, Escape(v, noexpand))
    requires i + |Escape(v, noexpand)| < |s| && !Test(c, s[i + |Escape(v, noexpand)|])
    ensures Expand(s, i, c, dest) == Expanded(v, i + |Escape(v, noexpand)|)
    decreases |v|
  {
    hide EscapeByte, Expand, Test, Named, At, CString;
    if v == [] {
      NoStep(s, i, c, dest);
    } else {
      var b := v[0];
      AtConcat(s, i, EscapeByte(b, noexpand), Escape(v[1..], noexpand));
      EscapedByteReads(s, i, b, noexpand, c);
      ByteStep(s, i, c, dest);
      ExpandEscape(s, i + |EscapeByte(b, noexpand)|, v[1..], noexpand, c, dest + 1);
      assert [b] + v[1..] == v;
    }
  }

  // ---- Attributes ----

  // Where the parts of a printed attribute stand.
  lemma AttributeParts(s: seq<byte>, i: nat, a: Attribute)
    requires CString(s) && LegalAttribute(a) && At(s, i, PrintAttribute(a)) && i + |PrintAttribute(a)| < |s|
    ensures var quote := QuoteFor(a.value);
            var text := Escape(a.value, OtherQuote(quote));
            var n := i + 1 + |a.name|;
            && n + 2 + |text| + 1 == i + |PrintAttribute(a)|
            && s[i] == SPACE && s[i + 1] == a.name[0] && s[i + 1..n] == a.name
            && At(s, i, [SPACE]) && At(s, i + 2, a.name[1..])
            && s[n] == EQ && s[n + 1] == quote && At(s, n + 2, text) && s[n + 2 + |text|] == quote
  {
    hide Escape, At;
    var quote := QuoteFor(a.value);
    var text := Escape(a.value, OtherQuote(quote));
    var n := i + 1 + |a.name|;
    AtConcat(s, i, [SPACE] + a.name + [EQ, quote] + text, [quote]);
    AtConcat(s, i, [SPACE] + a.name + [EQ, quote], text);
    AtConcat(s, i, [SPACE] + a.name, [EQ, quote]);
    AtConcat(s, i, [SPACE], a.name);
    AtBytes(s, i, [SPACE]);
    AtBytes(s, n, [EQ, quote]);
    AtBytes(s, i + 1, a.name);
    AtBytes(s, n + 2 + |text|, [quote]);
    assert a.name == [a.name[0]] + a.name[1..];
    AtConcat(s, i + 1, [a.name[0]], a.name[1..]);
    AtSlice(s, i + 1, a.name);
  }

  lemma AtSlice(s: seq<byte>, i: nat, p: seq<byte>)
    requires At(s, i, p)
    ensures i + |p| <= |s| && s[i..i + |p|] == p
  {
  }

  // The name of a printed attribute ends where its = stands.
  lemma AttributeNameReads(s: seq<byte>, i: nat, a: Attribute)
    requires CString(s) && LegalAttribute(a) && At(s, i, PrintAttribute(a)) && i + |PrintAttribute(a)| < |s|
    ensures var n := i + 1 + |a.name|;
            && i + 1 < |s| && Skip(s, i, Whitespace) == i + 1 && Test(AttributeName, s[i + 1])
            && n + 1 < |s| && Skip(s, i + 2, AttributeName) == n && Skip(s, n, Whitespace) == n
            && Skip(s, n + 1, Whitespace) == n + 1
  {
    hide Escape, At, PrintAttribute, Skip, CString, QuoteFor;
    var n := i + 1 + |a.name|;
    AttributeParts(s, i, a);
    SkipAll(s, i, [SPACE], Whitespace);
    SkipAll(s, i + 2, a.name[1..], AttributeName);
    SkipNone(s, n, Whitespace);
    SkipNone(s, n + 1, Whitespace);
  }

  lemma AttributeReads(s: seq<byte>, i: nat, a: Attribute)
    requires CString(s) && LegalAttribute(a) && At(s, i, PrintAttribute(a)) && i + |PrintAttribute(a)| < |s|
    ensures i + 1 < |s| && Skip(s, i, Whitespace) == i + 1 && Test(AttributeName, s[i + 1])
    ensures ParseAttribute(s, i + 1) == OneAttribute(a, Skip(s, i + |PrintAttribute(a)|, Whitespace))
  {
    hide Expand, Escape, At, PrintAttribute, Skip, CString, QuoteFor, ParseAttribute;
    var quote := QuoteFor(a.value);
    var n := i + 1 + |a.name|;
    AttributeParts(s, i, a);
    EndsBefore(s, i + |PrintAttribute(a)| - 1);
    AttributeNameReads(s, i, a);
    hide LegalAttribute, Test;
    ExpandEscape(s, n + 2, a.value, OtherQuote(quote), if quote == APOS then Single else Double, n + 2);
    AttributeAssembles(s, i + 1, n, a.value, n + 2 + |Escape(a.value, OtherQuote(quote))|);
  }

  lemma AttributeAssembles(s: seq<byte>, i: nat, n: nat, value: seq<byte>, end: nat)
    requires CString(s) && i < n && n + 2 <= end < |s| - 1 && Test(AttributeName, s[i])
    requires Skip(s, i + 1, AttributeName) == n && Skip(s, n, Whitespace) == n && s[n] == EQ
    requires Skip(s, n + 1, Whitespace) == n + 1 && (s[n + 1] == APOS || s[n + 1] == QUOT)
    requires Expand(s, n + 2, if s[n + 1] == APOS then Single else Double, n + 2) == Expanded(value, end)
    requires s[end] == s[n + 1]
    ensures ParseAttribute(s, i) == OneAttribute(Attribute(s[i..n], value), Skip(s, end + 1, Whitespace))
  {
    hide Skip, Expand, CString;
  }

  lemma SkipNone(s: seq<byte>, i: nat, c: Class)
    requires CString(s) && i < |s| && !Test(c, s[i])
    ensures Skip(s, i, c) == i
  {
  }

  lemma OneMore(s: seq<byte>, i: nat, before: seq<Attribute>)
    requires CString(s) && i < |s| && Test(AttributeName, s[i]) && ParseAttribute(s, i).OneAttribute?
    ensures ParseAttributes(s, i, before)
         == ParseAttributes(s, ParseAttribute(s, i).next, before + [ParseAttribute(s, i).attribute])
  {
  }

  lemma NoMoreAttributes(s: seq<byte>, i: nat, before: seq<Attribute>)
    requires CString(s) && i < |s| && (s[i] == GT || s[i] == SLASH)
    ensures ParseAttributes(s, Skip(s, i, Whitespace), before) == Attributes(before, i)
  {
    SkipNone(s, i, Whitespace);
  }

  lemma {:induction false} AttributesRead(s: seq<byte>, i: nat, attributes: seq<Attribute>, before: seq<Attribute>)
    requires CString(s) && forall k :: 0 <= k < |attributes| ==> LegalAttribute(attributes[k])
    requires At(s, i, PrintAttributes(attributes)) && i + |PrintAttributes(attributes)| < |s|
    requires s[i + |PrintAttributes(attributes)|] == GT || s[i + |PrintAttributes(attributes)|] == SLASH
    ensures ParseAttributes(s, Skip(s, i, Whitespace), before)
         == Attributes(before + attributes, i + |PrintAttributes(attributes)|)
    decreases |attributes|
  {
    hide PrintAttribute, At, Skip, ParseAttributes, ParseAttribute, LegalAttribute, CString;
    if attributes == [] {
      NoMoreAttributes(s, i, before);
      assert before + [] == before;
    } else {
      var a := attributes[0];
      AtConcat(s, i, PrintAttribute(a), PrintAttributes(attributes[1..]));
      AttributeReads(s, i, a);
      OneMore(s, i + 1, before);
      AttributesRead(s, i + |PrintAttribute(a)|, attributes[1..], before + [a]);
      assert before + [a] + attributes[1..] == before + attributes;
    }
  }

  // ---- Nodes ----

  // Printed nodes other than data start with <.
  lemma StartsWithLt(node: Node)
    requires !node.Data?
    ensures |PrintNode(node)| >= 2 && PrintNode(node)[0] == LT
  {
    if node.Element? {
      var open := [LT] + node.name + PrintAttributes(node.attributes);
      assert open[0] == LT;
    }
  }

  // The bytes up to the end of the first escaped byte that is no white space.
  lemma {:induction false} DataStarts(s: seq<byte>, i: nat, v: seq<byte>)
    requires CString(s) && NulFree(v) && !OnlySpace(v) && At(s, i, Escape(v, NUL))
    ensures i < |s|
    ensures s[Skip(s, i, Whitespace)] != LT && s[Skip(s, i, Whitespace)] != NUL
    decreases |v|
  {
    hide EscapeByte, Named;
    AtConcat(s, i, EscapeByte(v[0], NUL), Escape(v[1..], NUL));
    EscapedByteReads(s, i, v[0], NUL, Text);
    if IsSpace(v[0]) {
      SpaceVerbatim(v[0]);
      AtBytes(s, i, [v[0]]);
      assert forall k :: 0 <= k < |v[1..]| ==> v[1..][k] == v[k + 1];
      DataStarts(s, i + 1, v[1..]);
    } else if s[i] == AMP {
      SkipNone(s, i, Whitespace);
    } else {
      SkipNone(s, i, Whitespace);
    }
  }

  lemma SpaceVerbatim(b: byte)
    requires IsSpace(b)
    ensures EscapeByte(b, NUL) == [b]
  {
  }

  // The end mark is found exactly behind the text.
  lemma {:induction false} CDataEnds(s: seq<byte>, i: nat, value: seq<byte>, from: nat)
    requires CString(s) && At(s, i, value + CDATA_END) && NulFree(value)
    requires forall k :: 0 <= k <= |value| ==> !At(value, k, CDATA_END)
    requires from <= |value|
    ensures i + from < |s|
    ensures SkipPast(s, i + from, CDATA_END) == Some(i + |value| + 3)
    decreases |value| - from
  {
    hide SkipPast, At, CString;
    AtConcat(s, i, value, CDATA_END);
    AtBytes(s, i, value + CDATA_END);
    if from < |value| {
      assert s[i + from] == value[from];
      if At(s, i + from, CDATA_END) {
        EndInside(s, i, value, from);
        assert false;
      }
      CDataEnds(s, i, value, from + 1);
    }
    EndsBefore(s, i + |value| + 2);
    SkipPastStep(s, i + from, CDATA_END);
  }

  lemma SkipPastStep(s: seq<byte>, i: nat, pattern: seq<byte>)
    requires CString(s) && i < |s| && |pattern| > 0 && NUL !in pattern
    ensures At(s, i, pattern) ==> SkipPast(s, i, pattern) == Some(i + |pattern|)
    ensures !At(s, i, pattern) && s[i] != NUL ==> SkipPast(s, i, pattern) == SkipPast(s, i + 1, pattern)
  {
  }

  // An end mark that starts before the end of the text lies inside it.
  lemma EndInside(s: seq<byte>, i: nat, value: seq<byte>, from: nat)
    requires At(s, i, value + CDATA_END) && from < |value| && At(s, i + from, CDATA_END)
    ensures At(value, from, CDATA_END)
  {
    var p := value + CDATA_END;
    AtBytes(s, i, p);
    AtBytes(s, i + from, CDATA_END);
    assert s[i + from + 2] == GT == p[from + 2];
    assert s[i + from] == p[from] && s[i + from + 1] == p[from + 1];
    assert from + 3 <= |value|;
    assert value[from..from + 3] == CDATA_END;
  }

  // Where the parts of printed CDATA stand.
  lemma CDataParts(s: seq<byte>, i: nat, v: seq<byte>)
    requires At(s, i, [LT, BANG] + CDATA_OPEN + v + CDATA_END)
    ensures i + 12 + |v| <= |s| && s[i + 1] == BANG && s[i + 2] == CDATA_OPEN[0]
    ensures At(s, i + 2, CDATA_OPEN) && At(s, i + 9, v + CDATA_END) && s[i + 9..i + 9 + |v|] == v
  {
    hide At;
    AtConcat(s, i, [LT, BANG] + CDATA_OPEN + v, CDATA_END);
    AtBytes(s, i, [LT, BANG] + CDATA_OPEN + v);
    assert [LT, BANG] + CDATA_OPEN + v + CDATA_END == [LT, BANG] + (CDATA_OPEN + (v + CDATA_END));
    AtConcat(s, i, [LT, BANG], CDATA_OPEN + (v + CDATA_END));
    AtConcat(s, i + 2, CDATA_OPEN, v + CDATA_END);
    AtConcat(s, i + 9, v, CDATA_END);
    AtBytes(s, i + |[LT, BANG] + CDATA_OPEN + v|, CDATA_END);
    AtBytes(s, i + 2, CDATA_OPEN);
    AtSlice(s, i + 9, v);
  }

  lemma CDataReads(s: seq<byte>, i: nat, node: Node)
    requires CString(s) && node.CData? && Legal(node) && At(s, i, PrintNode(node))
    ensures i + 1 < |s|
    ensures s[i + 1] != SLASH && i + |PrintNode(node)| < |s|
    ensures ParseNode(s, i + 1) == Parsed(Some(node), i + |PrintNode(node)|)
  {
    hide SkipPast, At, PrintNode, ParseBang, Legal, CString;
    var v := node.value;
    CDataLegal(node);
    CDataParts(s, i, v);
    CDataEnds(s, i + 9, v, 0);
    BangReads(s, i + 1, v);
  }

  lemma CDataLegal(node: Node)
    requires node.CData?
    ensures PrintNode(node) == [LT, BANG] + CDATA_OPEN + node.value + CDATA_END
    ensures Legal(node) ==> NulFree(node.value) && forall k :: 0 <= k <= |node.value| ==> !At(node.value, k, CDATA_END)
  {
  }

  lemma BangReads(s: seq<byte>, i: nat, v: seq<byte>)
    requires CString(s) && i + 8 < |s| && s[i] == BANG && At(s, i + 1, CDATA_OPEN) && s[i + 1] == CDATA_OPEN[0]
    requires SkipPast(s, i + 8, CDATA_END) == Some(i + 8 + |v| + 3) && s[i + 8..i + 8 + |v|] == v
    ensures ParseBang(s, i) == Parsed(Some(CData(v)), i + 8 + |v| + 3)
  {
    hide SkipPast, At, CString;
  }

  // Text of an element, up to and including its closing tag.
  function Rest(text: seq<byte>, children: seq<Node>, name: seq<byte>): seq<byte> {
    Escape(text, NUL) + (PrintChildren(children) + ClosingTag(name))
  }

  ghost predicate LegalContents(text: seq<byte>, children: seq<Node>, name: seq<byte>) {
    && name != [] && All(name, NodeName) && NulFree(text)
    && (forall k :: 0 <= k < |children| ==> Legal(children[k]))
  }

  lemma ClosingReads(s: seq<byte>, i: nat, name: seq<byte>, before: seq<Node>, value: seq<byte>)
    requires CString(s) && name != [] && All(name, NodeName) && At(s, i, ClosingTag(name))
    ensures i < |s| && s[i] == LT && ParseTag(s, i, before, value) == Contents(before, value, i + |ClosingTag(name)|)
  {
    AtConcat(s, i, [LT, SLASH] + name, [GT]);
    AtConcat(s, i, [LT, SLASH], name);
    AtBytes(s, i, [LT, SLASH]);
    AtByte(s, i + 2 + |name|, GT);
    SkipAll(s, i + 2, name, NodeName);
    SkipNone(s, i + 2 + |name|, Whitespace);
  }

  lemma {:induction false} EscapeConcat(a: seq<byte>, b: seq<byte>, noexpand: byte)
    ensures Escape(a + b, noexpand) == Escape(a, noexpand) + Escape(b, noexpand)
  {
    hide EscapeByte;
    if a == [] {
      assert [] + b == b;
    } else {
      assert (a + b)[0] == a[0] && (a + b)[1..] == a[1..] + b;
      EscapeConcat(a[1..], b, noexpand);
    }
  }

  lemma {:induction false} SpaceUnescaped(v: seq<byte>)
    requires OnlySpace(v)
    ensures Escape(v, NUL) == v
  {
    if v != [] {
      SpaceVerbatim(v[0]);
      SpaceUnescaped(v[1..]);
    }
  }

  // The value an element has after further children, given the one it has now.
  function ValueAfter(value: seq<byte>, children: seq<Node>): seq<byte> {
    if value == [] then FirstData(children) else value
  }

  // Text followed by a < is read as the node it makes, if any.
  lemma TextReads(s: seq<byte>, i: nat, text: seq<byte>, before: seq<Node>, value: seq<byte>)
    requires CString(s) && NulFree(text) && NulFree(value) && At(s, i, Escape(text, NUL))
    requires i + |Escape(text, NUL)| < |s| && s[i + |Escape(text, NUL)|] == LT
    ensures ParseContents(s, i, before, value)
         == ParseTag(s, i + |Escape(text, NUL)|, before + TextNode(text), ValueAfter(value, TextNode(text)))
  {
    hide Expand, Escape, ParseTag, At, CString;
    if OnlySpace(text) {
      SpaceUnescaped(text);
      SkipAll(s, i, text, Whitespace);
      assert before + [] == before;
    } else {
      DataStarts(s, i, text);
      ExpandEscape(s, i, text, NUL, Text, i);
      assert value != [] ==> value[0] in value;
    }
  }

  // Parsing the printed text, children and closing tag appends their normal forms.
  lemma {:induction false} ContentsRead(s: seq<byte>, i: nat, text: seq<byte>, children: seq<Node>, name: seq<byte>,
                                        before: seq<Node>, value: seq<byte>)
    requires CString(s) && LegalContents(text, children, name) && NulFree(value)
    requires At(s, i, Rest(text, children, name))
    ensures i < |s|
    ensures ParseContents(s, i, before, value)
         == Contents(before + Merge(children, text), ValueAfter(value, Merge(children, text)),
                     i + |Rest(text, children, name)|)
    decreases children, 0
  {
    hide PrintNode, ClosingTag, ParseTag, ParseContents, At, Escape, CString, Legal, OnlySpace, Normal, TextNode,
         ValueAfter;
    var start := i + |Escape(text, NUL)|;
    AtConcat(s, i, Escape(text, NUL), PrintChildren(children) + ClosingTag(name));
    if children == [] {
      assert [] + ClosingTag(name) == ClosingTag(name);
      ClosingReads(s, start, name, before + TextNode(text), ValueAfter(value, TextNode(text)));
      TextReads(s, i, text, before, value);
      assert Merge(children, text) == TextNode(text);
    } else {
      var first, tail := children[0], children[1..];
      assert forall k :: 0 <= k < |tail| ==> tail[k] == children[k + 1];
      assert Legal(first);
      assert PrintChildren(children) + ClosingTag(name) == PrintNode(first) + (PrintChildren(tail) + ClosingTag(name));
      if first.Data? {
        JoinText(text, first, tail, name);
        DataLegal(text, first);
        ContentsRead(s, i, text + first.value, tail, name, before, value);
      } else {
        ChildReads(s, start, first, tail, name);
        var before1 := before + TextNode(text);
        var value1 := ValueAfter(value, TextNode(text));
        TextReads(s, i, text, before, value);
        ChildTagReads(s, start, first, before1, value1);
        ValueNulFree(value, text);
        EmptyText(tail, name);
        ContentsRead(s, start + |PrintNode(first)|, [], tail, name, before1 + [Normal(first)], value1);
        MergeChild(before, text, first, tail, value);
      }
    }
  }

  lemma DataLegal(text: seq<byte>, node: Node)
    requires NulFree(text) && node.Data? && Legal(node)
    ensures NulFree(text + node.value)
  {
  }

  lemma ValueNulFree(value: seq<byte>, text: seq<byte>)
    requires NulFree(value) && NulFree(text)
    ensures NulFree(ValueAfter(value, TextNode(text)))
  {
  }

  lemma EmptyText(children: seq<Node>, name: seq<byte>)
    ensures Rest([], children, name) == PrintChildren(children) + ClosingTag(name)
  {
    assert Escape([], NUL) == [];
  }

  // Data at the front of the children joins the text before it.
  lemma JoinText(text: seq<byte>, node: Node, tail: seq<Node>, name: seq<byte>)
    requires node.Data?
    ensures Rest(text, [node] + tail, name) == Rest(text + node.value, tail, name)
    ensures Merge([node] + tail, text) == Merge(tail, text + node.value)
  {
    hide Escape, ClosingTag;
    EscapeConcat(text, node.value, NUL);
    var children := [node] + tail;
    assert children[1..] == tail;
    var v, t, c := Escape(node.value, NUL), PrintChildren(tail), ClosingTag(name);
    assert PrintChildren(children) == v + t;
    assert Escape(text, NUL) + ((v + t) + c) == (Escape(text, NUL) + v) + (t + c);
  }

  lemma MergeChild(before: seq<Node>, text: seq<byte>, first: Node, tail: seq<Node>, value: seq<byte>)
    requires !first.Data?
    ensures Merge([first] + tail, text) == TextNode(text) + [Normal(first)] + Merge(tail, [])
    ensures before + TextNode(text) + [Normal(first)] + Merge(tail, []) == before + Merge([first] + tail, text)
    ensures ValueAfter(ValueAfter(value, TextNode(text)), Merge(tail, [])) ==
              ValueAfter(value, Merge([first] + tail, text))
  {
    assert ([first] + tail)[1..] == tail;
    hide TextNode, Normal;
    var t, n, m := TextNode(text), [Normal(first)], Merge(tail, []);
    assert Merge([first] + tail, text) == t + n + m;
    hide Merge;
    NormalKeepsKind(first);
    assert before + t + n + m == before + (t + n + m);
    ValueBehindText(value, text, Normal(first), m);
  }

  // A child that is not text does not make the value.
  lemma ValueBehindText(value: seq<byte>, text: seq<byte>, child: Node, m: seq<Node>)
    requires !child.Data?
    ensures ValueAfter(ValueAfter(value, TextNode(text)), m) == ValueAfter(value, TextNode(text) + [child] + m)
  {
    hide OnlySpace;
    var all := TextNode(text) + [child] + m;
    if OnlySpace(text) {
      assert all == [child] + m && all[1..] == m;
    } else {
      assert all[0] == Data(text) && all[1..] == [child] + m;
      NotEmpty(text);
    }
  }

  lemma NormalKeepsKind(node: Node)
    ensures Normal(node).Data? <==> node.Data?
  {
  }

  lemma NotEmpty(text: seq<byte>)
    requires !OnlySpace(text)
    ensures text != []
  {
  }

  // A child other than data: what stands at its position, and that it is read in normal form.
  lemma {:induction false} ChildReads(s: seq<byte>, i: nat, node: Node, tail: seq<Node>, name: seq<byte>)
    requires CString(s) && Legal(node) && !node.Data?
    requires At(s, i, PrintNode(node) + (PrintChildren(tail) + ClosingTag(name)))
    ensures i + 1 < |s| && s[i] == LT && s[i + 1] != SLASH && i + |PrintNode(node)| < |s|
    ensures ParseNode(s, i + 1) == Parsed(Some(Normal(node)), i + |PrintNode(node)|)
    ensures At(s, i + |PrintNode(node)|, PrintChildren(tail) + ClosingTag(name))
    decreases node, 2
  {
    hide PrintNode, At, ParseNode, Legal, Normal, CString;
    AtConcat(s, i, PrintNode(node), PrintChildren(tail) + ClosingTag(name));
    StartsWithLt(node);
    AtBytes(s, i, PrintNode(node));
    NodeReads(s, i, node);
  }

  lemma ChildTagReads(s: seq<byte>, i: nat, node: Node, before: seq<Node>, value: seq<byte>)
    requires CString(s) && i + 1 < |s| && s[i] == LT && s[i + 1] != SLASH && i + |PrintNode(node)| < |s|
    requires ParseNode(s, i + 1) == Parsed(Some(Normal(node)), i + |PrintNode(node)|)
    ensures ParseTag(s, i, before, value) == ParseContents(s, i + |PrintNode(node)|, before + [Normal(node)], value)
  {
    hide ParseContents, PrintNode, Normal, CString;
  }

  lemma {:induction false} NodeReads(s: seq<byte>, i: nat, node: Node)
    requires CString(s) && Legal(node) && !node.Data? && At(s, i, PrintNode(node))
    ensures i + 1 < |s| && s[i + 1] != SLASH && i + |PrintNode(node)| < |s|
    ensures ParseNode(s, i + 1) == Parsed(Some(Normal(node)), i + |PrintNode(node)|)
    decreases node, 1
  {
    hide PrintNode, ParseNode, At, Skip, ParseAttributes, ParseContents, Rest, PrintAttributes, Merge, CString;
    if node.CData? {
      CDataReads(s, i, node);
    } else {
      ElementOpens(s, i, node);
      if !Childless(node) {
        ElementLegal(node);
        ContentsRead(s, TagEnd(i, node) + 1, OwnText(node), node.children, node.name, [], []);
        assert [] + Merge(node.children, OwnText(node)) == Merge(node.children, OwnText(node));
      }
      ElementCloses(s, i, node);
    }
  }

  predicate Childless(node: Node)
    requires node.Element?
  {
    node.value == [] && node.children == []
  }

  // The printed element, in the order it is read.
  lemma ElementText(node: Node)
    requires node.Element?
    ensures PrintNode(node) == [LT] + (node.name + (PrintAttributes(node.attributes) + TagTail(node)))
  {
    var children := node.children;
    assert Escape([], NUL) == [] && PrintChildren([]) == [];
    hide Escape, PrintAttributes, ClosingTag, PrintNode;
    if |children| == 1 && children[0].Data? {
      assert PrintChildren(children) == PrintNode(children[0]) + PrintChildren(children[1..]);
      assert PrintChildren(children[1..]) == [];
      DataPrints(children[0]);
    }
    assert PrintInner(children, node.value) == Escape(OwnText(node), NUL) + PrintChildren(children);
    ElementAssembles(node);
  }

  lemma DataPrints(node: Node)
    requires node.Data?
    ensures PrintNode(node) == Escape(node.value, NUL)
  {
  }

  lemma ElementAssembles(node: Node)
    requires node.Element?
    requires PrintInner(node.children, node.value) == Escape(OwnText(node), NUL) + PrintChildren(node.children)
    ensures PrintNode(node) == [LT] + (node.name + (PrintAttributes(node.attributes) + TagTail(node)))
  {
    hide Escape, PrintAttributes, ClosingTag, PrintChildren, PrintInner;
    var name, attributes := node.name, PrintAttributes(node.attributes);
    if Childless(node) {
      Associate([LT], name, attributes, [SLASH, GT]);
    } else {
      var text, children, close := Escape(OwnText(node), NUL), PrintChildren(node.children), ClosingTag(name);
      Associate([GT], text, children, close);
      Associate([LT], name, attributes, [GT] + (text + (children + close)));
      assert PrintNode(node) == [LT] + name + attributes + [GT] + (text + children) + close;
      assert [LT] + name + attributes + [GT] + (text + children) + close
          == [LT] + name + attributes + ([GT] + (text + children) + close);
    }
  }

  lemma Associate(a: seq<byte>, b: seq<byte>, c: seq<byte>, d: seq<byte>)
    ensures a + b + c + d == a + (b + (c + d)) == a + (b + c) + d
  {
  }

  // Where the attributes of the printed element end.
  function TagEnd(i: nat, node: Node): nat
    requires node.Element?
  {
    i + 1 + |node.name| + |PrintAttributes(node.attributes)|
  }

  function TagTail(node: Node): seq<byte>
    requires node.Element?
  {
    if Childless(node) then [SLASH, GT] else [GT] + Rest(OwnText(node), node.children, node.name)
  }

  // Where the parts of a printed element stand.
  lemma ElementParts(s: seq<byte>, i: nat, node: Node)
    requires node.Element? && Legal(node) && At(s, i, PrintNode(node))
    ensures At(s, i + 1, node.name) && At(s, i + 1 + |node.name|, PrintAttributes(node.attributes))
    ensures At(s, TagEnd(i, node), TagTail(node))
    ensures !Childless(node) ==> At(s, TagEnd(i, node) + 1, Rest(OwnText(node), node.children, node.name))
  {
    hide PrintNode, PrintAttributes, Rest, At, Legal;
    ElementText(node);
    AtParts(s, i, [LT], node.name, PrintAttributes(node.attributes), TagTail(node));
    if !Childless(node) {
      AtConcat(s, TagEnd(i, node), [GT], Rest(OwnText(node), node.children, node.name));
    }
  }

  lemma AtParts(s: seq<byte>, i: nat, a: seq<byte>, b: seq<byte>, c: seq<byte>, d: seq<byte>)
    requires At(s, i, a + (b + (c + d)))
    ensures At(s, i, a) && At(s, i + |a|, b) && At(s, i + |a| + |b|, c) && At(s, i + |a| + |b| + |c|, d)
  {
    hide At;
    AtConcat(s, i, a, b + (c + d));
    AtConcat(s, i + |a|, b, c + d);
    AtConcat(s, i + |a| + |b|, c, d);
  }

  lemma ElementOpens(s: seq<byte>, i: nat, node: Node)
    requires CString(s) && node.Element? && Legal(node) && At(s, i, PrintNode(node))
    ensures i + 1 < |s| && s[i + 1] == node.name[0] && TagEnd(i, node) + 1 < |s|
    ensures Skip(s, i + 1, NodeName) == i + 1 + |node.name| && s[i + 1..i + 1 + |node.name|] == node.name
    ensures ParseAttributes(s, Skip(s, i + 1 + |node.name|, Whitespace), [])
         == Attributes(node.attributes, TagEnd(i, node))
    ensures if Childless(node) then s[TagEnd(i, node)] == SLASH && s[TagEnd(i, node) + 1] == GT
            else s[TagEnd(i, node)] == GT && At(s, TagEnd(i, node) + 1, Rest(OwnText(node), node.children, node.name))
  {
    hide PrintNode, PrintAttribute, PrintAttributes, Rest, ParseAttributes, At, Skip, LegalAttribute, Legal, All,
         CString;
    ElementLegal(node);
    ElementParts(s, i, node);
    TailStarts(s, TagEnd(i, node), node);
    ElementNameReads(s, i, node);
    hide TagTail;
    EndsBefore(s, TagEnd(i, node));
    AttributesRead(s, i + 1 + |node.name|, node.attributes, []);
    assert [] + node.attributes == node.attributes;
  }

  lemma ElementNameReads(s: seq<byte>, i: nat, node: Node)
    requires CString(s) && node.Element? && Legal(node) && At(s, i, PrintNode(node))
    ensures var n := i + 1 + |node.name|;
            i + 1 < n < |s| && s[i + 1] == node.name[0] && Skip(s, i + 1, NodeName) == n && s[i + 1..n] == node.name
  {
    hide PrintNode, PrintAttributes, Rest, At, Skip, Legal, All, CString;
    ElementLegal(node);
    ElementParts(s, i, node);
    AtBytes(s, i + 1, node.name);
    AtSlice(s, i + 1, node.name);
    TailStarts(s, TagEnd(i, node), node);
    NameStops(s, i + 1 + |node.name|, node.attributes, TagTail(node));
    SkipAll(s, i + 1, node.name, NodeName);
  }

  lemma TailStarts(s: seq<byte>, end: nat, node: Node)
    requires node.Element? && At(s, end, TagTail(node))
    ensures TagTail(node) != [] && end < |s| && s[end] == TagTail(node)[0]
    ensures if Childless(node) then end + 1 < |s| && s[end] == SLASH && s[end + 1] == GT else s[end] == GT
  {
    hide At, Rest;
    AtBytes(s, end, TagTail(node));
    RestNotEmpty(OwnText(node), node.children, node.name);
  }

  lemma ElementLegal(node: Node)
    requires node.Element? && Legal(node)
    ensures node.name != [] && All(node.name, NodeName) && node.name[0] != BANG
    ensures forall k :: 0 <= k < |node.attributes| ==> LegalAttribute(node.attributes[k])
    ensures LegalContents(OwnText(node), node.children, node.name)
  {
  }

  lemma RestNotEmpty(text: seq<byte>, children: seq<Node>, name: seq<byte>)
    ensures Rest(text, children, name) != []
  {
  }

  lemma EndsBefore(s: seq<byte>, i: nat)
    requires CString(s) && i < |s| && s[i] != NUL
    ensures i + 1 < |s|
  {
  }

  lemma NameStops(s: seq<byte>, i: nat, attributes: seq<Attribute>, tail: seq<byte>)
    requires At(s, i, PrintAttributes(attributes)) && At(s, i + |PrintAttributes(attributes)|, tail)
    requires tail != [] && (tail[0] == GT || tail[0] == SLASH)
    ensures i < |s| && !Test(NodeName, s[i])
  {
    AtBytes(s, i, PrintAttributes(attributes));
    AtBytes(s, i + |PrintAttributes(attributes)|, tail);
    if attributes != [] {
      assert PrintAttribute(attributes[0])[0] == SPACE;
    }
  }

  lemma NormalChildless(node: Node)
    requires node.Element? && Childless(node)
    ensures Normal(node).children == [] && Normal(node).value == []
  {
  }

  lemma ElementCloses(s: seq<byte>, i: nat, node: Node)
    requires CString(s) && node.Element? && Legal(node) && At(s, i, PrintNode(node))
    requires i + 1 < |s| && s[i + 1] == node.name[0] && TagEnd(i, node) + 1 < |s|
    requires Skip(s, i + 1, NodeName) == i + 1 + |node.name| && s[i + 1..i + 1 + |node.name|] == node.name
    requires ParseAttributes(s, Skip(s, i + 1 + |node.name|, Whitespace), [])
          == Attributes(node.attributes, TagEnd(i, node))
    requires if Childless(node) then s[TagEnd(i, node)] == SLASH && s[TagEnd(i, node) + 1] == GT
             else s[TagEnd(i, node)] == GT
                  && ParseContents(s, TagEnd(i, node) + 1, [], [])
                     == Contents(Normal(node).children, Normal(node).value,
                                 TagEnd(i, node) + 1 + |Rest(OwnText(node), node.children, node.name)|)
    ensures s[i + 1] != SLASH && i + |PrintNode(node)| < |s|
    ensures ParseNode(s, i + 1) == Parsed(Some(Normal(node)), i + |PrintNode(node)|)
  {
    hide ParseAttributes, ParseContents, Skip, Rest, PrintAttributes, At;
    hide Normal, PrintNode, Legal;
    ElementLegal(node);
    ElementBody(s, i, node);
    assert Test(NodeName, node.name[0]);
    NormalNames(node);
    hide ParseBody, CString;
  }

  lemma NormalNames(node: Node)
    requires node.Element?
    ensures var n := Normal(node); n == Element(node.name, node.attributes, n.children, n.value)
  {
  }

  // Where the tag ends, the contents follow, or />.
  lemma ElementBody(s: seq<byte>, i: nat, node: Node)
    requires CString(s) && node.Element? && TagEnd(i, node) + 1 < |s|
    requires if Childless(node) then s[TagEnd(i, node)] == SLASH && s[TagEnd(i, node) + 1] == GT
             else s[TagEnd(i, node)] == GT
                  && ParseContents(s, TagEnd(i, node) + 1, [], [])
                     == Contents(Normal(node).children, Normal(node).value,
                                 TagEnd(i, node) + 1 + |Rest(OwnText(node), node.children, node.name)|)
    ensures ParseBody(s, TagEnd(i, node))
         == Contents(Normal(node).children, Normal(node).value, i + |PrintNode(node)|)
  {
    hide ParseContents, Rest, PrintAttributes, Normal, PrintNode, CString;
    ElementText(node);
    if Childless(node) {
      NormalChildless(node);
    }
  }

  // ---- Documents ----

  // A document holds elements and CDATA; text is not accepted outside an element.
  ghost predicate LegalDocument(nodes: seq<Node>) {
    forall k :: 0 <= k < |nodes| ==> Legal(nodes[k]) && !nodes[k].Data?
  }

  ghost predicate PrintableDocument(nodes: seq<Node>) {
    LegalDocument(nodes) && forall k :: 0 <= k < |nodes| ==> Printable(nodes[k])
  }

  function NormalAll(nodes: seq<Node>): (r: seq<Node>)
    ensures |r| == |nodes| && forall k :: 0 <= k < |nodes| ==> r[k] == Normal(nodes[k])
  {
    seq(|nodes|, k requires 0 <= k < |nodes| => Normal(nodes[k]))
  }

  lemma {:induction false} NodesRead(s: seq<byte>, i: nat, nodes: seq<Node>, before: seq<Node>)
    requires CString(s) && LegalDocument(nodes) && At(s, i, PrintChildren(nodes) + [NUL])
    ensures i < |s| && ParseNodes(s, i, before) == Document(before + NormalAll(nodes))
    decreases |nodes|
  {
    hide PrintNode, ParseNode, At, Skip, Normal, NormalAll, Legal, CString;
    hide ParseNodes;
    if nodes == [] {
      NoNodesRead(s, i, before);
    } else {
      var first, tail := nodes[0], nodes[1..];
      assert PrintChildren(nodes) + [NUL] == PrintNode(first) + (PrintChildren(tail) + [NUL]);
      NodesReadOne(s, i, first, PrintChildren(tail) + [NUL], before);
      assert forall k :: 0 <= k < |tail| ==> tail[k] == nodes[k + 1];
      NodesRead(s, i + |PrintNode(first)|, tail, before + [Normal(first)]);
      NormalAllFirst(nodes);
      assert before + [Normal(first)] + NormalAll(tail) == before + ([Normal(first)] + NormalAll(tail));
    }
  }

  lemma NoNodesRead(s: seq<byte>, i: nat, before: seq<Node>)
    requires CString(s) && At(s, i, PrintChildren([]) + [NUL])
    ensures i < |s| && ParseNodes(s, i, before) == Document(before + NormalAll([]))
  {
    hide CString;
    assert PrintChildren([]) + [NUL] == [NUL];
    AtBytes(s, i, [NUL]);
    SkipNone(s, i, Whitespace);
    assert before + [] == before;
  }

  lemma NormalAllFirst(nodes: seq<Node>)
    requires nodes != []
    ensures NormalAll(nodes) == [Normal(nodes[0])] + NormalAll(nodes[1..])
  {
    hide Normal;
  }

  lemma NodesReadOne(s: seq<byte>, i: nat, first: Node, rest: seq<byte>, before: seq<Node>)
    requires CString(s) && Legal(first) && !first.Data? && rest != [] && At(s, i, PrintNode(first) + rest)
    ensures i + |PrintNode(first)| < |s| && At(s, i + |PrintNode(first)|, rest)
    ensures ParseNodes(s, i, before) == ParseNodes(s, i + |PrintNode(first)|, before + [Normal(first)])
  {
    hide PrintNode, ParseNode, Skip, Normal, Legal, CString;
    AtConcat(s, i, PrintNode(first), rest);
    AtBytes(s, i, PrintNode(first));
    hide At;
    StartsWithLt(first);
    NodeReads(s, i, first);
    SkipNone(s, i, Whitespace);
  }

  // Printed text holds no NUL, so with the terminator it is a C string.
  lemma {:induction false} EscapeNulFree(v: seq<byte>, noexpand: byte)
    requires NulFree(v)
    ensures NulFree(Escape(v, noexpand))
  {
    if v != [] {
      assert v[0] in v && v[0] != NUL;
      assert forall b :: b in v[1..] ==> b in v;
      EscapeNulFree(v[1..], noexpand);
      assert NulFree(EscapeByte(v[0], noexpand));
    }
  }

  lemma AllNulFree(v: seq<byte>, c: Class)
    requires All(v, c) && (c == NodeName || c == AttributeName)
    ensures NulFree(v)
  {
  }

  lemma {:induction false} AttributesNulFree(attributes: seq<Attribute>)
    requires forall k :: 0 <= k < |attributes| ==> LegalAttribute(attributes[k])
    ensures NulFree(PrintAttributes(attributes))
  {
    hide Escape;
    if attributes != [] {
      var a := attributes[0];
      AttributesNulFree(attributes[1..]);
      AllNulFree(a.name, AttributeName);
      EscapeNulFree(a.value, OtherQuote(QuoteFor(a.value)));
    }
  }

  lemma {:induction false} NodeNulFree(node: Node)
    requires Legal(node)
    ensures NulFree(PrintNode(node))
    decreases node, 0
  {
    match node
    case Data(value) => EscapeNulFree(value, NUL);
    case CData(value) =>
    case Element(name, attributes, children, value) =>
      hide Escape, PrintAttributes, PrintChildren, PrintNode;
      AllNulFree(name, NodeName);
      AttributesNulFree(attributes);
      ChildrenNulFree(children);
      ElementText(node);
      EscapeNulFree(OwnText(node), NUL);
      assert NulFree(Rest(OwnText(node), children, name));
  }

  lemma {:induction false} ChildrenNulFree(children: seq<Node>)
    requires forall k :: 0 <= k < |children| ==> Legal(children[k])
    ensures NulFree(PrintChildren(children))
    decreases children, 1
  {
    hide PrintNode;
    if children != [] {
      NodeNulFree(children[0]);
      ChildrenNulFree(children[1..]);
    }
  }

  lemma PrintedIsCString(nodes: seq<Node>)
    requires LegalDocument(nodes)
    ensures CString(PrintChildren(nodes) + [NUL])
  {
    ChildrenNulFree(nodes);
    var p := PrintChildren(nodes);
    assert forall k :: 0 <= k < |p| ==> p[k] in p;
  }

  // Printing a document and parsing the text gives its normal form.
  lemma PrintParseNormalizes(nodes: seq<Node>)
    requires LegalDocument(nodes)
    ensures CString(PrintChildren(nodes) + [NUL])
    ensures Parse(PrintChildren(nodes) + [NUL]) == Document(NormalAll(nodes))
  {
    hide CString, ParseNodes, Legal, PrintNode;
    var s := PrintChildren(nodes) + [NUL];
    PrintedIsCString(nodes);
    assert At(s, 0, s);
    NodesRead(s, 0, nodes, []);
    assert [] + NormalAll(nodes) == NormalAll(nodes);
    if nodes != [] {
      StartsWithLt(nodes[0]);
    }
    assert s[0] != BOM[0];
    NoBom(s);
  }

  lemma NoBom(s: seq<byte>)
    requires CString(s) && s[0] != BOM[0]
    ensures AfterBom(s) == 0
  {
    if |s| >= 3 {
      assert s[0..3][0] == s[0];
    }
  }

  // ---- Normal forms ----

  ghost predicate PrintableChildren(children: seq<Node>) {
    Alternating(children) && forall k :: 0 <= k < |children| ==> Printable(children[k])
  }

  lemma {:induction false} MergePrintable(children: seq<Node>, text: seq<byte>)
    requires NulFree(text) && forall k :: 0 <= k < |children| ==> Legal(children[k])
    ensures PrintableChildren(Merge(children, text))
    decreases children, 0
  {
    hide OnlySpace;
    if children != [] {
      var first, tail := children[0], children[1..];
      if first.Data? {
        MergePrintable(tail, text + first.value);
      } else {
        NormalPrintable(first);
        MergePrintable(tail, []);
        JoinPrintable(text, Normal(first), Merge(tail, []));
      }
    }
  }

  // Text, a node that is not text, and printable children behind it.
  lemma JoinPrintable(text: seq<byte>, node: Node, m: seq<Node>)
    requires NulFree(text) && Printable(node) && !node.Data? && PrintableChildren(m)
    ensures PrintableChildren(TextNode(text) + [node] + m)
  {
    hide OnlySpace;
    var t := TextNode(text);
    var all := t + [node] + m;
    assert forall k :: 0 <= k < |m| ==> all[|t| + 1 + k] == m[k];
    assert forall k :: |t| < k < |all| ==> all[k] == m[k - |t| - 1];
    assert forall k :: 0 <= k < |t| ==> all[k] == t[k];
  }

  lemma {:induction false} NormalPrintable(node: Node)
    requires Legal(node) && !node.Data?
    ensures Printable(Normal(node)) && !Normal(node).Data?
    decreases node, 1
  {
    if node.Element? {
      MergePrintable(node.children, OwnText(node));
      FirstDataNulFree(Normal(node).children);
    }
  }

  lemma {:induction false} FirstDataNulFree(children: seq<Node>)
    requires forall k :: 0 <= k < |children| ==> Legal(children[k])
    ensures NulFree(FirstData(children))
  {
    if children != [] && !children[0].Data? {
      FirstDataNulFree(children[1..]);
    }
  }

  lemma {:induction false} PrintableIsNormal(node: Node)
    requires Printable(node)
    ensures Normal(node) == node
    decreases node, 1
  {
    if node.Element? && node.children != [] {
      MergeKeeps(node.children);
    }
  }

  lemma {:induction false} MergeKeeps(children: seq<Node>)
    requires PrintableChildren(children)
    ensures Merge(children, []) == children
    decreases children, 0
  {
    hide OnlySpace;
    NothingIsSpace();
    if children != [] {
      var first, tail := children[0], children[1..];
      assert Printable(first) && PrintableChildren(tail);
      assert children == [first] + tail;
      if first.Data? {
        assert [] + first.value == first.value;
        if tail != [] {
          assert !children[1].Data? && tail[0] == children[1];
          PrintableIsNormal(tail[0]);
          assert PrintableChildren(tail[1..]) by {
            assert forall k :: 0 <= k < |tail[1..]| ==> tail[1..][k] == children[k + 2];
          }
          MergeKeeps(tail[1..]);
          assert tail == [tail[0]] + tail[1..];
        }
      } else {
        PrintableIsNormal(first);
        MergeKeeps(tail);
      }
    }
  }

  lemma NothingIsSpace()
    ensures OnlySpace([])
  {
  }

  // A document survives printing and parsing unchanged exactly when it is printable.
  lemma RoundTripIff(nodes: seq<Node>)
    requires LegalDocument(nodes)
    ensures CString(PrintChildren(nodes) + [NUL])
    ensures Parse(PrintChildren(nodes) + [NUL]) == Document(nodes) <==> PrintableDocument(nodes)
  {
    hide Printable, Normal;
    PrintParseNormalizes(nodes);
    forall k | 0 <= k < |nodes|
      ensures Normal(nodes[k]) == nodes[k] <==> Printable(nodes[k])
    {
      NormalPrintable(nodes[k]);
      if Printable(nodes[k]) {
        PrintableIsNormal(nodes[k]);
      }
    }
    if PrintableDocument(nodes) {
      assert NormalAll(nodes) == nodes;
    }
    if NormalAll(nodes) == nodes {
      assert forall k :: 0 <= k < |nodes| ==> NormalAll(nodes)[k] == Normal(nodes[k]);
    }
  }

  // A second round trip changes nothing.
  lemma NormalFormsSurvive(nodes: seq<Node>)
    requires LegalDocument(nodes)
    ensures LegalDocument(NormalAll(nodes)) && CString(PrintChildren(NormalAll(nodes)) + [NUL])
    ensures Parse(PrintChildren(NormalAll(nodes)) + [NUL]) == Document(NormalAll(nodes))
  {
    forall k | 0 <= k < |nodes|
      ensures Printable(NormalAll(nodes)[k]) && !NormalAll(nodes)[k].Data?
    {
      NormalPrintable(nodes[k]);
    }
    RoundTripIff(NormalAll(nodes));
  }
}
