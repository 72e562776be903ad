/** rapidxml's printer with print_no_indenting: what it writes, and the loops that write it. */
module XmlPrint {
  import opened Bytes
  import opened XmlGrammar

  const AMP_LT: seq<byte> := [38, 108, 116, 59]             // &lt;
  const AMP_GT: seq<byte> := [38, 103, 116, 59]             // &gt;
  const AMP_APOS: seq<byte> := [38, 97, 112, 111, 115, 59]  // &apos;
  const AMP_QUOT: seq<byte> := [38, 113, 117, 111, 116, 59] // &quot;
  const AMP_AMP: seq<byte> := [38, 97, 109, 112, 59]        // &amp;

  function EscapeByte(b: byte, noexpand: byte): seq<byte> {
    if b == noexpand then [b]
    else if b == LT then AMP_LT
    else if b == GT then AMP_GT
    else if b == APOS then AMP_APOS
    else if b == QUOT then AMP_QUOT
    else if b == AMP then AMP_AMP
    else [b]
  }

  function Escape(v: seq<byte>, noexpand: byte): seq<byte> {
    if v == [] then [] else EscapeByte(v[0], noexpand) + Escape(v[1..], noexpand)
  }

  // The quote an attribute value is written in: the one it does not contain, if possible.
  function QuoteFor(value: seq<byte>): (quote: byte)
    ensures quote == APOS || quote == QUOT
    ensures quote in value ==> APOS in value && QUOT in value
  {
    if QUOT in value then APOS else QUOT
  }

  function OtherQuote(quote: byte): byte {
    if quote == APOS then QUOT else APOS
  }

  function PrintAttribute(a: Attribute): seq<byte> {
    var quote := QuoteFor(a.value);
    [SPACE] + a.name + [EQ, quote] + Escape(a.value, OtherQuote(quote)) + [quote]
  }

  function PrintAttributes(attributes: seq<Attribute>): seq<byte> {
    if attributes == [] then [] else PrintAttribute(attributes[0]) + PrintAttributes(attributes[1..])
  }

  function PrintNode(node: Node): seq<byte>
    decreases node
  {
    match node
    case Data(value) => Escape(value, NUL)
    case CData(value) => [LT, BANG] + CDATA_OPEN + value + CDATA_END
    case Element(name, attributes, children, value) =>
      var open := [LT] + name + PrintAttributes(attributes);
      if value == [] && children == [] then open + [SLASH, GT]
      else open + [GT] + PrintInner(children, value) + ClosingTag(name)
  }

  function ClosingTag(name: seq<byte>): seq<byte> {
    [LT, SLASH] + name + [GT]
  }

  // An element's value is written only when it has no children.
  function PrintInner(children: seq<Node>, value: seq<byte>): seq<byte>
    decreases children, 1
  {
    if children == [] then Escape(value, NUL)
    else if |children| == 1 && children[0].Data? then Escape(children[0].value, NUL)
    else PrintChildren(children)
  }

  function PrintChildren(children: seq<Node>): seq<byte>
    decreases children, 0
  {
    if children == [] then [] else PrintNode(children[0]) + PrintChildren(children[1..])
  }

  // ---- The loops; out is the sequence written so far ----

  method CopyChars(text: seq<byte>, out: seq<byte>) returns (out': seq<byte>)
    ensures out' == out + text
  {
    out' := out;
    for begin := 0 to |text|
      invariant out' == out + text[..begin]
    {
      out' := out' + [text[begin]];
    }
  }

  lemma {:induction false} EscapeSnoc(v: seq<byte>, k: nat, noexpand: byte)
    requires k < |v|
    ensures Escape(v[..k + 1], noexpand) == Escape(v[..k], noexpand) + EscapeByte(v[k], noexpand)
    decreases k
  {
    hide EscapeByte;
    if k == 0 {
      assert v[..1] == [v[0]] && [v[0]][1..] == [] && v[..0] == [];
    } else {
      assert v[..k + 1][1..] == v[1..][..k] && v[..k][1..] == v[1..][..k - 1];
      EscapeSnoc(v[1..], k - 1, noexpand);
    }
  }

  method ExpandChar(b: byte, noexpand: byte, out: seq<byte>) returns (out': seq<byte>)
    ensures out' == out + EscapeByte(b, noexpand)
  {
    if b == noexpand {
      return out + [b];
    }
    match b
    case 60 => out' := out + AMP_LT;
    case 62 => out' := out + AMP_GT;
    case 39 => out' := out + AMP_APOS;
    case 34 => out' := out + AMP_QUOT;
    case 38 => out' := out + AMP_AMP;
    case _ => out' := out + [b];
  }

  method CopyAndExpandChars(text: seq<byte>, noexpand: byte, out: seq<byte>) returns (out': seq<byte>)
    ensures out' == out + Escape(text, noexpand)
  {
    hide EscapeByte;
    out' := out;
    for begin := 0 to |text|
      invariant out' == out + Escape(text[..begin], noexpand)
    {
      EscapeSnoc(text, begin, noexpand);
      out' := ExpandChar(text[begin], noexpand, out');
    }
    assert text[..|text|] == text;
  }

  method FindChar(text: seq<byte>, ch: byte) returns (found: bool)
    ensures found <==> ch in text
  {
    for begin := 0 to |text|
      invariant ch !in text[..begin]
    {
      if text[begin] == ch {
        return true;
      }
    }
    found := false;
  }

  lemma {:induction false} AttributesSnoc(attributes: seq<Attribute>, k: nat)
    requires k < |attributes|
    ensures PrintAttributes(attributes[..k + 1]) == PrintAttributes(attributes[..k]) + PrintAttribute(attributes[k])
    decreases k
  {
    hide PrintAttribute;
    if k == 0 {
      assert attributes[..1] == [attributes[0]] && [attributes[0]][1..] == [] && attributes[..0] == [];
    } else {
      assert attributes[..k + 1][1..] == attributes[1..][..k] && attributes[..k][1..] == attributes[1..][..k - 1];
      AttributesSnoc(attributes[1..], k - 1);
    }
  }

  lemma NoAttributes()
    ensures PrintAttributes([]) == []
  {
  }

  method WriteAttributes(attributes: seq<Attribute>, out: seq<byte>) returns (out': seq<byte>)
    ensures out' == out + PrintAttributes(attributes)
  {
    hide PrintAttribute, PrintAttributes;
    out' := out;
    NoAttributes();
    assert attributes[..0] == [];
    for k := 0 to |attributes|
      invariant out' == out + PrintAttributes(attributes[..k])
    {
      AttributesSnoc(attributes, k);
      out' := WriteAttribute(attributes[k], out');
    }
    assert attributes[..|attributes|] == attributes;
  }

  method WriteAttribute(attribute: Attribute, out: seq<byte>) returns (out': seq<byte>)
    ensures out' == out + PrintAttribute(attribute)
  {
    hide Escape;
    out' := out + [SPACE];
    out' := CopyChars(attribute.name, out');
    out' := out' + [EQ];
    var found := FindChar(attribute.value, QUOT);
    if found {
      out' := out' + [APOS];
      out' := CopyAndExpandChars(attribute.value, QUOT, out');
      out' := out' + [APOS];
    } else {
      out' := out' + [QUOT];
      out' := CopyAndExpandChars(attribute.value, APOS, out');
      out' := out' + [QUOT];
    }
  }

  // print_node
  method WriteNode(node: Node, out: seq<byte>) returns (out': seq<byte>)
    ensures out' == out + PrintNode(node)
    decreases node, 1
  {
    match node
    case Data(value) => out' := CopyAndExpandChars(value, NUL, out);
    case CData(value) =>
      out' := CopyChars(value, out + ([LT, BANG] + CDATA_OPEN));
      out' := out' + CDATA_END;
    case Element(_, _, _, _) => out' := WriteElement(node, out);
  }

  // print_element_node
  method WriteElement(node: Node, out: seq<byte>) returns (out': seq<byte>)
    requires node.Element?
    ensures out' == out + PrintNode(node)
    decreases node, 0
  {
    hide Escape, PrintAttributes, PrintInner;
    out' := CopyChars(node.name, out + [LT]);
    out' := WriteAttributes(node.attributes, out');
    ghost var open := [LT] + node.name + PrintAttributes(node.attributes);
    assert out' == out + open;
    if node.value == [] && node.children == [] {
      out' := out' + [SLASH, GT];
      assert out' == out + (open + [SLASH, GT]);
    } else {
      ghost var inner := PrintInner(node.children, node.value);
      out' := WriteInner(node.children, node.value, out' + [GT]);
      out' := WriteClosingTag(node.name, out');
      assert out' == out + (open + [GT] + inner + ClosingTag(node.name));
    }
  }

  method WriteClosingTag(name: seq<byte>, out: seq<byte>) returns (out': seq<byte>)
    ensures out' == out + ClosingTag(name)
  {
    out' := CopyChars(name, out + [LT, SLASH]);
    out' := out' + [GT];
  }

  method WriteInner(children: seq<Node>, value: seq<byte>, out: seq<byte>) returns (out': seq<byte>)
    ensures out' == out + PrintInner(children, value)
    decreases children, 3
  {
    hide Escape, PrintChildren, PrintNode;
    if children == [] {
      out' := CopyAndExpandChars(value, NUL, out);
    } else if |children| == 1 && children[0].Data? {
      out' := CopyAndExpandChars(children[0].value, NUL, out);
    } else {
      out' := WriteChildren(children, out);
    }
  }

  lemma {:induction false} ChildrenSnoc(children: seq<Node>, k: nat)
    requires k < |children|
    ensures PrintChildren(children[..k + 1]) == PrintChildren(children[..k]) + PrintNode(children[k])
    decreases k
  {
    hide PrintNode;
    if k == 0 {
      assert children[..1] == [children[0]] && [children[0]][1..] == [] && children[..0] == [];
    } else {
      assert children[..k + 1][1..] == children[1..][..k] && children[..k][1..] == children[1..][..k - 1];
      ChildrenSnoc(children[1..], k - 1);
    }
  }

  // print_children
  method WriteChildren(children: seq<Node>, out: seq<byte>) returns (out': seq<byte>)
    ensures out' == out + PrintChildren(children)
    decreases children, 2
  {
    hide PrintNode;
    out' := out;
    for k := 0 to |children|
      invariant out' == out + PrintChildren(children[..k])
    {
      ChildrenSnoc(children, k);
      out' := WriteNode(children[k], out');
    }
    assert children[..|children|] == children;
  }
}
