/** rapidxml's parse<0> as it works: on the caller's buffer, expanding references and writing
    terminators into the text it is still reading. Each method is proved against the grammar of
    the text as it was. */
module XmlInPlace {
  import opened Wrappers
  import opened Bytes
  import opened XmlGrammar
  import Bits
  import Utf8

  // What a node's name or value pointer and size denote.
  datatype Span = Span(off: nat, len: nat)

  datatype AttributeRef = AttributeRef(name: Span, value: Span)

  // `value` of an element is None while its pointer is null.
  datatype NodeRef =
    | ElementRef(name: Span, attributes: seq<AttributeRef>, children: seq<NodeRef>, value: Option<Span>)
    | DataRef(span: Span)
    | CDataRef(span: Span)

  // The span lies in [lo, hi) with its terminator, and the buffer holds the text v there.
  ghost predicate ShowsText(sp: Span, buf: seq<byte>, v: seq<byte>, lo: nat, hi: nat) {
    && lo <= sp.off && sp.off + sp.len < hi <= |buf|
    && buf[sp.off..sp.off + sp.len] == v
    && buf[sp.off + sp.len] == NUL
  }

  ghost predicate ShowsAttribute(r: AttributeRef, buf: seq<byte>, a: Attribute, lo: nat, hi: nat) {
    ShowsText(r.name, buf, a.name, lo, hi) && ShowsText(r.value, buf, a.value, lo, hi)
  }

  ghost predicate ShowsAttributes(rs: seq<AttributeRef>, buf: seq<byte>, list: seq<Attribute>, lo: nat, hi: nat) {
    |rs| == |list| && forall k :: 0 <= k < |rs| ==> ShowsAttribute(rs[k], buf, list[k], lo, hi)
  }

  ghost predicate ShowsValue(r: Option<Span>, buf: seq<byte>, v: seq<byte>, lo: nat, hi: nat) {
    if r.None? then v == [] else ShowsText(r.value, buf, v, lo, hi)
  }

  // The node built from pointers into the buffer is the given tree.
  ghost predicate Shows(r: NodeRef, buf: seq<byte>, node: Node, lo: nat, hi: nat)
    decreases r
  {
    match r
    case DataRef(sp) => node.Data? && ShowsText(sp, buf, node.value, lo, hi)
    case CDataRef(sp) => node.CData? && ShowsText(sp, buf, node.value, lo, hi)
    case ElementRef(name, attributes, children, value) =>
      && node.Element?
      && ShowsText(name, buf, node.name, lo, hi)
      && ShowsAttributes(attributes, buf, node.attributes, lo, hi)
      && |children| == |node.children|
      && (forall k :: 0 <= k < |children| ==> Shows(children[k], buf, node.children[k], lo, hi))
      && ShowsValue(value, buf, node.value, lo, hi)
  }

  ghost predicate ShowsAll(rs: seq<NodeRef>, buf: seq<byte>, nodes: seq<Node>, lo: nat, hi: nat) {
    |rs| == |nodes| && forall k :: 0 <= k < |rs| ==> Shows(rs[k], buf, nodes[k], lo, hi)
  }

  // ---- Writing elsewhere in the buffer leaves a tree alone ----

  ghost predicate Same(a: seq<byte>, b: seq<byte>, lo: nat, hi: nat) {
    hi <= |a| && hi <= |b| && forall k :: lo <= k < hi ==> a[k] == b[k]
  }

  lemma TextStays(sp: Span, a: seq<byte>, b: seq<byte>, v: seq<byte>, lo: nat, hi: nat, lo': nat, hi': nat)
    requires ShowsText(sp, a, v, lo, hi) && Same(a, b, lo, hi) && lo' <= lo && hi <= hi' <= |b|
    ensures ShowsText(sp, b, v, lo', hi')
  {
    assert forall k :: sp.off <= k < sp.off + sp.len ==> a[k] == b[k];
    assert a[sp.off..sp.off + sp.len] == b[sp.off..sp.off + sp.len];
  }

  lemma AttributesStay(rs: seq<AttributeRef>, a: seq<byte>, b: seq<byte>, list: seq<Attribute>,
                       lo: nat, hi: nat, lo': nat, hi': nat)
    requires ShowsAttributes(rs, a, list, lo, hi) && Same(a, b, lo, hi) && lo' <= lo && hi <= hi' <= |b|
    ensures ShowsAttributes(rs, b, list, lo', hi')
  {
    hide ShowsText, Same;
    forall k | 0 <= k < |rs|
      ensures ShowsAttribute(rs[k], b, list[k], lo', hi')
    {
      assert ShowsAttribute(rs[k], a, list[k], lo, hi);
      TextStays(rs[k].name, a, b, list[k].name, lo, hi, lo', hi');
      TextStays(rs[k].value, a, b, list[k].value, lo, hi, lo', hi');
    }
  }

  lemma {:induction false} NodeStays(r: NodeRef, a: seq<byte>, b: seq<byte>, node: Node,
                                     lo: nat, hi: nat, lo': nat, hi': nat)
    requires Shows(r, a, node, lo, hi) && Same(a, b, lo, hi) && lo' <= lo && hi <= hi' <= |b|
    ensures Shows(r, b, node, lo', hi')
    decreases r
  {
    hide ShowsText, Same, ShowsAttributes;
    match r
    case DataRef(sp) => TextStays(sp, a, b, node.value, lo, hi, lo', hi');
    case CDataRef(sp) => TextStays(sp, a, b, node.value, lo, hi, lo', hi');
    case ElementRef(name, attributes, children, value) =>
      TextStays(name, a, b, node.name, lo, hi, lo', hi');
      AttributesStay(attributes, a, b, node.attributes, lo, hi, lo', hi');
      forall k | 0 <= k < |children|
        ensures Shows(children[k], b, node.children[k], lo', hi')
      {
        NodeStays(children[k], a, b, node.children[k], lo, hi, lo', hi');
      }
      if value.Some? {
        TextStays(value.value, a, b, node.value, lo, hi, lo', hi');
      }
  }

  lemma NodesStay(rs: seq<NodeRef>, a: seq<byte>, b: seq<byte>, nodes: seq<Node>,
                  lo: nat, hi: nat, lo': nat, hi': nat)
    requires ShowsAll(rs, a, nodes, lo, hi) && Same(a, b, lo, hi) && lo' <= lo && hi <= hi' <= |b|
    ensures ShowsAll(rs, b, nodes, lo', hi')
  {
    hide Shows, Same;
    forall k | 0 <= k < |rs|
      ensures Shows(rs[k], b, nodes[k], lo', hi')
    {
      NodeStays(rs[k], a, b, nodes[k], lo, hi, lo', hi');
    }
  }

  // ---- References ----

  // A reference is never shorter than the bytes it stands for.
  lemma EncodedFits(s: seq<byte>, i: nat)
    requires CString(s) && i + 1 < |s| && s[i + 1] == HASH
    requires Numeric(s, i).0 < Utf8.CODE_LIMIT
    ensures |Utf8.Encode(Numeric(s, i).0)| <= Numeric(s, i).1 - i
  {
    var (code, end) := Numeric(s, i);
    if s[i + 2] == LOWER_X {
      if end == i + 3 {
        assert code == 0;
      }
    } else {
      if end == i + 2 {
        assert code == 0;
      } else if end == i + 3 {
        var d := DigitOf(s[i + 2]).value;
        assert Code(s, i + 2, 10, 0) == Code(s, i + 3, 10, d);
        assert code == d;
      }
    }
  }

  // Text without references expands to itself.
  lemma {:induction false} ExpandPure(s: seq<byte>, i: nat, p: nat, c: Class)
    requires CString(s) && i <= p < |s| && IsValueClass(c)
    requires forall k :: i <= k < p ==> Test(Pure(c), s[k])
    ensures Expand(s, i, c, i) == Prepend(s[i..p], Expand(s, p, c, p))
    decreases p - i
  {
    if i == p {
      PrependNothing(Expand(s, p, c, p));
      assert s[i..p] == [];
    } else {
      ExpandPure(s, i + 1, p, c);
      assert s[i..p] == [s[i]] + s[i + 1..p];
      PrependTwice([s[i]], s[i + 1..p], Expand(s, p, c, p));
    }
  }

  lemma PrependNothing(e: Expanded)
    ensures Prepend([], e) == e
  {
    if e.Expanded? {
      assert [] + e.bytes == e.bytes;
    }
  }

  lemma PrependTwice(a: seq<byte>, b: seq<byte>, e: Expanded)
    ensures Prepend(a, Prepend(b, e)) == Prepend(a + b, e)
  {
    if e.Expanded? {
      assert a + (b + e.bytes) == a + b + e.bytes;
    }
  }

  lemma PrependMore(before: seq<byte>, buf: seq<byte>, start: nat, mid: nat, end: nat, e: Expanded)
    requires start <= mid <= end <= |buf| && |before| == mid - start
    requires forall k :: start <= k < mid ==> buf[k] == before[k - start]
    ensures Prepend(before, Prepend(buf[mid..end], e)) == Prepend(buf[start..end], e)
  {
    assert buf[start..end] == before + buf[mid..end];
    PrependTwice(before, buf[mid..end], e);
  }

  class Parser {
    const text: array<byte>
    var pos: nat

    constructor (text: array<byte>)
      ensures this.text == text && pos == 0
    {
      this.text := text;
      pos := 0;
    }

    // The text from `from` on is still as it was.
    ghost predicate Unread(s: seq<byte>, from: nat)
      reads this, text
    {
      CString(s) && |s| == text.Length && from <= |s| && forall k :: from <= k < |s| ==> text[k] == s[k]
    }

    // skip<StopPred>
    method Skip(ghost s: seq<byte>, c: Class)
      requires Unread(s, pos) && pos < |s|
      modifies this`pos
      ensures pos == XmlGrammar.Skip(s, old(pos), c)
    {
      var tmp := pos;
      while Test(c, text[tmp])
        invariant pos <= tmp < |s|
        invariant XmlGrammar.Skip(s, tmp, c) == XmlGrammar.Skip(s, pos, c)
        decreases |s| - tmp
      {
        tmp := tmp + 1;
      }
      pos := tmp;
    }

    // insert_coded_character at dest
    method InsertCoded(dest: nat, code: nat) returns (dest': nat)
      requires code < Utf8.CODE_LIMIT && dest + |Utf8.Encode(code)| <= text.Length
      modifies text
      ensures dest' == dest + |Utf8.Encode(code)|
      ensures text[dest..dest'] == Utf8.Encode(code)
      ensures forall k :: 0 <= k < text.Length && !(dest <= k < dest') ==> text[k] == old(text[k])
    {
      hide Bits.And, Bits.Or, Utf8.Tail, Utf8.Uchar;
      if code < 0x80 {
        text[dest] := Utf8.Uchar(code);
        dest' := dest + 1;
      } else if code < 0x800 {
        text[dest + 1] := Utf8.Tail(code);
        text[dest] := Utf8.Uchar(Bits.Or(code / 64, 0xC0));
        dest' := dest + 2;
      } else {
        dest' := InsertLong(dest, code);
      }
    }

    // The codes that take three or four bytes.
    method InsertLong(dest: nat, code: nat) returns (dest': nat)
      requires 0x800 <= code < Utf8.CODE_LIMIT && dest + |Utf8.Encode(code)| <= text.Length
      modifies text
      ensures dest' == dest + |Utf8.Encode(code)|
      ensures text[dest..dest'] == Utf8.Encode(code)
      ensures forall k :: 0 <= k < text.Length && !(dest <= k < dest') ==> text[k] == old(text[k])
    {
      hide Bits.And, Bits.Or, Utf8.Tail, Utf8.Uchar;
      if code < 0x10000 {
        text[dest + 2] := Utf8.Tail(code);
        text[dest + 1] := Utf8.Tail(code / 64);
        text[dest] := Utf8.Uchar(Bits.Or(code / 64 / 64, 0xE0));
        dest' := dest + 3;
      } else {
        text[dest + 3] := Utf8.Tail(code);
        text[dest + 2] := Utf8.Tail(code / 64);
        text[dest + 1] := Utf8.Tail(code / 64 / 64);
        text[dest] := Utf8.Uchar(Bits.Or(code / 64 / 64 / 64, 0xF0));
        dest' := dest + 4;
      }
    }

    // The digits of a numeric reference from pos on.
    method ReadCode(ghost s: seq<byte>, base: nat) returns (code: nat)
      requires Unread(s, pos) && pos < |s|
      modifies this`pos
      ensures (code, pos) == Code(s, old(pos), base, 0)
    {
      code := 0;
      while DigitOf(text[pos]) != None
        invariant old(pos) <= pos < |s|
        invariant Code(s, pos, base, code) == Code(s, old(pos), base, 0)
        decreases |s| - pos
      {
        code := (code * base + DigitOf(text[pos]).value) % ULONG;
        pos := pos + 1;
      }
    }

    // One reference, at the & at pos: what it stands for is stored at dest.
    method ExpandNumeric(ghost s: seq<byte>, dest: nat) returns (dest': nat, err: Option<ParseError>)
      requires Unread(s, pos) && dest <= pos < |s| - 1 && s[pos] == AMP && s[pos + 1] == HASH
      modifies this`pos, text
      ensures var (code, end) := Numeric(s, old(pos));
              if code >= Utf8.CODE_LIMIT then err == Some(ParseError(InvalidNumericEntity, dest))
              else if s[end] != SEMI then err == Some(ParseError(ExpectedSemicolon, end))
              else
                && err == None && pos == end + 1 && dest <= dest' <= pos < |s|
                && dest' == dest + |Utf8.Encode(code)| && text[dest..dest'] == Utf8.Encode(code)
      ensures err.None? ==> Unread(s, pos) && forall k :: 0 <= k < dest ==> text[k] == old(text[k])
    {
      dest' := dest;
      ghost var start := pos;
      var code;
      if text[pos + 2] == LOWER_X {
        pos := pos + 3;
        code := ReadCode(s, 16);
      } else {
        pos := pos + 2;
        code := ReadCode(s, 10);
      }
      assert (code, pos) == Numeric(s, start);
      if code >= Utf8.CODE_LIMIT {
        return dest, Some(ParseError(InvalidNumericEntity, dest));
      }
      EncodedFits(s, start);
      dest' := InsertCoded(dest, code);
      if text[pos] != SEMI {
        return dest', Some(ParseError(ExpectedSemicolon, pos));
      }
      pos := pos + 1;
      err := None;
    }

    // The bytes at pos spell the pattern; read one at a time, never past a NUL.
    method Looks(ghost s: seq<byte>, i: nat, p: seq<byte>) returns (yes: bool)
      requires Unread(s, pos) && pos <= i < |s| && NUL !in p
      ensures yes == At(s, i, p)
    {
      for k := 0 to |p|
        invariant i + k < |s|
        invariant forall j :: 0 <= j < k ==> s[i + j] == p[j]
      {
        if text[i + k] != p[k] {
          NotAt(s, i, p, k);
          return false;
        }
        assert p[k] in p;
      }
      assert s[i..i + |p|] == p;
      yes := true;
    }

    method ReadNamed(ghost s: seq<byte>) returns (r: Option<(byte, nat)>)
      requires Unread(s, pos) && pos < |s| - 1 && s[pos] == AMP
      ensures r == Named(s, pos)
    {
      var i := pos + 2;
      var c := text[pos + 1];
      r := None;
      if c == LOWER_A {
        var amp := Looks(s, i, MP_SEMI);
        if amp {
          return Some((AMP, 5));
        }
        var apos := Looks(s, i, POS_SEMI);
        if apos {
          return Some((APOS, 6));
        }
      } else if c == LOWER_Q {
        var quot := Looks(s, i, UOT_SEMI);
        if quot {
          return Some((QUOT, 6));
        }
      } else if c == LOWER_G || c == LOWER_L {
        var gtlt := Looks(s, i, T_SEMI);
        if gtlt {
          return Some((if c == LOWER_G then GT else LT, 4));
        }
      }
    }

    // skip_and_expand_character_refs: returns the end of the expanded text, which never passes
    // the reading position.
    method SkipAndExpand(ghost s: seq<byte>, c: Class) returns (dest: nat, err: Option<ParseError>)
      requires Unread(s, pos) && pos < |s| && IsValueClass(c)
      modifies this`pos, text
      ensures err.Some? ==> Expand(s, old(pos), c, old(pos)) == Bad(err.value)
      ensures err.None? ==> old(pos) <= dest <= pos < |s| && Unread(s, pos)
      ensures err.None? ==> Expand(s, old(pos), c, old(pos)) == Expanded(text[old(pos)..dest], pos)
      ensures err.None? ==> forall k :: 0 <= k < old(pos) ==> text[k] == old(text[k])
    {
      hide Expand, CString;
      ghost var start := pos;
      Skip(s, Pure(c));
      dest := pos;
      ExpandPure(s, start, pos, c);
      assert text[start..pos] == s[start..pos];
      while Test(c, text[pos])
        invariant start <= dest <= pos < |s| && Unread(s, pos)
        invariant Expand(s, start, c, start) == Prepend(text[start..dest], Expand(s, pos, c, dest))
        invariant forall k :: 0 <= k < start ==> text[k] == old(text[k])
        decreases |s| - pos
      {
        ghost var before := text[start..dest];
        ghost var from, dest0 := pos, dest;
        dest, err := ExpandOne(s, c, dest);
        if err.Some? {
          return;
        }
        PrependMore(before, text[..], start, dest0, dest, Expand(s, pos, c, dest));
      }
      err := None;
      NoStep(s, pos, c, dest);
      PrependEnd(text[start..dest], pos);
    }

    // One round of the translation loop: a reference or a byte.
    method ExpandOne(ghost s: seq<byte>, c: Class, dest: nat) returns (dest': nat, err: Option<ParseError>)
      requires Unread(s, pos) && dest <= pos < |s| && IsValueClass(c) && Test(c, s[pos])
      modifies this`pos, text
      ensures err.Some? ==> Expand(s, old(pos), c, dest) == Bad(err.value)
      ensures err.None? ==> old(pos) < pos && dest <= dest' <= pos < |s| && Unread(s, pos)
      ensures err.None? ==> Expand(s, old(pos), c, dest) == Prepend(text[dest..dest'], Expand(s, pos, c, dest'))
      ensures err.None? ==> forall k :: 0 <= k < dest ==> text[k] == old(text[k])
    {
      hide Expand, Numeric, OneByte, Utf8.Encode, Prepend, Test;
      NotAtEnd(s, pos, c);
      if text[pos] == AMP && text[pos + 1] == HASH {
        NumericStep(s, pos, c, dest);
        dest', err := ExpandNumeric(s, dest);
      } else {
        ByteStep(s, pos, c, dest);
        ExpandByte(s, dest);
        dest', err := dest + 1, None;
      }
    }

    // A named reference, or a byte that stands for itself.
    method ExpandByte(ghost s: seq<byte>, dest: nat)
      requires Unread(s, pos) && dest <= pos < |s| - 1
      modifies this`pos, text
      ensures var (b, len) := OneByte(s, old(pos));
              pos == old(pos) + len < |s| && len > 0 && text[dest..dest + 1] == [b]
      ensures Unread(s, pos) && forall k :: 0 <= k < dest ==> text[k] == old(text[k])
    {
      hide Named;
      var b, len := text[pos], 1;
      if text[pos] == AMP {
        var named := ReadNamed(s);
        if named.Some? {
          b, len := named.value.0, named.value.1;
        }
      }
      text[dest] := b;
      pos := pos + len;
    }

    // ---- Attributes ----

    // The bytes before `from` are as they were.
    twostate predicate KeepsBefore(from: nat)
      reads text
    {
      from <= text.Length && forall k :: 0 <= k < from ==> text[k] == old(text[k])
    }

    // The value behind an opening quote: expanded in place and terminated.
    method ReadQuoted(ghost s: seq<byte>, quote: byte) returns (r: Span, err: Option<ParseError>)
      requires Unread(s, pos) && pos < |s| && (quote == APOS || quote == QUOT)
      modifies this`pos, text
      ensures var e := Expand(s, old(pos), if quote == APOS then Single else Double, old(pos));
              && (err.Some? ==>
                    err.value == if e.Bad? then e.error else ParseError(ExpectedQuote, e.end))
              && (err.Some? ==> e.Bad? || s[e.end] != quote)
              && (err.None? ==> e.Expanded? && s[e.end] == quote && pos == e.end + 1 && old(pos) < pos < |s|
                                && Unread(s, pos) && KeepsBefore(old(pos))
                                && ShowsText(r, text[..], e.bytes, old(pos), pos))
    {
      hide Expand, CString;
      var value := pos;
      var end;
      end, err := SkipAndExpand(s, if quote == APOS then Single else Double);
      r := Span(value, 0);
      if err.Some? {
        return;
      }
      r := Span(value, end - value);
      if text[pos] != quote {
        return r, Some(ParseError(ExpectedQuote, pos));
      }
      MoreText(s, pos);
      ghost var bytes := text[value..end];
      pos := pos + 1;
      text[end] := NUL;
      assert text[..][value..end] == text[value..end] == bytes;
    }

    method ParseValue(ghost s: seq<byte>) returns (r: Span, err: Option<ParseError>)
      requires Unread(s, pos) && pos < |s|
      modifies this`pos, text
      ensures err.Some? ==> XmlGrammar.ParseValue(s, old(pos)) == BadValue(err.value)
      ensures err.None? ==> old(pos) < pos < |s| && Unread(s, pos) && KeepsBefore(old(pos))
      ensures err.None? ==>
                var g := XmlGrammar.ParseValue(s, old(pos));
                g.QuotedValue? && g.next == pos && ShowsText(r, text[..], g.value, old(pos), pos)
    {
      hide Expand, XmlGrammar.Skip, XmlGrammar.ParseValue, CString, ShowsText;
      ValueStep(s, pos);
      Skip(s, Whitespace);
      var quote := text[pos];
      if quote != APOS && quote != QUOT {
        return Span(0, 0), Some(ParseError(ExpectedQuote, pos));
      }
      MoreText(s, pos);
      pos := pos + 1;
      ghost var from := pos;
      r, err := ReadQuoted(s, quote);
      if err.Some? {
        return;
      }
      ghost var behind := pos;
      Skip(s, Whitespace);
      TextStays(r, text[..], text[..], XmlGrammar.ParseValue(s, old(pos)).value, from, behind, old(pos), pos);
    }

    // An attribute's name and the =, the name being terminated behind its back.
    method ParseAttributeName(ghost s: seq<byte>) returns (r: Span, err: Option<ParseError>)
      requires Unread(s, pos) && pos < |s| && Test(AttributeName, s[pos])
      modifies this`pos, text
      ensures var nameEnd := XmlGrammar.Skip(s, old(pos) + 1, AttributeName);
              var eq := XmlGrammar.Skip(s, nameEnd, Whitespace);
              if s[eq] != EQ then err == Some(ParseError(ExpectedEquals, eq))
              else
                && err == None && pos == eq + 1 && old(pos) < pos < |s|
                && Unread(s, pos) && KeepsBefore(old(pos))
                && ShowsText(r, text[..], s[old(pos)..nameEnd], old(pos), pos)
    {
      hide XmlGrammar.Skip, CString;
      var name := pos;
      NotAtEnd(s, pos, AttributeName);
      pos := pos + 1;
      Skip(s, AttributeName);
      r := Span(name, pos - name);
      Skip(s, Whitespace);
      if text[pos] != EQ {
        return r, Some(ParseError(ExpectedEquals, pos));
      }
      MoreText(s, pos);
      pos := pos + 1;
      text[name + r.len] := NUL;
      err := None;
      assert text[..][name..name + r.len] == s[name..name + r.len];
    }

    method ParseAttribute(ghost s: seq<byte>) returns (r: AttributeRef, err: Option<ParseError>)
      requires Unread(s, pos) && pos < |s| && Test(AttributeName, s[pos])
      modifies this`pos, text
      ensures err.Some? ==> XmlGrammar.ParseAttribute(s, old(pos)) == BadAttribute(err.value)
      ensures err.None? ==> old(pos) < pos < |s| && Unread(s, pos) && KeepsBefore(old(pos))
      ensures err.None? ==>
                var g := XmlGrammar.ParseAttribute(s, old(pos));
                g.OneAttribute? && g.next == pos && ShowsAttribute(r, text[..], g.attribute, old(pos), pos)
    {
      hide XmlGrammar.Skip, XmlGrammar.ParseValue, CString, ShowsText;
      NotAtEnd(s, pos, AttributeName);
      var name, value;
      name, err := ParseAttributeName(s);
      r := AttributeRef(name, name);
      if err.Some? {
        return;
      }
      ghost var named, from := text[..], pos;
      value, err := ParseValue(s);
      if err.Some? {
        return;
      }
      r := AttributeRef(name, value);
      ghost var a := XmlGrammar.ParseAttribute(s, old(pos)).attribute;
      TextStays(name, named, text[..], a.name, old(pos), from, old(pos), pos);
      TextStays(value, text[..], text[..], a.value, from, pos, old(pos), pos);
    }

    method ParseAttributes(ghost s: seq<byte>) returns (rs: seq<AttributeRef>, err: Option<ParseError>)
      requires Unread(s, pos) && pos < |s|
      modifies this`pos, text
      ensures err.Some? ==> XmlGrammar.ParseAttributes(s, old(pos), []) == BadAttributes(err.value)
      ensures err.None? ==> old(pos) <= pos < |s| && Unread(s, pos) && KeepsBefore(old(pos))
      ensures err.None? ==>
                var g := XmlGrammar.ParseAttributes(s, old(pos), []);
                g.Attributes? && g.next == pos && ShowsAttributes(rs, text[..], g.list, old(pos), pos)
    {
      hide XmlGrammar.ParseAttribute, ShowsText;
      rs := [];
      ghost var list: seq<Attribute> := [];
      while Test(AttributeName, text[pos])
        invariant old(pos) <= pos < |s| && Unread(s, pos) && KeepsBefore(old(pos))
        invariant XmlGrammar.ParseAttributes(s, pos, list) == XmlGrammar.ParseAttributes(s, old(pos), [])
        invariant ShowsAttributes(rs, text[..], list, old(pos), pos)
        decreases |s| - pos
      {
        ghost var before, from := text[..], pos;
        var r;
        r, err := ParseAttribute(s);
        if err.Some? {
          return;
        }
        ghost var a := XmlGrammar.ParseAttribute(s, from).attribute;
        AttributesStay(rs, before, text[..], list, old(pos), from, old(pos), pos);
        AttributesStay([r], text[..], text[..], [a], from, pos, old(pos), pos);
        rs, list := rs + [r], list + [a];
      }
      err := None;
    }

    // ---- Markup without nodes ----

    // Loops of parse_comment, parse_pi, parse_xml_declaration and the unknown <! markup.
    method SkipPast(ghost s: seq<byte>, pattern: seq<byte>) returns (err: Option<ParseError>)
      requires Unread(s, pos) && pos < |s| && |pattern| > 0 && NUL !in pattern
      modifies this`pos
      ensures var next := XmlGrammar.SkipPast(s, old(pos), pattern);
              if next.Some? then err == None && pos == next.value
              else err == Some(ParseError(UnexpectedEnd, |s| - 1))
      ensures old(pos) <= pos < |s|
    {
      var found := Looks(s, pos, pattern);
      while !found
        invariant old(pos) <= pos < |s| && found == At(s, pos, pattern)
        invariant XmlGrammar.SkipPast(s, pos, pattern) == XmlGrammar.SkipPast(s, old(pos), pattern)
        decreases |s| - pos
      {
        if text[pos] == NUL {
          return Some(ParseError(UnexpectedEnd, pos));
        }
        pos := pos + 1;
        found := Looks(s, pos, pattern);
      }
      InText(s, pos, pattern);
      pos := pos + |pattern|;
      err := None;
    }

    // parse_doctype
    method SkipDoctype(ghost s: seq<byte>) returns (err: Option<ParseError>)
      requires Unread(s, pos) && pos < |s|
      modifies this`pos
      ensures var next := XmlGrammar.SkipDoctype(s, old(pos));
              if next.Some? then err == None && pos == next.value
              else err == Some(ParseError(UnexpectedEnd, |s| - 1))
      ensures old(pos) <= pos < |s|
    {
      while text[pos] != GT
        invariant old(pos) <= pos < |s|
        invariant XmlGrammar.SkipDoctype(s, pos) == XmlGrammar.SkipDoctype(s, old(pos))
        decreases |s| - pos
      {
        if text[pos] == OPEN {
          pos := pos + 1;
          var depth := 1;
          ghost var inner := pos;
          while depth > 0
            invariant inner <= pos < |s| && depth >= 0
            invariant SkipBrackets(s, pos, depth) == SkipBrackets(s, inner, 1)
            decreases |s| - pos
          {
            if text[pos] == OPEN {
              depth := depth + 1;
            } else if text[pos] == CLOSE {
              depth := depth - 1;
            } else if text[pos] == NUL {
              return Some(ParseError(UnexpectedEnd, pos));
            }
            pos := pos + 1;
          }
        } else if text[pos] == NUL {
          return Some(ParseError(UnexpectedEnd, pos));
        } else {
          pos := pos + 1;
        }
      }
      pos := pos + 1;
      err := None;
    }

    // parse_cdata
    method ParseCData(ghost s: seq<byte>) returns (r: NodeRef, err: Option<ParseError>)
      requires Unread(s, pos) && pos < |s|
      modifies this`pos, text
      ensures var next := XmlGrammar.SkipPast(s, old(pos), CDATA_END);
              if next.None? then err == Some(ParseError(UnexpectedEnd, |s| - 1))
              else
                && err == None && pos == next.value && old(pos) < pos < |s|
                && Unread(s, pos) && KeepsBefore(old(pos))
                && Shows(r, text[..], CData(s[old(pos)..pos - 3]), old(pos), pos)
    {
      hide CString, XmlGrammar.SkipPast;
      var value := pos;
      err := SkipPast(s, CDATA_END);
      if err.Some? {
        return DataRef(Span(0, 0)), err;
      }
      var size := pos - 3 - value;
      r := CDataRef(Span(value, size));
      text[value + size] := NUL;
      assert text[..][value..value + size] == s[value..value + size];
    }

    // The <! branches of parse_node
    method ParseBang(ghost s: seq<byte>) returns (r: Option<NodeRef>, err: Option<ParseError>)
      requires Unread(s, pos) && pos < |s| && s[pos] == BANG
      modifies this`pos, text
      ensures err.Some? ==> XmlGrammar.ParseBang(s, old(pos)) == Failed(err.value)
      ensures err.None? ==> old(pos) < pos < |s| && Unread(s, pos) && KeepsBefore(old(pos))
      ensures err.None? ==> ShowsParsed(r, XmlGrammar.ParseBang(s, old(pos)), old(pos))
    {
      hide XmlGrammar.SkipPast, XmlGrammar.SkipDoctype, XmlGrammar.ParseBang, Shows, At, CString, Test;
      BangStep(s, pos);
      MoreText(s, pos);
      r := None;
      var cdata := Looks(s, pos + 1, CDATA_OPEN);
      if cdata {
        r, err := ParseBangCData(s);
      } else {
        err := SkipBang(s);
      }
    }

    // The branches that make no node
    method SkipBang(ghost s: seq<byte>) returns (err: Option<ParseError>)
      requires Unread(s, pos) && pos + 1 < |s| && s[pos] == BANG && !At(s, pos + 1, CDATA_OPEN)
      modifies this`pos
      ensures old(pos) < pos < |s| && Unread(s, pos)
      ensures XmlGrammar.ParseBang(s, old(pos)) == if err.Some? then Failed(err.value) else Parsed(None, pos)
    {
      hide XmlGrammar.SkipPast, XmlGrammar.SkipDoctype, XmlGrammar.ParseBang, At, CString, Test;
      BangStep(s, pos);
      var comment := LooksComment(s);
      var doctype := LooksDoctype(s);
      if comment {
        pos := pos + 3;
        err := SkipPast(s, COMMENT_END);
      } else if doctype {
        pos := pos + 9;
        err := SkipDoctype(s);
      } else {
        pos := pos + 1;
        err := SkipPast(s, [GT]);
      }
    }

    method LooksComment(ghost s: seq<byte>) returns (yes: bool)
      requires Unread(s, pos) && pos + 1 < |s|
      ensures yes <==> s[pos + 1] == MINUS && s[pos + 2] == MINUS
      ensures yes ==> pos + 3 < |s|
    {
      yes := false;
      if text[pos + 1] == MINUS {
        MoreText(s, pos + 1);
        yes := text[pos + 2] == MINUS;
      }
    }

    method LooksDoctype(ghost s: seq<byte>) returns (yes: bool)
      requires Unread(s, pos) && pos + 1 < |s|
      ensures At(s, pos + 1, DOCTYPE) ==> pos + 8 < |s|
      ensures yes <==> At(s, pos + 1, DOCTYPE) && Test(Whitespace, s[pos + 8])
      ensures yes ==> pos + 9 < |s|
    {
      hide At;
      yes := Looks(s, pos + 1, DOCTYPE);
      if yes {
        InText(s, pos + 1, DOCTYPE);
        yes := Test(Whitespace, text[pos + 8]);
      }
    }

    method ParseBangCData(ghost s: seq<byte>) returns (r: Option<NodeRef>, err: Option<ParseError>)
      requires Unread(s, pos) && pos < |s| && At(s, pos + 1, CDATA_OPEN)
      modifies this`pos, text
      ensures err.None? ==> old(pos) < pos < |s| && Unread(s, pos) && KeepsBefore(old(pos))
      ensures old(pos) + 8 < |s|
      ensures var next := XmlGrammar.SkipPast(s, old(pos) + 8, CDATA_END);
              if next.None? then err == Some(ParseError(UnexpectedEnd, |s| - 1))
              else
                && err.None? && pos == next.value && old(pos) + 11 <= pos && r.Some?
                && Shows(r.value, text[..], CData(s[old(pos) + 8..pos - 3]), old(pos), pos)
    {
      hide XmlGrammar.SkipPast, Shows, At;
      var start := pos;
      r := None;
      InText(s, pos + 1, CDATA_OPEN);
      pos := pos + 8;
      var node;
      node, err := ParseCData(s);
      if err.None? {
        r := Some(node);
        NodeStays(node, text[..], text[..], CData(s[start + 8..pos - 3]), start + 8, pos, start, pos);
      }
    }

    // The references returned are the node of the parse result, placed between from and pos.
    ghost predicate ShowsParsed(r: Option<NodeRef>, g: Parsed, from: nat)
      reads this, text
    {
      && g.Parsed? && g.next == pos
      && (if r.None? then g.node == None
          else g.node.Some? && Shows(r.value, text[..], g.node.value, from, pos))
    }

    // parse_node
    method ParseNode(ghost s: seq<byte>) returns (r: Option<NodeRef>, err: Option<ParseError>)
      requires Unread(s, pos) && pos < |s|
      modifies this`pos, text
      ensures err.Some? ==> XmlGrammar.ParseNode(s, old(pos)) == Failed(err.value)
      ensures err.None? ==> old(pos) < pos < |s| && Unread(s, pos) && KeepsBefore(old(pos))
      ensures err.None? ==> ShowsParsed(r, XmlGrammar.ParseNode(s, old(pos)), old(pos))
      decreases |s| - pos, 3
    {
      hide XmlGrammar.SkipPast, XmlGrammar.ParseElement, XmlGrammar.ParseBang;
      if text[pos] == QUESTION {
        r := None;
        if IsCase(text[pos + 1], 120) && IsCase(text[pos + 2], 109) && IsCase(text[pos + 3], 108)
           && Test(Whitespace, text[pos + 4])
        {
          pos := pos + 5;
        } else {
          pos := pos + 1;
        }
        err := SkipPast(s, PI_END);
      } else if text[pos] == BANG {
        r, err := ParseBang(s);
      } else {
        var node;
        node, err := ParseElement(s);
        r := Some(node);
      }
    }

    // parse_element
    method ParseElement(ghost s: seq<byte>) returns (r: NodeRef, err: Option<ParseError>)
      requires Unread(s, pos) && pos < |s|
      modifies this`pos, text
      ensures err.Some? ==> XmlGrammar.ParseElement(s, old(pos)) == Failed(err.value)
      ensures err.None? ==> old(pos) < pos < |s| && Unread(s, pos) && KeepsBefore(old(pos))
      ensures err.None? ==> ShowsParsed(Some(r), XmlGrammar.ParseElement(s, old(pos)), old(pos))
      decreases |s| - pos, 2
    {
      hide XmlGrammar.Skip, XmlGrammar.ParseAttributes, XmlGrammar.ParseBody, XmlGrammar.ParseElement,
           ShowsAttributes, ShowsAll, ShowsValue, Shows;
      ghost var start := pos;
      r := DataRef(Span(0, 0));
      var name, attributes;
      name, attributes, err := ParseTagName(s);
      if err.Some? {
        return;
      }
      ghost var tagEnd, withAttributes := pos, text[..];
      var children, value;
      children, value, err := ParseBody(s);
      ElementStep(s, start);
      if err.Some? {
        return;
      }
      ghost var before := text[..];
      text[name.off + name.len] := NUL;
      r := ElementRef(name, attributes, children, value);
      ghost var at := AttributesAt(s, start);
      ghost var g := XmlGrammar.ParseAttributes(s, at, []);
      ghost var c := XmlGrammar.ParseBody(s, tagEnd);
      ElementShows(s, r, withAttributes, before, text[..], g.list, c.children, c.value, at, tagEnd, pos);
    }

    // The name of an element, still without its terminator, and the attributes.
    method ParseTagName(ghost s: seq<byte>) returns (name: Span, attributes: seq<AttributeRef>, err: Option<ParseError>)
      requires Unread(s, pos) && pos < |s|
      modifies this`pos, text
      ensures err.Some? ==> XmlGrammar.ParseElement(s, old(pos)) == Failed(err.value)
      ensures err.None? ==>
                var nameEnd, at := XmlGrammar.Skip(s, old(pos), NodeName), AttributesAt(s, old(pos));
                var g := XmlGrammar.ParseAttributes(s, at, []);
                && old(pos) < nameEnd <= at <= pos < |s| && name == Span(old(pos), nameEnd - old(pos))
                && Unread(s, pos) && KeepsBefore(old(pos)) && (forall k :: old(pos) <= k < nameEnd ==> text[k] == s[k])
                && g.Attributes? && g.next == pos && ShowsAttributes(attributes, text[..], g.list, at, pos)
                && (at > nameEnd || g.list == [])
    {
      hide XmlGrammar.Skip, XmlGrammar.ParseAttributes, XmlGrammar.ParseElement, ShowsAttributes;
      var start := pos;
      name, attributes := Span(start, 0), [];
      ElementStep(s, start);
      Skip(s, NodeName);
      if pos == start {
        return name, attributes, Some(ParseError(ExpectedElementName, pos));
      }
      name := Span(start, pos - start);
      Skip(s, Whitespace);
      NameApart(s, start, pos);
      attributes, err := ParseAttributes(s);
    }

    // The end of the opening tag, and the contents if there are any
    method ParseBody(ghost s: seq<byte>) returns (children: seq<NodeRef>, value: Option<Span>, err: Option<ParseError>)
      requires Unread(s, pos) && pos < |s|
      modifies this`pos, text
      ensures err.Some? ==> XmlGrammar.ParseBody(s, old(pos)) == FailedContents(err.value)
      ensures err.None? ==> old(pos) < pos < |s| && Unread(s, pos) && KeepsBefore(old(pos) + 1)
      ensures err.None? ==>
                var g := XmlGrammar.ParseBody(s, old(pos));
                && g.Contents? && g.next == pos
                && ShowsAll(children, text[..], g.children, old(pos) + 1, pos)
                && ShowsValue(value, text[..], g.value, old(pos) + 1, pos)
      decreases |s| - pos, 1
    {
      hide XmlGrammar.ParseContents, Shows, ShowsText;
      children, value, err := [], None, None;
      if text[pos] == GT {
        pos := pos + 1;
        children, value, err := ParseContents(s);
      } else if text[pos] == SLASH {
        pos := pos + 1;
        if text[pos] != GT {
          return children, value, Some(ParseError(ExpectedGt, pos));
        }
        pos := pos + 1;
      } else {
        return children, value, Some(ParseError(ExpectedGt, pos));
      }
    }

    // parse_node_contents: the children and the value of the element being read
    method ParseContents(ghost s: seq<byte>)
      returns (children: seq<NodeRef>, value: Option<Span>, err: Option<ParseError>)
      requires Unread(s, pos) && pos < |s|
      modifies this`pos, text
      ensures err.Some? ==> XmlGrammar.ParseContents(s, old(pos), [], []) == FailedContents(err.value)
      ensures err.None? ==> old(pos) < pos < |s| && Unread(s, pos) && KeepsBefore(old(pos))
      ensures err.None? ==>
                var g := XmlGrammar.ParseContents(s, old(pos), [], []);
                && g.Contents? && g.next == pos
                && ShowsAll(children, text[..], g.children, old(pos), pos)
                && ShowsValue(value, text[..], g.value, old(pos), pos)
      decreases |s| - pos, 2
    {
      hide Shows, ShowsText, Expand, XmlGrammar.ParseNode, XmlGrammar.Skip, XmlGrammar.ParseContents, ParseTag,
           AfterData, ShowsAll, ShowsValue, CString, Test, NoValue;
      NothingShown(text[..], pos, pos);
      ghost var start, hi := pos, pos;
      children, value, err := [], None, None;
      ghost var kids: seq<Node> := [];
      ghost var val: seq<byte> := [];
      var nextChar := NUL;
      var afterData := false;
      while true
        invariant start <= pos < |s| && hi == (if afterData then pos + 1 else pos) && KeepsBefore(start)
        invariant Unread(s, hi)
        invariant afterData ==> nextChar == s[pos] && (s[pos] == LT || s[pos] == NUL)
        invariant ShowsAll(children, text[..], kids, start, hi) && ShowsValue(value, text[..], val, start, hi)
        invariant XmlGrammar.ParseContents(s, start, [], [])
               == if afterData then AfterData(s, pos, kids, val) else XmlGrammar.ParseContents(s, pos, kids, val)
        decreases |s| - pos, if afterData then 0 else 1
      {
        var contentsStart := pos;
        if afterData {
          AfterDataStep(s, pos, kids, val);
        } else {
          nextChar := NextChar(s, kids, val);
        }
        if nextChar == LT {
          MoreText(s, pos);
          assert XmlGrammar.ParseContents(s, start, [], []) == ParseTag(s, pos, kids, val);
          if text[pos + 1] == SLASH {
            err := CloseElement(s, children, value, kids, val, start, hi);
            return;
          }
          children, err, kids := AppendTag(s, children, value, kids, val, start, hi);
          if err.Some? {
            return;
          }
          afterData, hi := false, pos;
        } else if nextChar == NUL {
          return children, value, Some(ParseError(UnexpectedEnd, pos));
        } else {
          pos := contentsStart;
          children, value, nextChar, err, kids, val := AppendContents(s, children, value, kids, val, start);
          if err.Some? {
            return;
          }
          afterData, hi := true, pos + 1;
        }
      }
    }

    // The byte behind white space, which decides how the contents go on.
    method NextChar(ghost s: seq<byte>, ghost kids: seq<Node>, ghost val: seq<byte>) returns (ch: byte)
      requires Unread(s, pos) && pos < |s|
      modifies this`pos
      ensures pos == XmlGrammar.Skip(s, old(pos), Whitespace) && ch == s[pos]
      ensures ch == LT ==> XmlGrammar.ParseContents(s, old(pos), kids, val) == ParseTag(s, pos, kids, val)
      ensures ch == NUL ==>
                XmlGrammar.ParseContents(s, old(pos), kids, val) == FailedContents(ParseError(UnexpectedEnd, pos))
    {
      hide XmlGrammar.Skip, Expand, ParseTag, AfterData, NoValue, CString;
      ContentsStep(s, pos, kids, val);
      Skip(s, Whitespace);
      ch := text[pos];
    }

    // Data where the contents go on.
    method AppendContents(ghost s: seq<byte>, before: seq<NodeRef>, value: Option<Span>,
                          ghost kids: seq<Node>, ghost val: seq<byte>, ghost start: nat)
      returns (children: seq<NodeRef>, value': Option<Span>, ch: byte, err: Option<ParseError>,
               ghost kids': seq<Node>, ghost val': seq<byte>)
      requires Unread(s, pos) && start <= pos < |s|
      requires var j := XmlGrammar.Skip(s, pos, Whitespace); s[j] != LT && s[j] != NUL
      requires ShowsAll(before, text[..], kids, start, pos) && ShowsValue(value, text[..], val, start, pos)
      modifies this`pos, text
      ensures err.Some? ==> XmlGrammar.ParseContents(s, old(pos), kids, val) == FailedContents(err.value)
      ensures err.None? ==>
                && old(pos) <= pos < |s| && Unread(s, pos + 1) && KeepsBefore(old(pos))
                && ch == s[pos] && (s[pos] == LT || s[pos] == NUL)
                && ShowsAll(children, text[..], kids', start, pos + 1)
                && ShowsValue(value', text[..], val', start, pos + 1)
                && XmlGrammar.ParseContents(s, old(pos), kids, val) == AfterData(s, pos, kids', val')
    {
      hide Expand, ShowsAll, ShowsValue, CString, XmlGrammar.Skip, XmlGrammar.ParseContents, AfterData, NoValue;
      ghost var from := pos;
      kids', val' := kids, val;
      ContentsStep(s, pos, kids, val);
      children, value', ch, err := AppendData(s, before, value, kids, val, start);
      if err.None? {
        ghost var bytes := Expand(s, from, Text, from).bytes;
        kids', val' := kids + [Data(bytes)], if NoValue(val) then bytes else val;
      }
    }

    // The closing tag at pos ends the contents.
    method CloseElement(ghost s: seq<byte>, ghost children: seq<NodeRef>, ghost value: Option<Span>,
                        ghost kids: seq<Node>, ghost val: seq<byte>, ghost start: nat, ghost hi: nat)
      returns (err: Option<ParseError>)
      requires pos + 1 < |s| && Unread(s, pos + 1) && s[pos] == LT && s[pos + 1] == SLASH && start <= hi <= pos + 1
      requires ShowsAll(children, text[..], kids, start, hi) && ShowsValue(value, text[..], val, start, hi)
      modifies this`pos
      ensures ParseTag(s, old(pos), kids, val)
                == if err.Some? then FailedContents(err.value) else Contents(kids, val, pos)
      ensures err.None? ==>
                && old(pos) + 1 < pos < |s| && Unread(s, pos)
                && ShowsAll(children, text[..], kids, start, pos) && ShowsValue(value, text[..], val, start, pos)
    {
      hide ShowsAll, ShowsValue, ParseTag, CString;
      err := CloseTag(s, kids, val);
      if err.None? {
        BothStay(children, value, text[..], text[..], kids, val, start, hi, start, pos);
      }
    }

    // A child inside an element, whose value stays.
    method AppendTag(ghost s: seq<byte>, before: seq<NodeRef>, value: Option<Span>, ghost kids: seq<Node>,
                     ghost val: seq<byte>, ghost start: nat, ghost hi: nat)
      returns (children: seq<NodeRef>, err: Option<ParseError>, ghost kids': seq<Node>)
      requires pos + 1 < |s| && Unread(s, pos + 1) && start <= hi <= pos + 1 && s[pos] == LT && s[pos + 1] != SLASH
      requires ShowsAll(before, text[..], kids, start, hi) && ShowsValue(value, text[..], val, start, hi)
      modifies this`pos, text
      ensures err.Some? ==> ParseTag(s, old(pos), kids, val) == FailedContents(err.value)
      ensures err.None? ==> old(pos) + 1 < pos < |s| && Unread(s, pos) && KeepsBefore(old(pos) + 1)
      ensures err.None? ==>
                && ParseTag(s, old(pos), kids, val) == XmlGrammar.ParseContents(s, pos, kids', val)
                && ShowsAll(children, text[..], kids', start, pos) && ShowsValue(value, text[..], val, start, pos)
      decreases |s| - pos, 1
    {
      hide ShowsAll, ShowsValue, ParseTag, XmlGrammar.ParseNode, XmlGrammar.ParseContents;
      ghost var buf, from := text[..], pos + 1;
      TagStep(s, pos, kids, val);
      children, err := AppendChild(s, before, kids, start, hi);
      kids' := kids;
      if err.Some? {
        return;
      }
      ghost var g := XmlGrammar.ParseNode(s, from);
      ValueStays(value, buf, text[..], val, start, hi, start, pos);
      kids' := if g.node.Some? then kids + [g.node.value] else kids;
    }

    // A child behind the < at pos.
    method AppendChild(ghost s: seq<byte>, before: seq<NodeRef>, ghost kids: seq<Node>, ghost start: nat, ghost hi: nat)
      returns (children: seq<NodeRef>, err: Option<ParseError>)
      requires pos + 1 < |s| && Unread(s, pos + 1) && start <= hi <= pos + 1
      requires ShowsAll(before, text[..], kids, start, hi)
      modifies this`pos, text
      ensures err.Some? ==> XmlGrammar.ParseNode(s, old(pos) + 1) == Failed(err.value)
      ensures err.None? ==> old(pos) + 1 < pos < |s| && Unread(s, pos) && KeepsBefore(old(pos) + 1)
      ensures err.None? ==>
                var g := XmlGrammar.ParseNode(s, old(pos) + 1);
                && g.Parsed? && g.next == pos
                && ShowsAll(children, text[..], if g.node.Some? then kids + [g.node.value] else kids, start, pos)
      decreases |s| - pos, 0
    {
      hide Shows, ShowsText, XmlGrammar.ParseNode;
      ghost var buf, from := text[..], pos + 1;
      children := before;
      pos := pos + 1;
      var child;
      child, err := ParseNode(s);
      if err.Some? {
        return;
      }
      ghost var g := XmlGrammar.ParseNode(s, from);
      NodesStay(before, buf, text[..], kids, start, hi, start, pos);
      if child.Some? {
        NodeStays(child.value, text[..], text[..], g.node.value, from, pos, start, pos);
        children := children + [child.value];
      }
    }

    // parse_and_append_data from the start of the contents, which also becomes the element's
    // value if it has none; the byte returned is the one the terminator may have overwritten.
    method AppendData(ghost s: seq<byte>, before: seq<NodeRef>, value: Option<Span>,
                      ghost kids: seq<Node>, ghost val: seq<byte>, ghost start: nat)
      returns (children: seq<NodeRef>, value': Option<Span>, ch: byte, err: Option<ParseError>)
      requires Unread(s, pos) && start <= pos < |s|
      requires ShowsAll(before, text[..], kids, start, pos) && ShowsValue(value, text[..], val, start, pos)
      modifies this`pos, text
      ensures err.Some? ==> Expand(s, old(pos), Text, old(pos)) == Bad(err.value)
      ensures err.None? ==> old(pos) <= pos < |s| && Unread(s, pos + 1) && KeepsBefore(old(pos))
      ensures err.None? ==>
                var g := Expand(s, old(pos), Text, old(pos));
                && g.Expanded? && g.end == pos && ch == s[pos] && (s[pos] == LT || s[pos] == NUL)
                && ShowsAll(children, text[..], kids + [Data(g.bytes)], start, pos + 1)
                && ShowsValue(value', text[..], if NoValue(val) then g.bytes else val, start, pos + 1)
    {
      hide Expand, ShowsText, Shows;
      ghost var buf, from := text[..], pos;
      children, value' := before, value;
      var data;
      data, ch, err := ReadData(s);
      if err.Some? {
        return;
      }
      ghost var bytes := Expand(s, from, Text, from).bytes;
      NodesStay(before, buf, text[..], kids, start, from, start, pos + 1);
      ValueStays(value, buf, text[..], val, start, from, start, pos + 1);
      TextStays(data, text[..], text[..], bytes, from, pos + 1, start, pos + 1);
      DataShows(data, text[..], bytes, start, pos + 1);
      ValueStarts(value, text[..], val, start, pos + 1);
      children := children + [DataRef(data)];
      if value.None? || text[value.value.off] == NUL {
        value' := Some(data);
      }
    }

    // A closing tag at pos, whose < may have been overwritten.
    method CloseTag(ghost s: seq<byte>, ghost kids: seq<Node>, ghost val: seq<byte>) returns (err: Option<ParseError>)
      requires pos + 1 < |s| && Unread(s, pos + 1) && s[pos] == LT && s[pos + 1] == SLASH
      modifies this`pos
      ensures ParseTag(s, old(pos), kids, val)
                == if err.Some? then FailedContents(err.value) else Contents(kids, val, pos)
      ensures err.None? ==> old(pos) + 1 < pos < |s| && Unread(s, pos)
    {
      pos := pos + 2;
      Skip(s, NodeName);
      Skip(s, Whitespace);
      if text[pos] != GT {
        return Some(ParseError(ExpectedGt, pos));
      }
      pos := pos + 1;
      err := None;
    }

    // The expanded and terminated data, and the byte that ended it.
    method ReadData(ghost s: seq<byte>) returns (data: Span, ch: byte, err: Option<ParseError>)
      requires Unread(s, pos) && pos < |s|
      modifies this`pos, text
      ensures err.Some? ==> Expand(s, old(pos), Text, old(pos)) == Bad(err.value)
      ensures err.None? ==> old(pos) <= pos < |s| && Unread(s, pos + 1) && KeepsBefore(old(pos))
      ensures err.None? ==>
                var g := Expand(s, old(pos), Text, old(pos));
                && g.Expanded? && g.end == pos && ch == s[pos] && (s[pos] == LT || s[pos] == NUL)
                && ShowsText(data, text[..], g.bytes, old(pos), pos + 1)
    {
      hide Expand;
      var value := pos;
      ch := NUL;
      data := Span(0, 0);
      var end;
      end, err := SkipAndExpand(s, Text);
      if err.Some? {
        return;
      }
      data := Span(value, end - value);
      ghost var bytes := text[value..end];
      ch := text[pos];
      text[end] := NUL;
      assert text[..][value..end] == bytes;
    }

    // parse<0>: on every C string it ends in the tree the grammar gives the text, built from
    // terminated strings in the buffer, or in the grammar's error.
    method Parse() returns (nodes: seq<NodeRef>, err: Option<ParseError>)
      requires CString(text[..])
      modifies this`pos, text
      ensures err.Some? ==> XmlGrammar.Parse(old(text[..])) == BadDocument(err.value)
      ensures err.None? ==>
                var g := XmlGrammar.Parse(old(text[..]));
                g.Document? && ShowsAll(nodes, text[..], g.nodes, 0, text.Length)
    {
      hide XmlGrammar.ParseNode, XmlGrammar.Skip, AfterBom, ParseNodes, Shows, ShowsAll, CString, Test;
      ghost var s := text[..];
      SkipBom(s);
      ghost var start := pos;
      NothingShown(s, 0, start);
      nodes, err := [], None;
      ghost var list: seq<Node> := [];
      while true
        invariant start <= pos < |s| && Unread(s, pos) && err.None?
        invariant ParseNodes(s, pos, list) == ParseNodes(s, start, [])
        invariant ShowsAll(nodes, text[..], list, 0, pos)
        decreases |s| - pos
      {
        ghost var hi := pos;
        NodesStep(s, pos, list);
        Skip(s, Whitespace);
        if text[pos] == NUL {
          NodesStay(nodes, text[..], text[..], list, 0, hi, 0, text.Length);
          return;
        }
        if text[pos] != LT {
          return nodes, Some(ParseError(ExpectedLt, pos));
        }
        MoreText(s, pos);
        ghost var from := pos + 1;
        nodes, err := AppendRoot(s, nodes, list, hi);
        if err.Some? {
          return;
        }
        ghost var g := XmlGrammar.ParseNode(s, from);
        list := if g.node.Some? then list + [g.node.value] else list;
      }
    }

    method SkipBom(ghost s: seq<byte>)
      requires CString(s) && s == text[..]
      modifies this`pos
      ensures pos == AfterBom(s)
    {
      hide At, CString;
      pos := 0;
      CStringNotEmpty(s);
      var bom := Looks(s, 0, BOM);
      if bom {
        pos := 3;
      }
    }

    // A node of the document, behind the < at pos.
    method AppendRoot(ghost s: seq<byte>, before: seq<NodeRef>, ghost list: seq<Node>, ghost hi: nat)
      returns (nodes: seq<NodeRef>, err: Option<ParseError>)
      requires pos + 1 < |s| && Unread(s, pos) && hi <= pos && ShowsAll(before, text[..], list, 0, hi)
      modifies this`pos, text
      ensures err.Some? ==> XmlGrammar.ParseNode(s, old(pos) + 1) == Failed(err.value)
      ensures err.None? ==> old(pos) + 1 < pos < |s| && Unread(s, pos)
      ensures err.None? ==>
                var g := XmlGrammar.ParseNode(s, old(pos) + 1);
                && g.Parsed? && g.next == pos
                && ShowsAll(nodes, text[..], if g.node.Some? then list + [g.node.value] else list, 0, pos)
    {
      nodes, err := AppendChild(s, before, list, 0, hi);
    }
  }

  ghost function AttributesAt(s: seq<byte>, name: nat): (at: nat)
    requires CString(s) && name < |s|
    ensures name <= at < |s|
  {
    XmlGrammar.Skip(s, XmlGrammar.Skip(s, name, NodeName), Whitespace)
  }

  lemma ElementStep(s: seq<byte>, i: nat)
    requires CString(s) && i < |s|
    ensures var nameEnd := XmlGrammar.Skip(s, i, NodeName);
            var a := XmlGrammar.ParseAttributes(s, AttributesAt(s, i), []);
            XmlGrammar.ParseElement(s, i)
              == if nameEnd == i then Failed(ParseError(ExpectedElementName, i))
                 else if a.BadAttributes? then Failed(a.error)
                 else
                   var c := XmlGrammar.ParseBody(s, a.next);
                   if c.FailedContents? then Failed(c.error)
                   else Parsed(Some(Element(s[i..nameEnd], a.list, c.children, c.value)), c.next)
  {
  }

  // Attributes start behind the byte that ends the element's name, if there are any.
  lemma NameApart(s: seq<byte>, name: nat, attributesAt: nat)
    requires CString(s) && name < |s|
    requires attributesAt == XmlGrammar.Skip(s, XmlGrammar.Skip(s, name, NodeName), Whitespace)
    ensures attributesAt > XmlGrammar.Skip(s, name, NodeName)
         || XmlGrammar.ParseAttributes(s, attributesAt, []) == Attributes([], attributesAt)
  {
  }

  lemma BothStay(rs: seq<NodeRef>, r: Option<Span>, a: seq<byte>, b: seq<byte>, nodes: seq<Node>, v: seq<byte>,
                 lo: nat, hi: nat, lo': nat, hi': nat)
    requires ShowsAll(rs, a, nodes, lo, hi) && ShowsValue(r, a, v, lo, hi)
    requires Same(a, b, lo, hi) && lo' <= lo && hi <= hi' <= |b|
    ensures ShowsAll(rs, b, nodes, lo', hi') && ShowsValue(r, b, v, lo', hi')
  {
    NodesStay(rs, a, b, nodes, lo, hi, lo', hi');
    ValueStays(r, a, b, v, lo, hi, lo', hi');
  }

  lemma NothingShown(buf: seq<byte>, lo: nat, hi: nat)
    ensures ShowsAll([], buf, [], lo, hi) && ShowsValue(None, buf, [], lo, hi)
  {
  }

  // One round of parse_node_contents from the top of its loop.
  lemma ContentsStep(s: seq<byte>, i: nat, kids: seq<Node>, val: seq<byte>)
    requires CString(s) && i < |s|
    ensures var j := XmlGrammar.Skip(s, i, Whitespace);
            XmlGrammar.ParseContents(s, i, kids, val)
              == if s[j] == LT then ParseTag(s, j, kids, val)
                 else if s[j] == NUL then FailedContents(ParseError(UnexpectedEnd, j))
                 else
                   var e := Expand(s, i, Text, i);
                   if e.Bad? then FailedContents(e.error)
                   else AfterData(s, e.end, kids + [Data(e.bytes)], if NoValue(val) then e.bytes else val)
  {
  }

  // And from behind data.
  lemma AfterDataStep(s: seq<byte>, i: nat, kids: seq<Node>, val: seq<byte>)
    requires CString(s) && i < |s|
    ensures AfterData(s, i, kids, val)
         == if s[i] == LT then ParseTag(s, i, kids, val) else FailedContents(ParseError(UnexpectedEnd, i))
  {
  }

  lemma ValueStep(s: seq<byte>, i: nat)
    requires CString(s) && i < |s|
    ensures var quote := XmlGrammar.Skip(s, i, Whitespace);
            && (s[quote] != APOS && s[quote] != QUOT ==>
                  XmlGrammar.ParseValue(s, i) == BadValue(ParseError(ExpectedQuote, quote)))
            && (s[quote] == APOS || s[quote] == QUOT ==>
                  var e := Expand(s, quote + 1, if s[quote] == APOS then Single else Double, quote + 1);
                  XmlGrammar.ParseValue(s, i)
                    == if e.Bad? then BadValue(e.error)
                       else if s[e.end] != s[quote] then BadValue(ParseError(ExpectedQuote, e.end))
                       else QuotedValue(e.bytes, XmlGrammar.Skip(s, e.end + 1, Whitespace)))
  {
    hide Expand, XmlGrammar.Skip;
  }

  lemma NodesStep(s: seq<byte>, i: nat, list: seq<Node>)
    requires CString(s) && i < |s|
    ensures var j := XmlGrammar.Skip(s, i, Whitespace);
            ParseNodes(s, i, list)
              == if s[j] == NUL then Document(list)
                 else if s[j] != LT then BadDocument(ParseError(ExpectedLt, j))
                 else
                   var g := XmlGrammar.ParseNode(s, j + 1);
                   if g.Failed? then BadDocument(g.error)
                   else ParseNodes(s, g.next, if g.node.Some? then list + [g.node.value] else list)
  {
    hide XmlGrammar.ParseNode, XmlGrammar.Skip;
  }

  // The branches of parse_node behind <!
  lemma BangStep(s: seq<byte>, i: nat)
    requires CString(s) && i < |s| && s[i] == BANG
    ensures At(s, i + 1, CDATA_OPEN) ==> i + 8 < |s| && s[i + 1] != MINUS
    ensures At(s, i + 1, DOCTYPE) ==> i + 8 < |s|
    ensures XmlGrammar.ParseBang(s, i)
         == if s[i + 1] == MINUS && s[i + 2] == MINUS then
              Skipped(s, XmlGrammar.SkipPast(s, i + 3, COMMENT_END))
            else if At(s, i + 1, CDATA_OPEN) then
              var next := XmlGrammar.SkipPast(s, i + 8, CDATA_END);
              if next.Some? then Parsed(Some(CData(s[i + 8..next.value - 3])), next.value) else Skipped(s, None)
            else if At(s, i + 1, DOCTYPE) && Test(Whitespace, s[i + 8]) then
              Skipped(s, XmlGrammar.SkipDoctype(s, i + 9))
            else Skipped(s, XmlGrammar.SkipPast(s, i + 1, [GT]))
  {
    hide At;
    if At(s, i + 1, CDATA_OPEN) {
      InText(s, i + 1, CDATA_OPEN);
    }
    if At(s, i + 1, DOCTYPE) {
      InText(s, i + 1, DOCTYPE);
    }
  }

  lemma TagStep(s: seq<byte>, i: nat, kids: seq<Node>, val: seq<byte>)
    requires CString(s) && i < |s| && s[i] == LT
    ensures s[i + 1] != SLASH ==>
              var g := XmlGrammar.ParseNode(s, i + 1);
              ParseTag(s, i, kids, val) ==
                if g.Failed? then FailedContents(g.error)
                else XmlGrammar.ParseContents(s, g.next, if g.node.Some? then kids + [g.node.value] else kids, val)
  {
  }

  lemma ValueStays(r: Option<Span>, a: seq<byte>, b: seq<byte>, v: seq<byte>, lo: nat, hi: nat, lo': nat, hi': nat)
    requires ShowsValue(r, a, v, lo, hi) && Same(a, b, lo, hi) && lo' <= lo && hi <= hi' <= |b|
    ensures ShowsValue(r, b, v, lo', hi')
  {
    if r.Some? {
      TextStays(r.value, a, b, v, lo, hi, lo', hi');
    }
  }

  lemma DataShows(data: Span, buf: seq<byte>, bytes: seq<byte>, lo: nat, hi: nat)
    requires ShowsText(data, buf, bytes, lo, hi)
    ensures Shows(DataRef(data), buf, Data(bytes), lo, hi)
  {
  }

  // *node->value() == 0
  lemma ValueStarts(r: Option<Span>, buf: seq<byte>, v: seq<byte>, lo: nat, hi: nat)
    requires ShowsValue(r, buf, v, lo, hi)
    ensures r.Some? ==> r.value.off < |buf|
    ensures NoValue(v) <==> r.None? || buf[r.value.off] == NUL
  {
    if r.Some? && v != [] {
      assert v[0] == buf[r.value.off];
    }
  }

  // The finished element: its parts were read one after the other, then its name was terminated.
  lemma ElementShows(s: seq<byte>, r: NodeRef, withAttributes: seq<byte>, before: seq<byte>, buf: seq<byte>,
                     list: seq<Attribute>, kids: seq<Node>, val: seq<byte>, attributesAt: nat, tagEnd: nat, end: nat)
    requires r.ElementRef? && r.name.len > 0
    requires var nameEnd := r.name.off + r.name.len;
             && nameEnd <= attributesAt <= tagEnd < end <= |buf| == |before| == |withAttributes| == |s|
             && (attributesAt > nameEnd || list == [])
             && (forall k :: r.name.off <= k < nameEnd ==> before[k] == s[k])
             && (forall k :: nameEnd < k < tagEnd ==> withAttributes[k] == before[k])
             && buf == before[nameEnd := NUL]
    requires ShowsAttributes(r.attributes, withAttributes, list, attributesAt, tagEnd)
    requires ShowsAll(r.children, before, kids, tagEnd + 1, end) && ShowsValue(r.value, before, val, tagEnd + 1, end)
    ensures Shows(r, buf, Element(s[r.name.off..r.name.off + r.name.len], list, kids, val), r.name.off, end)
  {
    var nameEnd := r.name.off + r.name.len;
    hide ShowsText, ShowsAttribute;
    assert ShowsText(r.name, buf, s[r.name.off..nameEnd], r.name.off, end) by {
      NameShows(s, r.name, buf, end);
    }
    if list != [] {
      AttributesStay(r.attributes, withAttributes, buf, list, attributesAt, tagEnd, r.name.off, end);
    }
    NodesStay(r.children, before, buf, kids, tagEnd + 1, end, r.name.off, end);
    ValueStays(r.value, before, buf, val, tagEnd + 1, end, r.name.off, end);
  }

  lemma NameShows(s: seq<byte>, name: Span, buf: seq<byte>, end: nat)
    requires name.off + name.len < end <= |buf| == |s| && buf[name.off + name.len] == NUL
    requires forall k :: name.off <= k < name.off + name.len ==> buf[k] == s[k]
    ensures ShowsText(name, buf, s[name.off..name.off + name.len], name.off, end)
  {
    assert buf[name.off..name.off + name.len] == s[name.off..name.off + name.len];
  }

  lemma NotAt(s: seq<byte>, i: nat, p: seq<byte>, k: nat)
    requires k < |p| && i + k < |s| && s[i + k] != p[k]
    ensures !At(s, i, p)
  {
    assert i + |p| <= |s| ==> s[i..i + |p|][k] == s[i + k];
  }

  lemma CStringNotEmpty(s: seq<byte>)
    requires CString(s)
    ensures |s| > 0
  {
  }

  lemma NotAtEnd(s: seq<byte>, i: nat, c: Class)
    requires CString(s) && i < |s| && Test(c, s[i])
    ensures i + 1 < |s|
  {
  }

  lemma PrependEnd(bytes: seq<byte>, end: nat)
    ensures Prepend(bytes, Expanded([], end)) == Expanded(bytes, end)
  {
    assert bytes + [] == bytes;
  }
}
