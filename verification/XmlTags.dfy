/** Tags as other writers than the printer write them: white space in them, either quote, closing
    names that do not match, and what is an error in them. */
module XmlTags {
  import opened Wrappers
  import opened Bytes
  import opened XmlGrammar
  import opened XmlPrint
  import opened XmlRoundTrip
  import XmlReferences
  import Utf8

  // ---- The lookup tables ----

  // Which bytes end a name, white space, and a text.
  lemma ClassesAre(b: byte)
    ensures Test(Whitespace, b) <==> b in {SPACE, TAB, LF, CR}
    ensures Test(NodeName, b) <==> b !in {SPACE, TAB, LF, CR, SLASH, GT, QUESTION, NUL}
    ensures Test(AttributeName, b) <==> b !in {SPACE, TAB, LF, CR, SLASH, LT, GT, EQ, QUESTION, BANG, NUL}
    ensures Test(Text, b) <==> b !in {LT, NUL}
    ensures Test(Single, b) <==> b !in {APOS, NUL}
    ensures Test(Double, b) <==> b !in {QUOT, NUL}
  {
  }

  // Digits are 0 to 9 and the letters a to f in either case.
  lemma DigitsAre(b: byte)
    ensures DigitOf(b).Some? <==> exists d: nat, upper: bool :: d < 16 && b == XmlReferences.Glyph(d, upper)
    ensures forall d: nat, upper: bool :: d < 16 && b == XmlReferences.Glyph(d, upper) ==> DigitOf(b) == Some(d)
  {
    if DigitOf(b).Some? {
      var d := DigitOf(b).value;
      assert d < 16 && (b == XmlReferences.Glyph(d, false) || b == XmlReferences.Glyph(d, true));
    }
  }

  // The characters that have names.
  ghost predicate HasName(b: byte) {
    b in {LT, GT, APOS, QUOT, AMP}
  }

  // The named references are those that the printer writes, and no others.
  lemma NamedIff(s: seq<byte>, i: nat)
    requires CString(s) && i < |s| && s[i] == AMP
    ensures forall b :: HasName(b) && At(s, i, EscapeByte(b, NUL)) ==>
              Named(s, i) == Some((b, |EscapeByte(b, NUL)|))
    ensures Named(s, i).Some? ==>
              var (b, len) := Named(s, i).value;
              HasName(b) && At(s, i, EscapeByte(b, NUL)) && len == |EscapeByte(b, NUL)|
  {
    forall b | HasName(b) && At(s, i, EscapeByte(b, NUL))
      ensures Named(s, i) == Some((b, |EscapeByte(b, NUL)|))
    {
      NamedReads(s, i, b);
    }
    if Named(s, i).Some? {
      NamedSpells(s, i);
    }
  }

  lemma NamedSpells(s: seq<byte>, i: nat)
    requires CString(s) && i < |s| && s[i] == AMP && Named(s, i).Some?
    ensures var (b, len) := Named(s, i).value;
            HasName(b) && At(s, i, EscapeByte(b, NUL)) && len == |EscapeByte(b, NUL)|
  {
    hide At, CString;
    var (b, len) := Named(s, i).value;
    var p := EscapeByte(b, NUL);
    assert p == [AMP, s[i + 1]] + p[2..];
    AtPair(s, i);
    AtConcat(s, i, [AMP, s[i + 1]], p[2..]);
  }

  lemma AtPair(s: seq<byte>, i: nat)
    requires i + 1 < |s|
    ensures At(s, i, [s[i], s[i + 1]])
  {
  }

  // ---- Attributes ----

  function AttributeText(name: seq<byte>, ws1: seq<byte>, ws2: seq<byte>, quote: byte, value: seq<byte>): seq<byte> {
    name + (ws1 + ([EQ] + (ws2 + ([quote] + (Escape(value, OtherQuote(quote)) + [quote])))))
  }

  // White space may stand around the = and either quote around the value.
  lemma AttributeWritten(s: seq<byte>, i: nat, name: seq<byte>, ws1: seq<byte>, ws2: seq<byte>, quote: byte,
                         value: seq<byte>)
    requires CString(s) && name != [] && All(name, AttributeName) && OnlySpace(ws1) && OnlySpace(ws2)
    requires (quote == APOS || quote == QUOT) && NulFree(value)
    requires At(s, i, AttributeText(name, ws1, ws2, quote, value))
    ensures var end := i + |AttributeText(name, ws1, ws2, quote, value)|;
            && end < |s| && Test(AttributeName, s[i])
            && ParseAttribute(s, i) == OneAttribute(Attribute(name, value), Skip(s, end, Whitespace))
  {
    hide CString, At, Escape, Skip, Expand, ParseAttribute, OnlySpace, Test;
    var text := Escape(value, OtherQuote(quote));
    var n := i + |name|;
    var eq := n + |ws1|;
    var q := eq + 1 + |ws2|;
    AttributeStands(s, i, name, ws1, ws2, quote, text);
    EndsBefore(s, q + 1 + |text|);
    QuoteEnds(quote);
    NameEnds(s, i, name, ws1);
    SkipSpace(s, n, ws1);
    SkipSpace(s, eq + 1, ws2);
    hide All;
    ValueExpands(s, q, quote, value);
    AttributeAssembled(s, i, n, eq, q, value, q + 1 + |text|);
  }

  lemma ValueExpands(s: seq<byte>, q: nat, quote: byte, value: seq<byte>)
    requires CString(s) && (quote == APOS || quote == QUOT) && NulFree(value)
    requires var text := Escape(value, OtherQuote(quote));
             At(s, q + 1, text) && q + 1 + |text| < |s| && s[q + 1 + |text|] == quote
    ensures Expand(s, q + 1, if quote == APOS then Single else Double, q + 1)
         == Expanded(value, q + 1 + |Escape(value, OtherQuote(quote))|)
  {
    hide CString, At, Escape, Expand, Test;
    QuoteEnds(quote);
    ExpandEscape(s, q + 1, value, OtherQuote(quote), if quote == APOS then Single else Double, q + 1);
  }

  lemma QuoteEnds(quote: byte)
    requires quote == APOS || quote == QUOT
    ensures !Test(if quote == APOS then Single else Double, quote) && !Test(AttributeName, EQ)
    ensures !IsSpace(quote) && !IsSpace(EQ)
  {
  }

  lemma AttributeStands(s: seq<byte>, i: nat, name: seq<byte>, ws1: seq<byte>, ws2: seq<byte>, quote: byte,
                        text: seq<byte>)
    requires At(s, i, name + (ws1 + ([EQ] + (ws2 + ([quote] + (text + [quote]))))))
    ensures var n := i + |name|;
            var eq := n + |ws1|;
            var q := eq + 1 + |ws2|;
            && q + 1 + |text| < |s| && At(s, i, name) && s[i..n] == name && At(s, n, ws1)
            && s[eq] == EQ && At(s, eq + 1, ws2) && s[q] == quote && At(s, q + 1, text) && s[q + 1 + |text|] == quote
  {
    hide At;
    var n := i + |name|;
    var eq := n + |ws1|;
    var q := eq + 1 + |ws2|;
    AtConcat(s, i, name, ws1 + ([EQ] + (ws2 + ([quote] + (text + [quote])))));
    AtConcat(s, n, ws1, [EQ] + (ws2 + ([quote] + (text + [quote]))));
    AtConcat(s, eq, [EQ], ws2 + ([quote] + (text + [quote])));
    AtConcat(s, eq + 1, ws2, [quote] + (text + [quote]));
    AtConcat(s, q, [quote], text + [quote]);
    AtConcat(s, q + 1, text, [quote]);
    AtByte(s, eq, EQ);
    AtByte(s, q, quote);
    AtByte(s, q + 1 + |text|, quote);
    AtSlice(s, i, name);
  }

  // The name ends at the white space, or at the byte behind it if there is none.
  lemma NameEnds(s: seq<byte>, i: nat, name: seq<byte>, ws: seq<byte>)
    requires CString(s) && name != [] && All(name, AttributeName) && OnlySpace(ws)
    requires At(s, i, name) && At(s, i + |name|, ws) && i + |name| + |ws| < |s|
    requires ws == [] ==> !Test(AttributeName, s[i + |name| + |ws|])
    ensures Test(AttributeName, s[i]) && Skip(s, i + 1, AttributeName) == i + |name|
  {
    hide CString;
    AtBytes(s, i, name);
    AtBytes(s, i + |name|, ws);
    assert name == [name[0]] + name[1..];
    AtConcat(s, i, [name[0]], name[1..]);
    assert !Test(AttributeName, s[i + |name|]) by {
      assert ws != [] ==> s[i + |name|] == ws[0];
    }
    hide At;
    SkipAll(s, i + 1, name[1..], AttributeName);
  }

  lemma SkipSpace(s: seq<byte>, i: nat, ws: seq<byte>)
    requires CString(s) && OnlySpace(ws) && At(s, i, ws) && i + |ws| < |s| && !IsSpace(s[i + |ws|])
    ensures Skip(s, i, Whitespace) == i + |ws|
  {
    hide At, CString;
    SkipAll(s, i, ws, Whitespace);
  }

  lemma AttributeAssembled(s: seq<byte>, i: nat, n: nat, eq: nat, q: nat, value: seq<byte>, end: nat)
    requires CString(s) && i < n <= eq < q < end < |s| - 1 && Test(AttributeName, s[i])
    requires Skip(s, i + 1, AttributeName) == n && Skip(s, n, Whitespace) == eq && s[eq] == EQ
    requires Skip(s, eq + 1, Whitespace) == q && (s[q] == APOS || s[q] == QUOT)
    requires Expand(s, q + 1, if s[q] == APOS then Single else Double, q + 1) == Expanded(value, end)
    requires s[end] == s[q]
    ensures ParseAttribute(s, i) == OneAttribute(Attribute(s[i..n], value), Skip(s, end + 1, Whitespace))
  {
    hide Skip, Expand, CString;
  }

  // ---- Closing tags ----

  // A closing tag ends its element whatever name it has, and may have white space before its >.
  lemma ClosingWritten(s: seq<byte>, i: nat, other: seq<byte>, ws: seq<byte>, children: seq<Node>, value: seq<byte>)
    requires CString(s) && All(other, NodeName) && OnlySpace(ws)
    requires At(s, i, [LT, SLASH] + (other + (ws + [GT])))
    ensures var end := i + 3 + |other| + |ws|;
            end < |s| && s[i] == LT && ParseTag(s, i, children, value) == Contents(children, value, end)
  {
    hide CString, At, Skip;
    AtConcat(s, i, [LT, SLASH], other + (ws + [GT]));
    AtConcat(s, i + 2, other, ws + [GT]);
    AtConcat(s, i + 2 + |other|, ws, [GT]);
    AtBytes(s, i, [LT, SLASH]);
    AtBytes(s, i + 2 + |other|, ws);
    AtByte(s, i + 2 + |other| + |ws|, GT);
    EndsBefore(s, i + 2 + |other| + |ws|);
    assert !Test(NodeName, s[i + 2 + |other|]) by {
      assert ws != [] ==> s[i + 2 + |other|] == ws[0];
    }
    SkipAll(s, i + 2, other, NodeName);
    SkipSpace(s, i + 2 + |other|, ws);
  }

  // ---- Errors ----

  // Each part that is missing is an error where it should stand.
  lemma NameMissing(s: seq<byte>, i: nat)
    requires CString(s) && i < |s| && (s[i] == SLASH || s[i] == GT || s[i] == NUL || IsSpace(s[i]))
    ensures ParseNode(s, i) == Failed(ParseError(ExpectedElementName, i))
  {
  }

  lemma EqualsMissing(s: seq<byte>, i: nat, name: seq<byte>, ws: seq<byte>)
    requires CString(s) && name != [] && All(name, AttributeName) && OnlySpace(ws) && At(s, i, name + ws)
    requires var p := i + |name| + |ws|;
             p < |s| && s[p] != EQ && !IsSpace(s[p]) && (ws == [] ==> !Test(AttributeName, s[p]))
    ensures Test(AttributeName, s[i])
    ensures ParseAttribute(s, i) == BadAttribute(ParseError(ExpectedEquals, i + |name| + |ws|))
  {
    hide CString, At, Skip, All, OnlySpace, Test;
    AtConcat(s, i, name, ws);
    NameEnds(s, i, name, ws);
    SkipSpace(s, i + |name|, ws);
    EndsBehindName(s, i);
  }

  lemma EndsBehindName(s: seq<byte>, i: nat)
    requires CString(s) && i < |s| && Test(AttributeName, s[i])
    ensures i + 1 < |s|
  {
  }

  lemma QuoteMissing(s: seq<byte>, i: nat, ws: seq<byte>)
    requires CString(s) && OnlySpace(ws) && At(s, i, ws) && i + |ws| < |s|
    requires var b := s[i + |ws|]; b != APOS && b != QUOT && !IsSpace(b)
    ensures ParseValue(s, i) == BadValue(ParseError(ExpectedQuote, i + |ws|))
  {
    hide CString, Skip;
    SkipSpace(s, i, ws);
  }

  // Behind the attributes only > or /> may stand.
  lemma GtMissing(s: seq<byte>, j: nat)
    requires CString(s) && j < |s|
    ensures s[j] != GT && s[j] != SLASH ==> ParseBody(s, j) == FailedContents(ParseError(ExpectedGt, j))
    ensures s[j] == SLASH && s[j + 1] != GT ==> ParseBody(s, j) == FailedContents(ParseError(ExpectedGt, j + 1))
    ensures s[j] == SLASH && s[j + 1] == GT ==> ParseBody(s, j) == Contents([], [], j + 2)
  {
  }

  // A numeric reference has to end in a semicolon.
  lemma SemicolonMissing(s: seq<byte>, i: nat, hex: bool, ds: seq<nat>, upper: nat -> bool, c: Class, dest: nat)
    requires CString(s) && IsValueClass(c) && XmlReferences.AreDigits(ds)
    requires At(s, i, XmlReferences.Mark(hex) + XmlReferences.Glyphs(ds, upper))
    requires var end := i + |XmlReferences.Mark(hex)| + |ds|;
             && end < |s| && s[end] != SEMI && DigitOf(s[end]) == None && (!hex && ds == [] ==> s[end] != LOWER_X)
    requires XmlReferences.Number(ds, hex) % ULONG < Utf8.CODE_LIMIT
    ensures Expand(s, i, c, dest)
         == Bad(ParseError(ExpectedSemicolon, i + |XmlReferences.Mark(hex)| + |ds|))
  {
    hide CString, At, Expand, Numeric, Test, XmlReferences.Glyphs, XmlReferences.Number;
    XmlReferences.NumericStops(s, i, hex, ds, upper);
    XmlReferences.AmpTested(c);
    NumericStep(s, i, c, dest);
  }

  // Between the nodes of a document only white space may stand.
  lemma TextOutside(s: seq<byte>, i: nat, ws: seq<byte>, nodes: seq<Node>)
    requires CString(s) && OnlySpace(ws) && At(s, i, ws) && i + |ws| < |s|
    requires var b := s[i + |ws|]; b != LT && b != NUL && !IsSpace(b)
    ensures ParseNodes(s, i, nodes) == BadDocument(ParseError(ExpectedLt, i + |ws|))
  {
    hide CString, Skip;
    SkipSpace(s, i, ws);
  }
}
