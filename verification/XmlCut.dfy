/** What parse<0> makes of a text that ends early: cut anywhere inside a node, it is an error. */
module XmlCut {
  import opened Wrappers
  import opened Bytes
  import opened XmlGrammar

  // s is t up to position c.
  ghost predicate IsCut(t: seq<byte>, s: seq<byte>, c: nat) {
    && CString(t) && CString(s)
    && |s| == c + 1 <= |t| && s[c] == NUL
    && forall k :: 0 <= k < c ==> s[k] == t[k]
  }

  lemma CutIs(t: seq<byte>, c: nat)
    requires CString(t) && c < |t|
    ensures IsCut(t, t[..c] + [NUL], c)
  {
  }

  lemma AtCut(t: seq<byte>, s: seq<byte>, c: nat, i: nat, p: seq<byte>)
    requires IsCut(t, s, c) && p != [] && NUL !in p
    ensures At(s, i, p) <==> At(t, i, p) && i + |p| <= c
  {
    hide CString;
    if At(s, i, p) {
      InText(s, i, p);
    }
    if i + |p| <= c {
      assert t[i..i + |p|] == s[i..i + |p|];
    }
  }

  lemma {:induction false} SkipCut(t: seq<byte>, s: seq<byte>, c: nat, i: nat, cls: Class)
    requires IsCut(t, s, c) && i <= c
    ensures Skip(s, i, cls) == if Skip(t, i, cls) <= c then Skip(t, i, cls) else c
    decreases c - i
  {
    hide CString;
    if i < c && Test(cls, t[i]) {
      SkipCut(t, s, c, i + 1, cls);
    }
  }

  // ---- Character data ----

  lemma {:induction false} CodeCut(t: seq<byte>, s: seq<byte>, c: nat, p: nat, base: nat, acc: nat)
    requires IsCut(t, s, c) && p <= c
    ensures Code(t, p, base, acc).1 < c ==> Code(s, p, base, acc) == Code(t, p, base, acc)
    decreases c - p
  {
    hide CString;
    if p < c && DigitOf(t[p]).Some? {
      CodeCut(t, s, c, p + 1, base, (acc * base + DigitOf(t[p]).value) % ULONG);
    }
  }

  lemma NumericCut(t: seq<byte>, s: seq<byte>, c: nat, i: nat)
    requires IsCut(t, s, c) && i + 1 < c && t[i + 1] == HASH
    ensures Numeric(t, i).1 < c ==> Numeric(s, i) == Numeric(t, i)
  {
    hide CString, Code;
    if i + 2 < c {
      CodeCut(t, s, c, i + 2, 10, 0);
      CodeCut(t, s, c, i + 3, 16, 0);
    }
  }

  lemma NamedCut(t: seq<byte>, s: seq<byte>, c: nat, i: nat)
    requires IsCut(t, s, c) && i < c && t[i] == AMP
    ensures Named(t, i).Some? && i + Named(t, i).value.1 <= c ==>
              Named(s, i) == Named(t, i)
    ensures Named(t, i).None? ==> Named(s, i).None?
  {
    hide CString, At;
    AtCut(t, s, c, i + 2, MP_SEMI);
    AtCut(t, s, c, i + 2, POS_SEMI);
    AtCut(t, s, c, i + 2, UOT_SEMI);
    AtCut(t, s, c, i + 2, T_SEMI);
  }

  // References are part of the text around them.
  lemma {:induction false} CodeBytes(t: seq<byte>, p: nat, base: nat, acc: nat)
    requires CString(t) && p < |t|
    ensures forall k :: p <= k < Code(t, p, base, acc).1 ==> DigitOf(t[k]).Some?
    decreases |t| - p
  {
    if DigitOf(t[p]).Some? {
      CodeBytes(t, p + 1, base, (acc * base + DigitOf(t[p]).value) % ULONG);
    }
  }

  lemma DigitTested(b: byte, cls: Class)
    requires IsValueClass(cls)
    ensures DigitOf(b).Some? || b == HASH || b == LOWER_X || b == SEMI || b == AMP ==> Test(cls, b)
  {
  }

  lemma NumericBytes(t: seq<byte>, i: nat, cls: Class)
    requires CString(t) && i + 1 < |t| && t[i] == AMP && t[i + 1] == HASH && IsValueClass(cls)
    ensures forall k :: i <= k < Numeric(t, i).1 ==> Test(cls, t[k])
    ensures Test(cls, SEMI)
  {
    hide CString, Code, Test, DigitOf;
    MoreText(t, i + 1);
    if t[i + 2] == LOWER_X {
      MoreText(t, i + 2);
    }
    forall k | i <= k < |t|
      ensures DigitOf(t[k]).Some? || t[k] == HASH || t[k] == LOWER_X || t[k] == AMP ==> Test(cls, t[k])
    {
      DigitTested(t[k], cls);
    }
    DigitTested(SEMI, cls);
    if t[i + 2] == LOWER_X {
      CodeBytes(t, i + 3, 16, 0);
    } else {
      CodeBytes(t, i + 2, 10, 0);
    }
  }

  lemma NamedBytes(t: seq<byte>, i: nat, cls: Class)
    requires CString(t) && i < |t| && t[i] == AMP && IsValueClass(cls) && Named(t, i).Some?
    ensures forall k :: i <= k < i + Named(t, i).value.1 ==> Test(cls, t[k])
  {
    hide CString, At;
    var (b, len) := Named(t, i).value;
    var p := if len == 5 then MP_SEMI else if len == 4 then T_SEMI else if b == APOS then POS_SEMI else UOT_SEMI;
    InText(t, i + 2, p);
    assert forall k :: i + 2 <= k < i + len ==> t[k] in p;
  }

  lemma {:induction false} ExpandBytes(t: seq<byte>, i: nat, cls: Class, dest: nat)
    requires CString(t) && i < |t| && IsValueClass(cls)
    ensures var e := Expand(t, i, cls, dest); e.Expanded? ==> forall k :: i <= k < e.end ==> Test(cls, t[k])
    decreases |t| - i
  {
    hide CString, Test, Named, Numeric, Expand, Utf8.Encode;
    if !Test(cls, t[i]) {
      NoStep(t, i, cls, dest);
    } else if IsNumeric(t, i) {
      NumericStep(t, i, cls, dest);
      NumericBytes(t, i, cls);
      if NumericOk(t, i) {
        var (code, end) := Numeric(t, i);
        ExpandBytes(t, end + 1, cls, dest + |Utf8.Encode(code)|);
      }
    } else {
      ByteStep(t, i, cls, dest);
      if t[i] == AMP && Named(t, i).Some? {
        NamedBytes(t, i, cls);
      }
      ExpandBytes(t, i + OneByte(t, i).1, cls, dest + 1);
    }
  }

  lemma EndUntested(t: seq<byte>, i: nat, cls: Class)
    requires CString(t) && i < |t|
    ensures Test(cls, t[i]) || t[i] == SEMI ==> i + 1 < |t|
  {
  }

  // Up to the cut, the expansion is the same; when it went on, it now stops at the cut or fails.
  lemma {:induction false} ExpandCut(t: seq<byte>, s: seq<byte>, c: nat, i: nat, cls: Class, dest: nat)
    requires IsCut(t, s, c) && i <= c && IsValueClass(cls)
    ensures var e, f := Expand(t, i, cls, dest), Expand(s, i, cls, dest);
            e.Expanded? ==> if e.end <= c then f == e else f.Bad? || f.end == c
    decreases c - i
  {
    var e := Expand(t, i, cls, dest);
    if e.Expanded? {
      if e.end <= c {
        ExpandSame(t, s, c, i, cls, dest);
      } else {
        ExpandBytes(t, i, cls, dest);
        hide Expand;
        assert forall k :: i <= k < c ==> s[k] == t[k] && Test(cls, s[k]);
      }
    }
  }

  lemma {:induction false} ExpandSame(t: seq<byte>, s: seq<byte>, c: nat, i: nat, cls: Class, dest: nat)
    requires IsCut(t, s, c) && i <= c && IsValueClass(cls)
    requires var e := Expand(t, i, cls, dest); e.Expanded? && e.end <= c
    ensures Expand(s, i, cls, dest) == Expand(t, i, cls, dest)
    decreases c - i
  {
    hide CString, Named, Numeric, Test, Expand, Utf8.Encode;
    NulUntested(cls);
    if !Test(cls, t[i]) || i == c {
      NoStep(s, i, cls, dest);
      if Test(cls, t[i]) {
        ExpandsMore(t, i, cls, dest);
        assert false;
      }
      NoStep(t, i, cls, dest);
    } else if IsNumeric(t, i) {
      NumericStep(t, i, cls, dest);
      var (code, end) := Numeric(t, i);
      NumericCut(t, s, c, i);
      NumericStep(s, i, cls, dest);
      ExpandSame(t, s, c, end + 1, cls, dest + |Utf8.Encode(code)|);
    } else {
      ByteStep(t, i, cls, dest);
      if t[i] == AMP {
        NamedCut(t, s, c, i);
      }
      ByteStep(s, i, cls, dest);
      ExpandSame(t, s, c, i + OneByte(t, i).1, cls, dest + 1);
    }
  }

  lemma ExpandsMore(t: seq<byte>, i: nat, cls: Class, dest: nat)
    requires CString(t) && i < |t| && IsValueClass(cls) && Test(cls, t[i])
    ensures var e := Expand(t, i, cls, dest); e.Expanded? ==> i < e.end
  {
  }

  lemma NulUntested(cls: Class)
    ensures !Test(cls, NUL)
  {
  }

  // ---- Attributes ----

  // The end of a value behind its quote, where the text was read as e.
  ghost function Closed(s: seq<byte>, quote: nat, e: Expanded): QuotedValue
    requires CString(s) && quote < |s| && (e.Expanded? ==> e.end < |s|)
  {
    if e.Bad? then BadValue(e.error)
    else if s[e.end] != s[quote] then BadValue(ParseError(ExpectedQuote, e.end))
    else if s[e.end] == NUL then BadValue(ParseError(ExpectedQuote, e.end))
    else QuotedValue(e.bytes, Skip(s, e.end + 1, Whitespace))
  }

  function QuoteClass(b: byte): Class {
    if b == APOS then Single else Double
  }

  lemma ValueParts(s: seq<byte>, i: nat)
    requires CString(s) && i < |s|
    ensures var quote := Skip(s, i, Whitespace);
            ParseValue(s, i)
              == if s[quote] != APOS && s[quote] != QUOT then BadValue(ParseError(ExpectedQuote, quote))
                 else Closed(s, quote, Expand(s, quote + 1, QuoteClass(s[quote]), quote + 1))
    ensures ParseValue(s, i).QuotedValue? ==> Skip(s, i, Whitespace) < ParseValue(s, i).next
  {
    hide Skip, Expand;
  }

  lemma ClosedCut(t: seq<byte>, s: seq<byte>, c: nat, quote: nat, e: Expanded, f: Expanded)
    requires IsCut(t, s, c) && quote < c
    requires e.Expanded? && e.end < |t| && (f.Expanded? ==> f.end < |s|)
    requires if e.end <= c then f == e else f.Bad? || f.end == c
    ensures var r, q := Closed(t, quote, e), Closed(s, quote, f);
            r.QuotedValue? ==> if r.next <= c then q == r else q.BadValue? || q.next == c
  {
    hide Skip;
    if e.end < c {
      SkipCut(t, s, c, e.end + 1, Whitespace);
    }
  }

  lemma ValueCut(t: seq<byte>, s: seq<byte>, c: nat, i: nat)
    requires IsCut(t, s, c) && i <= c
    ensures var r, q := ParseValue(t, i), ParseValue(s, i);
            r.QuotedValue? ==> if r.next <= c then q == r else q.BadValue? || q.next == c
  {
    hide CString, Skip, Expand, ParseValue, Closed;
    SkipCut(t, s, c, i, Whitespace);
    ValueParts(t, i);
    ValueParts(s, i);
    var quote := Skip(t, i, Whitespace);
    if quote < c && (t[quote] == APOS || t[quote] == QUOT) {
      var cls := QuoteClass(t[quote]);
      ExpandCut(t, s, c, quote + 1, cls, quote + 1);
      var e, f := Expand(t, quote + 1, cls, quote + 1), Expand(s, quote + 1, cls, quote + 1);
      if e.Expanded? {
        ClosedCut(t, s, c, quote, e, f);
      } else {
        BadCloses(t, quote, e);
      }
    }
  }

  lemma BadCloses(t: seq<byte>, quote: nat, e: Expanded)
    requires CString(t) && quote < |t| && e.Bad?
    ensures Closed(t, quote, e).BadValue?
  {
  }

  lemma AttributeCut(t: seq<byte>, s: seq<byte>, c: nat, i: nat)
    requires IsCut(t, s, c) && i < c && Test(AttributeName, t[i])
    ensures var r, q := ParseAttribute(t, i), ParseAttribute(s, i);
            r.OneAttribute? ==> if r.next <= c then q == r else q.BadAttribute? || q.next == c
  {
    hide CString, Skip, ParseValue;
    SkipCut(t, s, c, i + 1, AttributeName);
    var nameEnd := Skip(t, i + 1, AttributeName);
    if nameEnd <= c {
      SkipCut(t, s, c, nameEnd, Whitespace);
      assert t[i..nameEnd] == s[i..nameEnd];
      var eq := Skip(t, nameEnd, Whitespace);
      if eq < c {
        ValueCut(t, s, c, eq + 1);
      }
    } else {
      SkipCut(t, s, c, c, Whitespace);
      StopsAtCut(t, s, c);
    }
  }

  lemma StopsAtCut(t: seq<byte>, s: seq<byte>, c: nat)
    requires IsCut(t, s, c)
    ensures forall cls :: Skip(s, c, cls) == c
  {
  }

  lemma {:induction false} AttributesCut(t: seq<byte>, s: seq<byte>, c: nat, i: nat, before: seq<Attribute>)
    requires IsCut(t, s, c) && i <= c
    ensures var r, q := ParseAttributes(t, i, before), ParseAttributes(s, i, before);
            r.Attributes? ==> if r.next <= c then q == r else q.BadAttributes? || q.next == c
    decreases c - i
  {
    hide CString, ParseAttribute;
    if i < c && Test(AttributeName, t[i]) {
      AttributeCut(t, s, c, i);
      var r, q := ParseAttribute(t, i), ParseAttribute(s, i);
      if r.OneAttribute? && r.next <= c {
        AttributesCut(t, s, c, r.next, before + [r.attribute]);
      }
    }
  }

  // ---- Skipped markup ----

  lemma {:induction false} SkipPastCut(t: seq<byte>, s: seq<byte>, c: nat, i: nat, p: seq<byte>)
    requires IsCut(t, s, c) && i <= c && p != [] && NUL !in p
    ensures var r := SkipPast(t, i, p);
            r.Some? ==> SkipPast(s, i, p) == if r.value <= c then r else None
    decreases c - i
  {
    hide At;
    AtCut(t, s, c, i, p);
    if i < c && !At(t, i, p) && t[i] != NUL {
      SkipPastCut(t, s, c, i + 1, p);
    }
  }

  // Where the first byte of the pattern does not stand, neither does the pattern.
  lemma {:induction false} NothingToSkip(s: seq<byte>, i: nat, p: seq<byte>)
    requires CString(s) && i < |s| && p != [] && NUL !in p && forall k :: i <= k < |s| ==> s[k] != p[0]
    ensures SkipPast(s, i, p).None?
    decreases |s| - i
  {
    if i + |p| <= |s| {
      assert s[i] == s[i..i + |p|][0];
    }
    if s[i] != NUL {
      NothingToSkip(s, i + 1, p);
    }
  }

  lemma {:induction false} BracketsCut(t: seq<byte>, s: seq<byte>, c: nat, i: nat, depth: nat)
    requires IsCut(t, s, c) && i <= c
    ensures var r := SkipBrackets(t, i, depth);
            r.Some? ==> SkipBrackets(s, i, depth) == if r.value <= c then r else None
    decreases c - i
  {
    hide CString;
    if i < c && depth > 0 && t[i] != NUL {
      BracketsCut(t, s, c, i + 1, if t[i] == OPEN then depth + 1 else if t[i] == CLOSE then depth - 1 else depth);
    }
  }

  lemma {:induction false} DoctypeCut(t: seq<byte>, s: seq<byte>, c: nat, i: nat)
    requires IsCut(t, s, c) && i <= c
    ensures var r := SkipDoctype(t, i); r.Some? ==> SkipDoctype(s, i) == if r.value <= c then r else None
    decreases c - i
  {
    hide CString, SkipBrackets;
    if i < c && t[i] != NUL && t[i] != GT {
      if t[i] == OPEN {
        BracketsCut(t, s, c, i + 1, 1);
        var inner := SkipBrackets(t, i + 1, 1);
        if inner.Some? && inner.value <= c {
          DoctypeCut(t, s, c, inner.value);
        }
      } else {
        DoctypeCut(t, s, c, i + 1);
      }
    }
  }

  // ---- Nodes ----

  // What the parser makes of a node (r) and of the same with the text cut (q).
  ghost predicate Same(r: Parsed, q: Parsed, c: nat) {
    r.Parsed? ==> if r.next <= c then q == r else q.Failed?
  }

  ghost predicate SameContents(r: Contents, q: Contents, c: nat) {
    r.Contents? ==> if r.next <= c then q == r else q.FailedContents?
  }

  // The four ways to go on after <!
  ghost predicate IsComment(s: seq<byte>, i: nat)
    requires CString(s) && i < |s| && s[i] == BANG
  {
    s[i + 1] == MINUS && s[i + 2] == MINUS
  }

  ghost predicate IsDoctype(s: seq<byte>, i: nat)
    requires CString(s)
  {
    At(s, i + 1, DOCTYPE) && DoctypeSpace(s, i)
  }

  lemma BangCut(t: seq<byte>, s: seq<byte>, c: nat, i: nat)
    requires IsCut(t, s, c) && i < c && t[i] == BANG
    ensures Same(ParseBang(t, i), ParseBang(s, i), c)
  {
    hide At, SkipPast, SkipDoctype, DoctypeSpace;
    BangBranch(t, s, c, i);
    if IsComment(t, i) {
      if i + 3 <= c {
        SkipPastCut(t, s, c, i + 3, COMMENT_END);
      }
    } else if At(t, i + 1, CDATA_OPEN) {
      if i + 8 <= c {
        SkipPastCut(t, s, c, i + 8, CDATA_END);
        var next := SkipPast(t, i + 8, CDATA_END);
        if next.Some? && next.value <= c {
          assert s[i + 8..next.value - 3] == t[i + 8..next.value - 3];
        }
      }
    } else if IsDoctype(t, i) {
      if i + 9 <= c {
        DoctypeCut(t, s, c, i + 9);
      }
    } else {
      SkipPastCut(t, s, c, i + 1, [GT]);
    }
  }

  // A cut text goes the same way, or finds no > in what is left of the mark.
  lemma BangBranch(t: seq<byte>, s: seq<byte>, c: nat, i: nat)
    requires IsCut(t, s, c) && i < c && t[i] == BANG
    ensures IsComment(s, i) <==> IsComment(t, i) && i + 3 <= c
    ensures At(s, i + 1, CDATA_OPEN) <==> At(t, i + 1, CDATA_OPEN) && i + 8 <= c
    ensures IsDoctype(s, i) <==> IsDoctype(t, i) && i + 9 <= c
    ensures IsComment(t, i) && c < i + 3 ==> SkipPast(s, i + 1, [GT]).None?
    ensures At(t, i + 1, CDATA_OPEN) && c < i + 8 ==> SkipPast(s, i + 1, [GT]).None?
    ensures IsDoctype(t, i) && c < i + 9 ==> SkipPast(s, i + 1, [GT]).None?
  {
    hide At, SkipPast;
    AtCut(t, s, c, i + 1, CDATA_OPEN);
    AtCut(t, s, c, i + 1, DOCTYPE);
    if At(t, i + 1, CDATA_OPEN) {
      InText(t, i + 1, CDATA_OPEN);
    }
    if At(t, i + 1, DOCTYPE) {
      InText(t, i + 1, DOCTYPE);
    }
    if forall k :: i + 1 <= k < |s| ==> s[k] != GT {
      NothingToSkip(s, i + 1, [GT]);
    }
  }

  // <? goes on with a declaration or not.
  ghost predicate IsDeclaration(s: seq<byte>, i: nat)
    requires CString(s) && i < |s| && s[i] == QUESTION
  {
    IsCase(s[i + 1], 120) && IsCase(s[i + 2], 109) && IsCase(s[i + 3], 108) && Test(Whitespace, s[i + 4])
  }

  lemma QuestionCut(t: seq<byte>, s: seq<byte>, c: nat, i: nat)
    requires IsCut(t, s, c) && i < c && t[i] == QUESTION
    ensures Same(ParseNode(t, i), ParseNode(s, i), c)
  {
    hide SkipPast;
    if IsDeclaration(t, i) {
      if i + 5 <= c {
        SkipPastCut(t, s, c, i + 5, PI_END);
      } else {
        NothingToSkip(s, i + 1, PI_END);
      }
    } else {
      SkipPastCut(t, s, c, i + 1, PI_END);
    }
  }

  // A text cut inside a node is an error, and one cut behind it gives the same node.
  lemma {:induction false} NodeCut(t: seq<byte>, s: seq<byte>, c: nat, i: nat)
    requires IsCut(t, s, c) && i <= c
    ensures Same(ParseNode(t, i), ParseNode(s, i), c)
    decreases c - i, 4
  {
    hide CString, ParseElement, ParseBang, SkipPast;
    if i == c {
      NoName(s, c);
    } else if t[i] == QUESTION {
      QuestionCut(t, s, c, i);
    } else if t[i] == BANG {
      BangCut(t, s, c, i);
    } else {
      ElementCut(t, s, c, i);
    }
  }

  lemma NoName(s: seq<byte>, c: nat)
    requires CString(s) && c < |s| && s[c] == NUL
    ensures ParseElement(s, c).Failed?
  {
  }

  lemma {:induction false} ElementCut(t: seq<byte>, s: seq<byte>, c: nat, i: nat)
    requires IsCut(t, s, c) && i < c
    ensures Same(ParseElement(t, i), ParseElement(s, i), c)
    decreases c - i, 3
  {
    hide CString, Skip, ParseAttributes, ParseBody;
    SkipCut(t, s, c, i, NodeName);
    var nameEnd := Skip(t, i, NodeName);
    if i < nameEnd <= c {
      assert t[i..nameEnd] == s[i..nameEnd];
      SkipCut(t, s, c, nameEnd, Whitespace);
      var at := Skip(t, nameEnd, Whitespace);
      if at <= c {
        AttributesCut(t, s, c, at, []);
        var a := ParseAttributes(t, at, []);
        if a.Attributes? && a.next <= c {
          BodyCut(t, s, c, a.next);
        }
      }
    }
    ElementEnds(t, s, c, i);
  }

  // Wherever attributes stop at the cut, the element fails.
  lemma ElementEnds(t: seq<byte>, s: seq<byte>, c: nat, i: nat)
    requires IsCut(t, s, c) && i < c
    ensures ParseBody(s, c).FailedContents? && ParseAttributes(s, c, []) == Attributes([], c)
    ensures Skip(s, c, Whitespace) == c
  {
  }

  lemma {:induction false} BodyCut(t: seq<byte>, s: seq<byte>, c: nat, j: nat)
    requires IsCut(t, s, c) && j <= c
    ensures SameContents(ParseBody(t, j), ParseBody(s, j), c)
    decreases c - j, 2
  {
    hide ParseContents;
    if j < c && t[j] == GT {
      ContentsCut(t, s, c, j + 1, [], []);
    }
  }

  lemma {:induction false} ContentsCut(t: seq<byte>, s: seq<byte>, c: nat, i: nat,
                                       children: seq<Node>, value: seq<byte>)
    requires IsCut(t, s, c) && i <= c
    ensures SameContents(ParseContents(t, i, children, value), ParseContents(s, i, children, value), c)
    decreases c - i, 2
  {
    hide CString, Skip, Expand, ParseTag, AfterData, NoValue;
    SkipCut(t, s, c, i, Whitespace);
    var j := Skip(t, i, Whitespace);
    if j < c {
      if t[j] == LT {
        TagCut(t, s, c, j, children, value);
      } else if t[j] != NUL {
        ExpandCut(t, s, c, i, Text, i);
        var e, f := Expand(t, i, Text, i), Expand(s, i, Text, i);
        if e.Expanded? {
          if e.end <= c {
            AfterDataCut(t, s, c, e.end, children + [Data(e.bytes)], if NoValue(value) then e.bytes else value);
          } else if f.Expanded? {
            EndsInText(s, c, children + [Data(f.bytes)], if NoValue(value) then f.bytes else value);
          }
        }
      }
    }
  }

  lemma EndsInText(s: seq<byte>, c: nat, children: seq<Node>, value: seq<byte>)
    requires CString(s) && c < |s| && s[c] == NUL
    ensures AfterData(s, c, children, value).FailedContents?
  {
  }

  lemma {:induction false} AfterDataCut(t: seq<byte>, s: seq<byte>, c: nat, i: nat,
                                        children: seq<Node>, value: seq<byte>)
    requires IsCut(t, s, c) && i <= c
    ensures SameContents(AfterData(t, i, children, value), AfterData(s, i, children, value), c)
    decreases c - i, 1
  {
    hide CString, ParseTag;
    if i < c && t[i] == LT {
      TagCut(t, s, c, i, children, value);
    }
  }

  lemma {:induction false} TagCut(t: seq<byte>, s: seq<byte>, c: nat, i: nat, children: seq<Node>, value: seq<byte>)
    requires IsCut(t, s, c) && i < c && t[i] == LT
    ensures SameContents(ParseTag(t, i, children, value), ParseTag(s, i, children, value), c)
    decreases c - i, 0
  {
    hide CString, Skip, ParseNode, ParseContents;
    if t[i + 1] == SLASH {
      ClosingCut(t, s, c, i, children, value);
    } else {
      NodeCut(t, s, c, i + 1);
      var r := ParseNode(t, i + 1);
      if r.Parsed? && r.next <= c {
        ContentsCut(t, s, c, r.next, if r.node.Some? then children + [r.node.value] else children, value);
      }
    }
  }

  lemma ClosingCut(t: seq<byte>, s: seq<byte>, c: nat, i: nat, children: seq<Node>, value: seq<byte>)
    requires IsCut(t, s, c) && i < c && t[i] == LT && t[i + 1] == SLASH
    ensures SameContents(ParseTag(t, i, children, value), ParseTag(s, i, children, value), c)
  {
    hide CString, Skip, ParseElement, ParseContents;
    if i + 1 == c {
      NoName(s, c);
    } else {
      SkipCut(t, s, c, i + 2, NodeName);
      var nameEnd := Skip(t, i + 2, NodeName);
      if nameEnd <= c {
        SkipCut(t, s, c, nameEnd, Whitespace);
      } else {
        StopsAtCut(t, s, c);
      }
    }
  }

  // ---- Documents ----

  lemma {:induction false} NodesCut(t: seq<byte>, s: seq<byte>, c: nat, i: nat, nodes: seq<Node>)
    requires IsCut(t, s, c) && i <= c
    ensures var d, b := ParseNodes(t, i, nodes), ParseNodes(s, i, nodes);
            d.Document? && b.Document? ==> nodes <= b.nodes <= d.nodes
    decreases c - i
  {
    hide CString, Skip, ParseNode;
    NodesGrow(t, i, nodes);
    SkipCut(t, s, c, i, Whitespace);
    var j := Skip(t, i, Whitespace);
    if j < c && t[j] == LT {
      NodeCut(t, s, c, j + 1);
      var r := ParseNode(t, j + 1);
      if r.Parsed? && r.next <= c {
        NodesCut(t, s, c, r.next, if r.node.Some? then nodes + [r.node.value] else nodes);
      }
    }
  }

  lemma {:induction false} NodesGrow(t: seq<byte>, i: nat, nodes: seq<Node>)
    requires CString(t) && i < |t|
    ensures var d := ParseNodes(t, i, nodes); d.Document? ==> nodes <= d.nodes
    decreases |t| - i
  {
    hide CString, Skip, ParseNode;
    var j := Skip(t, i, Whitespace);
    if t[j] == LT {
      EndUntested(t, j, Single);
      var r := ParseNode(t, j + 1);
      if r.Parsed? {
        NodesGrow(t, r.next, if r.node.Some? then nodes + [r.node.value] else nodes);
      }
    }
  }

  // A document cut anywhere parses, if at all, to its first nodes, each as it was.
  lemma CutDocument(t: seq<byte>, c: nat)
    requires CString(t) && c < |t| && Parse(t).Document?
    ensures var s := t[..c] + [NUL];
            CString(s) && (Parse(s).Document? ==> Parse(s).nodes <= Parse(t).nodes)
  {
    hide CString, ParseNodes, At;
    var s := t[..c] + [NUL];
    CutIs(t, c);
    AtCut(t, s, c, 0, BOM);
    if AfterBom(t) <= c {
      NodesCut(t, s, c, AfterBom(t), []);
    } else {
      BomCut(t, s, c);
    }
  }

  lemma BomCut(t: seq<byte>, s: seq<byte>, c: nat)
    requires IsCut(t, s, c) && At(t, 0, BOM) && c < 3
    ensures var b := ParseNodes(s, 0, []); b.Document? ==> b.nodes == []
  {
    hide ParseNode;
    assert t[0] == t[0..3][0] == BOM[0];
  }
}
