/** The language that rapidxml's parse<0> accepts, as functions over an unchanging C string.

    Positions are indices of the text. Flags are 0: entities are translated, comments, DOCTYPE,
    processing instructions and the XML declaration are skipped, closing names are not compared. */
module XmlGrammar {
  import opened Wrappers
  import opened Bytes
  import Utf8

  const BANG: byte := 33      // !
  const HASH: byte := 35      // #
  const AMP: byte := 38       // &
  const APOS: byte := 39      // '
  const SLASH: byte := 47     // /
  const SEMI: byte := 59      // ;
  const LT: byte := 60        // <
  const EQ: byte := 61        // =
  const GT: byte := 62        // >
  const QUESTION: byte := 63  // ?
  const OPEN: byte := 91      // [
  const CLOSE: byte := 93     // ]
  const LOWER_G: byte := 103
  const LOWER_L: byte := 108
  const LOWER_Q: byte := 113

  const MP_SEMI: seq<byte> := [109, 112, 59]           // mp;
  const POS_SEMI: seq<byte> := [112, 111, 115, 59]     // pos;
  const UOT_SEMI: seq<byte> := [117, 111, 116, 59]     // uot;
  const T_SEMI: seq<byte> := [116, 59]                 // t;
  const CDATA_OPEN: seq<byte> := [91, 67, 68, 65, 84, 65, 91]   // [CDATA[
  const CDATA_END: seq<byte> := [93, 93, 62]           // ]]>
  const COMMENT_END: seq<byte> := [45, 45, 62]         // -->
  const PI_END: seq<byte> := [63, 62]                  // ?>
  const DOCTYPE: seq<byte> := [68, 79, 67, 84, 89, 80, 69]      // DOCTYPE
  const BOM: seq<byte> := [0xEF, 0xBB, 0xBF]

  // The lookup tables.
  datatype Class =
    | Whitespace | NodeName | AttributeName
    | Text | TextPure
    | Single | SinglePure   // attribute data in single quotes
    | Double | DoublePure   // attribute data in double quotes

  predicate IsSpace(b: byte) {
    b == SPACE || b == LF || b == CR || b == TAB
  }

  predicate Test(c: Class, b: byte) {
    match c
    case Whitespace => IsSpace(b)
    case NodeName => !IsSpace(b) && b != SLASH && b != GT && b != QUESTION && b != NUL
    case AttributeName =>
      !IsSpace(b) && b != SLASH && b != LT && b != GT && b != EQ && b != QUESTION && b != BANG && b != NUL
    case Text => b != LT && b != NUL
    case TextPure => b != LT && b != NUL && b != AMP
    case Single => b != APOS && b != NUL
    case SinglePure => b != APOS && b != NUL && b != AMP
    case Double => b != QUOT && b != NUL
    case DoublePure => b != QUOT && b != NUL && b != AMP
  }

  predicate IsValueClass(c: Class) {
    c == Text || c == Single || c == Double
  }

  function Pure(c: Class): Class
    requires IsValueClass(c)
  {
    match c
    case Text => TextPure
    case Single => SinglePure
    case _ => DoublePure
  }

  // lookup_digits: one table for decimal and hexadecimal references.
  function DigitOf(b: byte): Option<nat> {
    if ZERO <= b <= NINE then Some((b - ZERO) as nat)
    else if 65 <= b <= 70 then Some((b - 55) as nat)
    else if 97 <= b <= 102 then Some((b - 87) as nat)
    else None
  }

  // A C string: its one NUL is the last byte.
  predicate CString(s: seq<byte>) {
    |s| > 0 && forall k :: 0 <= k < |s| ==> (s[k] == NUL <==> k == |s| - 1)
  }

  lemma MoreText(s: seq<byte>, i: nat)
    requires CString(s) && i < |s| && s[i] != NUL
    ensures i + 1 < |s|
  {
  }

  datatype What =
    | UnexpectedEnd | ExpectedLt | ExpectedGt | ExpectedElementName | ExpectedEquals
    | ExpectedQuote | ExpectedSemicolon | InvalidNumericEntity

  datatype ParseError = ParseError(what: What, where: nat)

  datatype Attribute = Attribute(name: seq<byte>, value: seq<byte>)

  datatype Node =
    | Element(name: seq<byte>, attributes: seq<Attribute>, children: seq<Node>, value: seq<byte>)
    | Data(value: seq<byte>)
    | CData(value: seq<byte>)

  // The first position from i on where the class ends.
  function Skip(s: seq<byte>, i: nat, c: Class): (j: nat)
    requires CString(s) && i < |s|
    ensures i <= j < |s| && !Test(c, s[j])
    ensures forall k :: i <= k < j ==> Test(c, s[k])
    decreases |s| - i
  {
    if Test(c, s[i]) then Skip(s, i + 1, c) else i
  }

  predicate At(s: seq<byte>, i: nat, p: seq<byte>) {
    i + |p| <= |s| && s[i..i + |p|] == p
  }

  // A pattern without NUL lies before the terminator.
  lemma InText(s: seq<byte>, i: nat, p: seq<byte>)
    requires CString(s) && At(s, i, p) && p != [] && NUL !in p
    ensures i + |p| < |s|
    ensures forall k :: i <= k < i + |p| ==> s[k] == p[k - i]
  {
    assert forall k :: i <= k < i + |p| ==> s[k] == s[i..i + |p|][k - i];
    assert p[|p| - 1] in p;
    assert s[i + |p| - 1] == p[|p| - 1];
  }

  // ---- Character data ----

  // A named reference at the & in position i: the byte it stands for and its length.
  function Named(s: seq<byte>, i: nat): (r: Option<(byte, nat)>)
    requires CString(s) && i < |s| && s[i] == AMP
    ensures r.Some? ==> 4 <= r.value.1 && i + r.value.1 < |s|
  {
    var c := s[i + 1];
    if c == LOWER_A && At(s, i + 2, MP_SEMI) then
      InText(s, i + 2, MP_SEMI);
      Some((AMP, 5))
    else if c == LOWER_A && At(s, i + 2, POS_SEMI) then
      InText(s, i + 2, POS_SEMI);
      Some((APOS, 6))
    else if c == LOWER_Q && At(s, i + 2, UOT_SEMI) then
      InText(s, i + 2, UOT_SEMI);
      Some((QUOT, 6))
    else if (c == LOWER_G || c == LOWER_L) && At(s, i + 2, T_SEMI) then
      InText(s, i + 2, T_SEMI);
      Some((if c == LOWER_G then GT else LT, 4))
    else None
  }

  const ULONG: nat := 0x1_0000_0000

  // The digits from p on: the code they denote in 32-bit unsigned arithmetic, and where they end.
  function Code(s: seq<byte>, p: nat, base: nat, acc: nat): (r: (nat, nat))
    requires CString(s) && p < |s|
    ensures p <= r.1 < |s| && DigitOf(s[r.1]) == None
    decreases |s| - p
  {
    var d := DigitOf(s[p]);
    if d == None then (acc, p) else Code(s, p + 1, base, (acc * base + d.value) % ULONG)
  }

  // A numeric reference at the & in position i, &# being there: code and end of its digits.
  function Numeric(s: seq<byte>, i: nat): (r: (nat, nat))
    requires CString(s) && i + 1 < |s| && s[i + 1] == HASH
    ensures i + 2 <= r.1 < |s|
  {
    if s[i + 2] == LOWER_X then Code(s, i + 3, 16, 0) else Code(s, i + 2, 10, 0)
  }

  datatype Expanded = Expanded(bytes: seq<byte>, end: nat) | Bad(error: ParseError)

  function Prepend(first: seq<byte>, e: Expanded): Expanded {
    if e.Bad? then e else Expanded(first + e.bytes, e.end)
  }

  // The text of class c from i on with its references expanded; dest is where the parser, which
  // expands in place, would store the next byte (it is the position an error is reported at).
  function Expand(s: seq<byte>, i: nat, c: Class, dest: nat): (e: Expanded)
    requires CString(s) && i < |s| && IsValueClass(c)
    ensures e.Expanded? ==> i <= e.end < |s| && !Test(c, s[e.end])
    decreases |s| - i
  {
    if !Test(c, s[i]) then Expanded([], i)
    else if s[i] == AMP && s[i + 1] == HASH then
      var (code, end) := Numeric(s, i);
      if code >= Utf8.CODE_LIMIT then Bad(ParseError(InvalidNumericEntity, dest))
      else if s[end] != SEMI then Bad(ParseError(ExpectedSemicolon, end))
      else
        var bytes := Utf8.Encode(code);
        Prepend(bytes, Expand(s, end + 1, c, dest + |bytes|))
    else if s[i] == AMP && Named(s, i).Some? then
      var (b, len) := Named(s, i).value;
      Prepend([b], Expand(s, i + len, c, dest + 1))
    else Prepend([s[i]], Expand(s, i + 1, c, dest + 1))
  }

  // One step of the expansion: at the end of the text, a numeric reference, another byte.
  predicate IsNumeric(s: seq<byte>, i: nat)
    requires CString(s) && i < |s|
  {
    s[i] == AMP && s[i + 1] == HASH
  }

  lemma NoStep(s: seq<byte>, i: nat, c: Class, dest: nat)
    requires CString(s) && i < |s| && IsValueClass(c) && !Test(c, s[i])
    ensures Expand(s, i, c, dest) == Expanded([], i)
  {
  }

  ghost predicate NumericOk(s: seq<byte>, i: nat)
    requires CString(s) && i < |s| && IsNumeric(s, i)
  {
    Numeric(s, i).0 < Utf8.CODE_LIMIT && s[Numeric(s, i).1] == SEMI
  }

  lemma NumericStep(s: seq<byte>, i: nat, c: Class, dest: nat)
    requires CString(s) && i < |s| && IsValueClass(c) && Test(c, s[i]) && IsNumeric(s, i)
    ensures NumericOk(s, i) ==> Numeric(s, i).1 + 1 < |s|
    ensures var (code, end) := Numeric(s, i);
            Expand(s, i, c, dest)
              == if code >= Utf8.CODE_LIMIT then Bad(ParseError(InvalidNumericEntity, dest))
                 else if s[end] != SEMI then Bad(ParseError(ExpectedSemicolon, end))
                 else
                   var bytes := Utf8.Encode(code);
                   Prepend(bytes, Expand(s, end + 1, c, dest + |bytes|))
  {
    hide Numeric, Test;
  }

  // The byte that stands for the next ones, and how many they are.
  function OneByte(s: seq<byte>, i: nat): (byte, nat)
    requires CString(s) && i < |s|
  {
    if s[i] == AMP && Named(s, i).Some? then Named(s, i).value else (s[i], 1)
  }

  lemma ByteStep(s: seq<byte>, i: nat, c: Class, dest: nat)
    requires CString(s) && i < |s| && IsValueClass(c) && Test(c, s[i]) && !IsNumeric(s, i)
    ensures var (b, len) := OneByte(s, i);
            && i + len < |s|
            && Expand(s, i, c, dest) == Prepend([b], Expand(s, i + len, c, dest + 1))
  {
    hide Named;
  }

  // ---- Attributes ----

  datatype Attributes = Attributes(list: seq<Attribute>, next: nat) | BadAttributes(error: ParseError)

  datatype OneAttribute = OneAttribute(attribute: Attribute, next: nat) | BadAttribute(error: ParseError)

  datatype QuotedValue = QuotedValue(value: seq<byte>, next: nat) | BadValue(error: ParseError)

  // A value in single or double quotes, with white space around it.
  function ParseValue(s: seq<byte>, i: nat): (r: QuotedValue)
    requires CString(s) && i < |s|
    ensures r.QuotedValue? ==> i < r.next < |s|
  {
    var quote := Skip(s, i, Whitespace);
    if s[quote] != APOS && s[quote] != QUOT then BadValue(ParseError(ExpectedQuote, quote))
    else
      match Expand(s, quote + 1, if s[quote] == APOS then Single else Double, quote + 1)
      case Bad(e) => BadValue(e)
      case Expanded(value, end) =>
        if s[end] != s[quote] then BadValue(ParseError(ExpectedQuote, end))
        else QuotedValue(value, Skip(s, end + 1, Whitespace))
  }

  // A name, =, and a value.
  function ParseAttribute(s: seq<byte>, i: nat): (r: OneAttribute)
    requires CString(s) && i < |s| && Test(AttributeName, s[i])
    ensures r.OneAttribute? ==> i < r.next < |s|
  {
    var nameEnd := Skip(s, i + 1, AttributeName);
    var eq := Skip(s, nameEnd, Whitespace);
    if s[eq] != EQ then BadAttribute(ParseError(ExpectedEquals, eq))
    else
      match ParseValue(s, eq + 1)
      case BadValue(e) => BadAttribute(e)
      case QuotedValue(value, next) => OneAttribute(Attribute(s[i..nameEnd], value), next)
  }

  function ParseAttributes(s: seq<byte>, i: nat, before: seq<Attribute>): (r: Attributes)
    requires CString(s) && i < |s|
    ensures r.Attributes? ==> i <= r.next < |s|
    decreases |s| - i
  {
    if !Test(AttributeName, s[i]) then Attributes(before, i)
    else
      match ParseAttribute(s, i)
      case BadAttribute(e) => BadAttributes(e)
      case OneAttribute(a, next) => ParseAttributes(s, next, before + [a])
  }

  // ---- Skipped markup ----

  // Just after the first occurrence of the pattern, or None if the text ends before one.
  function SkipPast(s: seq<byte>, i: nat, pattern: seq<byte>): (r: Option<nat>)
    requires CString(s) && i < |s| && |pattern| > 0 && NUL !in pattern
    ensures r.Some? ==> i + |pattern| <= r.value < |s| && At(s, r.value - |pattern|, pattern)
    decreases |s| - i
  {
    if At(s, i, pattern) then
      InText(s, i, pattern);
      Some(i + |pattern|)
    else if s[i] == NUL then None
    else SkipPast(s, i + 1, pattern)
  }

  // Past the brackets of a DOCTYPE's internal subset, `depth` of them being open.
  function SkipBrackets(s: seq<byte>, i: nat, depth: nat): (r: Option<nat>)
    requires CString(s) && i < |s|
    ensures r.Some? ==> i <= r.value < |s|
    decreases |s| - i
  {
    if depth == 0 then Some(i)
    else if s[i] == NUL then None
    else SkipBrackets(s, i + 1, if s[i] == OPEN then depth + 1 else if s[i] == CLOSE then depth - 1 else depth)
  }

  function SkipDoctype(s: seq<byte>, i: nat): (r: Option<nat>)
    requires CString(s) && i < |s|
    ensures r.Some? ==> i < r.value < |s|
    decreases |s| - i
  {
    if s[i] == GT then Some(i + 1)
    else if s[i] == NUL then None
    else if s[i] == OPEN then
      var inner := SkipBrackets(s, i + 1, 1);
      if inner.None? then None else SkipDoctype(s, inner.value)
    else SkipDoctype(s, i + 1)
  }

  // ---- Nodes ----

  datatype Parsed =
    | Parsed(node: Option<Node>, next: nat)   // None: markup that makes no node
    | Failed(error: ParseError)

  datatype Contents =
    | Contents(children: seq<Node>, value: seq<byte>, next: nat)
    | FailedContents(error: ParseError)

  function Skipped(s: seq<byte>, next: Option<nat>): Parsed
    requires |s| > 0
  {
    if next.Some? then Parsed(None, next.value) else Failed(ParseError(UnexpectedEnd, |s| - 1))
  }

  predicate IsCase(b: byte, lower: byte)
    requires lower >= 32
  {
    b == lower || b == lower - 32
  }

  // After <!
  function ParseBang(s: seq<byte>, i: nat): (r: Parsed)
    requires CString(s) && i < |s| && s[i] == BANG
    ensures r.Parsed? ==> i < r.next < |s|
  {
    if s[i + 1] == MINUS && s[i + 2] == MINUS then Skipped(s, SkipPast(s, i + 3, COMMENT_END))
    else if At(s, i + 1, CDATA_OPEN) then
      InText(s, i + 1, CDATA_OPEN);
      var next := SkipPast(s, i + 8, CDATA_END);
      if next.Some? then Parsed(Some(CData(s[i + 8..next.value - 3])), next.value) else Skipped(s, None)
    else if At(s, i + 1, DOCTYPE) && DoctypeSpace(s, i) then Skipped(s, SkipDoctype(s, i + 9))
    else Skipped(s, SkipPast(s, i + 1, [GT]))
  }

  predicate DoctypeSpace(s: seq<byte>, i: nat): (b: bool)
    requires CString(s) && At(s, i + 1, DOCTYPE)
    ensures b ==> i + 9 < |s|
  {
    InText(s, i + 1, DOCTYPE);
    Test(Whitespace, s[i + 8])
  }

  function ParseNode(s: seq<byte>, i: nat): (r: Parsed)
    requires CString(s) && i < |s|
    ensures r.Parsed? ==> i < r.next < |s|
    decreases |s| - i, 4
  {
    if s[i] == QUESTION then
      // The XML declaration and processing instructions are skipped alike, but the declaration's
      // search for ?> starts after `xml` and its space.
      if IsCase(s[i + 1], 120) && IsCase(s[i + 2], 109) && IsCase(s[i + 3], 108) && Test(Whitespace, s[i + 4])
      then Skipped(s, SkipPast(s, i + 5, PI_END))
      else Skipped(s, SkipPast(s, i + 1, PI_END))
    else if s[i] == BANG then ParseBang(s, i)
    else ParseElement(s, i)
  }

  function ParseElement(s: seq<byte>, i: nat): (r: Parsed)
    requires CString(s) && i < |s|
    ensures r.Parsed? ==> i < r.next < |s|
    decreases |s| - i, 3
  {
    var nameEnd := Skip(s, i, NodeName);
    if nameEnd == i then Failed(ParseError(ExpectedElementName, i))
    else
      match ParseAttributes(s, Skip(s, nameEnd, Whitespace), [])
      case BadAttributes(e) => Failed(e)
      case Attributes(attributes, j) =>
        match ParseBody(s, j)
        case FailedContents(e) => Failed(e)
        case Contents(children, value, next) => Parsed(Some(Element(s[i..nameEnd], attributes, children, value)), next)
  }

  // The end of an opening tag: > and the contents, or />.
  function ParseBody(s: seq<byte>, j: nat): (r: Contents)
    requires CString(s) && j < |s|
    ensures r.Contents? ==> j < r.next < |s|
    decreases |s| - j, 2
  {
    if s[j] == GT then ParseContents(s, j + 1, [], [])
    else if s[j] == SLASH then
      if s[j + 1] == GT then Contents([], [], j + 2) else FailedContents(ParseError(ExpectedGt, j + 1))
    else FailedContents(ParseError(ExpectedGt, j))
  }

  // *node->value() == 0: the element has no value yet, or one that starts with NUL.
  predicate NoValue(value: seq<byte>) {
    value == [] || value[0] == NUL
  }

  // The loop of parse_node_contents, with the children and the value so far.
  function ParseContents(s: seq<byte>, i: nat, children: seq<Node>, value: seq<byte>): (r: Contents)
    requires CString(s) && i < |s|
    ensures r.Contents? ==> i < r.next < |s|
    decreases |s| - i, 2
  {
    var j := Skip(s, i, Whitespace);
    if s[j] == LT then ParseTag(s, j, children, value)
    else if s[j] == NUL then FailedContents(ParseError(UnexpectedEnd, j))
    else
      // Data starts before the white space.
      match Expand(s, i, Text, i)
      case Bad(e) => FailedContents(e)
      case Expanded(bytes, end) =>
        AfterData(s, end, children + [Data(bytes)], if NoValue(value) then bytes else value)
  }

  // Behind a data node, where the text has ended at a < or at the terminator.
  function AfterData(s: seq<byte>, i: nat, children: seq<Node>, value: seq<byte>): (r: Contents)
    requires CString(s) && i < |s|
    ensures r.Contents? ==> i < r.next < |s|
    decreases |s| - i, 1
  {
    if s[i] == LT then ParseTag(s, i, children, value) else FailedContents(ParseError(UnexpectedEnd, i))
  }

  // A < inside an element: its closing tag or a child.
  function ParseTag(s: seq<byte>, i: nat, children: seq<Node>, value: seq<byte>): (r: Contents)
    requires CString(s) && i < |s| && s[i] == LT
    ensures r.Contents? ==> i < r.next < |s|
    decreases |s| - i, 0
  {
    if s[i + 1] == SLASH then
      var j := Skip(s, Skip(s, i + 2, NodeName), Whitespace);
      if s[j] == GT then Contents(children, value, j + 1) else FailedContents(ParseError(ExpectedGt, j))
    else
      match ParseNode(s, i + 1)
      case Failed(e) => FailedContents(e)
      case Parsed(node, next) =>
        ParseContents(s, next, if node.Some? then children + [node.value] else children, value)
  }

  datatype Document = Document(nodes: seq<Node>) | BadDocument(error: ParseError)

  function ParseNodes(s: seq<byte>, i: nat, nodes: seq<Node>): Document
    requires CString(s) && i < |s|
    decreases |s| - i
  {
    var j := Skip(s, i, Whitespace);
    if s[j] == NUL then Document(nodes)
    else if s[j] != LT then BadDocument(ParseError(ExpectedLt, j))
    else
      match ParseNode(s, j + 1)
      case Failed(e) => BadDocument(e)
      case Parsed(node, next) => ParseNodes(s, next, if node.Some? then nodes + [node.value] else nodes)
  }

  function AfterBom(s: seq<byte>): (i: nat)
    requires CString(s)
    ensures i < |s|
  {
    if At(s, 0, BOM) then
      InText(s, 0, BOM);
      3
    else 0
  }

  // parse<0>
  function Parse(s: seq<byte>): Document
    requires CString(s)
  {
    ParseNodes(s, AfterBom(s), [])
  }
}
