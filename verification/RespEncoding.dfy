/** The replies as the protocol writes them (RESP specification, "Simple strings", "Integers",
    "Bulk strings", "Arrays"), and that the grammar of the reader undoes this encoding. */
module RespEncoding {
  import opened Wrappers
  import opened Bytes
  import opened RespGrammar

  const DOLLAR: byte := 36
  const STAR: byte := 42
  const INT_MAX: int := 0x7fff_ffff
  const LONG_LONG_MAX: int := 0x7fff_ffff_ffff_ffff
  const LONG_LONG_MIN: int := -0x8000_0000_0000_0000
  const CRLF: seq<byte> := [CR, LF]

  function Signed(v: int): seq<byte> {
    if v < 0 then [MINUS] + Decimal(-v) else Decimal(v)
  }

  function Line(kind: byte, text: seq<byte>): seq<byte> {
    [kind] + text + CRLF
  }

  function Header(kind: byte, n: nat): seq<byte> {
    Line(kind, Decimal(n))
  }

  function Bulk(arg: seq<byte>): seq<byte> {
    Header(DOLLAR, |arg|) + arg + CRLF
  }

  // What a server says. There are two ways to say nil.
  datatype Wire =
    | SimpleString(text: seq<byte>)
    | SimpleError(text: seq<byte>)
    | Number(v: int)
    | BulkString(bytes: seq<byte>)
    | NullBulk
    | NullArray
    | Items(items: seq<Wire>)

  // Lines without CR LF, lengths an int holds, and arrays inside at most one other array.
  ghost predicate Sayable(w: Wire, depth: nat)
    decreases w
  {
    match w
    case SimpleString(s) => forall i :: 0 <= i < |s| ==> !IsCrlf(s, i)
    case SimpleError(s) => forall i :: 0 <= i < |s| ==> !IsCrlf(s, i)
    case Number(v) => LONG_LONG_MIN <= v <= LONG_LONG_MAX
    case BulkString(s) => |s| <= INT_MAX
    case NullBulk => true
    case NullArray => depth < MAX_DEPTH
    case Items(items) =>
      && depth < MAX_DEPTH && |items| <= INT_MAX
      && forall i :: 0 <= i < |items| ==> Sayable(items[i], depth + 1)
  }

  // The reply that is meant.
  function Meaning(w: Wire): Reply
    decreases w, 0
  {
    match w
    case SimpleString(s) => Status(s)
    case SimpleError(s) => Error(s)
    case Number(v) => Integer(v)
    case BulkString(s) => Str(s)
    case NullBulk => Nil
    case NullArray => Nil
    case Items(items) => Array(|items|, Filled(MeaningAll(items)))
  }

  function MeaningAll(items: seq<Wire>): (rs: seq<Reply>)
    ensures |rs| == |items| && forall i :: 0 <= i < |items| ==> rs[i] == Meaning(items[i])
    decreases items
  {
    if items == [] then [] else [Meaning(items[0])] + MeaningAll(items[1..])
  }

  function EncodeReply(w: Wire): seq<byte>
    decreases w, 0
  {
    match w
    case SimpleString(s) => Line(PLUS, s)
    case SimpleError(s) => Line(MINUS, s)
    case Number(v) => Line(COLON, Signed(v))
    case BulkString(s) => Bulk(s)
    case NullBulk => Line(DOLLAR, Signed(-1))
    case NullArray => Line(STAR, Signed(-1))
    case Items(items) => Header(STAR, |items|) + EncodeElements(items)
  }

  function EncodeElements(items: seq<Wire>): seq<byte>
    decreases items
  {
    if items == [] then [] else EncodeReply(items[0]) + EncodeElements(items[1..])
  }

  // ---- Numbers ----

  lemma {:induction false} DigitsSnoc(s: seq<byte>, d: byte, acc: int)
    requires forall i :: 0 <= i < |s| ==> IsDigit(s[i])
    requires IsDigit(d)
    ensures Digits(s, acc).Some?
    ensures Digits(s + [d], acc) == Some(Wrap64(Digits(s, acc).value * 10 + DigitValue(d)))
  {
    if s == [] {
      assert (s + [d])[1..] == [];
    } else {
      assert (s + [d])[1..] == s[1..] + [d];
      DigitsSnoc(s[1..], d, Wrap64(acc * 10 + DigitValue(s[0])));
    }
  }

  lemma {:induction false} DigitsOfDecimal(n: nat)
    ensures Digits(Decimal(n), 0) == Some(Wrap64(n))
  {
    hide Decimal, Digits, Wrap64;
    var q, last := LastDigit(n);
    if n < 10 {
      assert [last] == [] + [last];
      DigitsSnoc([], last, 0);
      NoDigits();
    } else {
      DigitsOfDecimal(q);
      DigitsSnoc(Decimal(q), last, 0);
      WrapInside(q, 10, DigitValue(last));
    }
  }

  // Wrapping early changes nothing.
  lemma WrapInside(x: int, c: int, d: int)
    ensures Wrap64(Wrap64(x) * c + d) == Wrap64(x * c + d)
  {
    var k := (x + 0x8000_0000_0000_0000) / 0x1_0000_0000_0000_0000;
    var w := Wrap64(x);
    assert w == x - k * 0x1_0000_0000_0000_0000;
    hide Wrap64;
    assert w * c == x * c - (k * c) * 0x1_0000_0000_0000_0000;
    WrapShift(w * c + d, k * c);
  }

  lemma WrapShift(x: int, k: int)
    ensures Wrap64(x + k * 0x1_0000_0000_0000_0000) == Wrap64(x)
  {
  }

  lemma NoDigits()
    ensures Digits([], 0) == Some(0)
  {
  }

  lemma LastDigit(n: nat) returns (q: nat, d: byte)
    ensures IsDigit(d) && n == 10 * q + DigitValue(d)
    ensures Decimal(n) == if n < 10 then [d] else Decimal(q) + [d]
    ensures n < 10 || q < n
    ensures n < 10 ==> q == 0
  {
    q := n / 10;
    d := (n % 10 + 48) as byte;
  }

  lemma NoWrap(n: int)
    requires LONG_LONG_MIN <= n <= LONG_LONG_MAX
    ensures Wrap64(n) == n
    ensures -INT_MAX <= n <= INT_MAX ==> ToLong(n) == n
  {
  }

  // readLongLong wraps the value of every numeral into a long long, so it is exact on a numeral
  // if and only if a long long holds its value.
  lemma LongLongOfSigned(v: int)
    ensures LongLong(Signed(v)) == Wrap64(v)
    ensures LongLong(Signed(v)) == v <==> LONG_LONG_MIN <= v <= LONG_LONG_MAX
  {
    WrapExact(v);
    hide Decimal, Digits, Wrap64;
    var n := if v < 0 then -v else v;
    assert IsDigit(Decimal(n)[0]);
    DigitsOfDecimal(n);
    WrapInside(n, if v < 0 then -1 else 1, 0);
    assert ([MINUS] + Decimal(n))[1..] == Decimal(n);
  }

  lemma WrapExact(v: int)
    ensures Wrap64(v) == v <==> LONG_LONG_MIN <= v <= LONG_LONG_MAX
  {
  }

  // Both are what two's complement leaves of a number in 64 and in 32 bits: the one number in range
  // that differs from it by a multiple of 2^64 or 2^32.
  lemma WrapsAre(x: int) returns (k: int, l: int)
    ensures LONG_LONG_MIN <= Wrap64(x) <= LONG_LONG_MAX && Wrap64(x) == x - k * 0x1_0000_0000_0000_0000
    ensures -INT_MAX - 1 <= ToLong(x) <= INT_MAX && ToLong(x) == x - l * 0x1_0000_0000
  {
    k := (x + 0x8000_0000_0000_0000) / 0x1_0000_0000_0000_0000;
    l := (x + 0x8000_0000) / 0x1_0000_0000;
  }

  // A plus sign may stand in front.
  lemma LongLongOfPlus(n: nat)
    ensures LongLong([PLUS] + Decimal(n)) == Wrap64(n)
  {
    hide Decimal, Digits, Wrap64;
    DigitsOfDecimal(n);
    WrapInside(n, 1, 0);
    assert ([PLUS] + Decimal(n))[1..] == Decimal(n);
  }

  // Only what stands before the first CR counts.
  lemma LongLongUpToCr(line: seq<byte>, rest: seq<byte>)
    ensures LongLong(line + [CR] + rest) == LongLong(line)
  {
    hide Digits, Wrap64;
    var whole := line + [CR] + rest;
    assert whole == line + ([CR] + rest);
    if line == [] {
      assert whole[0] == CR;
      DigitsUpToCr([], rest, 0);
    } else {
      assert whole[0] == line[0] && whole[1..] == line[1..] + ([CR] + rest);
      DigitsUpToCr(line[1..], rest, 0);
      DigitsUpToCr(line, rest, 0);
    }
  }

  lemma {:induction false} DigitsUpToCr(s: seq<byte>, rest: seq<byte>, acc: int)
    ensures Digits(s + ([CR] + rest), acc) == Digits(s, acc)
  {
    hide Wrap64;
    var whole := s + ([CR] + rest);
    if s == [] {
      assert whole == [CR] + rest;
    } else {
      assert whole[0] == s[0] && whole[1..] == s[1..] + ([CR] + rest);
      if s[0] != CR && IsDigit(s[0]) {
        DigitsUpToCr(s[1..], rest, Wrap64(acc * 10 + DigitValue(s[0])));
      }
    }
  }

  // Any other byte makes the number -1.
  lemma LongLongOfOthers(sign: seq<byte>, d: seq<byte>, b: byte, rest: seq<byte>)
    requires (sign == [] || sign == [PLUS] || sign == [MINUS]) && forall i :: 0 <= i < |d| ==> IsDigit(d[i])
    requires !IsDigit(b) && b != CR && (sign == [] && d == [] ==> b != PLUS && b != MINUS)
    ensures LongLong(sign + (d + ([b] + rest))) == -1
  {
    hide Digits;
    var text := d + ([b] + rest);
    assert (sign + text)[|sign|..] == text && (sign == [] ==> sign + text == text);
    assert text[0] == if d == [] then b else d[0];
    DigitsFail(d, b, rest, 0);
  }

  lemma {:induction false} DigitsFail(d: seq<byte>, b: byte, rest: seq<byte>, acc: int)
    requires (forall i :: 0 <= i < |d| ==> IsDigit(d[i])) && !IsDigit(b) && b != CR
    ensures Digits(d + ([b] + rest), acc) == None
  {
    hide Wrap64;
    var text := d + ([b] + rest);
    if d == [] {
      assert text == [b] + rest;
    } else {
      assert text[0] == d[0] && text[1..] == d[1..] + ([b] + rest);
      DigitsFail(d[1..], b, rest, Wrap64(acc * 10 + DigitValue(d[0])));
    }
  }

  // ---- Lines ----

  lemma {:induction false} CrlfAfter(s: seq<byte>, rest: seq<byte>, from: nat)
    requires from <= |s|
    requires forall i :: 0 <= i < |s| ==> !IsCrlf(s, i)
    ensures Crlf(s + CRLF + rest, from) == Some(|s|)
    decreases |s| - from
  {
    var t := s + CRLF + rest;
    assert t[|s|] == CR && t[|s| + 1] == LF;
    if from < |s| {
      assert t[from] == s[from] && t[from + 1] == if from + 1 < |s| then s[from + 1] else CR;
      assert !IsCrlf(s, from);
      CrlfAfter(s, rest, from + 1);
    }
  }

  lemma LineReads(s: seq<byte>, rest: seq<byte>)
    requires forall i :: 0 <= i < |s| ==> !IsCrlf(s, i)
    ensures var u := s + CRLF + rest;
            Crlf(u, 0) == Some(|s|) && u[..|s|] == s && u[|s| + 2..] == rest
  {
    hide Crlf;
    CrlfAfter(s, rest, 0);
    assert (s + CRLF + rest)[|s| + 2..] == rest;
  }

  // The line after a type byte is read back as its number.
  lemma HeaderReads(v: int, rest: seq<byte>)
    requires LONG_LONG_MIN <= v <= LONG_LONG_MAX
    ensures var u := Signed(v) + CRLF + rest;
            var k := |Signed(v)|;
            && Crlf(u, 0) == Some(k)
            && LongLong(u[..k]) == v
            && u[k + 2..] == rest
  {
    hide Crlf, Digits, Decimal, LongLong;
    LongLongOfSigned(v);
    assert forall i :: 0 <= i < |Signed(v)| ==> Signed(v)[i] != CR;
    LineReads(Signed(v), rest);
  }

  // ---- Replies ----

  lemma LineRoundTrip(w: Wire, rest: seq<byte>, depth: nat)
    requires Sayable(w, depth)
    requires w.SimpleString? || w.SimpleError? || w.Number?
    ensures ParseReply(EncodeReply(w) + rest, depth) == Ok(Meaning(w), |EncodeReply(w)|)
  {
    hide Crlf, LongLong, Decimal;
    var whole := EncodeReply(w) + rest;
    var text := if w.Number? then Signed(w.v) else w.text;
    assert whole[1..] == text + CRLF + rest;
    if w.Number? {
      HeaderReads(w.v, rest);
    } else {
      LineReads(text, rest);
    }
  }

  // A bulk string is closed by any two bytes.
  lemma BulkReads(arg: seq<byte>, end: seq<byte>, rest: seq<byte>, depth: nat)
    requires |arg| <= INT_MAX && |end| == 2
    ensures ParseReply(Header(DOLLAR, |arg|) + arg + end + rest, depth)
         == Ok(Str(arg), |Header(DOLLAR, |arg|) + arg + end|)
  {
    hide Crlf, LongLong, ToLong, Decimal;
    var whole := Header(DOLLAR, |arg|) + arg + end + rest;
    var u := whole[1..];
    var k := |Decimal(|arg|)|;
    assert u == Signed(|arg|) + CRLF + (arg + end + rest);
    HeaderReads(|arg|, arg + end + rest);
    NoWrap(|arg|);
    assert u[k + 2..k + 2 + |arg|] == u[k + 2..][..|arg|] == arg;
  }

  // A negative length is nil, a negative count other than -1 an array of that many elements with
  // none in it. The number is cut to 32 bits first.
  lemma HeaderBelow(v: int, rest: seq<byte>, depth: nat)
    requires LONG_LONG_MIN <= v <= LONG_LONG_MAX
    ensures ToLong(v) < 0 ==>
              ParseReply(Line(DOLLAR, Signed(v)) + rest, depth) == Ok(Nil, |Line(DOLLAR, Signed(v))|)
    ensures ToLong(v) <= 0 && depth < MAX_DEPTH ==>
              ParseReply(Line(STAR, Signed(v)) + rest, depth)
                == Ok(if ToLong(v) == -1 then Nil else Array(ToLong(v), []), |Line(STAR, Signed(v))|)
  {
    hide Crlf, LongLong, ToLong, Decimal;
    HeaderReads(v, rest);
    var bulk, counted := Line(DOLLAR, Signed(v)) + rest, Line(STAR, Signed(v)) + rest;
    assert bulk[1..] == Signed(v) + CRLF + rest && counted[1..] == Signed(v) + CRLF + rest;
  }

  // A null array, as for a blocking pop that timed out, is nil.
  lemma NullArrayReads(rest: seq<byte>, depth: nat)
    requires depth < MAX_DEPTH
    ensures ParseReply([STAR] + Signed(-1) + CRLF + rest, depth) == Ok(Nil, 5)
  {
    hide ParseReply;
    HeaderBelow(-1, rest, depth);
    assert Line(STAR, Signed(-1)) + rest == [STAR] + Signed(-1) + CRLF + rest;
    assert Decimal(1) == [49];
  }

  // Reading an encoded reply gives it back and stops exactly at its end.
  lemma {:induction false} ReplyRoundTrip(w: Wire, rest: seq<byte>, depth: nat)
    requires Sayable(w, depth) && depth <= MAX_DEPTH
    ensures ParseReply(EncodeReply(w) + rest, depth) == Ok(Meaning(w), |EncodeReply(w)|)
    decreases w
  {
    hide ParseReply, ParseElements, Decimal;
    match w
    case BulkString(s) => BulkReads(s, CRLF, rest, depth);
    case NullBulk => HeaderBelow(-1, rest, depth);
    case NullArray => HeaderBelow(-1, rest, depth);
    case Items(items) =>
      ElementsRoundTrip(items, rest, depth + 1);
      ArrayRoundTrip(items, rest, depth);
    case _ => LineRoundTrip(w, rest, depth);
  }

  ghost predicate AllSayable(items: seq<Wire>, depth: nat) {
    forall i :: 0 <= i < |items| ==> Sayable(items[i], depth)
  }

  lemma ArrayRoundTrip(items: seq<Wire>, rest: seq<byte>, depth: nat)
    requires |items| <= INT_MAX && depth < MAX_DEPTH
    requires ParseElements(EncodeElements(items) + rest, |items|, depth + 1)
          == OkSeq(MeaningAll(items), |EncodeElements(items)|)
    ensures ParseReply(EncodeReply(Items(items)) + rest, depth)
         == Ok(Meaning(Items(items)), |EncodeReply(Items(items))|)
  {
    hide Crlf, LongLong, ToLong, Decimal, EncodeElements, ParseElements, MeaningAll;
    var n := |items|;
    var whole := EncodeReply(Items(items)) + rest;
    assert whole[0] == STAR;
    assert whole[1..] == Signed(n) + CRLF + (EncodeElements(items) + rest);
    HeaderReads(n, EncodeElements(items) + rest);
    NoWrap(n);
    if n == 0 {
      NoElements(items);
    }
  }

  lemma NoElements(items: seq<Wire>)
    requires items == []
    ensures EncodeElements(items) == [] && Filled(MeaningAll(items)) == []
  {
  }

  lemma {:induction false} ElementsRoundTrip(items: seq<Wire>, rest: seq<byte>, depth: nat)
    requires AllSayable(items, depth) && depth <= MAX_DEPTH
    ensures ParseElements(EncodeElements(items) + rest, |items|, depth)
         == OkSeq(MeaningAll(items), |EncodeElements(items)|)
    decreases items
  {
    hide ParseReply, ParseElements, EncodeReply, EncodeElements, Meaning, MeaningAll, Sayable;
    if items != [] {
      var tail := items[1..];
      ReplyRoundTrip(items[0], EncodeElements(tail) + rest, depth);
      assert forall i :: 0 <= i < |tail| ==> tail[i] == items[i + 1];
      ElementsRoundTrip(tail, rest, depth);
      PrependElement(items, rest, depth);
    } else {
      NoElementsRead(rest, depth);
    }
  }

  lemma NoElementsRead(rest: seq<byte>, depth: nat)
    ensures ParseElements(EncodeElements([]) + rest, 0, depth) == OkSeq(MeaningAll([]), |EncodeElements([])|)
  {
  }

  lemma PrependElement(items: seq<Wire>, rest: seq<byte>, depth: nat)
    requires items != []
    requires ParseReply(EncodeReply(items[0]) + (EncodeElements(items[1..]) + rest), depth)
          == Ok(Meaning(items[0]), |EncodeReply(items[0])|)
    requires ParseElements(EncodeElements(items[1..]) + rest, |items| - 1, depth)
          == OkSeq(MeaningAll(items[1..]), |EncodeElements(items[1..])|)
    ensures ParseElements(EncodeElements(items) + rest, |items|, depth)
         == OkSeq(MeaningAll(items), |EncodeElements(items)|)
  {
    EncodeFirst(items, rest);
    assert MeaningAll(items) == [Meaning(items[0])] + MeaningAll(items[1..]);
    hide ParseReply, EncodeReply, EncodeElements, Meaning, MeaningAll;
  }

  lemma EncodeFirst(items: seq<Wire>, rest: seq<byte>)
    requires items != []
    ensures var first, tail := EncodeReply(items[0]), EncodeElements(items[1..]);
            && EncodeElements(items) == first + tail
            && EncodeElements(items) + rest == first + (tail + rest)
            && (EncodeElements(items) + rest)[|first|..] == tail + rest
  {
    hide EncodeReply;
  }

  // ---- What is no reply ----

  predicate IsTypeByte(b: byte) {
    b in {PLUS, MINUS, COLON, DOLLAR, STAR}
  }

  // Every other byte where a reply should start is a protocol error.
  lemma UnknownType(b: byte, rest: seq<byte>, depth: nat)
    ensures !IsTypeByte(b) ==> ParseReply([b] + rest, depth) == Fail(ProtocolByte(b))
    ensures IsTypeByte(b) && !(b == STAR && depth == MAX_DEPTH) ==> ParseReply([b], depth) == Incomplete
  {
    assert ([b] + rest)[0] == b && [b][1..] == [];
  }

  // An array inside two others is too deep for the reader.
  lemma ThirdArray(a: nat, b: nat, rest: seq<byte>)
    requires 0 < a <= INT_MAX && 0 < b <= INT_MAX
    ensures ParseReply(Header(STAR, a) + (Header(STAR, b) + ([STAR] + rest)), 0) == Fail(NestingTooDeep)
  {
    var innermost := [STAR] + rest;
    assert ParseReply(innermost, 2) == Fail(NestingTooDeep);
    ElementFails(b, innermost, 1, NestingTooDeep);
    ElementFails(a, Header(STAR, b) + innermost, 0, NestingTooDeep);
  }

  // An array fails as its first element does.
  lemma ElementFails(n: nat, u: seq<byte>, depth: nat, e: ReaderError)
    requires 0 < n <= INT_MAX && depth < MAX_DEPTH && ParseReply(u, depth + 1) == Fail(e)
    ensures ParseReply(Header(STAR, n) + u, depth) == Fail(e)
  {
    hide Crlf, LongLong, ToLong, Decimal;
    var whole := Header(STAR, n) + u;
    assert whole[0] == STAR && whole[1..] == Signed(n) + CRLF + u;
    HeaderReads(n, u);
    NoWrap(n);
    assert ParseElements(u, n, depth + 1) == FailSeq(e);
  }

  // A whole conversation: the replies of a stream of encoded replies are those replies.
  function EncodeAll(ws: seq<Wire>): seq<byte> {
    if ws == [] then [] else EncodeReply(ws[0]) + EncodeAll(ws[1..])
  }

  lemma {:induction false} StreamRoundTrip(ws: seq<Wire>)
    requires forall i :: 0 <= i < |ws| ==> Sayable(ws[i], 0)
    ensures ParseStream(EncodeAll(ws)) == Stream(MeaningAll(ws), None)
  {
    hide ParseReply, EncodeReply, Meaning;
    if ws == [] {
      NothingToRead();
    } else {
      ReplyRoundTrip(ws[0], EncodeAll(ws[1..]), 0);
      StreamRoundTrip(ws[1..]);
      assert EncodeAll(ws)[|EncodeReply(ws[0])|..] == EncodeAll(ws[1..]);
    }
  }

  lemma NothingToRead()
    ensures ParseReply([], 0) == Incomplete
  {
  }
}
