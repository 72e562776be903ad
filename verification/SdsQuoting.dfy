/** Quoting a string so that a line of quoted strings can be split into them again. */
module SdsQuoting {
  import opened Wrappers
  import opened Bytes

  const BACKSLASH: byte := 92
  const BELL: byte := 7
  const BACKSPACE: byte := 8
  const LOWER_N: byte := 110
  const LOWER_R: byte := 114
  const LOWER_T: byte := 116

  // isprint of the C locale
  predicate IsPrint(b: byte) {
    32 <= b <= 126
  }

  // ---- sdscatrepr ----

  // One digit of %02x
  function HexDigit(d: nat): (b: byte)
    requires d < 16
  {
    if d < 10 then ZERO + d as byte else LOWER_A + (d - 10) as byte
  }

  function Letter(b: byte): Option<byte> {
    if b == LF then Some(LOWER_N)
    else if b == CR then Some(LOWER_R)
    else if b == TAB then Some(LOWER_T)
    else if b == BELL then Some(LOWER_A)
    else if b == BACKSPACE then Some(LOWER_B)
    else None
  }

  function Hex(b: byte): seq<byte> {
    [LOWER_X, HexDigit(b as nat / 16), HexDigit(b as nat % 16)]
  }

  function ReprByte(b: byte): (r: seq<byte>) {
    if b == BACKSLASH || b == QUOT then [BACKSLASH, b]
    else if Letter(b).Some? then [BACKSLASH, Letter(b).value]
    else if IsPrint(b) then [b]
    else [BACKSLASH] + Hex(b)
  }

  // \\ \" \n \r \t \a \b, the printable bytes as they are, and two hexadecimal digits for the others.
  lemma ReprsAre(b: byte)
    ensures b == 92 ==> ReprByte(b) == [92, 92]
    ensures b == 34 ==> ReprByte(b) == [92, 34]
    ensures b == 10 ==> ReprByte(b) == [92, 110]
    ensures b == 13 ==> ReprByte(b) == [92, 114]
    ensures b == 9 ==> ReprByte(b) == [92, 116]
    ensures b == 7 ==> ReprByte(b) == [92, 97]
    ensures b == 8 ==> ReprByte(b) == [92, 98]
    ensures 32 <= b <= 126 && b != 92 && b != 34 ==> ReprByte(b) == [b]
    ensures b !in {7, 8, 9, 10, 13} && !(32 <= b <= 126) ==>
              exists high: nat, low: nat :: high < 16 && low < 16 && high * 16 + low == b as nat
                && ReprByte(b) == [92, 120, HexDigit(high), HexDigit(low)]
  {
    var high, low := b as nat / 16, b as nat % 16;
    assert high < 16 && low < 16 && high * 16 + low == b as nat;
  }

  function ReprBytes(p: seq<byte>): seq<byte> {
    if p == [] then [] else ReprByte(p[0]) + ReprBytes(p[1..])
  }

  function Repr(p: seq<byte>): seq<byte> {
    [QUOT] + ReprBytes(p) + [QUOT]
  }

  // Quoted arguments with a space between.
  function Join(args: seq<seq<byte>>): seq<byte> {
    if args == [] then []
    else if |args| == 1 then Repr(args[0])
    else Repr(args[0]) + [SPACE] + Join(args[1..])
  }

  lemma {:induction false} ReprSnoc(p: seq<byte>, b: byte)
    ensures ReprBytes(p + [b]) == ReprBytes(p) + ReprByte(b)
  {
    hide ReprByte;
    if p == [] {
      assert [b][1..] == [];
    } else {
      ReprSnoc(p[1..], b);
      assert (p + [b])[1..] == p[1..] + [b];
    }
  }

  // ---- sdssplitargs ----

  // *p of a C string
  function At(line: seq<byte>, i: nat): byte {
    if i < |line| then line[i] else NUL
  }

  function Unescape(b: byte): byte {
    if b == LOWER_N then LF
    else if b == LOWER_R then CR
    else if b == LOWER_T then TAB
    else if b == LOWER_B then BACKSPACE
    else if b == LOWER_A then BELL
    else b
  }

  datatype Token = Token(text: seq<byte>, next: nat) | BadQuotes

  function Prepend(b: byte, t: Token): Token {
    if t.Token? then Token([b] + t.text, t.next) else t
  }

  // Inside quotes, from the byte at i on.
  function Quoted(line: seq<byte>, i: nat): (t: Token)
    requires i <= |line|
    ensures t.Token? ==> i < t.next <= |line|
    decreases |line| - i
  {
    if i == |line| then BadQuotes
    else if line[i] == BACKSLASH && i + 1 < |line| then Prepend(Unescape(line[i + 1]), Quoted(line, i + 2))
    else if line[i] == QUOT then
      if i + 1 < |line| && !IsBlank(line[i + 1]) then BadQuotes else Token([], i + 1)
    else Prepend(line[i], Quoted(line, i + 1))
  }

  predicate EndsToken(b: byte) {
    b == SPACE || b == LF || b == CR || b == TAB
  }

  // Outside of quotes; a quote opens them until the end of the token.
  function Bare(line: seq<byte>, i: nat): (t: Token)
    requires i <= |line|
    ensures t.Token? ==> i <= t.next <= |line| && (i < |line| ==> i < t.next)
    decreases |line| - i
  {
    if i == |line| then Token([], i)
    else if EndsToken(line[i]) then Token([], i + 1)
    else if line[i] == QUOT then Quoted(line, i + 1)
    else Prepend(line[i], Bare(line, i + 1))
  }

  function SkipSpace(line: seq<byte>, i: nat): (j: nat)
    requires i <= |line|
    ensures i <= j <= |line| && (j < |line| ==> !IsBlank(line[j]))
    decreases |line| - i
  {
    if i < |line| && IsBlank(line[i]) then SkipSpace(line, i + 1) else i
  }

  // The arguments of the line from i on; None is the error.
  function Split(line: seq<byte>, i: nat): Option<seq<seq<byte>>>
    requires i <= |line|
    decreases |line| - i
  {
    var start := SkipSpace(line, i);
    if start == |line| then Some([])
    else
      var t := Bare(line, start);
      if t.BadQuotes? then None
      else
        var rest := Split(line, t.next);
        if rest.None? then None else Some([t.text] + rest.value)
  }

  // sdssplitargs: the vector is NULL when it is empty, and so it is after an error, which leaves
  // *argc at -1.
  method SplitArgs(line: seq<byte>) returns (vector: Option<seq<seq<byte>>>, argc: int)
    requires NUL !in line
    ensures var args := Split(line, 0);
            if args.None? then vector == None && argc == -1
            else argc == |args.value| && vector == if argc == 0 then None else args
  {
    var p: nat := 0;
    var list: seq<seq<byte>> := [];
    OntoNothing(Split(line, 0));
    while true
      invariant p <= |line| && Split(line, 0) == Onto(list, Split(line, p))
      decreases |line| - p
    {
      ghost var from := p;
      while At(line, p) != NUL && IsBlank(At(line, p))
        invariant from <= p <= |line| && SkipSpace(line, from) == SkipSpace(line, p)
        decreases |line| - p
      {
        p := p + 1;
      }
      if At(line, p) == NUL {
        break;
      }
      var current, ok;
      current, p, ok := ReadToken(line, p);
      if !ok {
        return None, -1;
      }
      OntoMore(list, current, Split(line, p));
      list := list + [current];
    }
    assert list + [] == list;
    argc := |list|;
    vector := if list == [] then None else Some(list);
  }

  ghost function Onto(list: seq<seq<byte>>, rest: Option<seq<seq<byte>>>): Option<seq<seq<byte>>> {
    if rest.None? then None else Some(list + rest.value)
  }

  lemma OntoNothing(rest: Option<seq<seq<byte>>>)
    ensures Onto([], rest) == rest
  {
    if rest.Some? {
      assert [] + rest.value == rest.value;
    }
  }

  lemma OntoMore(list: seq<seq<byte>>, x: seq<byte>, rest: Option<seq<seq<byte>>>)
    ensures rest.Some? ==> Onto(list, Some([x] + rest.value)) == Onto(list + [x], rest)
  {
    if rest.Some? {
      assert list + ([x] + rest.value) == list + [x] + rest.value;
    }
  }

  // The inner loop: one token, from its first byte.
  method ReadToken(line: seq<byte>, start: nat) returns (current: seq<byte>, p: nat, ok: bool)
    requires NUL !in line && start < |line|
    ensures var t := Bare(line, start);
            if t.Token? then ok && current == t.text && p == t.next else !ok
  {
    p := start;
    current := [];
    var inq, done := false, false;
    while !done
      invariant p <= |line|
      invariant Bare(line, start) ==
                if done then Token(current, p)
                else PrependAll(current, if inq then Quoted(line, p) else Bare(line, p))
      decreases !done, |line| - p
    {
      var c := At(line, p);
      PrependMore(current, c,
                  if p < |line| then (if inq then Quoted(line, p + 1) else Bare(line, p + 1)) else BadQuotes);
      if inq {
        if c == BACKSLASH && At(line, p + 1) != NUL {
          p := p + 1;
          var e := Unescape(At(line, p));
          PrependMore(current, e, Quoted(line, p + 1));
          current := current + [e];
        } else if c == QUOT {
          if At(line, p + 1) != NUL && !IsBlank(At(line, p + 1)) {
            return current, p, false;
          }
          done := true;
        } else if c == NUL {
          return current, p, false;
        } else {
          current := current + [c];
        }
      } else if EndsToken(c) || c == NUL {
        done := true;
      } else if c == QUOT {
        inq := true;
      } else {
        current := current + [c];
      }
      if At(line, p) != NUL {
        p := p + 1;
      }
    }
    ok := true;
  }

  ghost function PrependAll(bytes: seq<byte>, t: Token): Token {
    if t.Token? then Token(bytes + t.text, t.next) else t
  }

  lemma PrependMore(bytes: seq<byte>, b: byte, t: Token)
    ensures PrependAll(bytes, Prepend(b, t)) == PrependAll(bytes + [b], t)
    ensures PrependAll(bytes, Token([], 0)) == Token(bytes, 0)
  {
    if t.Token? {
      assert bytes + ([b] + t.text) == bytes + [b] + t.text;
    }
  }

  // ---- Splitting what was quoted ----

  // What splitting makes of a quoted byte: \xHH is not decoded, whatever sdssplitargs' comment says.
  function Survivor(b: byte): seq<byte> {
    if Quotable(b) then [b] else Hex(b)
  }

  predicate Quotable(b: byte) {
    IsPrint(b) || Letter(b).Some?
  }

  function Survivors(p: seq<byte>): seq<byte> {
    if p == [] then [] else Survivor(p[0]) + Survivors(p[1..])
  }

  function AllSurvivors(args: seq<seq<byte>>): (r: seq<seq<byte>>)
    ensures |r| == |args|
    ensures forall i :: 0 <= i < |args| ==> r[i] == Survivors(args[i])
  {
    if args == [] then [] else [Survivors(args[0])] + AllSurvivors(args[1..])
  }

  lemma QuotedByte(line: seq<byte>, i: nat, b: byte)
    requires i + |ReprByte(b)| <= |line| && line[i..i + |ReprByte(b)|] == ReprByte(b)
    ensures Quoted(line, i) == PrependAll(Survivor(b), Quoted(line, i + |ReprByte(b)|))
  {
    var r, t := ReprByte(b), Quoted(line, i + |ReprByte(b)|);
    assert forall k :: 0 <= k < |r| ==> line[i + k] == line[i..i + |r|][k] == r[k];
    hide ReprByte;
    ReprByteIs(b);
    if |r| == 1 {
      assert Quoted(line, i) == Prepend(b, t);
    } else if |r| == 2 {
      assert Quoted(line, i) == Prepend(Unescape(r[1]), t);
    } else {
      assert Quoted(line, i) == Prepend(r[1], Quoted(line, i + 2));
      assert Quoted(line, i + 2) == Prepend(r[2], Quoted(line, i + 3));
      assert Quoted(line, i + 3) == Prepend(r[3], t);
      if t.Token? {
        assert [r[1]] + ([r[2]] + ([r[3]] + t.text)) == Hex(b) + t.text;
      }
    }
  }

  lemma ReprByteIs(b: byte)
    ensures var r := ReprByte(b);
            && (Quotable(b) ==>
                  || (r == [b] && b != BACKSLASH && b != QUOT)
                  || (|r| == 2 && r[0] == BACKSLASH && Unescape(r[1]) == b))
            && (!Quotable(b) ==> r == [BACKSLASH] + Hex(b) && Unescape(r[1]) == r[1])
            && (!Quotable(b) ==> forall k :: 1 <= k < 4 ==> r[k] != BACKSLASH && r[k] != QUOT)
  {
  }

  lemma QuotedEnds(line: seq<byte>, i: nat, rest: seq<byte>)
    requires i <= |line| && line[i..] == [] + [QUOT] + rest && (rest != [] ==> IsBlank(rest[0]))
    ensures Quoted(line, i) == Token([], i + 1)
  {
    assert line[i] == line[i..][0] == QUOT;
    assert rest != [] ==> line[i + 1] == line[i..][1] == rest[0];
  }

  lemma SplitSuffix(line: seq<byte>, i: nat, r: seq<byte>, rest: seq<byte>)
    requires i <= |line| && line[i..] == r + rest
    ensures i + |r| <= |line| && line[i..i + |r|] == r && line[i + |r|..] == rest
  {
    assert line[i..i + |r|] == line[i..][..|r|];
    assert line[i + |r|..] == line[i..][|r|..];
  }

  lemma NoReprBytes()
    ensures ReprBytes([]) == []
  {
  }

  lemma {:induction false} QuotedBytes(line: seq<byte>, i: nat, p: seq<byte>, rest: seq<byte>)
    requires i <= |line| && line[i..] == ReprBytes(p) + [QUOT] + rest
    requires rest != [] ==> IsBlank(rest[0])
    ensures Quoted(line, i) == Token(Survivors(p), i + |ReprBytes(p)| + 1)
    decreases |p|
  {
    hide ReprByte, Survivor;
    if p == [] {
      QuotedEnds(line, i, rest);
    } else {
      var r := ReprByte(p[0]);
      hide Quoted;
      SplitSuffix(line, i, r, ReprBytes(p[1..]) + [QUOT] + rest);
      QuotedByte(line, i, p[0]);
      QuotedBytes(line, i + |r|, p[1..], rest);
    }
  }

  lemma SplitFirst(line: seq<byte>, i: nat, p: seq<byte>, rest: seq<byte>)
    requires i <= |line| && line[i..] == Repr(p) + rest && (rest != [] ==> IsBlank(rest[0]))
    ensures Split(line, i) == Onto([Survivors(p)], Split(line, i + |Repr(p)|))
  {
    hide ReprBytes, Survivors, Quoted;
    assert line[i] == line[i..][0] == QUOT;
    assert line[i + 1..] == line[i..][1..] == ReprBytes(p) + [QUOT] + rest;
    QuotedBytes(line, i + 1, p, rest);
  }

  lemma {:induction false} SplitJoinFrom(line: seq<byte>, i: nat, args: seq<seq<byte>>)
    requires i <= |line| && line[i..] == Join(args)
    ensures Split(line, i) == Some(AllSurvivors(args))
    decreases |args|
  {
    hide Repr, Survivors, Split;
    SplitBlank(line, i);
    if args != [] {
      var rest := if |args| == 1 then [] else [SPACE] + Join(args[1..]);
      var next := i + |Repr(args[0])|;
      assert line[i..] == Repr(args[0]) + rest;
      assert line[next..] == line[i..][next - i..] == rest;
      SplitFirst(line, i, args[0], rest);
      SplitBlank(line, next);
      if |args| > 1 {
        assert line[next] == line[next..][0] == SPACE;
        assert line[next + 1..] == line[next..][1..] == Join(args[1..]);
        SplitJoinFrom(line, next + 1, args[1..]);
      }
    }
  }

  lemma SplitBlank(line: seq<byte>, i: nat)
    requires i <= |line|
    ensures i == |line| ==> Split(line, i) == Some([])
    ensures i < |line| && IsBlank(line[i]) ==> Split(line, i) == Split(line, i + 1)
  {
  }

  // Splitting a line of quoted strings gives them back, but for the bytes quoted as \xHH.
  lemma SplitJoin(args: seq<seq<byte>>)
    ensures Split(Join(args), 0) == Some(AllSurvivors(args))
  {
    assert Join(args)[0..] == Join(args);
    SplitJoinFrom(Join(args), 0, args);
  }

  lemma {:induction false} SurvivorsLength(p: seq<byte>)
    ensures |Survivors(p)| >= |p|
    ensures |Survivors(p)| == |p| <==> forall k :: 0 <= k < |p| ==> Quotable(p[k])
    ensures |Survivors(p)| == |p| ==> Survivors(p) == p
  {
    if p != [] {
      SurvivorsLength(p[1..]);
      assert forall k :: 1 <= k < |p| ==> p[k] == p[1..][k - 1];
      assert forall k :: 0 <= k < |p[1..]| ==> p[1..][k] == p[k + 1];
    }
  }

  // The round trip holds just for arguments without bytes that are quoted in hexadecimal.
  lemma RoundTripIff(args: seq<seq<byte>>)
    ensures Split(Join(args), 0) == Some(args)
       <==> forall i, k :: 0 <= i < |args| && 0 <= k < |args[i]| ==> Quotable(args[i][k])
  {
    SplitJoin(args);
    var r := AllSurvivors(args);
    forall i | 0 <= i < |args|
      ensures r[i] == args[i] <==> forall k :: 0 <= k < |args[i]| ==> Quotable(args[i][k])
    {
      SurvivorsLength(args[i]);
    }
    if forall i :: 0 <= i < |args| ==> r[i] == args[i] {
      assert r == args;
    }
  }

  // ---- Lines as they may be written ----

  // A word, which may go on in quotes, and the white space behind it.
  datatype Item = Item(word: seq<byte>, quoted: Option<seq<byte>>, gap: seq<byte>)

  function ItemText(a: Item): seq<byte> {
    a.word + (if a.quoted.Some? then Repr(a.quoted.value) else []) + a.gap
  }

  function ItemValue(a: Item): seq<byte> {
    a.word + if a.quoted.Some? then Survivors(a.quoted.value) else []
  }

  predicate IsWordByte(b: byte) {
    !EndsToken(b) && b != QUOT && b != NUL
  }

  ghost predicate ItemOk(a: Item) {
    && (forall k :: 0 <= k < |a.word| ==> IsWordByte(a.word[k]))
    && (a.word != [] ==> !IsBlank(a.word[0])) && (a.word == [] ==> a.quoted.Some?)
    && (forall k :: 0 <= k < |a.gap| ==> IsBlank(a.gap[k]))
    && (a.gap != [] && a.quoted.None? ==> EndsToken(a.gap[0]))
  }

  function ItemsText(items: seq<Item>): seq<byte> {
    if items == [] then [] else ItemText(items[0]) + ItemsText(items[1..])
  }

  function ItemsValues(items: seq<Item>): (r: seq<seq<byte>>)
    ensures |r| == |items| && forall i :: 0 <= i < |items| ==> r[i] == ItemValue(items[i])
  {
    if items == [] then [] else [ItemValue(items[0])] + ItemsValues(items[1..])
  }

  // All items are legal, and only the last one may have no white space behind it.
  ghost predicate ItemsOk(items: seq<Item>) {
    forall i :: 0 <= i < |items| ==> ItemOk(items[i]) && (i < |items| - 1 ==> items[i].gap != [])
  }

  lemma {:induction false} BareWord(line: seq<byte>, i: nat, word: seq<byte>, rest: seq<byte>)
    requires i <= |line| && line[i..] == word + rest && forall k :: 0 <= k < |word| ==> IsWordByte(word[k])
    ensures i + |word| <= |line| && Bare(line, i) == PrependAll(word, Bare(line, i + |word|))
    decreases |word|
  {
    if word == [] {
      PrependNothing(Bare(line, i));
    } else {
      SplitSuffix(line, i, [word[0]], word[1..] + rest) by {
        assert [word[0]] + (word[1..] + rest) == word + rest;
      }
      BareWord(line, i + 1, word[1..], rest);
      assert line[i] == line[i..i + 1][0] == word[0];
      PrependTwice(word[0], word[1..], Bare(line, i + |word|));
    }
  }

  lemma PrependNothing(t: Token)
    ensures PrependAll([], t) == t
  {
    if t.Token? {
      assert [] + t.text == t.text;
    }
  }

  lemma PrependTwice(b: byte, bytes: seq<byte>, t: Token)
    ensures Prepend(b, PrependAll(bytes, t)) == PrependAll([b] + bytes, t)
  {
    if t.Token? {
      assert [b] + (bytes + t.text) == [b] + bytes + t.text;
    }
  }

  lemma {:induction false} SplitGap(line: seq<byte>, i: nat, gap: seq<byte>, rest: seq<byte>)
    requires i <= |line| && line[i..] == gap + rest && forall k :: 0 <= k < |gap| ==> IsBlank(gap[k])
    ensures i + |gap| <= |line| && Split(line, i) == Split(line, i + |gap|)
    decreases |gap|
  {
    hide Split;
    if gap != [] {
      assert [gap[0]] + (gap[1..] + rest) == gap + rest;
      SplitSuffix(line, i, [gap[0]], gap[1..] + rest);
      assert line[i] == line[i..i + 1][0] == gap[0];
      SplitBlank(line, i);
      SplitGap(line, i + 1, gap[1..], rest);
    }
  }

  // Where a token of an item ends: behind its quotes, or with the white space that ends it.
  function TokenEnd(a: Item): nat {
    |a.word| + if a.quoted.Some? then |Repr(a.quoted.value)| else if a.gap == [] then 0 else 1
  }

  lemma ItemToken(line: seq<byte>, i: nat, a: Item, rest: seq<byte>)
    requires i <= |line| && ItemOk(a) && line[i..] == ItemText(a) + rest && (a.gap == [] ==> rest == [])
    ensures i + TokenEnd(a) <= |line| && Bare(line, i) == Token(ItemValue(a), i + TokenEnd(a))
  {
    hide Bare, Quoted, Repr, Survivors, ItemText, PrependAll, IsWordByte, IsBlank, EndsToken;
    var j, q := i + |a.word|, if a.quoted.Some? then Repr(a.quoted.value) else [];
    ItemParts(a, q, rest);
    BareWord(line, i, a.word, q + (a.gap + rest));
    SplitSuffix(line, i, a.word, q + (a.gap + rest));
    if a.quoted.Some? {
      QuotesOpen(line, j, a.quoted.value, a.gap + rest);
      PrependToken(a.word, Survivors(a.quoted.value), j + |q|);
    } else {
      WordEnds(line, j, a.gap, rest);
      PrependToken(a.word, [], j + if a.gap == [] then 0 else 1);
    }
  }

  lemma ItemParts(a: Item, q: seq<byte>, rest: seq<byte>)
    requires q == if a.quoted.Some? then Repr(a.quoted.value) else []
    ensures ItemText(a) + rest == a.word + (q + (a.gap + rest))
    ensures q == [] ==> q + (a.gap + rest) == a.gap + rest
  {
    hide Repr;
  }

  lemma PrependToken(bytes: seq<byte>, text: seq<byte>, next: nat)
    ensures PrependAll(bytes, Token(text, next)) == Token(bytes + text, next)
  {
  }

  lemma QuotesOpen(line: seq<byte>, j: nat, p: seq<byte>, rest: seq<byte>)
    requires j <= |line| && line[j..] == Repr(p) + rest && (rest != [] ==> IsBlank(rest[0]))
    ensures j + |Repr(p)| <= |line| && Bare(line, j) == Token(Survivors(p), j + |Repr(p)|)
  {
    hide ReprBytes, Survivors, Quoted;
    assert line[j] == line[j..][0] == QUOT;
    assert line[j + 1..] == line[j..][1..] == ReprBytes(p) + [QUOT] + rest;
    QuotedBytes(line, j + 1, p, rest);
  }

  lemma WordEnds(line: seq<byte>, j: nat, gap: seq<byte>, rest: seq<byte>)
    requires j <= |line| && line[j..] == gap + rest && (gap == [] ==> rest == []) && (gap != [] ==> EndsToken(gap[0]))
    ensures gap == [] ==> Bare(line, j) == Token([], j)
    ensures gap != [] ==> j < |line| && Bare(line, j) == Token([], j + 1)
  {
    if gap != [] {
      assert line[j] == line[j..][0] == gap[0];
    }
  }

  lemma ItemSplits(line: seq<byte>, i: nat, a: Item, rest: seq<byte>)
    requires i <= |line| && ItemOk(a) && line[i..] == ItemText(a) + rest && (a.gap == [] ==> rest == [])
    ensures i + |ItemText(a)| <= |line| && line[i + |ItemText(a)|..] == rest
    ensures Split(line, i) == Onto([ItemValue(a)], Split(line, i + |ItemText(a)|))
  {
    hide Bare, Split, ItemText, ItemValue, ItemOk, TokenEnd;
    ItemToken(line, i, a, rest);
    ItemStarts(line, i, a, rest);
    GapBehind(a);
    var text, n := ItemText(a), TokenEnd(a);
    SplitSuffix(line, i, text, rest);
    assert text + rest == text[..n] + (text[n..] + rest);
    SplitSuffix(line, i, text[..n], text[n..] + rest);
    SplitGap(line, i + n, text[n..], rest);
    SplitUnfold(line, i);
  }

  lemma GapBehind(a: Item)
    requires ItemOk(a)
    ensures TokenEnd(a) <= |ItemText(a)|
    ensures forall k :: 0 <= k < |ItemText(a)[TokenEnd(a)..]| ==> IsBlank(ItemText(a)[TokenEnd(a)..][k])
  {
    hide Repr;
    var more := ItemText(a)[TokenEnd(a)..];
    assert more == if a.quoted.None? && a.gap != [] then a.gap[1..] else a.gap;
  }

  lemma SplitUnfold(line: seq<byte>, i: nat)
    requires i < |line| && !IsBlank(line[i])
    ensures var t := Bare(line, i);
            Split(line, i) == if t.BadQuotes? then None else Onto([t.text], Split(line, t.next))
  {
    hide Bare;
  }

  // An item starts with no blank.
  lemma ItemStarts(line: seq<byte>, i: nat, a: Item, rest: seq<byte>)
    requires i <= |line| && ItemOk(a) && line[i..] == ItemText(a) + rest
    ensures i < |line| && !IsBlank(line[i])
  {
    assert line[i] == line[i..][0] == ItemText(a)[0];
  }

  lemma {:induction false} ItemsSplit(line: seq<byte>, i: nat, items: seq<Item>)
    requires i <= |line| && ItemsOk(items) && line[i..] == ItemsText(items)
    ensures Split(line, i) == Some(ItemsValues(items))
    decreases |items|
  {
    hide Split, ItemText, ItemValue, ItemOk;
    if items == [] {
      SplitBlank(line, i);
    } else {
      var tail := items[1..];
      assert forall k :: 0 <= k < |tail| ==> tail[k] == items[k + 1];
      if |items| == 1 {
        assert tail == [] && ItemsText(tail) == [];
      }
      ItemSplits(line, i, items[0], ItemsText(tail));
      ItemsSplit(line, i + |ItemText(items[0])|, tail);
    }
  }

  // Splitting any such line, with white space in front, gives its words.
  lemma LineSplits(lead: seq<byte>, items: seq<Item>)
    requires ItemsOk(items) && forall k :: 0 <= k < |lead| ==> IsBlank(lead[k])
    ensures Split(lead + ItemsText(items), 0) == Some(ItemsValues(items))
  {
    hide Split, ItemsText, ItemsValues;
    var line := lead + ItemsText(items);
    assert line[0..] == line && line[|lead|..] == ItemsText(items);
    SplitGap(line, 0, lead, ItemsText(items));
    ItemsSplit(line, |lead|, items);
  }

  // Quotes that are never closed, or closed in front of something else, make the whole line an
  // error.
  lemma BadLine(lead: seq<byte>, items: seq<Item>, word: seq<byte>, p: seq<byte>, behind: seq<byte>)
    requires ItemsOk(items) && (items != [] ==> items[|items| - 1].gap != [])
    requires forall k :: 0 <= k < |lead| ==> IsBlank(lead[k])
    requires (forall k :: 0 <= k < |word| ==> IsWordByte(word[k])) && (word != [] ==> !IsBlank(word[0]))
    requires behind != [] ==> behind[0] == QUOT && |behind| > 1 && !IsBlank(behind[1])
    ensures Split(lead + (ItemsText(items) + (word + ([QUOT] + (ReprBytes(p) + behind)))), 0) == None
  {
    hide Split, ItemsText, ItemsOk, ReprBytes;
    var bad := word + ([QUOT] + (ReprBytes(p) + behind));
    var line := lead + (ItemsText(items) + bad);
    assert line[0..] == line && line[|lead|..] == ItemsText(items) + bad;
    SplitGap(line, 0, lead, ItemsText(items) + bad);
    BadBehind(line, |lead|, items, bad, word, p, behind);
  }

  lemma {:induction false} BadBehind(line: seq<byte>, i: nat, items: seq<Item>, bad: seq<byte>, word: seq<byte>,
                                     p: seq<byte>, behind: seq<byte>)
    requires i <= |line| && ItemsOk(items) && (items != [] ==> items[|items| - 1].gap != [])
    requires bad == word + ([QUOT] + (ReprBytes(p) + behind)) && line[i..] == ItemsText(items) + bad
    requires (forall k :: 0 <= k < |word| ==> IsWordByte(word[k])) && (word != [] ==> !IsBlank(word[0]))
    requires behind != [] ==> behind[0] == QUOT && |behind| > 1 && !IsBlank(behind[1])
    ensures Split(line, i) == None
    decreases |items|
  {
    hide Split, ItemText, ItemValue, ItemOk, ReprBytes;
    if items == [] {
      assert ItemsText(items) + bad == bad;
      BadToken(line, i, word, p, behind);
    } else {
      var tail := items[1..];
      assert forall k :: 0 <= k < |tail| ==> tail[k] == items[k + 1];
      assert ItemsText(items) + bad == ItemText(items[0]) + (ItemsText(tail) + bad);
      ItemSplits(line, i, items[0], ItemsText(tail) + bad);
      BadBehind(line, i + |ItemText(items[0])|, tail, bad, word, p, behind);
    }
  }

  lemma BadToken(line: seq<byte>, i: nat, word: seq<byte>, p: seq<byte>, behind: seq<byte>)
    requires i <= |line| && line[i..] == word + ([QUOT] + (ReprBytes(p) + behind))
    requires (forall k :: 0 <= k < |word| ==> IsWordByte(word[k])) && (word != [] ==> !IsBlank(word[0]))
    requires behind != [] ==> behind[0] == QUOT && |behind| > 1 && !IsBlank(behind[1])
    ensures Split(line, i) == None
  {
    hide Bare, Quoted, Split, ReprBytes;
    var rest := [QUOT] + (ReprBytes(p) + behind);
    BareWord(line, i, word, rest);
    SplitSuffix(line, i, word, rest);
    BadQuotesOpen(line, i + |word|, p, behind);
    assert line[i] == line[i..][0] == (word + rest)[0] == if word == [] then QUOT else word[0];
    SplitUnfold(line, i);
  }

  lemma BadQuotesOpen(line: seq<byte>, j: nat, p: seq<byte>, behind: seq<byte>)
    requires j <= |line| && line[j..] == [QUOT] + (ReprBytes(p) + behind)
    requires behind != [] ==> behind[0] == QUOT && |behind| > 1 && !IsBlank(behind[1])
    ensures Bare(line, j) == BadQuotes
  {
    hide Quoted, ReprBytes;
    assert line[j] == line[j..][0] == QUOT;
    assert line[j + 1..] == line[j..][1..] == ReprBytes(p) + behind;
    QuotedFails(line, j + 1, p, behind);
  }

  lemma {:induction false} QuotedFails(line: seq<byte>, i: nat, p: seq<byte>, behind: seq<byte>)
    requires i <= |line| && line[i..] == ReprBytes(p) + behind
    requires behind != [] ==> behind[0] == QUOT && |behind| > 1 && !IsBlank(behind[1])
    ensures Quoted(line, i) == BadQuotes
    decreases |p|
  {
    hide ReprByte, Survivor;
    if p == [] {
      assert line[i..] == behind;
      if behind != [] {
        assert line[i] == line[i..][0] && line[i + 1] == line[i..][1];
      }
    } else {
      var r := ReprByte(p[0]);
      hide Quoted;
      assert ReprBytes(p) + behind == r + (ReprBytes(p[1..]) + behind);
      SplitSuffix(line, i, r, ReprBytes(p[1..]) + behind);
      QuotedByte(line, i, p[0]);
      QuotedFails(line, i + |r|, p[1..], behind);
    }
  }

  // A backslash inside quotes and one of the five letters make the byte that is quoted so; with
  // any other byte they make that byte.
  lemma EscapeReads(line: seq<byte>, i: nat)
    requires i + 1 < |line| && line[i] == BACKSLASH && Quoted(line, i).Token?
    ensures Quoted(line, i + 2).Token? && Quoted(line, i).next == Quoted(line, i + 2).next
    ensures Quoted(line, i).text == [Quoted(line, i).text[0]] + Quoted(line, i + 2).text
    ensures forall b :: Letter(b) == Some(line[i + 1]) ==> Quoted(line, i).text[0] == b
    ensures (forall b :: Letter(b) != Some(line[i + 1])) ==> Quoted(line, i).text[0] == line[i + 1]
  {
    assert Letter(LF) == Some(LOWER_N) && Letter(CR) == Some(LOWER_R) && Letter(TAB) == Some(LOWER_T);
    assert Letter(BELL) == Some(LOWER_A) && Letter(BACKSPACE) == Some(LOWER_B);
  }

  // Quoting never puts a NUL into the line, so it is a C string.
  lemma {:induction false} JoinIsLine(args: seq<seq<byte>>)
    ensures NUL !in Join(args)
  {
    if args != [] {
      ReprNoNul(args[0]);
      JoinIsLine(args[1..]);
    }
  }

  lemma {:induction false} ReprNoNul(p: seq<byte>)
    ensures NUL !in ReprBytes(p)
  {
    if p != [] {
      ReprNoNul(p[1..]);
    }
  }
}
