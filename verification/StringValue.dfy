/** StringValue::Split, and the numbers std::stoi and std::stoull read. */
module StringValue {
  import opened Wrappers
  import opened Bits
  import opened Bytes

  // The pieces between separators; nothing behind the last one is no piece.
  function Split(s: seq<byte>, sep: byte): seq<seq<byte>>
    decreases |s|
  {
    var i := Index(s, sep);
    if i == |s| then (if s == [] then [] else [s]) else [s[..i]] + Split(s[i + 1..], sep)
  }

  method SplitOut(str: seq<byte>, sep: byte) returns (vOut: seq<seq<byte>>)
    ensures vOut == Split(str, sep)
  {
    hide Split, Index;
    vOut := [];
    var iLast := 0;
    var iIndex := FindFirstOf(str, sep, iLast);
    assert str[0..] == str && [] + Split(str, sep) == Split(str, sep);
    while iIndex < |str|
      invariant iLast <= iIndex <= |str| && iIndex == iLast + Index(str[iLast..], sep)
      invariant vOut + Split(str[iLast..], sep) == Split(str, sep)
      decreases |str| - iLast
    {
      SplitStep(str, iLast, sep);
      ghost var before, rest := vOut, Split(str[iIndex + 1..], sep);
      vOut := vOut + [str[iLast..iIndex]];
      assert before + ([str[iLast..iIndex]] + rest) == vOut + rest;
      iLast := iIndex + 1;
      iIndex := FindFirstOf(str, sep, iLast);
    }
    SplitStep(str, iLast, sep);
    if |str| - iLast > 0 {
      vOut := vOut + [str[iLast..]];
    }
  }

  lemma SplitStep(str: seq<byte>, from: nat, sep: byte)
    requires from <= |str|
    ensures var i := from + Index(str[from..], sep);
            Split(str[from..], sep) ==
              if i < |str| then [str[from..i]] + Split(str[i + 1..], sep)
              else if from == |str| then [] else [str[from..]]
  {
    hide Index;
    var rest := str[from..];
    var k := Index(rest, sep);
    assert rest[..k] == str[from..from + k];
    if k < |rest| {
      assert rest[k + 1..] == str[from + k + 1..];
      SplitUnfold(rest, sep);
    }
  }

  lemma SplitUnfold(s: seq<byte>, sep: byte)
    ensures var i := Index(s, sep); i < |s| ==> Split(s, sep) == [s[..i]] + Split(s[i + 1..], sep)
  {
    hide Index;
  }

  // std::string::find_first_of; |str| stands for npos.
  method FindFirstOf(str: seq<byte>, sep: byte, from: nat) returns (i: nat)
    requires from <= |str|
    ensures i == from + Index(str[from..], sep)
  {
    i := from;
    while i < |str| && str[i] != sep
      invariant from <= i <= |str|
      invariant from + Index(str[from..], sep) == i + Index(str[i..], sep)
    {
      assert str[i..][1..] == str[i + 1..];
      i := i + 1;
    }
  }

  lemma SplitWord(w: seq<byte>, rest: seq<byte>, sep: byte)
    requires sep !in w
    ensures Split(w + [sep] + rest, sep) == [w] + Split(rest, sep)
    ensures Split(w, sep) == if w == [] then [] else [w]
  {
    var s := w + [sep] + rest;
    IndexOfWord(w, [sep] + rest, sep);
    IndexOfWord(w, [], sep);
    assert w + ([sep] + rest) == s && w + [] == w;
    assert s[..|w|] == w && s[|w| + 1..] == rest;
  }

  lemma {:induction false} IndexOfWord(w: seq<byte>, rest: seq<byte>, sep: byte)
    requires sep !in w && (rest != [] ==> rest[0] == sep)
    ensures Index(w + rest, sep) == |w|
  {
    if w == [] {
      assert w + rest == rest;
    } else {
      IndexOfWord(w[1..], rest, sep);
      assert (w + rest)[1..] == w[1..] + rest;
    }
  }

  // A piece has no separator in it, and only bytes of the whole.
  lemma {:induction false} PieceClean(s: seq<byte>, sep: byte, k: nat)
    requires k < |Split(s, sep)|
    ensures sep !in Split(s, sep)[k]
    ensures forall b :: b in Split(s, sep)[k] ==> b in s
    decreases |s|
  {
    var i := Index(s, sep);
    if i < |s| && k > 0 {
      PieceClean(s[i + 1..], sep, k - 1);
    } else {
      assert i == |s| ==> s[..i] == s;
    }
  }

  // ---- Numbers ----

  function SkipBlanks(s: seq<byte>): seq<byte> {
    if s != [] && IsBlank(s[0]) then SkipBlanks(s[1..]) else s
  }

  // The digits a numeral starts with.
  function Digits(s: seq<byte>): (d: seq<byte>)
    ensures forall i :: 0 <= i < |d| ==> IsDigit(d[i])
  {
    if s != [] && IsDigit(s[0]) then [s[0]] + Digits(s[1..]) else []
  }

  // Sign and magnitude of the numeral at the front, if there is one.
  function Numeral(s: seq<byte>): Option<(bool, nat)> {
    var t := SkipBlanks(s);
    var negative := t != [] && t[0] == MINUS;
    var d := Digits(if negative || (t != [] && t[0] == PLUS) then t[1..] else t);
    if d == [] then None else Some((negative, Value(d)))
  }

  // None is an exception.
  function Stoi(s: seq<byte>): Option<int> {
    var n := Numeral(s);
    if n.None? then None
    else if n.value.0 then (if n.value.1 <= 0x8000_0000 then Some(-(n.value.1 as int)) else None)
    else if n.value.1 < 0x8000_0000 then Some(n.value.1)
    else None
  }

  // A minus sign is taken modulo 2^64.
  function Stoull(s: seq<byte>): Option<nat> {
    var n := Numeral(s);
    if n.None? || n.value.1 >= UINT64 then None
    else if n.value.0 then Some((UINT64 - n.value.1) % UINT64)
    else Some(n.value.1)
  }

  lemma {:induction false} AllDigits(s: seq<byte>)
    requires forall i :: 0 <= i < |s| ==> IsDigit(s[i])
    ensures Digits(s) == s
  {
    if s != [] {
      AllDigits(s[1..]);
      assert [s[0]] + s[1..] == s;
    }
  }

  lemma {:induction false} BlanksSkipped(blanks: seq<byte>, rest: seq<byte>)
    requires (forall i :: 0 <= i < |blanks| ==> IsBlank(blanks[i])) && (rest != [] ==> !IsBlank(rest[0]))
    ensures SkipBlanks(blanks + rest) == rest
  {
    if blanks == [] {
      assert blanks + rest == rest;
    } else {
      BlanksSkipped(blanks[1..], rest);
      assert (blanks + rest)[1..] == blanks[1..] + rest;
    }
  }

  lemma {:induction false} DigitsStop(d: seq<byte>, rest: seq<byte>)
    requires (forall i :: 0 <= i < |d| ==> IsDigit(d[i])) && (rest != [] ==> !IsDigit(rest[0]))
    ensures Digits(d + rest) == d
  {
    if d == [] {
      assert d + rest == rest;
    } else {
      DigitsStop(d[1..], rest);
      assert (d + rest)[1..] == d[1..] + rest;
    }
  }

  // A number as it is written, with a minus sign, a plus sign or none.
  predicate IsSign(sign: seq<byte>) {
    sign == [] || sign == [PLUS] || sign == [MINUS]
  }

  function Number(sign: seq<byte>, n: nat): int {
    if sign == [MINUS] then -(n as int) else n
  }

  // White space, a sign, digits and then anything else: the digits are read, with their sign.
  lemma NumeralReads(blanks: seq<byte>, sign: seq<byte>, d: seq<byte>, rest: seq<byte>)
    requires forall i :: 0 <= i < |blanks| ==> IsBlank(blanks[i])
    requires IsSign(sign) && d != [] && forall i :: 0 <= i < |d| ==> IsDigit(d[i])
    requires rest != [] ==> !IsDigit(rest[0])
    ensures Numeral(blanks + (sign + (d + rest))) == Some((sign == [MINUS], Value(d)))
  {
    hide SkipBlanks, Digits, Value;
    var t := sign + (d + rest);
    assert t[0] == if sign == [] then d[0] else sign[0];
    BlanksSkipped(blanks, t);
    DigitsStop(d, rest);
    BehindSign(sign, d + rest);
  }

  lemma BehindSign(sign: seq<byte>, rest: seq<byte>)
    ensures (sign + rest)[|sign|..] == rest
    ensures sign == [] ==> sign + rest == rest
  {
  }

  // stoi gives the number if and only if an int holds it.
  lemma StoiReads(blanks: seq<byte>, sign: seq<byte>, n: nat, rest: seq<byte>)
    requires forall i :: 0 <= i < |blanks| ==> IsBlank(blanks[i])
    requires IsSign(sign) && (rest != [] ==> !IsDigit(rest[0]))
    ensures var v := Number(sign, n);
            Stoi(blanks + (sign + (Decimal(n) + rest))) == if -0x8000_0000 <= v <= 0x7FFF_FFFF then Some(v) else None
  {
    hide Numeral, Decimal;
    NumeralReads(blanks, sign, Decimal(n), rest);
    ValueOfDecimal(n);
  }

  // stoull gives the number modulo 2^64 if and only if its magnitude is below 2^64.
  lemma StoullReads(blanks: seq<byte>, sign: seq<byte>, n: nat, rest: seq<byte>)
    requires forall i :: 0 <= i < |blanks| ==> IsBlank(blanks[i])
    requires IsSign(sign) && (rest != [] ==> !IsDigit(rest[0]))
    ensures var v := Number(sign, n);
            Stoull(blanks + (sign + (Decimal(n) + rest))) == if n < UINT64 then Some(v % UINT64) else None
  {
    hide Numeral, Decimal;
    NumeralReads(blanks, sign, Decimal(n), rest);
    ValueOfDecimal(n);
  }

  // Without a digit behind the sign both throw.
  lemma NothingRead(blanks: seq<byte>, sign: seq<byte>, rest: seq<byte>)
    requires forall i :: 0 <= i < |blanks| ==> IsBlank(blanks[i])
    requires IsSign(sign)
    requires rest != [] ==> !IsDigit(rest[0]) && (sign == [] ==> !IsBlank(rest[0]) && !IsSign([rest[0]]))
    ensures Stoi(blanks + (sign + rest)) == None && Stoull(blanks + (sign + rest)) == None
  {
    var t := sign + rest;
    assert sign != [] ==> t[0] == sign[0];
    assert sign == [] ==> t == rest;
    BlanksSkipped(blanks, t);
    assert t[|sign|..] == rest && t[0..] == t;
    hide SkipBlanks;
  }

  lemma NumeralOfDecimal(n: nat)
    ensures Numeral(Decimal(n)) == Some((false, n))
  {
    AllDigits(Decimal(n));
    ValueOfDecimal(n);
  }
}
