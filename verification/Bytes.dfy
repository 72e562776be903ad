/** Bytes, and decimal numerals as the C library prints them (`%d`, `%lu`, `<<`). */
module Bytes {
  newtype byte = x: int | 0 <= x < 256

  const NUL: byte := 0
  const TAB: byte := 9
  const LF: byte := 10
  const CR: byte := 13
  const SPACE: byte := 32
  const QUOT: byte := 34      // "
  const PERCENT: byte := 37
  const PLUS: byte := 43
  const MINUS: byte := 45
  const ZERO: byte := 48
  const NINE: byte := 57
  const COLON: byte := 58
  const UPPER_A: byte := 65
  const UPPER_D: byte := 68
  const UPPER_S: byte := 83
  const LOWER_A: byte := 97
  const LOWER_B: byte := 98
  const LOWER_X: byte := 120
  const BAR: byte := 124

  // isspace of the C locale
  predicate IsBlank(b: byte) {
    b == SPACE || TAB <= b <= CR
  }

  predicate IsDigit(b: byte) {
    ZERO <= b <= NINE
  }

  function DigitValue(b: byte): (d: nat)
    requires IsDigit(b)
    ensures d < 10
  {
    (b - ZERO) as int
  }

  // The decimal numeral of n, most significant digit first, no leading zeros.
  function Decimal(n: nat): (s: seq<byte>)
    ensures |s| >= 1
    ensures forall i :: 0 <= i < |s| ==> IsDigit(s[i])
  {
    var last := (n % 10 + 48) as byte;
    if n < 10 then [last] else Decimal(n / 10) + [last]
  }

  // The number a string of digits denotes, read from left to right.
  function Value(s: seq<byte>): nat
    requires forall i :: 0 <= i < |s| ==> IsDigit(s[i])
  {
    if s == [] then 0 else 10 * Value(s[..|s| - 1]) + DigitValue(s[|s| - 1])
  }

  lemma {:induction false} ValueOfDecimal(n: nat)
    ensures Value(Decimal(n)) == n
  {
    var s := Decimal(n);
    if n >= 10 {
      ValueOfDecimal(n / 10);
      assert s[..|s| - 1] == Decimal(n / 10);
    } else {
      assert s[..0] == [];
    }
  }

  // Where the byte first stands; the length when it does not.
  function Index(s: seq<byte>, sep: byte): (i: nat)
    ensures i <= |s| && sep !in s[..i] && (i < |s| ==> s[i] == sep)
  {
    if s == [] || s[0] == sep then 0
    else
      var i := 1 + Index(s[1..], sep);
      assert s[..i] == [s[0]] + s[1..][..i - 1];
      i
  }

  // The text that a pointer to these bytes stands for in C.
  function CText(s: seq<byte>): seq<byte> {
    s[..Index(s, NUL)]
  }

  lemma WholeText(s: seq<byte>)
    requires NUL !in s
    ensures CText(s) == s
  {
    var i := Index(s, NUL);
    assert i == |s|;
  }
}
