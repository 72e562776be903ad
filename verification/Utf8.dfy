/** insert_coded_character: the UTF-8 form of a character code (RFC 3629, section 3). */
module Utf8 {
  import opened Wrappers
  import opened Bytes
  import opened Bits

  const CODE_LIMIT: nat := 0x110000

  // static_cast<unsigned char>
  function Uchar(x: nat): byte {
    (x % 256) as byte
  }

  function Tail(code: nat): byte {
    Uchar(And(Or(code, 0x80), 0xBF))
  }

  function Encode(code: nat): (s: seq<byte>)
    requires code < CODE_LIMIT
    ensures 1 <= |s| <= 4
  {
    if code < 0x80 then [Uchar(code)]
    else if code < 0x800 then [Uchar(Or(code / 64, 0xC0)), Tail(code)]
    else if code < 0x10000 then [Uchar(Or(code / 64 / 64, 0xE0)), Tail(code / 64), Tail(code)]
    else [Uchar(Or(code / 64 / 64 / 64, 0xF0)), Tail(code / 64 / 64), Tail(code / 64), Tail(code)]
  }

  predicate InRange(b: byte, low: byte, high: byte) {
    low <= b <= high
  }

  predicate IsTail(b: byte) {
    InRange(b, 0x80, 0xBF)
  }

  // The number a UTF-8 sequence stands for, by its lead byte.
  function Decode(s: seq<byte>): Option<nat> {
    if |s| == 1 && s[0] < 0x80 then Some(s[0] as nat)
    else if |s| == 2 && InRange(s[0], 0xC0, 0xDF) && IsTail(s[1]) then
      Some((s[0] as nat - 0xC0) * 64 + (s[1] as nat - 0x80))
    else if |s| == 3 && InRange(s[0], 0xE0, 0xEF) && IsTail(s[1]) && IsTail(s[2]) then
      Some((s[0] as nat - 0xE0) * 4096 + (s[1] as nat - 0x80) * 64 + (s[2] as nat - 0x80))
    else if |s| == 4 && InRange(s[0], 0xF0, 0xF7) && IsTail(s[1]) && IsTail(s[2]) && IsTail(s[3]) then
      Some((s[0] as nat - 0xF0) * 262144 + (s[1] as nat - 0x80) * 4096
           + (s[2] as nat - 0x80) * 64 + (s[3] as nat - 0x80))
    else None
  }

  // UTF8-char of the grammar in RFC 3629, section 4.
  predicate WellFormed(s: seq<byte>) {
    match |s|
    case 1 => s[0] < 0x80
    case 2 => InRange(s[0], 0xC2, 0xDF) && IsTail(s[1])
    case 3 =>
      && IsTail(s[2])
      && (|| (s[0] == 0xE0 && InRange(s[1], 0xA0, 0xBF))
          || (InRange(s[0], 0xE1, 0xEC) && IsTail(s[1]))
          || (s[0] == 0xED && InRange(s[1], 0x80, 0x9F))
          || (InRange(s[0], 0xEE, 0xEF) && IsTail(s[1])))
    case 4 =>
      && IsTail(s[2]) && IsTail(s[3])
      && (|| (s[0] == 0xF0 && InRange(s[1], 0x90, 0xBF))
          || (InRange(s[0], 0xF1, 0xF3) && IsTail(s[1]))
          || (s[0] == 0xF4 && InRange(s[1], 0x80, 0x8F)))
    case _ => false
  }

  lemma TailValue(code: nat)
    ensures Tail(code) as int == 0x80 + code % 64
  {
    hide And, Or;
    Continuation(code);
  }

  lemma LeadValue(code: nat)
    ensures code < 32 ==> Uchar(Or(code, 0xC0)) as int == 0xC0 + code
    ensures code < 16 ==> Uchar(Or(code, 0xE0)) as int == 0xE0 + code
    ensures code < 8 ==> Uchar(Or(code, 0xF0)) as int == 0xF0 + code
  {
    hide Or;
    assert Pow2(5) == 32 && Pow2(4) == 16 && Pow2(3) == 8;
    assert Shl(6, 5) == 0xC0 && Shl(14, 4) == 0xE0 && Shl(30, 3) == 0xF0;
    if code < 32 {
      LeadBits(code, 5, 6);
    }
    if code < 16 {
      LeadBits(code, 4, 14);
    }
    if code < 8 {
      LeadBits(code, 3, 30);
    }
  }

  // The bytes as sums, without `&`, `|` and `>>`.
  lemma EncodeValues(code: nat)
    requires code < CODE_LIMIT
    ensures var s := Encode(code);
            && (code < 0x80 ==> |s| == 1 && s[0] as int == code)
            && (0x80 <= code < 0x800 ==>
                  |s| == 2 && s[0] as int == 0xC0 + code / 64 && s[1] as int == 0x80 + code % 64)
            && (0x800 <= code < 0x10000 ==>
                  |s| == 3 && s[0] as int == 0xE0 + code / 4096 && s[1] as int == 0x80 + code / 64 % 64
                  && s[2] as int == 0x80 + code % 64)
            && (0x10000 <= code ==>
                  |s| == 4 && s[0] as int == 0xF0 + code / 262144 && s[1] as int == 0x80 + code / 4096 % 64
                  && s[2] as int == 0x80 + code / 64 % 64 && s[3] as int == 0x80 + code % 64)
  {
    hide Or, Tail;
    TailValue(code);
    TailValue(code / 64);
    TailValue(code / 64 / 64);
    LeadValue(code / 64);
    LeadValue(code / 64 / 64);
    LeadValue(code / 64 / 64 / 64);
    Nested(code);
  }

  // Every code below the limit is written as a sequence that decodes to it.
  lemma DecodeEncode(code: nat)
    requires code < CODE_LIMIT
    ensures Decode(Encode(code)) == Some(code)
  {
    hide Encode;
    EncodeValues(code);
    var c1, c2, c3 := code / 64, code / 4096, code / 262144;
    Base64Digits(code);
    var s := Encode(code);
    if code >= 0x10000 {
      assert Decode(s) == Some(c3 * 262144 + c2 % 64 * 4096 + c1 % 64 * 64 + code % 64);
    } else if code >= 0x800 {
      assert Decode(s) == Some(c2 * 4096 + c1 % 64 * 64 + code % 64);
    }
  }

  lemma Base64Digits(code: nat)
    ensures code == code / 64 * 64 + code % 64
    ensures code == code / 4096 * 4096 + code / 64 % 64 * 64 + code % 64
    ensures code == code / 262144 * 262144 + code / 4096 % 64 * 4096 + code / 64 % 64 * 64 + code % 64
  {
    var c1 := code / 64;
    var c2 := c1 / 64;
    Nested(code);
    assert code == c1 * 64 + code % 64;
    assert c1 == c2 * 64 + c1 % 64;
    assert c2 == c2 / 64 * 64 + c2 % 64;
  }

  lemma Nested(code: nat)
    ensures code / 64 / 64 == code / 4096
    ensures code / 64 / 64 / 64 == code / 262144
  {
  }

  // The sequence is one the RFC allows exactly when the code is no surrogate.
  lemma WellFormedIffNoSurrogate(code: nat)
    requires code < CODE_LIMIT
    ensures WellFormed(Encode(code)) <==> !(0xD800 <= code <= 0xDFFF)
  {
    hide Encode, WellFormed;
    EncodeValues(code);
    if code < 0x800 {
      ShortWellFormed(code, Encode(code));
    } else if code < 0x10000 {
      ThreeWellFormed(code, Encode(code));
    } else {
      FourWellFormed(code, Encode(code));
    }
  }

  lemma ShortWellFormed(code: nat, s: seq<byte>)
    requires code < 0x800
    requires if code < 0x80 then |s| == 1 && s[0] as int == code
             else |s| == 2 && s[0] as int == 0xC0 + code / 64 && s[1] as int == 0x80 + code % 64
    ensures WellFormed(s)
  {
  }

  lemma ThreeWellFormed(code: nat, s: seq<byte>)
    requires 0x800 <= code < 0x10000 && |s| == 3
    requires s[0] as int == 0xE0 + code / 4096 && s[1] as int == 0x80 + code / 64 % 64
    requires s[2] as int == 0x80 + code % 64
    ensures WellFormed(s) <==> !(0xD800 <= code <= 0xDFFF)
  {
  }

  lemma FourWellFormed(code: nat, s: seq<byte>)
    requires 0x10000 <= code < CODE_LIMIT && |s| == 4
    requires s[0] as int == 0xF0 + code / 262144 && s[1] as int == 0x80 + code / 4096 % 64
    requires s[2] as int == 0x80 + code / 64 % 64 && s[3] as int == 0x80 + code % 64
    ensures WellFormed(s)
  {
  }
}
