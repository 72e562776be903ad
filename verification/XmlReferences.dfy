/** What numeric references mean: the number that their digits write down, in base 10 or 16 and
    modulo 2^32, as UTF-8. */
module XmlReferences {
  import opened Wrappers
  import opened Bytes
  import opened XmlGrammar
  import opened XmlRoundTrip
  import Utf8

  // A digit as it is written; letters have two cases.
  function Glyph(d: nat, upper: bool): byte
    requires d < 16
  {
    if d < 10 then ZERO + d as byte else if upper then UPPER_A + (d - 10) as byte else LOWER_A + (d - 10) as byte
  }

  ghost predicate AreDigits(ds: seq<nat>) {
    forall i :: 0 <= i < |ds| ==> ds[i] < 16
  }

  function Glyphs(ds: seq<nat>, upper: nat -> bool): (s: seq<byte>)
    requires AreDigits(ds)
    ensures |s| == |ds|
  {
    seq(|ds|, i requires 0 <= i < |ds| => Glyph(ds[i], upper(i)))
  }

  // The number that digits write down in base 16 or 10, the last one counting least.
  function Number(ds: seq<nat>, hex: bool): nat {
    if ds == [] then 0
    else
      var high := Number(ds[..|ds| - 1], hex);
      (if hex then high * 16 else high * 10) + ds[|ds| - 1]
  }

  // The digits of a number, without leading zeros.
  function DigitsOf(n: nat, hex: bool): (ds: seq<nat>)
    ensures ds != [] && forall i :: 0 <= i < |ds| ==> ds[i] < if hex then 16 else 10
  {
    if hex then (if n < 16 then [n] else DigitsOf(n / 16, hex) + [n % 16])
    else if n < 10 then [n]
    else DigitsOf(n / 10, hex) + [n % 10]
  }

  lemma {:induction false} NumberOfDigits(n: nat, hex: bool)
    ensures Number(DigitsOf(n, hex), hex) == n
  {
    var ds, high := DigitsOf(n, hex), if hex then n / 16 else n / 10;
    if high > 0 {
      NumberOfDigits(high, hex);
      assert ds[..|ds| - 1] == DigitsOf(high, hex);
    } else {
      assert ds[..0] == [];
    }
  }

  lemma {:induction false} GlyphsOfDecimal(n: nat, upper: nat -> bool)
    ensures AreDigits(DigitsOf(n, false)) && Glyphs(DigitsOf(n, false), upper) == Decimal(n)
  {
    var ds := DigitsOf(n, false);
    if n >= 10 {
      GlyphsOfDecimal(n / 10, upper);
      GlyphsSnoc(DigitsOf(n / 10, false), n % 10, upper);
    } else {
      assert Glyphs(ds, upper) == [Glyph(n, upper(0))];
    }
  }

  lemma GlyphsSnoc(ds: seq<nat>, d: nat, upper: nat -> bool)
    requires AreDigits(ds) && d < 16
    ensures AreDigits(ds + [d]) && Glyphs(ds + [d], upper) == Glyphs(ds, upper) + [Glyph(d, upper(|ds|))]
  {
    hide Glyph;
  }

  // &# or &#x, digits, and a semicolon
  function Mark(hex: bool): seq<byte> {
    [AMP, HASH] + if hex then [LOWER_X] else []
  }

  function Base(hex: bool): nat {
    if hex then 16 else 10
  }

  lemma GlyphIsDigit(d: nat, upper: bool)
    requires d < 16
    ensures DigitOf(Glyph(d, upper)) == Some(d) && Glyph(d, upper) != LOWER_X
  {
  }

  lemma WrapInside(x: nat, hex: bool, d: nat)
    ensures ((x % ULONG) * Base(hex) + d) % ULONG == ((if hex then x * 16 else x * 10) + d) % ULONG
  {
    var k := x / ULONG;
    assert x % ULONG == x - k * ULONG;
    Multiple((x % ULONG) * Base(hex) + d, k * Base(hex));
  }

  lemma Multiple(a: nat, k: nat)
    ensures (a + k * ULONG) % ULONG == a % ULONG
  {
  }

  // From the k-th digit on.
  lemma {:induction false} CodeReads(s: seq<byte>, p: nat, ds: seq<nat>, upper: nat -> bool, hex: bool, k: nat)
    requires CString(s) && AreDigits(ds) && k <= |ds|
    requires p + |ds| < |s| && DigitOf(s[p + |ds|]) == None
    requires forall i :: 0 <= i < |ds| ==> s[p + i] == Glyph(ds[i], upper(i))
    ensures Code(s, p + k, Base(hex), Number(ds[..k], hex) % ULONG) == (Number(ds, hex) % ULONG, p + |ds|)
    decreases |ds| - k
  {
    hide CString, Glyph, DigitOf, Number;
    if k == |ds| {
      assert ds[..k] == ds;
    } else {
      GlyphIsDigit(ds[k], upper(k));
      NumberSnoc(ds, hex, k);
      WrapInside(Number(ds[..k], hex), hex, ds[k]);
      hide Base;
      CodeReads(s, p, ds, upper, hex, k + 1);
    }
  }

  lemma NumberSnoc(ds: seq<nat>, hex: bool, k: nat)
    requires k < |ds|
    ensures Number(ds[..k + 1], hex)
         == (if hex then Number(ds[..k], hex) * 16 else Number(ds[..k], hex) * 10) + ds[k]
  {
    assert ds[..k + 1][..k] == ds[..k];
  }

  // Any digits between the mark and the semicolon, also none, make the bytes of their number
  // modulo 2^32, or an error if it is no code. Letters count in base 10 as well, as 10 to 15.
  lemma ReferenceExpands(s: seq<byte>, i: nat, hex: bool, ds: seq<nat>, upper: nat -> bool, c: Class, dest: nat)
    requires CString(s) && IsValueClass(c) && AreDigits(ds)
    requires At(s, i, Mark(hex) + Glyphs(ds, upper) + [SEMI])
    ensures var end := i + |Mark(hex)| + |ds| + 1;
            var code := Number(ds, hex) % 0x1_0000_0000;
            && end < |s|
            && Expand(s, i, c, dest)
                 == if code >= 0x11_0000 then Bad(ParseError(InvalidNumericEntity, dest))
                    else Prepend(Utf8.Encode(code), Expand(s, end, c, dest + |Utf8.Encode(code)|))
  {
    hide CString, At, Expand, Numeric, Glyphs, Number, Test, Utf8.Encode;
    NumericReads(s, i, hex, ds, upper);
    AmpTested(c);
    NumericStep(s, i, c, dest);
  }

  lemma AmpTested(c: Class)
    requires IsValueClass(c)
    ensures Test(c, AMP)
  {
  }

  lemma NumericReads(s: seq<byte>, i: nat, hex: bool, ds: seq<nat>, upper: nat -> bool)
    requires CString(s) && AreDigits(ds) && At(s, i, Mark(hex) + Glyphs(ds, upper) + [SEMI])
    ensures var p := i + |Mark(hex)| + |ds|;
            && p + 1 < |s| && s[p] == SEMI && s[i] == AMP && s[i + 1] == HASH
            && Numeric(s, i) == (Number(ds, hex) % ULONG, p)
  {
    hide CString, At, Numeric, Glyphs, DigitOf;
    AtConcat(s, i, Mark(hex) + Glyphs(ds, upper), [SEMI]);
    AtByte(s, i + |Mark(hex)| + |ds|, SEMI);
    EndsBefore(s, i + |Mark(hex)| + |ds|);
    SemicolonEnds();
    NumericStops(s, i, hex, ds, upper);
  }

  // Up to the byte behind the digits, whatever it is.
  lemma NumericStops(s: seq<byte>, i: nat, hex: bool, ds: seq<nat>, upper: nat -> bool)
    requires CString(s) && AreDigits(ds) && At(s, i, Mark(hex) + Glyphs(ds, upper))
    requires var p := i + |Mark(hex)| + |ds|;
             p < |s| && DigitOf(s[p]) == None && (!hex && ds == [] ==> s[p] != LOWER_X)
    ensures s[i] == AMP && s[i + 1] == HASH
    ensures Numeric(s, i) == (Number(ds, hex) % ULONG, i + |Mark(hex)| + |ds|)
  {
    hide CString, At, Code, Glyphs, Glyph, DigitOf;
    ReferenceParts(s, i, hex, ds, upper);
    CodeReads(s, i + |Mark(hex)|, ds, upper, hex, 0);
    NoNumber(ds, hex);
  }

  lemma NoNumber(ds: seq<nat>, hex: bool)
    ensures Number(ds[..0], hex) == 0
  {
  }

  // Where the parts of a reference stand.
  lemma ReferenceParts(s: seq<byte>, i: nat, hex: bool, ds: seq<nat>, upper: nat -> bool)
    requires CString(s) && AreDigits(ds) && At(s, i, Mark(hex) + Glyphs(ds, upper))
    requires var p := i + |Mark(hex)| + |ds|; p < |s| && (!hex && ds == [] ==> s[p] != LOWER_X)
    ensures var p := i + |Mark(hex)|;
            && s[i] == AMP && s[i + 1] == HASH && (hex <==> s[i + 2] == LOWER_X)
            && forall k :: 0 <= k < |ds| ==> s[p + k] == Glyph(ds[k], upper(k))
  {
    hide CString, Glyph, DigitOf;
    var text := Mark(hex) + Glyphs(ds, upper);
    AtBytes(s, i, text);
    var m := |Mark(hex)|;
    forall k | 0 <= k < |ds|
      ensures s[i + m + k] == Glyph(ds[k], upper(k))
    {
      assert s[i + m + k] == text[m + k] == Glyphs(ds, upper)[k];
    }
    if ds != [] {
      GlyphIsDigit(ds[0], upper(0));
      assert s[i + m] == text[m] == Glyph(ds[0], upper(0));
    }
  }

  lemma SemicolonEnds()
    ensures DigitOf(SEMI) == None
  {
  }

  // Every code can be written in base 16, in letters of either case, and in base 10.
  lemma HexadecimalExpands(s: seq<byte>, i: nat, code: nat, upper: nat -> bool, c: Class, dest: nat)
    requires CString(s) && IsValueClass(c) && code < Utf8.CODE_LIMIT
    requires At(s, i, [AMP, HASH, LOWER_X] + Glyphs(DigitsOf(code, true), upper) + [SEMI])
    ensures var end := i + 4 + |DigitsOf(code, true)|;
            && end < |s|
            && Expand(s, i, c, dest) == Prepend(Utf8.Encode(code), Expand(s, end, c, dest + |Utf8.Encode(code)|))
  {
    hide CString, At, Expand, Glyphs, DigitsOf, Number, Utf8.Encode;
    NumberOfDigits(code, true);
    assert Mark(true) == [AMP, HASH, LOWER_X];
    ReferenceExpands(s, i, true, DigitsOf(code, true), upper, c, dest);
  }

  lemma DecimalExpands(s: seq<byte>, i: nat, code: nat, c: Class, dest: nat)
    requires CString(s) && IsValueClass(c) && code < Utf8.CODE_LIMIT
    requires At(s, i, [AMP, HASH] + Decimal(code) + [SEMI])
    ensures var end := i + 3 + |Decimal(code)|;
            && end < |s|
            && Expand(s, i, c, dest) == Prepend(Utf8.Encode(code), Expand(s, end, c, dest + |Utf8.Encode(code)|))
  {
    hide CString, At, Expand, Glyphs, DigitsOf, Number, Utf8.Encode, Decimal;
    NumberOfDigits(code, false);
    GlyphsOfDecimal(code, _ => false);
    assert Mark(false) == [AMP, HASH];
    ReferenceExpands(s, i, false, DigitsOf(code, false), _ => false, c, dest);
  }
}
