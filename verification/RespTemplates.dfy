/** What formats mean: a format spelled from words, spaces, interpolations and conversions gives the
    command of those words. */
module RespTemplates {
  import opened Wrappers
  import opened Bytes
  import opened RespEncoding
  import opened RespFormat

  // ---- printf conversions ----

  // A conversion by its parts; the modifier is empty, h, hh, l or ll.
  datatype Spec = Spec(hash: bool, zero: bool, minus: bool, space: bool, plus: bool, width: seq<byte>,
                       precision: Option<seq<byte>>, modifier: seq<byte>, letter: byte)

  ghost predicate AreDigits(s: seq<byte>) {
    forall i :: 0 <= i < |s| ==> IsDigit(s[i])
  }

  // d i o u x X e E f F g G a A
  predicate IsLetter(b: byte) {
    b in {100, 105, 111, 117, 120, 88, 101, 69, 102, 70, 103, 71, 97, 65}
  }

  ghost predicate SpecOk(c: Spec) {
    && AreDigits(c.width) && (c.precision.Some? ==> AreDigits(c.precision.value))
    && (c.modifier == [] || c.modifier == [LOWER_H] || c.modifier == [LOWER_H, LOWER_H]
        || c.modifier == [LOWER_L] || c.modifier == [LOWER_L, LOWER_L])
    && IsLetter(c.letter)
  }

  function Flag(b: byte, on: bool): seq<byte> {
    if on then [b] else []
  }

  function Dotted(precision: Option<seq<byte>>): seq<byte> {
    if precision.Some? then [DOT] + precision.value else []
  }

  // What stands behind the flags, and behind the width.
  function BehindWidth(c: Spec): seq<byte> {
    Dotted(c.precision) + (c.modifier + [c.letter])
  }

  function SpecText(c: Spec): seq<byte> {
    [PERCENT] + (Flag(HASH, c.hash) + (Flag(ZERO, c.zero) + (Flag(MINUS, c.minus) + (Flag(SPACE, c.space)
    + (Flag(PLUS, c.plus) + (c.width + BehindWidth(c)))))))
  }

  lemma PastReads(c: seq<byte>, p: nat, b: byte, on: bool, rest: seq<byte>)
    requires p <= |c| && c[p..] == Flag(b, on) + rest && (on || (rest != [] && rest[0] != b))
    ensures Past(c, p, b) <= |c| && c[Past(c, p, b)..] == rest && Past(c, p, b) == p + |Flag(b, on)|
  {
    if on {
      assert c[p] == c[p..][0];
      assert c[p + 1..] == c[p..][1..];
    } else {
      assert c[p..] == rest && c[p] == c[p..][0];
    }
  }

  lemma {:induction false} PastDigitsReads(c: seq<byte>, p: nat, d: seq<byte>, rest: seq<byte>)
    requires p <= |c| && c[p..] == d + rest && AreDigits(d) && rest != [] && !IsDigit(rest[0])
    ensures PastDigits(c, p) == p + |d| <= |c| && c[PastDigits(c, p)..] == rest
    decreases |d|
  {
    assert c[p] == c[p..][0];
    if d == [] {
      assert c[p..] == rest;
    } else {
      assert c[p + 1..] == c[p..][1..] == d[1..] + rest;
      PastDigitsReads(c, p + 1, d[1..], rest);
    }
  }

  lemma PastPrecisionReads(c: seq<byte>, p: nat, precision: Option<seq<byte>>, rest: seq<byte>)
    requires p <= |c| && c[p..] == Dotted(precision) + rest && rest != [] && !IsDigit(rest[0]) && rest[0] != DOT
    requires precision.Some? ==> AreDigits(precision.value)
    ensures PastPrecision(c, p) == p + |Dotted(precision)| <= |c| && c[PastPrecision(c, p)..] == rest
  {
    hide PastDigits;
    assert c[p] == c[p..][0];
    if precision.Some? {
      assert c[p + 1..] == c[p..][1..] == precision.value + rest;
      PastDigitsReads(c, p + 1, precision.value, rest);
    } else {
      assert Dotted(precision) + rest == rest;
    }
  }

  lemma PastModifierReads(c: seq<byte>, p: nat, modifier: seq<byte>, letter: byte, rest: seq<byte>)
    requires p <= |c| && c[p..] == modifier + ([letter] + rest) && IsLetter(letter)
    requires modifier == [] || modifier == [LOWER_H] || modifier == [LOWER_H, LOWER_H]
          || modifier == [LOWER_L] || modifier == [LOWER_L, LOWER_L]
    ensures PastModifier(c, p) == p + |modifier| < |c| && c[PastModifier(c, p)] == letter
  {
    var text := modifier + ([letter] + rest);
    assert forall k :: 0 <= k < |text| ==> c[p + k] == c[p..][k];
    assert text[|modifier|] == letter;
  }

  // With a leading zero in the width read as the flag, the parts are those that the scan finds.
  function Greedy(c: Spec): Spec {
    if !c.zero && !c.minus && !c.space && !c.plus && c.width != [] && c.width[0] == ZERO
    then c.(zero := true, width := c.width[1..])
    else c
  }

  lemma GreedySpells(c: Spec)
    requires SpecOk(c)
    ensures SpecOk(Greedy(c)) && SpecText(Greedy(c)) == SpecText(c)
    ensures var g := Greedy(c); !g.zero && !g.minus && !g.space && !g.plus && g.width != [] ==> g.width[0] != ZERO
  {
    hide BehindWidth;
    var g, b := Greedy(c), BehindWidth(c);
    if !c.zero && !c.minus && !c.space && !c.plus && c.width != [] && c.width[0] == ZERO {
      assert BehindWidth(g) == b by {
        SameBehind(c, g);
      }
      assert c.width == [ZERO] + g.width;
      NoFlags(c.width + b);
      NoFlags(g.width + b);
      Associates([ZERO], g.width, b);
    }
  }

  lemma SameBehind(c: Spec, g: Spec)
    requires g.precision == c.precision && g.modifier == c.modifier && g.letter == c.letter
    ensures BehindWidth(g) == BehindWidth(c)
  {
  }

  lemma NoFlags(s: seq<byte>)
    ensures Flag(MINUS, false) + (Flag(SPACE, false) + (Flag(PLUS, false) + s)) == s
    ensures Flag(ZERO, false) + s == s
  {
  }

  lemma Associates(a: seq<byte>, b: seq<byte>, c: seq<byte>)
    ensures (a + b) + c == a + (b + c)
  {
  }

  // The first byte of what stands behind the flags.
  lemma HeadBehindFlags(c: Spec, rest: seq<byte>)
    requires SpecOk(c)
    ensures var u := c.width + (BehindWidth(c) + rest);
            u != [] && u[0] !in {HASH, MINUS, SPACE, PLUS} && (u[0] == ZERO ==> c.width != [] && c.width[0] == ZERO)
  {
    var u := c.width + (BehindWidth(c) + rest);
    assert u[0] == if c.width != [] then c.width[0] else BehindWidth(c)[0];
    assert BehindWidth(c)[0] == if c.precision.Some? then DOT else if c.modifier != [] then c.modifier[0] else c.letter;
  }

  lemma FlagsRead(c: seq<byte>, f: Spec, rest: seq<byte>)
    requires SpecOk(f) && c == SpecText(f) + rest
    requires !f.zero && !f.minus && !f.space && !f.plus && f.width != [] ==> f.width[0] != ZERO
    ensures var p := PastFlags(c, 1); p <= |c| && c[p..] == f.width + (BehindWidth(f) + rest)
  {
    hide Past, BehindWidth, SpecOk;
    HeadBehindFlags(f, rest);
    var u5 := f.width + (BehindWidth(f) + rest);
    var u4 := Flag(PLUS, f.plus) + u5;
    var u3 := Flag(SPACE, f.space) + u4;
    var u2 := Flag(MINUS, f.minus) + u3;
    var u1 := Flag(ZERO, f.zero) + u2;
    FlagHeads(f, u5);
    assert c[1..] == Flag(HASH, f.hash) + u1 by {
      SpecSuffix(f, rest);
    }
    var p1 := Past(c, 1, HASH);
    PastReads(c, 1, HASH, f.hash, u1);
    var p2 := Past(c, p1, ZERO);
    PastReads(c, p1, ZERO, f.zero, u2);
    var p3 := Past(c, p2, MINUS);
    PastReads(c, p2, MINUS, f.minus, u3);
    var p4 := Past(c, p3, SPACE);
    PastReads(c, p3, SPACE, f.space, u4);
    PastReads(c, p4, PLUS, f.plus, u5);
  }

  lemma SpecSuffix(f: Spec, rest: seq<byte>)
    ensures (SpecText(f) + rest)[1..]
         == Flag(HASH, f.hash) + (Flag(ZERO, f.zero) + (Flag(MINUS, f.minus) + (Flag(SPACE, f.space)
            + (Flag(PLUS, f.plus) + (f.width + (BehindWidth(f) + rest))))))
  {
    hide BehindWidth, Flag;
    var t6 := f.width + BehindWidth(f);
    var t5 := Flag(PLUS, f.plus) + t6;
    var t4 := Flag(SPACE, f.space) + t5;
    var t3 := Flag(MINUS, f.minus) + t4;
    var t2 := Flag(ZERO, f.zero) + t3;
    var t1 := Flag(HASH, f.hash) + t2;
    Associates(f.width, BehindWidth(f), rest);
    Associates(Flag(PLUS, f.plus), t6, rest);
    Associates(Flag(SPACE, f.space), t5, rest);
    Associates(Flag(MINUS, f.minus), t4, rest);
    Associates(Flag(ZERO, f.zero), t3, rest);
    Associates(Flag(HASH, f.hash), t2, rest);
    Behind(PERCENT, t1, rest);
  }

  lemma Behind(b: byte, t: seq<byte>, rest: seq<byte>)
    ensures ([b] + t + rest)[1..] == t + rest
  {
  }

  // No part in front of which a flag may be missing starts with that flag.
  lemma FlagHeads(f: Spec, u5: seq<byte>)
    requires u5 != [] && u5[0] !in {HASH, MINUS, SPACE, PLUS}
    requires !f.zero && !f.minus && !f.space && !f.plus ==> u5[0] != ZERO
    ensures var u4 := Flag(PLUS, f.plus) + u5;
            var u3 := Flag(SPACE, f.space) + u4;
            var u2 := Flag(MINUS, f.minus) + u3;
            var u1 := Flag(ZERO, f.zero) + u2;
            && u1 != [] && u2 != [] && u3 != [] && u4 != []
            && u1[0] != HASH && (!f.zero ==> u2[0] != ZERO) && u3[0] != MINUS && u4[0] != SPACE
  {
  }

  // A conversion is found whole, if the buffer it is copied to has room for it.
  lemma ConversionReads(f: Spec, rest: seq<byte>)
    requires SpecOk(f)
    ensures Conversion(SpecText(f) + rest) == if |SpecText(f)| < 14 then Some(|SpecText(f)|) else None
  {
    hide PastFlags, PastDigits, PastPrecision, PastModifier, SpecText, SpecOk;
    GreedySpells(f);
    ScanEnds(Greedy(f), rest);
    PartsBehind(Greedy(f), rest);
    LettersAreSpecifiers(Greedy(f).letter);
  }

  // The scan ends at the letter, which is the last byte.
  lemma ScanEnds(g: Spec, rest: seq<byte>)
    requires SpecOk(g)
    requires !g.zero && !g.minus && !g.space && !g.plus && g.width != [] ==> g.width[0] != ZERO
    ensures var c := SpecText(g) + rest;
            var p := PastModifier(c, PastPrecision(c, PastDigits(c, PastFlags(c, 1))));
            p + 1 == |SpecText(g)| && c[p] == g.letter
  {
    hide PastFlags, PastDigits, PastPrecision, PastModifier, SpecText, BehindWidth, SpecOk, Dotted;
    var c := SpecText(g) + rest;
    FlagsRead(c, g, rest);
    PartsBehind(g, rest);
    SizeBehind(g);
    var p1 := PastFlags(c, 1);
    PastDigitsReads(c, p1, g.width, BehindWidth(g) + rest);
    var p2 := PastDigits(c, p1);
    PastPrecisionReads(c, p2, g.precision, g.modifier + ([g.letter] + rest));
    var p3 := PastPrecision(c, p2);
    PastModifierReads(c, p3, g.modifier, g.letter, rest);
    assert |c[p1..]| == |g.width| + |BehindWidth(g)| + |rest|;
  }

  lemma SizeBehind(g: Spec)
    ensures |BehindWidth(g)| == |Dotted(g.precision)| + |g.modifier| + 1
  {
  }

  lemma PartsBehind(g: Spec, rest: seq<byte>)
    requires SpecOk(g)
    ensures AreDigits(g.width) && (g.precision.Some? ==> AreDigits(g.precision.value)) && IsLetter(g.letter)
    ensures g.modifier == [] || g.modifier == [LOWER_H] || g.modifier == [LOWER_H, LOWER_H]
         || g.modifier == [LOWER_L] || g.modifier == [LOWER_L, LOWER_L]
    ensures var u := g.modifier + ([g.letter] + rest);
            && BehindWidth(g) + rest == Dotted(g.precision) + u
            && u != [] && !IsDigit(u[0]) && u[0] != DOT
            && BehindWidth(g) + rest != [] && !IsDigit((BehindWidth(g) + rest)[0])
  {
    var u := g.modifier + ([g.letter] + rest);
    assert u[0] == if g.modifier != [] then g.modifier[0] else g.letter;
    assert BehindWidth(g) + rest == Dotted(g.precision) + u;
    assert (BehindWidth(g) + rest)[0] == if g.precision.Some? then DOT else u[0];
  }

  lemma LettersAreSpecifiers(b: byte)
    ensures b in SPECIFIERS <==> IsLetter(b)
  {
  }

  // ---- Formats ----

  // What a word of a format may be made of, with the arguments that go with it.
  datatype Part =
    | Plain(b: byte)
    | Percent
    | Str(arg: seq<byte>)                          // %s
    | Binary(arg: seq<byte>)                       // %b
    | Printed(spec: Spec, text: seq<byte>)         // a conversion, and what vsnprintf makes of it
    | Unknown(b: byte, arg: seq<byte>)             // anything else behind a %

  ghost predicate PartOk(p: Part) {
    match p
    case Plain(b) => b != SPACE && b != PERCENT && b != NUL
    case Printed(spec, _) => SpecOk(spec) && |SpecText(spec)| < 14
    case Unknown(b, _) => IsUnknown(b)
    case _ => true
  }

  // No part of a conversion, and none of the three letters with a meaning of their own.
  predicate IsUnknown(b: byte) {
    && b !in {NUL, HASH, MINUS, SPACE, PLUS, DOT, LOWER_H, LOWER_L, PERCENT, LOWER_S, LOWER_B}
    && !IsDigit(b) && !IsLetter(b)
  }

  function Spelling(p: Part): seq<byte> {
    match p
    case Plain(b) => [b]
    case Percent => [PERCENT, PERCENT]
    case Str(_) => [PERCENT, LOWER_S]
    case Binary(_) => [PERCENT, LOWER_B]
    case Printed(spec, _) => SpecText(spec)
    case Unknown(b, _) => [PERCENT, b]
  }

  // The argument a part takes, if it takes one.
  function Taken(p: Part): seq<seq<byte>> {
    match p
    case Plain(_) => []
    case Percent => []
    case Str(arg) => [arg]
    case Binary(arg) => [arg]
    case Printed(_, text) => [text]
    case Unknown(_, arg) => [arg]
  }

  // What it stands for in the command.
  function Meant(p: Part): seq<byte> {
    match p
    case Plain(b) => [b]
    case Percent => [PERCENT]
    case Str(arg) => arg
    case Binary(arg) => arg
    case Printed(_, text) => text
    case Unknown(_, _) => []
  }

  function PieceOf(p: Part): Piece {
    match p
    case Plain(b) => Literal(b)
    case Percent => Literal(PERCENT)
    case _ => Text(Meant(p))
  }

  lemma PartReads(p: Part, rest: seq<byte>, args: seq<seq<byte>>)
    requires PartOk(p)
    ensures Pieces(Spelling(p) + rest, Taken(p) + args) == RespFormat.Push(PieceOf(p), Pieces(rest, args))
  {
    hide Conversion, SpecOk, IsDigit, IsLetter;
    var f := Spelling(p) + rest;
    assert Taken(p) != [] ==> (Taken(p) + args)[0] == Taken(p)[0] && (Taken(p) + args)[1..] == args;
    assert Taken(p) == [] ==> Taken(p) + args == args;
    match p
    case Plain(b) => assert f[1..] == rest;
    case Printed(spec, text) =>
      ConversionReads(spec, rest);
      SpecStarts(spec, rest);
    case Unknown(b, arg) =>
      assert f[2..] == rest;
      UnknownReads(b, rest);
    case _ => assert f[2..] == rest;
  }

  lemma SpecStarts(spec: Spec, rest: seq<byte>)
    requires SpecOk(spec)
    ensures var f := SpecText(spec) + rest;
            && |SpecText(spec)| >= 2 && f[0] == PERCENT && f[1] !in {PERCENT, LOWER_S, LOWER_B}
            && f[|SpecText(spec)|..] == rest
  {
    hide BehindWidth;
    var f := SpecText(spec) + rest;
    assert f[|SpecText(spec)|..] == rest;
    SizeBehind(spec);
    SpecSuffix(spec, rest);
    HeadBehindFlags(spec, rest);
    WidthHead(spec, rest);
    assert f[1] == f[1..][0];
    hide SpecText;
    SecondByte(spec, rest);
  }

  // What can stand behind the percent sign.
  lemma WidthHead(spec: Spec, rest: seq<byte>)
    requires SpecOk(spec)
    ensures var u := spec.width + (BehindWidth(spec) + rest); u != [] && u[0] !in {PERCENT, LOWER_S, LOWER_B}
  {
    var u := spec.width + (BehindWidth(spec) + rest);
    assert u[0] == if spec.width != [] then spec.width[0] else BehindWidth(spec)[0];
    assert BehindWidth(spec)[0]
        == if spec.precision.Some? then DOT else if spec.modifier != [] then spec.modifier[0] else spec.letter;
  }

  lemma SecondByte(spec: Spec, rest: seq<byte>)
    requires SpecOk(spec)
    ensures var u5 := spec.width + (BehindWidth(spec) + rest);
            var u := Flag(HASH, spec.hash) + (Flag(ZERO, spec.zero) + (Flag(MINUS, spec.minus)
                     + (Flag(SPACE, spec.space) + (Flag(PLUS, spec.plus) + u5))));
            u != [] && u[0] !in {PERCENT, LOWER_S, LOWER_B}
  {
    hide BehindWidth;
    WidthHead(spec, rest);
    var u5 := spec.width + (BehindWidth(spec) + rest);
    FlagHead(PLUS, spec.plus, u5);
    var u4 := Flag(PLUS, spec.plus) + u5;
    FlagHead(SPACE, spec.space, u4);
    var u3 := Flag(SPACE, spec.space) + u4;
    FlagHead(MINUS, spec.minus, u3);
    var u2 := Flag(MINUS, spec.minus) + u3;
    FlagHead(ZERO, spec.zero, u2);
    FlagHead(HASH, spec.hash, Flag(ZERO, spec.zero) + u2);
  }

  lemma FlagHead(b: byte, on: bool, u: seq<byte>)
    requires u != [] && u[0] !in {PERCENT, LOWER_S, LOWER_B} && b !in {PERCENT, LOWER_S, LOWER_B}
    ensures var v := Flag(b, on) + u; v != [] && v[0] !in {PERCENT, LOWER_S, LOWER_B}
  {
  }

  lemma UnknownReads(b: byte, rest: seq<byte>)
    requires IsUnknown(b)
    ensures Conversion([PERCENT, b] + rest) == None
  {
    var c := [PERCENT, b] + rest;
    assert c[1] == b;
    LettersAreSpecifiers(b);
    hide IsLetter;
    assert PastFlags(c, 1) == 1;
    assert PastDigits(c, 1) == 1 && PastPrecision(c, 1) == 1 && PastModifier(c, 1) == 1;
  }

  // A word of the format and the spaces behind it
  datatype Word = Word(parts: seq<Part>, gap: nat)

  function Spaces(n: nat): seq<byte> {
    if n == 0 then [] else [SPACE] + Spaces(n - 1)
  }

  function PartsText(ps: seq<Part>): seq<byte> {
    if ps == [] then [] else Spelling(ps[0]) + PartsText(ps[1..])
  }

  function PartsTaken(ps: seq<Part>): seq<seq<byte>> {
    if ps == [] then [] else Taken(ps[0]) + PartsTaken(ps[1..])
  }

  function PartsMeant(ps: seq<Part>): seq<byte> {
    if ps == [] then [] else Meant(ps[0]) + PartsMeant(ps[1..])
  }

  function FormatText(words: seq<Word>): seq<byte> {
    if words == [] then [] else PartsText(words[0].parts) + (Spaces(words[0].gap) + FormatText(words[1..]))
  }

  function FormatArgs(words: seq<Word>): seq<seq<byte>> {
    if words == [] then [] else PartsTaken(words[0].parts) + FormatArgs(words[1..])
  }

  function Arguments(words: seq<Word>): seq<seq<byte>> {
    if words == [] then [] else [PartsMeant(words[0].parts)] + Arguments(words[1..])
  }

  // Words are not empty, and have spaces between them.
  ghost predicate WordsOk(words: seq<Word>) {
    forall i :: 0 <= i < |words| ==>
      && words[i].parts != [] && (i < |words| - 1 ==> words[i].gap > 0)
      && forall k :: 0 <= k < |words[i].parts| ==> PartOk(words[i].parts[k])
  }

  function PiecesOf(ps: seq<Part>): (r: seq<Piece>)
    ensures |r| == |ps| && forall k :: 0 <= k < |ps| ==> r[k] == PieceOf(ps[k])
  {
    if ps == [] then [] else [PieceOf(ps[0])] + PiecesOf(ps[1..])
  }

  function Onto(ps: seq<Piece>, rest: Option<seq<Piece>>): Option<seq<Piece>> {
    if rest.None? then None else Some(ps + rest.value)
  }

  lemma {:induction false} PartsRead(ps: seq<Part>, rest: seq<byte>, args: seq<seq<byte>>)
    requires forall k :: 0 <= k < |ps| ==> PartOk(ps[k])
    ensures Pieces(PartsText(ps) + rest, PartsTaken(ps) + args) == Onto(PiecesOf(ps), Pieces(rest, args))
  {
    hide Pieces, Spelling, Taken, PieceOf, PartOk;
    if ps == [] {
      assert PartsText(ps) + rest == rest && PartsTaken(ps) + args == args;
      OntoNothing(Pieces(rest, args));
    } else {
      var tail := ps[1..];
      assert PartsText(ps) + rest == Spelling(ps[0]) + (PartsText(tail) + rest);
      assert PartsTaken(ps) + args == Taken(ps[0]) + (PartsTaken(tail) + args);
      PartReads(ps[0], PartsText(tail) + rest, PartsTaken(tail) + args);
      PartsRead(tail, rest, args);
      OntoMore(PieceOf(ps[0]), PiecesOf(tail), Pieces(rest, args));
    }
  }

  lemma OntoNothing(rest: Option<seq<Piece>>)
    ensures Onto([], rest) == rest
  {
    if rest.Some? {
      assert [] + rest.value == rest.value;
    }
  }

  lemma OntoMore(p: Piece, ps: seq<Piece>, rest: Option<seq<Piece>>)
    ensures RespFormat.Push(p, Onto(ps, rest)) == Onto([p] + ps, rest)
  {
    if rest.Some? {
      assert [p] + (ps + rest.value) == [p] + ps + rest.value;
    }
  }

  function Blanks(n: nat): (r: seq<Piece>)
    ensures |r| == n && forall k :: 0 <= k < n ==> r[k] == BLANK
  {
    seq(n, _ => BLANK)
  }

  lemma {:induction false} SpacesRead(n: nat, rest: seq<byte>, args: seq<seq<byte>>)
    ensures Pieces(Spaces(n) + rest, args) == Onto(Blanks(n), Pieces(rest, args))
  {
    if n == 0 {
      assert Spaces(0) + rest == rest && Blanks(0) == [];
      OntoNothing(Pieces(rest, args));
    } else {
      var f := Spaces(n) + rest;
      assert f == [SPACE] + (Spaces(n - 1) + rest) && f[1..] == Spaces(n - 1) + rest;
      SpacesRead(n - 1, rest, args);
      OntoMore(BLANK, Blanks(n - 1), Pieces(rest, args));
      assert [BLANK] + Blanks(n - 1) == Blanks(n);
    }
  }

  lemma {:induction false} BlanksMakeNothing(n: nat, qs: seq<Piece>)
    ensures Tokens(Blanks(n) + qs) == Tokens(qs)
  {
    if n == 0 {
      assert Blanks(0) + qs == qs;
    } else {
      var ps := Blanks(n) + qs;
      assert ps[0] == BLANK && ps[1..] == Blanks(n - 1) + qs;
      BlanksMakeNothing(n - 1, qs);
    }
  }

  lemma {:induction false} JoinedIsMeant(ps: seq<Part>)
    ensures Joined(PiecesOf(ps)) == PartsMeant(ps)
  {
    if ps != [] {
      JoinedIsMeant(ps[1..]);
      assert PiecesOf(ps)[1..] == PiecesOf(ps[1..]);
    }
  }

  // A word makes one argument of all its parts.
  lemma WordReads(ps: seq<Part>, n: nat, qs: seq<Piece>)
    requires ps != [] && forall k :: 0 <= k < |ps| ==> PartOk(ps[k])
    requires n > 0 || qs == []
    ensures Tokens(PiecesOf(ps) + (Blanks(n) + qs)) == [PartsMeant(ps)] + Tokens(qs)
  {
    hide Joined, WordLength, PartsMeant, PiecesOf;
    var word, rest := PiecesOf(ps), Blanks(n) + qs;
    forall k | 0 <= k < |ps|
      ensures word[k] != BLANK
    {
      PartIsNoBlank(ps[k]);
    }
    JoinedIsMeant(ps);
    WordEnds(word, rest);
    assert (word + rest)[..|word|] == word && (word + rest)[|word|..] == rest;
    TokensUnfold(word + rest);
    hide Tokens;
    BlanksMakeNothing(n, qs);
  }

  lemma PartIsNoBlank(p: Part)
    requires PartOk(p)
    ensures PieceOf(p) != BLANK
  {
  }

  lemma TokensUnfold(ps: seq<Piece>)
    requires ps != [] && ps[0] != BLANK
    ensures Tokens(ps) == [Joined(ps[..WordLength(ps)])] + Tokens(ps[WordLength(ps)..])
  {
    hide Joined, WordLength;
  }

  // The pieces of a format are those of its words and the spaces between.
  function FormatPieces(words: seq<Word>): seq<Piece> {
    if words == [] then [] else PiecesOf(words[0].parts) + (Blanks(words[0].gap) + FormatPieces(words[1..]))
  }

  lemma {:induction false} FormatReads(words: seq<Word>)
    requires WordsOk(words)
    ensures Pieces(FormatText(words), FormatArgs(words)) == Some(FormatPieces(words))
    ensures Tokens(FormatPieces(words)) == Arguments(words)
  {
    hide Pieces, Tokens, PartsText, PartsTaken, PartsMeant, PiecesOf, Blanks, Spaces;
    if words == [] {
      NothingSaid();
    } else {
      var w, tail := words[0], words[1..];
      assert forall i :: 0 <= i < |tail| ==> tail[i] == words[i + 1];
      FormatReads(tail);
      PartsRead(w.parts, Spaces(w.gap) + FormatText(tail), FormatArgs(tail));
      SpacesRead(w.gap, FormatText(tail), FormatArgs(tail));
      if w.gap == 0 {
        LastWord(words);
      }
      WordReads(w.parts, w.gap, FormatPieces(tail));
    }
  }

  lemma LastWord(words: seq<Word>)
    requires WordsOk(words) && words != [] && words[0].gap == 0
    ensures FormatPieces(words[1..]) == []
  {
  }

  lemma NothingSaid()
    ensures Pieces([], []) == Some([]) && Tokens([]) == []
  {
  }

  // The command of a format is that of the words it was spelled from, each with its interpolations
  // in place: spaces in front are skipped, interpolated spaces split nothing, and a word of an
  // empty text is still an argument.
  lemma TemplateReads(lead: nat, words: seq<Word>)
    requires WordsOk(words)
    ensures var ps := Pieces(Spaces(lead) + FormatText(words), FormatArgs(words));
            ps.Some? && Tokens(ps.value) == Arguments(words)
  {
    hide Pieces, Tokens, FormatText, FormatArgs, FormatPieces, Blanks, Spaces, WordsOk, Arguments;
    FormatReads(words);
    SpacesRead(lead, FormatText(words), FormatArgs(words));
    BlanksMakeNothing(lead, FormatPieces(words));
  }
}
