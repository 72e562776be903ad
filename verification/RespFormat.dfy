/** The command formatter: what redisFormatCommandArgv and redisvFormatCommand write, and that
    the reply reader reads it back. */
module RespFormat {
  import opened Wrappers
  import opened Bits
  import opened Bytes
  import opened RespGrammar
  import opened RespEncoding

  const LOWER_S: byte := 115

  function Bulks(argv: seq<seq<byte>>): seq<byte> {
    if argv == [] then [] else Bulks(argv[..|argv| - 1]) + Bulk(argv[|argv| - 1])
  }

  function Encode(argv: seq<seq<byte>>): seq<byte> {
    Header(STAR, |argv|) + Bulks(argv)
  }

  // The array of bulk strings a command is.
  function Command(argv: seq<seq<byte>>): Reply {
    Array(|argv|, seq(|argv|, i requires 0 <= i < |argv| => Some(Str(argv[i]))))
  }

  ghost predicate Sized(argv: seq<seq<byte>>) {
    |argv| <= INT_MAX && forall i :: 0 <= i < |argv| ==> |argv[i]| <= INT_MAX
  }

  function Strings(argv: seq<seq<byte>>): seq<Wire> {
    seq(|argv|, i requires 0 <= i < |argv| => BulkString(argv[i]))
  }

  lemma {:induction false} ElementsSnoc(items: seq<Wire>, w: Wire)
    ensures EncodeElements(items + [w]) == EncodeElements(items) + EncodeReply(w)
  {
    hide EncodeReply;
    var longer := items + [w];
    if items == [] {
      assert longer[1..] == [];
    } else {
      assert longer[1..] == items[1..] + [w];
      ElementsSnoc(items[1..], w);
    }
  }

  lemma {:induction false} BulksAreElements(argv: seq<seq<byte>>)
    ensures Bulks(argv) == EncodeElements(Strings(argv))
  {
    hide Bulk;
    if argv != [] {
      var last := |argv| - 1;
      BulksAreElements(argv[..last]);
      assert Strings(argv) == Strings(argv[..last]) + [BulkString(argv[last])];
      ElementsSnoc(Strings(argv[..last]), BulkString(argv[last]));
    }
  }

  lemma CommandMeant(argv: seq<seq<byte>>)
    ensures Meaning(Items(Strings(argv))) == Command(argv)
  {
    assert Filled(MeaningAll(Strings(argv))) == Command(argv).element;
  }

  // A formatted command, whatever bytes its arguments hold, is read as one array of exactly
  // those strings, and reading it stops exactly at its end.
  lemma CommandRoundTrip(argv: seq<seq<byte>>, rest: seq<byte>)
    requires Sized(argv)
    ensures ParseReply(Encode(argv) + rest, 0) == Ok(Command(argv), |Encode(argv)|)
  {
    hide ParseReply, Bulk, Decimal, Meaning;
    BulksAreElements(argv);
    CommandMeant(argv);
    assert Encode(argv) == EncodeReply(Items(Strings(argv)));
    ReplyRoundTrip(Items(Strings(argv)), rest, 0);
  }

  // A pipeline of commands is read back command by command, and nothing is left over.
  function Pipeline(commands: seq<seq<seq<byte>>>): seq<byte> {
    if commands == [] then [] else Encode(commands[0]) + Pipeline(commands[1..])
  }

  function Commands(commands: seq<seq<seq<byte>>>): seq<Reply> {
    seq(|commands|, i requires 0 <= i < |commands| => Command(commands[i]))
  }

  lemma {:induction false} PipelineRoundTrip(commands: seq<seq<seq<byte>>>)
    requires forall i :: 0 <= i < |commands| ==> Sized(commands[i])
    ensures ParseStream(Pipeline(commands)) == Stream(Commands(commands), None)
  {
    hide ParseReply, Encode, Command;
    if commands == [] {
      NothingToRead();
    } else {
      CommandRoundTrip(commands[0], Pipeline(commands[1..]));
      PipelineRoundTrip(commands[1..]);
      assert Pipeline(commands)[|Encode(commands[0])|..] == Pipeline(commands[1..]);
      assert [Command(commands[0])] + Commands(commands[1..]) == Commands(commands);
    }
  }

  // ---- The writing loops ----

  // Bytes needed to print an integer.
  method IntLen(n: int) returns (len: nat)
    ensures len == |Signed(n)|
  {
    len := 0;
    var i := n;
    if i < 0 {
      len := 1;
      i := -i;
    }
    ghost var sign := len;
    len := len + 1;
    i := i / 10;
    while i != 0
      decreases i
      invariant i >= 0 && |Signed(n)| == sign + |Decimal(if n < 0 then -n else n)|
      invariant |Signed(n)| == len + if i == 0 then 0 else |Decimal(i)|
    {
      len := len + 1;
      i := i / 10;
    }
  }

  // Sums of sizes wrap at 2^32.
  method BulkLen(len: nat) returns (n: nat)
    ensures n < UINT32
    ensures len <= INT_MAX ==> forall arg: seq<byte> :: |arg| == len ==> n == |Bulk(arg)|
  {
    hide Decimal, ToLong;
    var digits := IntLen(ToLong(len));
    n := (1 + digits + 2 + len + 2) % UINT32;
    if len <= INT_MAX {
      NoWrap(len);
      Short(len);
    }
  }

  lemma Short(n: nat)
    requires n <= INT_MAX + 1
    ensures |Decimal(n)| <= 10
  {
    hide Decimal;
    ShortBy(n, 10, 10_000_000_000);
  }

  lemma {:induction false} ShortBy(n: nat, k: nat, limit: nat)
    requires k > 0 && n < limit && limit == Power10(k)
    ensures |Decimal(n)| <= k
  {
    if n >= 10 {
      ShortBy(n / 10, k - 1, Power10(k - 1));
    }
  }

  function Power10(k: nat): nat {
    if k == 0 then 1 else 10 * Power10(k - 1)
  }

  predicate IsInt(x: int) {
    -INT_MAX - 1 <= x <= INT_MAX
  }

  // A length counted in C's int, which is exact as long as it fits.
  ghost predicate Counts(total: int, length: nat) {
    IsInt(total) && (length <= INT_MAX ==> total == length)
  }

  lemma LongIsInt(x: int)
    ensures IsInt(ToLong(x))
  {
  }

  // totlen += bulklen(..)
  method AddBulk(total: int, arg: seq<byte>, ghost before: nat) returns (total': int)
    ensures IsInt(total') && (Counts(total, before) ==> Counts(total', before + |Bulk(arg)|))
  {
    hide Decimal, ToLong;
    var n := BulkLen(|arg|);
    LongIsInt(total + n);
    total' := ToLong(total + n);
    if Counts(total, before) && before + |Bulk(arg)| <= INT_MAX {
      NoWrap(total + n);
    }
  }

  // 1+intlen(argc)+2
  method HeaderLen(argc: nat) returns (n: nat)
    ensures n <= INT_MAX && (argc <= INT_MAX ==> n == |Header(STAR, argc)|)
  {
    hide Decimal, ToLong;
    LongIsInt(argc);
    var i := ToLong(argc);
    var digits := IntLen(i);
    n := 1 + digits + 2;
    Short(if i < 0 then -i else i);
    if argc <= INT_MAX {
      NoWrap(argc);
    }
  }

  // Copies bytes into cmd at pos, as sprintf and memcpy do.
  method Put(cmd: array<byte>, pos: nat, bytes: seq<byte>) returns (end: nat)
    requires pos + |bytes| <= cmd.Length
    modifies cmd
    ensures end == pos + |bytes|
    ensures cmd[..end] == old(cmd[..pos]) + bytes
  {
    for i := 0 to |bytes|
      invariant cmd[..pos + i] == old(cmd[..pos]) + bytes[..i]
    {
      cmd[pos + i] := bytes[i];
      assert bytes[..i + 1] == bytes[..i] + [bytes[i]];
      assert cmd[..pos + i + 1] == cmd[..pos + i] + [bytes[i]];
    }
    end := pos + |bytes|;
  }

  lemma {:induction false} BulksLength(argv: seq<seq<byte>>, k: nat)
    requires k <= |argv|
    ensures |Bulks(argv[..k])| <= |Bulks(argv)|
    decreases |argv|
  {
    if k < |argv| {
      var last := |argv| - 1;
      assert argv[..last][..k] == argv[..k];
      BulksLength(argv[..last], k);
    } else {
      assert argv[..k] == argv;
    }
  }

  ghost predicate Holds(cmd: array<byte>, totlen: int, argv: seq<seq<byte>>)
    reads cmd
  {
    totlen >= 0 && cmd.Length == totlen + 1 && cmd[..totlen] == Encode(argv) && cmd[totlen] == NUL
  }

  // Writes the command into a fresh block of totlen + 1 bytes; the caller's assertion that
  // pos ends at totlen is proved here. A total that has overflowed makes a block of another size,
  // and the writes into it are not defined.
  method Build(argv: seq<seq<byte>>, totlen: int) returns (cmd: array<byte>)
    ensures fresh(cmd) && (totlen == |Encode(argv)| ==> Holds(cmd, totlen, argv))
  {
    if totlen != |Encode(argv)| {
      return new byte[0];
    }
    hide Bulks, Header;
    cmd := new byte[totlen + 1];
    var pos := Put(cmd, 0, Header(STAR, |argv|));
    pos := PutBulks(cmd, pos, argv);
    assert pos == totlen;
    cmd[pos] := NUL;
  }

  method PutBulks(cmd: array<byte>, pos: nat, argv: seq<seq<byte>>) returns (end: nat)
    requires pos + |Bulks(argv)| <= cmd.Length
    modifies cmd
    ensures end == pos + |Bulks(argv)| && cmd[..end] == old(cmd[..pos]) + Bulks(argv)
  {
    hide Bulk, Bulks;
    end := pos;
    NoBulks();
    assert argv[..0] == [];
    for j := 0 to |argv|
      invariant end == pos + |Bulks(argv[..j])| <= cmd.Length
      invariant cmd[..end] == old(cmd[..pos]) + Bulks(argv[..j])
    {
      BulksSnoc(argv, j);
      BulksLength(argv, j + 1);
      end := PutBulk(cmd, end, argv[j]);
    }
    assert argv[..|argv|] == argv;
  }

  method PutBulk(cmd: array<byte>, pos: nat, arg: seq<byte>) returns (end: nat)
    requires pos + |Bulk(arg)| <= cmd.Length
    modifies cmd
    ensures end == pos + |Bulk(arg)|
    ensures cmd[..end] == old(cmd[..pos]) + Bulk(arg)
  {
    hide Decimal;
    end := Put(cmd, pos, Header(DOLLAR, |arg|));
    end := Put(cmd, end, arg);
    end := Put(cmd, end, CRLF);
  }

  lemma BulksSnoc(argv: seq<seq<byte>>, j: nat)
    requires j < |argv|
    ensures Bulks(argv[..j + 1]) == Bulks(argv[..j]) + Bulk(argv[j])
  {
    assert argv[..j + 1][..j] == argv[..j];
  }

  lemma {:induction false} BulksCount(argv: seq<seq<byte>>)
    ensures |Bulks(argv)| >= 6 * |argv|
  {
    hide Decimal;
    if argv != [] {
      BulksCount(argv[..|argv| - 1]);
    }
  }

  // The length is exact if and only if an int holds it, and then the block holds the command.
  method FormatCommandArgv(argv: seq<seq<byte>>) returns (cmd: array<byte>, totlen: int)
    ensures IsInt(totlen) && (totlen == |Encode(argv)| <==> |Encode(argv)| <= INT_MAX)
    ensures fresh(cmd) && (|Encode(argv)| <= INT_MAX ==> Holds(cmd, totlen, argv))
  {
    hide Bulk, Decimal;
    BulksCount(argv);
    NoBulks();
    totlen := HeaderLen(|argv|);
    assert argv[..0] == [];
    for j := 0 to |argv|
      invariant IsInt(totlen)
      invariant |argv| <= INT_MAX ==> Counts(totlen, |Header(STAR, |argv|)| + |Bulks(argv[..j])|)
    {
      BulksSnoc(argv, j);
      totlen := AddBulk(totlen, argv[j], |Header(STAR, |argv|)| + |Bulks(argv[..j])|);
    }
    assert argv[..|argv|] == argv;
    cmd := Build(argv, totlen);
  }

  // ---- Format strings ----

  // A format is made of literal bytes and of interpolated texts.
  datatype Piece = Literal(b: byte) | Text(bytes: seq<byte>)

  const BLANK := Literal(SPACE)

  const HASH: byte := 35
  const DOT: byte := 46
  const LOWER_H: byte := 104
  const LOWER_L: byte := 108
  const SPECIFIERS: seq<byte> := [100, 105, 111, 117, 120, 88, 101, 69, 102, 70, 103, 71, 97, 65]   // diouxXeEfFgGaA
  const FORMAT_SIZE: nat := 16

  function Past(c: seq<byte>, p: nat, b: byte): (q: nat)
    ensures p <= q && (p <= |c| ==> q <= |c|)
  {
    if p < |c| && c[p] == b then p + 1 else p
  }

  function PastDigits(c: seq<byte>, p: nat): (q: nat)
    ensures p <= q && (p <= |c| ==> q <= |c|)
    decreases |c| - p
  {
    if p < |c| && IsDigit(c[p]) then PastDigits(c, p + 1) else p
  }

  function PastFlags(c: seq<byte>, p: nat): (q: nat)
    ensures p <= q && (p <= |c| ==> q <= |c|)
  {
    Past(c, Past(c, Past(c, Past(c, Past(c, p, HASH), ZERO), MINUS), SPACE), PLUS)
  }

  function PastPrecision(c: seq<byte>, p: nat): (q: nat)
    ensures p <= q && (p <= |c| ==> q <= |c|)
  {
    if p < |c| && c[p] == DOT then PastDigits(c, p + 1) else p
  }

  function PastModifier(c: seq<byte>, p: nat): (q: nat)
    ensures p <= q && (p <= |c| ==> q <= |c|)
  {
    if p < |c| && (c[p] == LOWER_H || c[p] == LOWER_L) then Past(c, p + 1, c[p]) else p
  }

  // The length of the printf conversion at the front, % included, if there is one and it is not
  // too long for the buffer it is copied to.
  function Conversion(c: seq<byte>): (l: Option<nat>)
    ensures l.Some? ==> 2 <= l.value <= |c|
  {
    var p := PastModifier(c, PastPrecision(c, PastDigits(c, PastFlags(c, 1))));
    if p < |c| && c[p] in SPECIFIERS && p + 1 < FORMAT_SIZE - 2 then Some(p + 1) else None
  }

  // What the format says when the variable arguments are args, in order: the strings for %s and
  // %b, and for a printf conversion what vsnprintf makes of it. Anything else behind a % takes an
  // argument as well, and adds an empty text. None if there are not enough arguments.
  function Pieces(format: seq<byte>, args: seq<seq<byte>>): Option<seq<Piece>>
    decreases |format|
  {
    if format == [] then Some([])
    else if format[0] != PERCENT || |format| == 1 then Push(Literal(format[0]), Pieces(format[1..], args))
    else if format[1] == PERCENT then Push(Literal(PERCENT), Pieces(format[2..], args))
    else if args == [] then None
    else if format[1] == LOWER_S || format[1] == LOWER_B then Push(Text(args[0]), Pieces(format[2..], args[1..]))
    else
      var l := Conversion(format);
      if l.Some? then Push(Text(args[0]), Pieces(format[l.value..], args[1..]))
      else Push(Text([]), Pieces(format[2..], args[1..]))
  }

  function Push(p: Piece, rest: Option<seq<Piece>>): Option<seq<Piece>> {
    if rest.None? then None else Some([p] + rest.value)
  }

  function Content(p: Piece): seq<byte> {
    if p.Literal? then [p.b] else p.bytes
  }

  function Joined(ps: seq<Piece>): seq<byte> {
    if ps == [] then [] else Content(ps[0]) + Joined(ps[1..])
  }

  // Pieces before the first literal space.
  function WordLength(ps: seq<Piece>): (k: nat)
    ensures k <= |ps| && (k < |ps| ==> ps[k] == BLANK)
    ensures forall i :: 0 <= i < k ==> ps[i] != BLANK
  {
    if ps == [] || ps[0] == BLANK then 0 else 1 + WordLength(ps[1..])
  }

  lemma {:induction false} WordEnds(ps: seq<Piece>, qs: seq<Piece>)
    requires forall i :: 0 <= i < |ps| ==> ps[i] != BLANK
    requires qs != [] ==> qs[0] == BLANK
    ensures WordLength(ps + qs) == |ps|
  {
    if ps == [] {
      assert ps + qs == qs;
    } else {
      WordEnds(ps[1..], qs);
      assert (ps + qs)[1..] == ps[1..] + qs;
    }
  }

  // The arguments: maximal runs of pieces between literal spaces.
  function Tokens(ps: seq<Piece>): seq<seq<byte>>
    decreases |ps|
  {
    if ps == [] then []
    else if ps[0] == BLANK then Tokens(ps[1..])
    else
      var k := WordLength(ps);
      [Joined(ps[..k])] + Tokens(ps[k..])
  }

  // What is still to come when cur is the argument under construction.
  function Pending(cur: seq<byte>, touched: bool, ps: seq<Piece>): seq<seq<byte>> {
    if touched then [cur + Joined(ps[..WordLength(ps)])] + Tokens(ps[WordLength(ps)..]) else Tokens(ps)
  }

  lemma PendingStep(cur: seq<byte>, touched: bool, ps: seq<Piece>)
    requires ps != [] && (!touched ==> cur == [])
    ensures ps[0] != BLANK ==> Pending(cur, touched, ps) == Pending(cur + Content(ps[0]), true, ps[1..])
    ensures ps[0] == BLANK && touched ==> Pending(cur, touched, ps) == [cur] + Pending([], false, ps[1..])
    ensures ps[0] == BLANK && !touched ==> Pending(cur, touched, ps) == Pending(cur, false, ps[1..])
  {
    var k := WordLength(ps);
    if ps[0] != BLANK {
      assert ps[..k][1..] == ps[1..][..k - 1];
      assert ps[k..] == ps[1..][k - 1..];
      assert WordLength(ps[1..]) == k - 1;
      assert Joined(ps[..k]) == Content(ps[0]) + Joined(ps[1..][..k - 1]);
      assert !touched ==> Tokens(ps) == [[] + Joined(ps[..k])] + Tokens(ps[k..]) by {
        assert [] + Joined(ps[..k]) == Joined(ps[..k]);
      }
      assert cur + (Content(ps[0]) + Joined(ps[1..][..k - 1])) == cur + Content(ps[0]) + Joined(ps[1..][..k - 1]);
    } else {
      assert cur + Joined(ps[..0]) == cur;
      assert ps[0..] == ps;
    }
  }

  ghost predicate SameBlanks(ps: seq<Piece>, qs: seq<Piece>) {
    |ps| == |qs| && forall i :: 0 <= i < |ps| ==> (ps[i] == BLANK <==> qs[i] == BLANK)
  }

  lemma {:induction false} SameWordLength(ps: seq<Piece>, qs: seq<Piece>)
    requires SameBlanks(ps, qs)
    ensures WordLength(ps) == WordLength(qs)
  {
    if ps != [] && ps[0] != BLANK {
      SameWordLength(ps[1..], qs[1..]);
    }
  }

  // Literal spaces alone decide where arguments end: interpolated text never splits one, and an
  // empty interpolation still makes one.
  lemma {:induction false} OnlyLiteralSpacesSplit(ps: seq<Piece>, qs: seq<Piece>)
    requires SameBlanks(ps, qs)
    ensures |Tokens(ps)| == |Tokens(qs)|
    decreases |ps|
  {
    if ps != [] {
      if ps[0] == BLANK {
        OnlyLiteralSpacesSplit(ps[1..], qs[1..]);
      } else {
        var k := WordLength(ps);
        SameWordLength(ps, qs);
        OnlyLiteralSpacesSplit(ps[k..], qs[k..]);
      }
    }
  }

  // Detects a printf format.
  method DetectConversion(c: seq<byte>) returns (l: Option<nat>)
    requires |c| >= 2
    ensures l == Conversion(c)
  {
    hide PastFlags, PastDigits, PastModifier;
    var p := 1;
    // Flags
    p := SkipFlags(c, p);
    // Field width
    p := SkipDigits(c, p);
    // Precision
    if p < |c| && c[p] == DOT {
      p := SkipDigits(c, p + 1);
    }
    p := SkipModifier(c, p);
    // Conversion specifier
    l := None;
    if p < |c| && c[p] in SPECIFIERS {
      if p + 1 < FORMAT_SIZE - 2 {
        l := Some(p + 1);
      }
    }
  }

  method SkipFlags(c: seq<byte>, p: nat) returns (q: nat)
    ensures q == PastFlags(c, p)
  {
    hide Past;
    q := Skip(c, p, HASH);
    q := Skip(c, q, ZERO);
    q := Skip(c, q, MINUS);
    q := Skip(c, q, SPACE);
    q := Skip(c, q, PLUS);
  }

  // Modifiers may be repeated once.
  method SkipModifier(c: seq<byte>, p: nat) returns (q: nat)
    ensures q == PastModifier(c, p)
  {
    q := p;
    if q < |c| && (c[q] == LOWER_H || c[q] == LOWER_L) {
      if q + 1 < |c| && c[q] == c[q + 1] {
        q := q + 1;
      }
      q := q + 1;
    }
  }

  method Skip(c: seq<byte>, p: nat, b: byte) returns (q: nat)
    ensures q == Past(c, p, b)
  {
    q := p;
    if q < |c| && c[q] == b {
      q := q + 1;
    }
  }

  method SkipDigits(c: seq<byte>, p: nat) returns (q: nat)
    ensures q == PastDigits(c, p)
  {
    q := p;
    while q < |c| && IsDigit(c[q])
      invariant PastDigits(c, q) == PastDigits(c, p)
    {
      q := q + 1;
    }
  }

  // redisvFormatCommand: the command is that of the tokens, with a length as exact as above.
  method FormatCommand(format: seq<byte>, args: seq<seq<byte>>) returns (cmd: array<byte>, totlen: int)
    requires NUL !in format && Pieces(format, args).Some?
    ensures var argv := Tokens(Pieces(format, args).value);
            && IsInt(totlen) && (totlen == |Encode(argv)| <==> |Encode(argv)| <= INT_MAX)
            && (|Encode(argv)| <= INT_MAX ==> Holds(cmd, totlen, argv))
    ensures fresh(cmd)
  {
    hide Pieces, Pending, Tokens, Bulk, Bulks, Encode, Holds, Decimal, Conversion;
    ghost var tokens := Tokens(Pieces(format, args).value);
    PendingStart(Pieces(format, args).value);
    var c := 0;
    var ap := 0;
    var curarg: seq<byte> := [];
    var touched := false;
    var curargv: seq<seq<byte>> := [];
    totlen := 0;
    NoBulks();
    assert format[0..] == format && args[0..] == args;
    while c < |format|
      invariant 0 <= c <= |format| && 0 <= ap <= |args|
      invariant !touched ==> curarg == []
      invariant Pieces(format[c..], args[ap..]).Some?
      invariant tokens == curargv + Pending(curarg, touched, Pieces(format[c..], args[ap..]).value)
      invariant Counts(totlen, |Bulks(curargv)|)
    {
      ghost var ps := Pieces(format[c..], args[ap..]).value;
      NextPieces(format, args, c, ap);
      PendingStep(curarg, touched, ps);
      if format[c] != PERCENT || c + 1 == |format| {
        if format[c] == SPACE {
          if touched {
            curargv, totlen := PushArgument(curargv, curarg, totlen);
            curarg := [];
            touched := false;
          }
        } else {
          curarg := curarg + [format[c]];
          touched := true;
        }
        c := c + 1;
      } else {
        curarg, c, ap := Interpolate(format, args, c, ap, curarg);
        touched := true;
      }
    }
    PendingEnd(format[c..], args[ap..], curarg, touched);
    if touched {
      curargv, totlen := PushArgument(curargv, curarg, totlen);
    }
    assert curargv == tokens;
    cmd, totlen := BuildCommand(curargv, totlen);
  }

  // Adds the bytes needed to hold the count, and builds the command.
  method BuildCommand(argv: seq<seq<byte>>, total: int) returns (cmd: array<byte>, totlen: int)
    requires Counts(total, |Bulks(argv)|)
    ensures IsInt(totlen) && (totlen == |Encode(argv)| <==> |Encode(argv)| <= INT_MAX)
    ensures fresh(cmd) && (|Encode(argv)| <= INT_MAX ==> Holds(cmd, totlen, argv))
  {
    hide Bulk, Bulks, Decimal;
    BulksCount(argv);
    var header := HeaderLen(|argv|);
    LongIsInt(total + header);
    totlen := ToLong(total + header);
    if |Encode(argv)| <= INT_MAX {
      NoWrap(total + header);
    }
    cmd := Build(argv, totlen);
  }

  // What follows a %, which is not the last byte.
  method Interpolate(format: seq<byte>, args: seq<seq<byte>>, c: nat, ap: nat, curarg: seq<byte>)
    returns (newarg: seq<byte>, c': nat, ap': nat)
    requires c + 1 < |format| && format[c] == PERCENT && ap <= |args| && Pieces(format[c..], args[ap..]).Some?
    ensures c < c' <= |format| && ap' <= |args|
    ensures var ps := Pieces(format[c..], args[ap..]).value;
            && ps != [] && ps[0] != BLANK
            && newarg == curarg + Content(ps[0]) && Pieces(format[c'..], args[ap'..]) == Some(ps[1..])
  {
    hide Conversion;
    NextPieces(format, args, c, ap);
    newarg, c', ap' := curarg, c + 2, ap;
    if format[c + 1] == PERCENT {
      newarg := curarg + [PERCENT];
      return;
    }
    ap' := ap + 1;
    if format[c + 1] == LOWER_S || format[c + 1] == LOWER_B {
      if |args[ap]| > 0 {
        newarg := curarg + args[ap];
      }
    } else {
      var l := DetectConversion(format[c..]);
      if l.Some? {
        newarg := curarg + args[ap];
        c' := c + l.value;
      }
    }
  }

  lemma NoBulks()
    ensures |Bulks([])| == 0
  {
  }

  lemma PendingStart(ps: seq<Piece>)
    ensures Tokens(ps) == [] + Pending([], false, ps)
  {
  }

  lemma PendingEnd(format: seq<byte>, args: seq<seq<byte>>, cur: seq<byte>, touched: bool)
    requires format == [] && Pieces(format, args).Some?
    ensures Pending(cur, touched, Pieces(format, args).value) == if touched then [cur] else []
  {
    assert cur + Joined([]) == cur;
  }

  method PushArgument(argv: seq<seq<byte>>, arg: seq<byte>, total: int) returns (argv': seq<seq<byte>>, total': int)
    requires Counts(total, |Bulks(argv)|)
    ensures argv' == argv + [arg] && Counts(total', |Bulks(argv')|)
  {
    hide Bulk;
    argv' := argv + [arg];
    assert argv'[..|argv|] == argv;
    total' := AddBulk(total, arg, |Bulks(argv)|);
  }

  lemma NextPieces(format: seq<byte>, args: seq<seq<byte>>, c: nat, ap: nat)
    requires c < |format| && ap <= |args| && Pieces(format[c..], args[ap..]).Some?
    ensures Pieces(format[c..], args[ap..]).value != []
    ensures var ps := Pieces(format[c..], args[ap..]).value;
            if format[c] != PERCENT || c + 1 == |format| then
              Pieces(format[c + 1..], args[ap..]) == Some(ps[1..]) && ps[0] == Literal(format[c])
            else if format[c + 1] == PERCENT then
              Pieces(format[c + 2..], args[ap..]) == Some(ps[1..]) && ps[0] == Literal(PERCENT)
            else
              var l := Conversion(format[c..]);
              var text := format[c + 1] == LOWER_S || format[c + 1] == LOWER_B;
              && ap < |args| && ps[0] == Text(if text || l.Some? then args[ap] else [])
              && Pieces(format[if text || l.None? then c + 2 else c + l.value..], args[ap + 1..]) == Some(ps[1..])
  {
    hide Conversion;
    assert format[c..][1..] == format[c + 1..];
    if c + 1 < |format| {
      assert format[c..][2..] == format[c + 2..];
      var l := Conversion(format[c..]);
      if l.Some? {
        assert format[c..][l.value..] == format[c + l.value..];
      }
    }
    if ap < |args| {
      assert args[ap..][1..] == args[ap + 1..];
    }
  }
}
