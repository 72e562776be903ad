/** The reply grammar that redisReader accepts, as a recursive descent over the unread bytes.

    The grammar follows the code: it is the RESP of one array level inside another, a bulk
    string is closed by any two bytes, and an integer line is read up to its first CR. */
module RespGrammar {
  import opened Wrappers
  import opened Bytes

  datatype Reply =
    | Status(str: seq<byte>)
    | Error(str: seq<byte>)
    | Integer(integer: int)
    | Str(str: seq<byte>)
    | Nil
    | Array(elements: int, element: seq<Option<Reply>>)

  datatype ReaderError =
    | ProtocolByte(got: byte)
    | NestingTooDeep

  datatype ItemType = TError | TStatus | TInteger | TString | TArray

  const MAX_DEPTH: nat := 2

  function TypeOfByte(b: byte): Option<ItemType> {
    if b == 45 then Some(TError)           // '-'
    else if b == 43 then Some(TStatus)     // '+'
    else if b == 58 then Some(TInteger)    // ':'
    else if b == 36 then Some(TString)     // '$'
    else if b == 42 then Some(TArray)      // '*'
    else None
  }

  // Two's complement wrap-around of C's long long, and the 32-bit `long` of the Windows build.
  function Wrap64(x: int): int {
    (x + 0x8000_0000_0000_0000) % 0x1_0000_0000_0000_0000 - 0x8000_0000_0000_0000
  }

  function ToLong(x: int): int {
    (x + 0x8000_0000) % 0x1_0000_0000 - 0x8000_0000
  }

  // The digits up to the first CR (or the end of the line), or None at any other byte.
  function Digits(line: seq<byte>, acc: int): Option<int> {
    if line == [] || line[0] == CR then Some(acc)
    else if IsDigit(line[0]) then Digits(line[1..], Wrap64(acc * 10 + DigitValue(line[0])))
    else None
  }

  function LongLong(line: seq<byte>): int {
    var signed := line != [] && (line[0] == 45 || line[0] == 43);
    var mult := if signed && line[0] == 45 then -1 else 1;
    match Digits(if signed then line[1..] else line, 0)
    case None => -1
    case Some(v) => Wrap64(mult * v)
  }

  predicate IsCrlf(s: seq<byte>, i: nat) {
    i + 1 < |s| && s[i] == CR && s[i + 1] == LF
  }

  // The first position at or after `from` where CR LF stands, if any.
  function Crlf(s: seq<byte>, from: nat): (k: Option<nat>)
    requires from <= |s|
    ensures k.Some? ==> from <= k.value && IsCrlf(s, k.value)
    ensures forall i :: from <= i < (if k.Some? then k.value else |s|) ==> !IsCrlf(s, i)
    decreases |s| - from
  {
    if from == |s| then None
    else if IsCrlf(s, from) then Some(from)
    else Crlf(s, from + 1)
  }

  function LineReply(typ: ItemType, line: seq<byte>): Reply
    requires typ.TError? || typ.TStatus? || typ.TInteger?
  {
    match typ
    case TInteger => Integer(LongLong(line))
    case TError => Error(line)
    case _ => Status(line)
  }

  datatype Parse = Incomplete | Fail(error: ReaderError) | Ok(reply: Reply, used: nat)
  datatype ParseSeq = IncompleteSeq | FailSeq(error: ReaderError) | OkSeq(replies: seq<Reply>, used: nat)

  // One reply at the front of u; `depth` counts the arrays around it.
  function ParseReply(u: seq<byte>, depth: nat): (p: Parse)
    ensures p.Ok? ==> 2 <= p.used <= |u|
    decreases |u|, 0
  {
    if u == [] then Incomplete
    else
      match TypeOfByte(u[0])
      case None => Fail(ProtocolByte(u[0]))
      case Some(TArray) => if depth == MAX_DEPTH then Fail(NestingTooDeep) else ParseArray(u[1..], depth)
      case Some(TString) => ParseBulk(u[1..])
      case Some(typ) => ParseLine(typ, u[1..])
  }

  function ParseLine(typ: ItemType, u: seq<byte>): (p: Parse)
    requires typ.TError? || typ.TStatus? || typ.TInteger?
    ensures p.Ok? ==> 3 <= p.used <= |u| + 1
  {
    match Crlf(u, 0)
    case None => Incomplete
    case Some(k) => Ok(LineReply(typ, u[..k]), k + 3)
  }

  function ParseBulk(u: seq<byte>): (p: Parse)
    ensures p.Ok? ==> 3 <= p.used <= |u| + 1
  {
    match Crlf(u, 0)
    case None => Incomplete
    case Some(k) =>
      var len := ToLong(LongLong(u[..k]));
      if len < 0 then Ok(Nil, k + 3)
      else if k + len + 4 <= |u| then Ok(Str(u[k + 2..k + 2 + len]), k + len + 5)
      else Incomplete
  }

  function ParseArray(u: seq<byte>, depth: nat): (p: Parse)
    ensures p.Ok? ==> 3 <= p.used <= |u| + 1
    decreases |u|, 2
  {
    match Crlf(u, 0)
    case None => Incomplete
    case Some(k) =>
      var n := ToLong(LongLong(u[..k]));
      if n == -1 then Ok(Nil, k + 3)
      else if n <= 0 then Ok(Array(n, []), k + 3)
      else ArrayOf(ParseElements(u[k + 2..], n, depth + 1), n, k + 3)
  }

  // An array of n elements after a header of `header` bytes, type byte included.
  function ArrayOf(p: ParseSeq, n: nat, header: nat): Parse {
    match p
    case IncompleteSeq => Incomplete
    case FailSeq(e) => Fail(e)
    case OkSeq(xs, c) => Ok(Array(n, Filled(xs)), header + c)
  }

  function ParseElements(u: seq<byte>, n: nat, depth: nat): (p: ParseSeq)
    ensures p.OkSeq? ==> p.used <= |u| && |p.replies| == n
    decreases |u|, 1
  {
    if n == 0 then OkSeq([], 0)
    else
      match ParseReply(u, depth)
      case Incomplete => IncompleteSeq
      case Fail(e) => FailSeq(e)
      case Ok(x, c) => Prepend(x, c, ParseElements(u[c..], n - 1, depth))
  }

  function Prepend(x: Reply, used: nat, p: ParseSeq): ParseSeq {
    match p
    case OkSeq(xs, c) => OkSeq([x] + xs, used + c)
    case _ => p
  }

  function Filled(xs: seq<Reply>): seq<Option<Reply>> {
    seq(|xs|, i requires 0 <= i < |xs| => Some(xs[i]))
  }

  // Everything a byte stream says: its complete replies in order, then the protocol error
  // that ends it, or None when what is left over is a reply still incomplete.
  datatype Stream = Stream(replies: seq<Reply>, error: Option<ReaderError>)

  function ParseStream(u: seq<byte>): Stream
    decreases |u|
  {
    match ParseReply(u, 0)
    case Incomplete => Stream([], None)
    case Fail(e) => Stream([], Some(e))
    case Ok(x, c) =>
      var rest := ParseStream(u[c..]);
      Stream([x] + rest.replies, rest.error)
  }
}
