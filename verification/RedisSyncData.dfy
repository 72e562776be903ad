/** The message a value change is published with, and its parser. */
module RedisSyncData {
  import opened Wrappers
  import opened Bits
  import opened Bytes
  import opened StringValue

  datatype SyncType = Unset | Add | Delete | Set

  datatype Sync = Sync(kind: SyncType, first: nat, second: nat, values: map<nat, seq<byte>>)

  const FRESH := Sync(Unset, 0, 0, map[])

  // What Parse returns, or that a number in the message made it throw.
  datatype Outcome = Accepted | Rejected | Threw

  function ParseField(piece: seq<byte>, m: map<nat, seq<byte>>): (Outcome, map<nat, seq<byte>>) {
    var v := Split(piece, COLON);
    if |v| != 2 then (Rejected, m)
    else
      var id := Stoi(v[0]);
      if id.None? then (Threw, m) else (Accepted, m[id.value % UINT32 := v[1]])
  }

  function ParseFields(pieces: seq<seq<byte>>, m: map<nat, seq<byte>>): (Outcome, map<nat, seq<byte>>) {
    if pieces == [] then (Accepted, m)
    else
      var (o, m') := ParseField(pieces[0], m);
      if o.Accepted? then ParseFields(pieces[1..], m') else (o, m')
  }

  function ParseMsg(msg: seq<byte>, was: Sync): (Outcome, Sync) {
    var v := Split(CText(msg), BAR);
    if |v| < 3 then (Rejected, was)
    else
      var first := Stoull(v[1]);
      var second := Stoull(v[2]);
      if first.None? then (Threw, was)
      else if second.None? then (Threw, was.(first := first.value))
      else
        var keyed := was.(first := first.value, second := second.value);
        var c := if v[0] == [] then NUL else v[0][0];
        if c == UPPER_A then (Accepted, keyed.(kind := Add))
        else if c == UPPER_D then (Accepted, keyed.(kind := Delete))
        else if c == UPPER_S then
          if |v| < 4 then (Rejected, keyed.(kind := Set))
          else
            var (o, m) := ParseFields(v[3..], was.values);
            (o, keyed.(kind := Set, values := m))
        else (Accepted, keyed)
  }

  class RedisSyncData {
    var eType: SyncType
    var Firstkey: nat
    var SecondKey: nat
    var mValue: map<nat, seq<byte>>

    constructor ()
      ensures Value() == FRESH
    {
      eType, Firstkey, SecondKey, mValue := Unset, 0, 0, map[];
    }

    function Value(): Sync
      reads this
    {
      Sync(eType, Firstkey, SecondKey, mValue)
    }

    method Parse(pStrMsg: seq<byte>) returns (o: Outcome)
      modifies this
      ensures (o, Value()) == ParseMsg(pStrMsg, old(Value()))
    {
      hide Split, Stoull, CText, ParseField;
      var vSplit := SplitOut(CText(pStrMsg), BAR);
      if |vSplit| < 3 {
        return Rejected;
      }
      var first := Stoull(vSplit[1]);
      if first.None? {
        return Threw;
      }
      Firstkey := first.value;
      var second := Stoull(vSplit[2]);
      if second.None? {
        return Threw;
      }
      SecondKey := second.value;
      var c := if vSplit[0] == [] then NUL else vSplit[0][0];
      if c == UPPER_A {
        eType := Add;
      } else if c == UPPER_D {
        eType := Delete;
      } else if c == UPPER_S {
        eType := Set;
        if |vSplit| < 4 {
          return Rejected;
        }
        var i := 3;
        while i < |vSplit|
          invariant 3 <= i <= |vSplit|
          invariant ParseFields(vSplit[i..], mValue) == ParseFields(vSplit[3..], old(mValue))
          modifies this`mValue
        {
          assert vSplit[i..][1..] == vSplit[i + 1..];
          o := SetField(vSplit[i]);
          if !o.Accepted? {
            return;
          }
          i := i + 1;
        }
      }
      o := Accepted;
    }

    // One round of the loop of Parse
    method SetField(piece: seq<byte>) returns (o: Outcome)
      modifies this`mValue
      ensures (o, mValue) == ParseField(piece, old(mValue))
    {
      var vField := SplitOut(piece, COLON);
      if |vField| != 2 {
        return Rejected;
      }
      var iKeyField := Stoi(vField[0]);
      if iKeyField.None? {
        return Threw;
      }
      mValue := mValue[iKeyField.value % UINT32 := vField[1]];
      o := Accepted;
    }
  }

  // ---- What messages mean ----

  // The kind of a message is that of its first letter: added, deleted or set. Any other leaves
  // the kind as it was.
  lemma KeysParse(tag: seq<byte>, first: nat, second: nat, rest: seq<byte>, was: Sync)
    requires tag != [] && BAR !in tag && NUL !in tag && NUL !in rest && first < UINT64 && second < UINT64
    requires tag[0] != UPPER_S
    ensures ParseMsg(tag + [BAR] + (Decimal(first) + [BAR] + (Decimal(second) + [BAR] + rest)), was)
         == (Accepted, was.(first := first, second := second,
                            kind := if tag[0] == UPPER_A then Add else if tag[0] == UPPER_D then Delete else was.kind))
  {
    hide Split, Stoull, Decimal, CText;
    KeysSplit(tag, first, second, rest);
    KeysRead(first);
    KeysRead(second);
  }

  // The fields of a set message go to the values there are, one after the other.
  lemma FieldsParse(tag: seq<byte>, first: nat, second: nat, rest: seq<byte>, was: Sync)
    requires tag != [] && BAR !in tag && NUL !in tag && NUL !in rest && first < UINT64 && second < UINT64
    requires tag[0] == UPPER_S
    ensures var (o, s) := ParseMsg(tag + [BAR] + (Decimal(first) + [BAR] + (Decimal(second) + [BAR] + rest)), was);
            var pieces := Split(rest, BAR);
            && s.kind == Set && s.first == first && s.second == second
            && (pieces == [] ==> o == Rejected && s.values == was.values)
            && (pieces != [] ==> (o, s.values) == ParseFields(pieces, was.values))
  {
    hide Split, Stoull, Decimal, ParseFields, CText;
    KeysSplit(tag, first, second, rest);
    KeysRead(first);
    KeysRead(second);
    SetParses(tag + [BAR] + (Decimal(first) + [BAR] + (Decimal(second) + [BAR] + rest)), tag, Decimal(first),
              Decimal(second), Split(rest, BAR), was);
  }

  lemma SetParses(msg: seq<byte>, tag: seq<byte>, a: seq<byte>, b: seq<byte>, pieces: seq<seq<byte>>, was: Sync)
    requires Split(CText(msg), BAR) == [tag, a, b] + pieces && tag != [] && tag[0] == UPPER_S
    requires Stoull(a).Some? && Stoull(b).Some?
    ensures var (o, s) := ParseMsg(msg, was);
            && s.kind == Set && s.first == Stoull(a).value && s.second == Stoull(b).value
            && (pieces == [] ==> o == Rejected && s.values == was.values)
            && (pieces != [] ==> (o, s.values) == ParseFields(pieces, was.values))
  {
    hide Split, Stoull, ParseFields, CText;
    assert ([tag, a, b] + pieces)[3..] == pieces;
  }

  lemma KeysSplit(tag: seq<byte>, first: nat, second: nat, rest: seq<byte>)
    requires BAR !in tag && NUL !in tag && NUL !in rest
    ensures var msg := tag + [BAR] + (Decimal(first) + [BAR] + (Decimal(second) + [BAR] + rest));
            && CText(msg) == msg
            && Split(msg, BAR) == [tag, Decimal(first), Decimal(second)] + Split(rest, BAR)
  {
    hide Split, Decimal, CText;
    assert forall d :: d in Decimal(first) + Decimal(second) ==> IsDigit(d);
    var last := Decimal(second) + [BAR] + rest;
    var more := Decimal(first) + [BAR] + last;
    assert NUL !in more by {
      assert forall b :: b in more ==> IsDigit(b) || b == BAR || b in rest;
    }
    WholeText(tag + [BAR] + more);
    assert BAR !in Decimal(first) && BAR !in Decimal(second);
    SplitWord(tag, more, BAR);
    SplitWord(Decimal(first), last, BAR);
    SplitWord(Decimal(second), rest, BAR);
  }

  lemma KeysRead(n: nat)
    requires n < UINT64
    ensures Stoull(Decimal(n)) == Some(n)
  {
    hide Stoull, Decimal;
    StoullReads([], [], n, []);
    assert [] + ([] + (Decimal(n) + [])) == Decimal(n);
  }

  // A field of a set message gives its value to the number in front of the colon, which is taken
  // modulo 2^32 if an int holds it, and otherwise makes the parser throw.
  lemma FieldParses(sign: seq<byte>, n: nat, value: seq<byte>, m: map<nat, seq<byte>>)
    requires IsSign(sign) && value != [] && COLON !in value
    ensures var id := Number(sign, n);
            ParseField(sign + Decimal(n) + [COLON] + value, m)
              == if -0x8000_0000 <= id <= 0x7FFF_FFFF then (Accepted, m[id % UINT32 := value]) else (Threw, m)
  {
    hide Split, Stoi, Decimal;
    var word := sign + Decimal(n);
    assert forall b :: b in word ==> b in sign || IsDigit(b);
    SplitWord(word, value, COLON);
    SplitWord(value, [], COLON);
    StoiReads([], sign, n, []);
    assert [] + (sign + (Decimal(n) + [])) == word;
  }

  // No value that comes out of a message has a separator in it, nor a NUL.
  ghost predicate NoSeparators(v: seq<byte>) {
    BAR !in v && COLON !in v && NUL !in v
  }

  lemma {:induction false} ParsedFieldsClean(pieces: seq<seq<byte>>, m: map<nat, seq<byte>>)
    requires forall k :: k in m ==> NoSeparators(m[k])
    requires forall i :: 0 <= i < |pieces| ==> BAR !in pieces[i] && NUL !in pieces[i]
    ensures forall k :: k in ParseFields(pieces, m).1 ==> NoSeparators(ParseFields(pieces, m).1[k])
  {
    if pieces != [] {
      var v := Split(pieces[0], COLON);
      if |v| == 2 {
        PieceClean(pieces[0], COLON, 1);
      }
      var (o, m') := ParseField(pieces[0], m);
      if o.Accepted? {
        ParsedFieldsClean(pieces[1..], m');
      }
    }
  }

  lemma ParsedValuesClean(msg: seq<byte>)
    ensures var m := ParseMsg(msg, FRESH).1.values; forall k :: k in m ==> NoSeparators(m[k])
  {
    var v := Split(CText(msg), BAR);
    if |v| >= 4 {
      var pieces := v[3..];
      forall i | 0 <= i < |pieces|
        ensures BAR !in pieces[i] && NUL !in pieces[i]
      {
        PieceClean(CText(msg), BAR, i + 3);
      }
      ParsedFieldsClean(pieces, map[]);
    }
  }
}
