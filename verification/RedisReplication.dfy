/** What the write-behind buffer publishes, and what a subscriber makes of it. */
module RedisReplication {
  import opened Wrappers
  import opened Bits
  import opened Bytes
  import opened RedisBuffer
  import SV = StringValue
  import Sync = RedisSyncData

  // A value that survives the message.
  predicate Carried(v: seq<byte>) {
    v != [] && BAR !in v && COLON !in v && NUL !in v
  }

  ghost predicate AllCarried(fields: Fields) {
    forall id :: id in fields ==> id < 0x8000_0000 && Carried(fields[id])
  }

  ghost predicate NoneSeparates(fields: Fields) {
    forall id :: id in fields ==> Sync.NoSeparators(fields[id])
  }

  function FieldPieces(fields: Fields, order: seq<nat>): seq<seq<byte>>
    requires forall id :: id in order ==> id in fields
  {
    if order == [] then []
    else [Decimal(order[0]) + [COLON] + fields[order[0]]] + FieldPieces(fields, order[1..])
  }

  lemma DecimalHas(n: nat, b: byte)
    requires !IsDigit(b)
    ensures b !in Decimal(n)
  {
  }

  lemma {:induction false} SplitFields(fields: Fields, order: seq<nat>)
    requires NoneSeparates(fields) && forall id :: id in order ==> id in fields
    ensures SV.Split(PublishFields(fields, order), BAR) == FieldPieces(fields, order)
    ensures NUL !in PublishFields(fields, order)
  {
    hide SV.Split, Decimal;
    if order == [] {
      SV.SplitWord([], [], BAR);
    } else {
      var id := order[0];
      var w, rest := Decimal(id) + [COLON] + fields[id], PublishFields(fields, order[1..]);
      assert id in order && Sync.NoSeparators(fields[id]);
      DecimalHas(id, BAR);
      DecimalHas(id, NUL);
      SplitFields(fields, order[1..]);
      SV.SplitWord(w, rest, BAR);
      assert PublishFields(fields, order) == w + [BAR] + rest;
    }
  }

  // One field's piece of the message.
  lemma ParsePiece(id: nat, v: seq<byte>, m: map<nat, seq<byte>>)
    requires COLON !in v && id < UINT32
    ensures id < 0x8000_0000 && v != [] ==>
              Sync.ParseField(Decimal(id) + [COLON] + v, m) == (Sync.Accepted, m[id := v])
    ensures id >= 0x8000_0000 || v == [] ==> !Sync.ParseField(Decimal(id) + [COLON] + v, m).0.Accepted?
  {
    hide SV.Split, SV.Numeral, Decimal;
    DecimalHas(id, COLON);
    SV.SplitWord(Decimal(id), v, COLON);
    SV.SplitWord(v, [], COLON);
    SV.NumeralOfDecimal(id);
    var pieces := SV.Split(Decimal(id) + [COLON] + v, COLON);
    assert pieces == if v == [] then [Decimal(id)] else [Decimal(id), v];
    assert SV.Stoi(Decimal(id)) == if id < 0x8000_0000 then Some(id) else None;
  }

  function Part(fields: Fields, order: seq<nat>): Fields
    requires forall id :: id in order ==> id in fields
  {
    map id | id in order :: fields[id]
  }

  lemma PartMore(fields: Fields, order: seq<nat>, m: Fields)
    requires order != [] && forall id :: id in order ==> id in fields
    ensures forall id :: id in order <==> id == order[0] || id in order[1..]
    ensures m[order[0] := fields[order[0]]] + Part(fields, order[1..]) == m + Part(fields, order)
  {
    assert forall id :: id in order <==> id == order[0] || id in order[1..];
  }

  lemma NoPart(fields: Fields, m: Fields)
    ensures m + Part(fields, []) == m
  {
  }

  lemma WholePart(fields: Fields, order: seq<nat>)
    requires forall id :: id in order <==> id in fields
    ensures map[] + Part(fields, order) == fields
  {
  }

  lemma {:induction false} ParsePieces(fields: Fields, order: seq<nat>, m: map<nat, seq<byte>>)
    requires NoneSeparates(fields) && forall id :: id in order ==> id in fields && id < UINT32
    ensures (forall id :: id in order ==> id < 0x8000_0000 && fields[id] != []) ==>
              Sync.ParseFields(FieldPieces(fields, order), m)
                == (Sync.Accepted, m + Part(fields, order))
    ensures !(forall id :: id in order ==> id < 0x8000_0000 && fields[id] != []) ==>
              !Sync.ParseFields(FieldPieces(fields, order), m).0.Accepted?
  {
    hide Sync.ParseField, Decimal, Part;
    if order == [] {
      NoPart(fields, m);
    } else {
      var id, rest := order[0], order[1..];
      PartMore(fields, order, m);
      assert Sync.NoSeparators(fields[id]);
      ParsePiece(id, fields[id], m);
      ParsePieces(fields, rest, m[id := fields[id]]);
    }
  }

  lemma SplitThree(a: seq<byte>, b: seq<byte>, c: seq<byte>, rest: seq<byte>)
    requires BAR !in a && BAR !in b && BAR !in c
    ensures SV.Split(a + [BAR] + (b + [BAR] + (c + [BAR] + rest)), BAR) == [a, b, c] + SV.Split(rest, BAR)
  {
    hide SV.Split;
    SV.SplitWord(c, rest, BAR);
    SV.SplitWord(b, c + [BAR] + rest, BAR);
    SV.SplitWord(a, b + [BAR] + (c + [BAR] + rest), BAR);
  }

  lemma PayloadShape(a: seq<byte>, b: seq<byte>, rest: seq<byte>)
    ensures [UPPER_S, BAR] + a + [BAR] + b + [BAR] + rest == [UPPER_S] + [BAR] + (a + [BAR] + (b + [BAR] + rest))
  {
  }

  lemma PayloadSplits(g: Group)
    requires GroupOk(g) && NoneSeparates(g.fields)
    ensures forall id :: id in Ascending(g.fields.Keys) <==> id in g.fields
    ensures NUL !in Payload(g)
    ensures SV.Split(Payload(g), BAR)
         == [[UPPER_S], Decimal(g.first), Decimal(g.second)] + FieldPieces(g.fields, Ascending(g.fields.Keys))
  {
    hide SV.Split, Decimal, Ascending, FieldPieces, PublishFields;
    AscendingIs(g.fields.Keys);
    var order := Ascending(g.fields.Keys);
    var a, b, rest := Decimal(g.first), Decimal(g.second), PublishFields(g.fields, order);
    SplitFields(g.fields, order);
    DecimalHas(g.first, NUL);
    DecimalHas(g.second, NUL);
    DecimalHas(g.first, BAR);
    DecimalHas(g.second, BAR);
    PayloadShape(a, b, rest);
    SplitThree([UPPER_S], a, b, rest);
  }

  ghost predicate GroupOk(g: Group) {
    g.first < UINT64 && g.second < UINT64 && g.fields != map[] && forall id :: id in g.fields ==> id < UINT32
  }

  // Without separators in the values, the parser sees the fields one by one.
  lemma PayloadFields(g: Group)
    requires GroupOk(g) && NoneSeparates(g.fields)
    ensures AllCarried(g.fields) ==>
              Sync.ParseMsg(Payload(g), Sync.FRESH) == (Sync.Accepted, Sync.Sync(Sync.Set, g.first, g.second, g.fields))
    ensures !AllCarried(g.fields) ==> !Sync.ParseMsg(Payload(g), Sync.FRESH).0.Accepted?
  {
    hide SV.Split, SV.Numeral, Decimal, Sync.ParseFields, Sync.ParseMsg, CText, Ascending, FieldPieces, Payload,
         Part;
    var order := Ascending(g.fields.Keys);
    PayloadSplits(g);
    WholeText(Payload(g));
    SV.NumeralOfDecimal(g.first);
    SV.NumeralOfDecimal(g.second);
    ParsePieces(g.fields, order, map[]);
    SomePiece(g.fields, order);
    WholePart(g.fields, order);
    MessageOf(Payload(g), g.first, g.second, FieldPieces(g.fields, order));
  }

  lemma MessageOf(msg: seq<byte>, first: nat, second: nat, pieces: seq<seq<byte>>)
    requires SV.Split(CText(msg), BAR) == [[UPPER_S], Decimal(first), Decimal(second)] + pieces && pieces != []
    requires SV.Stoull(Decimal(first)) == Some(first) && SV.Stoull(Decimal(second)) == Some(second)
    ensures var (o, m) := Sync.ParseFields(pieces, map[]);
            Sync.ParseMsg(msg, Sync.FRESH) == (o, Sync.Sync(Sync.Set, first, second, m))
  {
    hide SV.Split, SV.Stoull, Decimal, Sync.ParseFields, CText;
    var v := SV.Split(CText(msg), BAR);
    assert v[0] == [UPPER_S] && v[3..] == pieces;
  }

  lemma SomePiece(fields: Fields, order: seq<nat>)
    requires fields != map[] && forall id :: id in order <==> id in fields
    ensures FieldPieces(fields, order) != []
  {
    var id :| id in fields;
    assert id in order;
  }

  // A subscriber reads back exactly what was published if and only if every value is non-empty
  // and free of the separators and of NUL, and every field id fits an int.
  lemma PayloadRoundTripIff(g: Group)
    requires GroupOk(g)
    ensures Sync.ParseMsg(Payload(g), Sync.FRESH) == (Sync.Accepted, Sync.Sync(Sync.Set, g.first, g.second, g.fields))
       <==> AllCarried(g.fields)
  {
    hide Sync.ParseMsg, Payload;
    Sync.ParsedValuesClean(Payload(g));
    if NoneSeparates(g.fields) {
      PayloadFields(g);
    }
  }

  // ---- From changes to messages ----

  lemma {:induction false} ApplyAllValid(changes: seq<Change>)
    requires forall i :: 0 <= i < |changes| ==> ChangeOk(changes[i])
    ensures Valid(ApplyAll(changes))
  {
    if changes != [] {
      ApplyAllValid(changes[..|changes| - 1]);
      ApplyValid(ApplyAll(changes[..|changes| - 1]), changes[|changes| - 1]);
    }
  }

  // Whatever was written since the last batch, its groups hold the last value of every field that
  // was written, in one place, and nothing else.
  lemma GroupsAreLastValues(changes: seq<Change>)
    requires forall i :: 0 <= i < |changes| ==> ChangeOk(changes[i])
    ensures var gs := Groups(ApplyAll(changes));
            && Apart(gs)
            && (forall g :: g in gs ==> GroupOk(g))
            && (forall g, id :: g in gs && id in g.fields ==>
                  g.table == id - id % 256 && LastValue(changes, g.first, g.second, id) == Some(g.fields[id]))
    ensures forall first, second, id :: LastValue(changes, first, second, id).Some? ==>
              exists g :: g in Groups(ApplyAll(changes)) && g.first == first && g.second == second && id in g.fields
  {
    hide Groups, TableOf, LastValue, ApplyAll;
    var b := ApplyAll(changes);
    ApplyAllValid(changes);
    GroupsHave(b);
    forall g | g in Groups(b)
      ensures GroupOk(g) && forall id :: id in g.fields ==>
                g.table == id - id % 256 && LastValue(changes, g.first, g.second, id) == Some(g.fields[id])
    {
      GroupFields(b, g);
      forall id | id in g.fields
        ensures LastValue(changes, g.first, g.second, id) == Some(g.fields[id])
      {
        LastValueWins(changes, g.first, g.second, id);
      }
    }
    forall first, second, id | LastValue(changes, first, second, id).Some?
      ensures exists g :: g in Groups(b) && g.first == first && g.second == second && id in g.fields
    {
      LastValueWins(changes, first, second, id);
      var g := Group(TableOf(id), first, second, b[TableOf(id)][first][second]);
      assert InTables(g, b);
      assert g in Groups(b) && id in g.fields;
    }
  }

  lemma GroupFields(b: Tables, g: Group)
    requires Valid(b) && InTables(g, b)
    ensures GroupOk(g)
    ensures forall id :: id in g.fields ==>
              g.table == id - id % 256 && Lookup(b, g.first, g.second, id) == Some(g.fields[id])
  {
    hide TableOf, Valid;
    FieldsAt(b, g.table, g.first, g.second);
    forall id | id in g.fields
      ensures TableOf(id) == id - id % 256
    {
      TableIs(id);
    }
  }

  lemma FieldsAt(b: Tables, t: nat, f: nat, s: nat)
    requires Valid(b) && t in b && f in b[t] && s in b[t][f]
    ensures f < UINT64 && s < UINT64 && FieldsOk(t, b[t][f][s])
  {
    hide TableOf, FieldsOk;
    assert FirstsOk(t, b[t]);
    assert SecondsOk(t, b[t][f]);
  }
}
