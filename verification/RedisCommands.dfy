/** What hiredis makes of the texts the write-behind buffer gives it as format strings, and which
    keys the save commands write to. */
module RedisCommands {
  import opened Wrappers
  import opened Bytes
  import opened RedisBuffer
  import RF = RespFormat
  import RR = RedisReplication
  import SV = StringValue

  // The command made of the text is the list of words: the text is a C string, so it ends at the
  // first NUL.
  ghost predicate Reads(text: seq<byte>, words: seq<seq<byte>>) {
    var ps := RF.Pieces(CText(text), []);
    ps.Some? && RF.Tokens(ps.value) == words
  }

  predicate Clean(w: seq<byte>) {
    SPACE !in w && PERCENT !in w && NUL !in w
  }

  predicate IsWord(w: seq<byte>) {
    w != [] && Clean(w)
  }

  // A percent sign at the very end stands for itself.
  predicate CleanLast(w: seq<byte>) {
    Clean(w) || (w != [] && w[|w| - 1] == PERCENT && Clean(w[..|w| - 1]))
  }

  ghost predicate PercentAtEnd(w: seq<byte>) {
    forall i :: 0 <= i < |w| - 1 ==> w[i] != PERCENT
  }

  // Every word with a space behind it
  function Lined(ws: seq<seq<byte>>): seq<byte> {
    if ws == [] then [] else ws[0] + [SPACE] + Lined(ws[1..])
  }

  lemma LinedTwo(a: seq<byte>, b: seq<byte>, rest: seq<seq<byte>>)
    ensures Lined([a, b] + rest) == a + [SPACE] + (b + [SPACE] + Lined(rest)) && Lined([]) == []
  {
    assert ([a, b] + rest)[1..] == [b] + rest && ([b] + rest)[1..] == rest;
  }

  function WithLast(ws: seq<seq<byte>>, last: seq<byte>): seq<seq<byte>> {
    if last == [] then ws else ws + [last]
  }

  // ---- Words are read as they are ----

  function Literals(w: seq<byte>): seq<RF.Piece> {
    seq(|w|, i requires 0 <= i < |w| => RF.Literal(w[i]))
  }

  lemma {:induction false} PlainPieces(w: seq<byte>)
    requires PercentAtEnd(w)
    ensures RF.Pieces(w, []) == Some(Literals(w))
  {
    if w == [] {
      assert Literals(w) == [];
    } else {
      assert forall i :: 0 <= i < |w[1..]| ==> w[1..][i] == w[i + 1];
      PlainPieces(w[1..]);
      assert [RF.Literal(w[0])] + Literals(w[1..]) == Literals(w);
    }
  }

  lemma {:induction false} JoinedLiterals(w: seq<byte>)
    ensures RF.Joined(Literals(w)) == w
  {
    if w != [] {
      JoinedLiterals(w[1..]);
      assert Literals(w)[1..] == Literals(w[1..]);
      assert [w[0]] + w[1..] == w;
    }
  }

  lemma FirstToken(w: seq<byte>, rest: seq<byte>)
    requires w != [] && SPACE !in w
    ensures RF.Tokens(Literals(w + [SPACE] + rest)) == [w] + RF.Tokens(Literals(rest))
    ensures RF.Tokens(Literals(w)) == [w]
  {
    hide RF.Joined, RF.WordLength;
    var ps, tail := Literals(w), [RF.BLANK] + Literals(rest);
    assert forall i :: 0 <= i < |ps| ==> ps[i] == RF.Literal(w[i]) && w[i] in w;
    JoinedLiterals(w);
    RF.WordEnds(ps, tail);
    assert Literals(w + [SPACE] + rest) == ps + tail;
    assert (ps + tail)[..|ps|] == ps && (ps + tail)[|ps|..] == tail;
    assert tail[1..] == Literals(rest);
    assert RF.Tokens(tail) == RF.Tokens(Literals(rest));
    RF.WordEnds(ps, []);
    assert ps + [] == ps && ps[..|ps|] == ps && ps[|ps|..] == [];
  }

  lemma {:induction false} WordsRead(ws: seq<seq<byte>>, last: seq<byte>)
    requires (forall i :: 0 <= i < |ws| ==> IsWord(ws[i])) && CleanLast(last)
    ensures RF.Tokens(Literals(Lined(ws) + last)) == WithLast(ws, last)
    ensures PercentAtEnd(Lined(ws) + last) && NUL !in Lined(ws) + last
  {
    hide RF.Tokens, Literals;
    if ws == [] {
      assert Lined(ws) + last == last;
      if last == [] {
        NothingRead();
      } else {
        FirstToken(last, []);
      }
    } else {
      WordsRead(ws[1..], last);
      FirstToken(ws[0], Lined(ws[1..]) + last);
      assert Lined(ws) + last == ws[0] + [SPACE] + (Lined(ws[1..]) + last);
      assert [ws[0]] + WithLast(ws[1..], last) == WithLast(ws, last);
    }
  }

  lemma NothingRead()
    ensures RF.Tokens(Literals([])) == []
  {
  }

  // ---- What is read are words, and bytes are lost at spaces and percent signs ----

  function Lost(format: seq<byte>): nat {
    if format == [] then 0
    else if format[0] != PERCENT || |format| == 1 then (if format[0] == SPACE then 1 else 0) + Lost(format[1..])
    else 1 + Lost(format[2..])
  }

  function Spaces(s: seq<byte>): nat {
    if s == [] then 0 else (if s[0] == SPACE then 1 else 0) + Spaces(s[1..])
  }

  function Length(words: seq<seq<byte>>): nat {
    if words == [] then 0 else |words[0]| + Length(words[1..])
  }

  function Inked(ps: seq<RF.Piece>): nat {
    if ps == [] then 0 else (if ps[0] == RF.BLANK then 0 else |RF.Content(ps[0])|) + Inked(ps[1..])
  }

  lemma {:induction false} PiecesInked(format: seq<byte>)
    ensures RF.Pieces(format, []).Some? ==> Inked(RF.Pieces(format, []).value) + Lost(format) == |format|
  {
    if format != [] {
      if format[0] != PERCENT || |format| == 1 {
        PiecesInked(format[1..]);
      } else if format[1] == PERCENT {
        PiecesInked(format[2..]);
      }
    }
  }

  lemma {:induction false} InkedConcat(ps: seq<RF.Piece>, qs: seq<RF.Piece>)
    requires forall i :: 0 <= i < |ps| ==> ps[i] != RF.BLANK
    ensures Inked(ps + qs) == |RF.Joined(ps)| + Inked(qs)
  {
    if ps == [] {
      assert ps + qs == qs;
    } else {
      InkedConcat(ps[1..], qs);
      assert (ps + qs)[1..] == ps[1..] + qs;
    }
  }

  lemma {:induction false} TokensInked(ps: seq<RF.Piece>)
    ensures Length(RF.Tokens(ps)) == Inked(ps)
    decreases |ps|
  {
    hide RF.Joined;
    if ps != [] {
      if ps[0] == RF.BLANK {
        TokensInked(ps[1..]);
      } else {
        var k := RF.WordLength(ps);
        TokensInked(ps[k..]);
        InkedConcat(ps[..k], ps[k..]);
        assert ps[..k] + ps[k..] == ps;
      }
    }
  }

  // Only a %% loses more than the spaces do.
  lemma {:induction false} LostAtPercent(format: seq<byte>)
    requires RF.Pieces(format, []).Some?
    ensures Lost(format) >= Spaces(format)
    ensures Lost(format) == Spaces(format) ==> PercentAtEnd(format)
  {
    if format != [] {
      assert format == [format[0]] + format[1..];
      if |format| == 1 {
        assert format[1..] == [];
      } else if format[0] != PERCENT {
        LostAtPercent(format[1..]);
        assert forall i :: 0 < i < |format| ==> format[i] == format[1..][i - 1];
      } else {
        var rest := format[2..];
        assert format[1..] == [format[1]] + rest && format[1] == PERCENT;
        LostAtPercent(rest);
      }
    }
  }

  ghost predicate Inky(ps: seq<RF.Piece>) {
    forall i :: 0 <= i < |ps| ==> ps[i].Literal? && ps[i].b != NUL
  }

  lemma {:induction false} PiecesInky(format: seq<byte>)
    requires NUL !in format && RF.Pieces(format, []).Some?
    ensures Inky(RF.Pieces(format, []).value)
  {
    if format != [] {
      if format[0] != PERCENT || |format| == 1 {
        PiecesInky(format[1..]);
      } else {
        PiecesInky(format[2..]);
      }
    }
  }

  lemma {:induction false} JoinedInky(ps: seq<RF.Piece>)
    requires Inky(ps) && forall i :: 0 <= i < |ps| ==> ps[i] != RF.BLANK
    ensures |RF.Joined(ps)| == |ps| && SPACE !in RF.Joined(ps) && NUL !in RF.Joined(ps)
  {
    if ps != [] {
      JoinedInky(ps[1..]);
    }
  }

  lemma {:induction false} TokensInky(ps: seq<RF.Piece>)
    requires Inky(ps)
    ensures forall t :: t in RF.Tokens(ps) ==> t != [] && SPACE !in t && NUL !in t
    decreases |ps|
  {
    hide RF.Joined;
    if ps != [] {
      if ps[0] == RF.BLANK {
        TokensInky(ps[1..]);
      } else {
        var k := RF.WordLength(ps);
        JoinedInky(ps[..k]);
        TokensInky(ps[k..]);
      }
    }
  }

  lemma {:induction false} LinedSizes(ws: seq<seq<byte>>, last: seq<byte>)
    requires (forall i :: 0 <= i < |ws| ==> SPACE !in ws[i]) && SPACE !in last
    ensures |Lined(ws) + last| == Length(WithLast(ws, last)) + |ws|
    ensures Spaces(Lined(ws) + last) == |ws|
  {
    hide Spaces;
    if ws == [] {
      assert Lined(ws) + last == last;
      SpacesBehind(last, []);
      assert last + [] == last && WithLast(ws, last)[..] == WithLast(ws, last);
      assert last != [] ==> WithLast(ws, last)[1..] == [];
    } else {
      LinedSizes(ws[1..], last);
      var rest := Lined(ws[1..]) + last;
      SpacesBehind(ws[0], [SPACE] + rest);
      SpaceCounts(rest);
      assert Lined(ws) + last == ws[0] + ([SPACE] + rest);
      assert WithLast(ws, last)[1..] == WithLast(ws[1..], last);
    }
  }

  lemma {:induction false} SpacesBehind(w: seq<byte>, rest: seq<byte>)
    requires SPACE !in w
    ensures Spaces(w + rest) == Spaces(rest) && Spaces([]) == 0
  {
    if w == [] {
      assert w + rest == rest;
    } else {
      SpacesBehind(w[1..], rest);
      assert (w + rest)[1..] == w[1..] + rest;
    }
  }

  lemma SpaceCounts(rest: seq<byte>)
    ensures Spaces([SPACE] + rest) == 1 + Spaces(rest)
  {
    assert ([SPACE] + rest)[1..] == rest;
  }

  // hiredis reads back the words a text was made of if and only if they are non-empty and free of
  // spaces, percent signs and NULs, but for a percent sign that ends the text.
  lemma WordsIff(ws: seq<seq<byte>>, last: seq<byte>)
    ensures Reads(Lined(ws) + last, WithLast(ws, last))
       <==> (forall i :: 0 <= i < |ws| ==> IsWord(ws[i])) && CleanLast(last)
  {
    hide RF.Pieces, RF.Tokens, Literals, Lost, Inked, CText, Length, Lined;
    var text, words := Lined(ws) + last, WithLast(ws, last);
    if (forall i :: 0 <= i < |ws| ==> IsWord(ws[i])) && CleanLast(last) {
      WordsRead(ws, last);
      WholeText(text);
      PlainPieces(text);
    } else if Reads(text, words) {
      ReadWords(text, words);
      assert forall i :: 0 <= i < |ws| ==> words[i] == ws[i] && words[i] in words;
      assert last != [] ==> words[|ws|] == last && last in words;
      LinedNoNul(ws, last);
      WholeText(text);
      LinedSizes(ws, last);
      var ps := RF.Pieces(text, []);
      PiecesInked(text);
      TokensInked(ps.value);
      LostAtPercent(text);
      LinedHas(ws, last);
    }
  }

  lemma ReadWords(text: seq<byte>, words: seq<seq<byte>>)
    requires Reads(text, words)
    ensures forall w :: w in words ==> w != [] && SPACE !in w && NUL !in w
  {
    var format := CText(text);
    PiecesInky(format);
    TokensInky(RF.Pieces(format, []).value);
  }

  lemma {:induction false} LinedHas(ws: seq<seq<byte>>, last: seq<byte>)
    requires PercentAtEnd(Lined(ws) + last)
    ensures (forall i :: 0 <= i < |ws| ==> PERCENT !in ws[i]) && PercentAtEnd(last)
  {
    if ws == [] {
      assert Lined(ws) + last == last;
    } else {
      var text, rest := Lined(ws) + last, Lined(ws[1..]) + last;
      var n := |ws[0]| + 1;
      assert text == ws[0] + [SPACE] + rest;
      assert forall i :: 0 <= i < |ws[0]| ==> text[i] == ws[0][i];
      assert forall i :: 0 <= i < |rest| ==> rest[i] == text[n + i];
      LinedHas(ws[1..], last);
      assert forall i :: 0 < i < |ws| ==> ws[i] == ws[1..][i - 1];
    }
  }

  lemma {:induction false} LinedNoNul(ws: seq<seq<byte>>, last: seq<byte>)
    requires (forall i :: 0 <= i < |ws| ==> NUL !in ws[i]) && NUL !in last
    ensures NUL !in Lined(ws) + last
  {
    if ws != [] {
      LinedNoNul(ws[1..], last);
    }
  }

  // ---- The publish command ----

  ghost predicate Plain(fields: Fields) {
    forall id :: id in fields ==> Clean(fields[id])
  }

  lemma {:induction false} FieldBytes(fields: Fields, order: seq<nat>, b: byte)
    requires forall id :: id in order ==> id in fields
    requires !IsDigit(b) && b != COLON && b != BAR
    ensures b in PublishFields(fields, order) <==> exists id :: id in order && b in fields[id]
  {
    hide Decimal;
    if order != [] {
      RR.DecimalHas(order[0], b);
      FieldBytes(fields, order[1..], b);
      assert forall id :: id in order <==> id == order[0] || id in order[1..];
    }
  }

  lemma PayloadBytes(g: Group, b: byte)
    requires !IsDigit(b) && b != COLON && b != BAR && b != UPPER_S
    ensures b in Payload(g) <==> exists id :: id in g.fields && b in g.fields[id]
  {
    hide Decimal, PublishFields, Ascending;
    AscendingIs(g.fields.Keys);
    FieldBytes(g.fields, Ascending(g.fields.Keys), b);
    RR.DecimalHas(g.first, b);
    RR.DecimalHas(g.second, b);
  }

  lemma PayloadEnds(g: Group)
    ensures Payload(g) != [] && Payload(g)[|Payload(g)| - 1] == BAR
  {
    hide Decimal, Ascending;
    AscendingIs(g.fields.Keys);
    FieldsEnd(g.fields, Ascending(g.fields.Keys));
  }

  lemma {:induction false} FieldsEnd(fields: Fields, order: seq<nat>)
    requires forall id :: id in order ==> id in fields
    ensures var s := PublishFields(fields, order); s != [] ==> s[|s| - 1] == BAR
  {
    if order != [] {
      FieldsEnd(fields, order[1..]);
    }
  }

  // hiredis makes the three arguments PUBLISH, channel and message of the publish command if and
  // only if no value has a space, a percent sign or a NUL.
  lemma PublishTokensIff(g: Group)
    ensures Reads(Publish(g), [PUBLISH, Decimal(g.table), Payload(g)]) <==> Plain(g.fields)
  {
    hide Decimal, Payload, Reads;
    PayloadBytes(g, SPACE);
    PayloadBytes(g, PERCENT);
    PayloadBytes(g, NUL);
    PayloadEnds(g);
    RR.DecimalHas(g.table, SPACE);
    RR.DecimalHas(g.table, PERCENT);
    RR.DecimalHas(g.table, NUL);
    assert Clean(Payload(g)) <==> Plain(g.fields);
    var ws := [PUBLISH, Decimal(g.table)];
    WordsIff(ws, Payload(g));
    assert ws == [PUBLISH, Decimal(g.table)] + [];
    LinedTwo(PUBLISH, Decimal(g.table), []);
    assert Lined(ws) + Payload(g) == Publish(g);
    assert IsWord(ws[0]) && IsWord(ws[1]);
    assert WithLast(ws, Payload(g)) == [PUBLISH, Decimal(g.table), Payload(g)];
  }

  // ---- The save command ----

  function FieldWords(fields: Fields, order: seq<nat>, names: Names): seq<seq<byte>>
    requires forall id :: id in order ==> id in fields && id in names.fields
  {
    if order == [] then []
    else [names.fields[order[0]], fields[order[0]]] + FieldWords(fields, order[1..], names)
  }

  function KeyOf(g: Group, names: Names): seq<byte>
    requires g.table in names.keys
  {
    SaveKey(names.keys[g.table], g.first, g.second)
  }

  // HMSET, the key, and each field with its value
  function SaveWords(g: Group, names: Names): seq<seq<byte>>
    requires Named(g, names)
  {
    AscendingIs(g.fields.Keys);
    [HMSET, KeyOf(g, names)] + FieldWords(g.fields, Ascending(g.fields.Keys), names)
  }

  lemma {:induction false} SaveFieldsLined(fields: Fields, order: seq<nat>, names: Names)
    requires forall id :: id in order ==> id in fields && id in names.fields
    ensures SaveFields(fields, order, names) == Lined(FieldWords(fields, order, names))
  {
    if order != [] {
      SaveFieldsLined(fields, order[1..], names);
      var f, v, rest := names.fields[order[0]], fields[order[0]], FieldWords(fields, order[1..], names);
      LinedTwo(f, v, rest);
    }
  }

  lemma {:induction false} FieldWordsAre(fields: Fields, order: seq<nat>, names: Names)
    requires forall id :: id in order ==> id in fields && id in names.fields
    ensures (forall i :: 0 <= i < |FieldWords(fields, order, names)| ==> IsWord(FieldWords(fields, order, names)[i]))
       <==> forall id :: id in order ==> IsWord(names.fields[id]) && IsWord(fields[id])
  {
    hide IsWord;
    if order != [] {
      var two, rest := [names.fields[order[0]], fields[order[0]]], FieldWords(fields, order[1..], names);
      FieldWordsAre(fields, order[1..], names);
      var ws := FieldWords(fields, order, names);
      assert ws == two + rest && ws[0] == two[0] && ws[1] == two[1];
      assert forall i :: 0 <= i < |rest| ==> ws[i + 2] == rest[i];
      assert forall i :: 2 <= i < |ws| ==> ws[i] == rest[i - 2];
      assert forall id :: id in order <==> id == order[0] || id in order[1..];
    }
  }

  // hiredis makes HMSET, key, fields and values of the save command if and only if every value,
  // every field name and the key are non-empty and have no space, percent sign or NUL. An empty
  // value loses its argument, and a space makes one more.
  lemma SaveTokensIff(g: Group, names: Names)
    requires Named(g, names)
    ensures Reads(Save(g, names), SaveWords(g, names))
       <==> IsWord(KeyOf(g, names)) && forall id :: id in g.fields ==> IsWord(names.fields[id]) && IsWord(g.fields[id])
  {
    hide Reads, Ascending, FieldWords, SaveFields, SaveKey, IsWord;
    AscendingIs(g.fields.Keys);
    var order := Ascending(g.fields.Keys);
    var ws, rest := SaveWords(g, names), FieldWords(g.fields, order, names);
    SaveFieldsLined(g.fields, order, names);
    FieldWordsAre(g.fields, order, names);
    LinedTwo(HMSET, KeyOf(g, names), rest);
    assert Lined(ws) + [] == Save(g, names);
    WordsIff(ws, []);
    HmsetIsWord();
    assert forall i :: 0 <= i < |rest| ==> ws[i + 2] == rest[i];
    assert forall i :: 2 <= i < |ws| ==> ws[i] == rest[i - 2];
  }

  lemma HmsetIsWord()
    ensures IsWord(HMSET) && Clean([])
  {
  }

  // ---- The keys that are written ----

  // Tables have different names, without the colon that separates the parts of a key.
  ghost predicate NamesOk(names: Names) {
    && (forall t :: t in names.keys ==> names.keys[t] != [] && COLON !in names.keys[t])
    && (forall t, u :: t in names.keys && u in names.keys && names.keys[t] == names.keys[u] ==> t == u)
  }

  // A first key of 0 hides the second one.
  ghost predicate SameKey(g: Group, h: Group) {
    g.table == h.table && g.first == h.first && (g.first == 0 || g.second == h.second)
  }

  lemma KeyParts(name: seq<byte>, first: nat, second: nat)
    requires name != [] && COLON !in name
    ensures SV.Split(SaveKey(name, first, second), COLON)
         == [name] + (if first == 0 then [] else [Decimal(first)])
                   + (if first == 0 || second == 0 then [] else [Decimal(second)])
  {
    hide SV.Split, Decimal;
    RR.DecimalHas(first, COLON);
    RR.DecimalHas(second, COLON);
    SV.SplitWord(name, Decimal(first), COLON);
    SV.SplitWord(name, Decimal(first) + [COLON] + Decimal(second), COLON);
    SV.SplitWord(Decimal(first), Decimal(second), COLON);
    SV.SplitWord(Decimal(second), [], COLON);
    assert name + [COLON] + Decimal(first) + [COLON] + Decimal(second)
        == name + [COLON] + (Decimal(first) + [COLON] + Decimal(second));
  }

  // Two groups are saved under one key if and only if they share the table and the first key and,
  // unless that is 0, the second.
  lemma SaveKeyIff(g: Group, h: Group, names: Names)
    requires NamesOk(names) && g.table in names.keys && h.table in names.keys
    ensures KeyOf(g, names) == KeyOf(h, names) <==> SameKey(g, h)
  {
    hide SV.Split, SaveKey, Decimal;
    KeyParts(names.keys[g.table], g.first, g.second);
    KeyParts(names.keys[h.table], h.first, h.second);
    ValueOfDecimal(g.first);
    ValueOfDecimal(g.second);
    ValueOfDecimal(h.first);
    ValueOfDecimal(h.second);
    if KeyOf(g, names) == KeyOf(h, names) {
      var a, b := SV.Split(KeyOf(g, names), COLON), SV.Split(KeyOf(h, names), COLON);
      assert a[0] == names.keys[g.table] && b[0] == names.keys[h.table];
      assert g.first != 0 ==> a[1] == Decimal(g.first);
      assert h.first != 0 ==> b[1] == Decimal(h.first);
      assert g.first != 0 && g.second != 0 ==> a[2] == Decimal(g.second);
      assert h.first != 0 && h.second != 0 ==> b[2] == Decimal(h.second);
    }
    SameParts(g, h, names);
  }

  lemma SameParts(g: Group, h: Group, names: Names)
    requires g.table in names.keys && h.table in names.keys
    ensures SameKey(g, h) ==> KeyOf(g, names) == KeyOf(h, names)
  {
  }

  ghost predicate Clash(g: Group, h: Group) {
    g.table == h.table && g.first == 0 && h.first == 0
  }

  // The groups of a batch are saved under different keys if and only if no two of them share a
  // table with first key 0; then the later one overwrites fields of the earlier one.
  lemma DistinctKeysIff(b: Tables, names: Names)
    requires NamesOk(names) && forall t :: t in b ==> t in names.keys
    ensures (forall g :: g in Groups(b) ==> g.table in names.keys)
    ensures (forall i, j :: 0 <= i < j < |Groups(b)| ==> KeyOf(Groups(b)[i], names) != KeyOf(Groups(b)[j], names))
       <==> !exists i, j :: 0 <= i < j < |Groups(b)| && Clash(Groups(b)[i], Groups(b)[j])
  {
    hide Groups, KeyOf;
    var gs := Groups(b);
    GroupsHave(b);
    assert forall i :: 0 <= i < |gs| ==> gs[i] in gs;
    forall i, j | 0 <= i < j < |gs|
      ensures KeyOf(gs[i], names) == KeyOf(gs[j], names)
         <==> Clash(gs[i], gs[j])
    {
      SaveKeyIff(gs[i], gs[j], names);
    }
  }
}
