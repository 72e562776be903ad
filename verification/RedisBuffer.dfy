/** The write-behind buffer: value changes are collected by table, first and second key, and
    written out as one save and one publish command for each group. */
module RedisBuffer {
  import opened Wrappers
  import opened Bytes
  import opened Bits

  const HMSET: seq<byte> := [72, 77, 83, 69, 84]
  const PUBLISH: seq<byte> := [112, 117, 98, 108, 105, 115, 104]

  type Fields = map<nat, seq<byte>>
  type Seconds = map<nat, Fields>
  type Firsts = map<nat, Seconds>
  type Tables = map<nat, Firsts>

  datatype Change = Change(first: nat, second: nat, id: nat, value: seq<byte>)

  // iKeyField & ~0xFF
  function TableOf(id: nat): nat {
    And(id, 0xFFFF_FF00)
  }

  // The table of a field is its number without the low byte.
  lemma TableIs(id: nat)
    requires id < UINT32
    ensures TableOf(id) == id - id % 256
  {
    AndHighBytes(id);
  }

  function Found<V>(m: map<nat, map<nat, V>>, k: nat): map<nat, V> {
    if k in m then m[k] else map[]
  }

  // operator[] creates what is not there.
  function Apply(b: Tables, c: Change): Tables {
    var firsts := Found(b, TableOf(c.id));
    var seconds := Found(firsts, c.first);
    var fields := Found(seconds, c.second);
    b[TableOf(c.id) := firsts[c.first := seconds[c.second := fields[c.id := c.value]]]]
  }

  // ---- What is in the buffer ----

  function Lookup(b: Tables, first: nat, second: nat, id: nat): Option<seq<byte>> {
    var t := TableOf(id);
    if t in b && first in b[t] && second in b[t][first] && id in b[t][first][second]
    then Some(b[t][first][second][id])
    else None
  }

  lemma LookupApply(b: Tables, c: Change, first: nat, second: nat, id: nat)
    ensures Lookup(Apply(b, c), first, second, id)
         == if c.first == first && c.second == second && c.id == id then Some(c.value) else Lookup(b, first, second, id)
  {
  }

  function ApplyAll(changes: seq<Change>): Tables {
    if changes == [] then map[] else Apply(ApplyAll(changes[..|changes| - 1]), changes[|changes| - 1])
  }

  // The value written last to a field, if any was.
  function LastValue(changes: seq<Change>, first: nat, second: nat, id: nat): Option<seq<byte>> {
    if changes == [] then None
    else
      var c := changes[|changes| - 1];
      if c.first == first && c.second == second && c.id == id then Some(c.value)
      else LastValue(changes[..|changes| - 1], first, second, id)
  }

  lemma {:induction false} LastValueWins(changes: seq<Change>, first: nat, second: nat, id: nat)
    ensures Lookup(ApplyAll(changes), first, second, id) == LastValue(changes, first, second, id)
  {
    if changes != [] {
      LastValueWins(changes[..|changes| - 1], first, second, id);
      LookupApply(ApplyAll(changes[..|changes| - 1]), changes[|changes| - 1], first, second, id);
    }
  }

  ghost predicate FieldsOk(t: nat, fields: Fields) {
    fields != map[] && forall id :: id in fields ==> TableOf(id) == t && id < UINT32
  }

  ghost predicate SecondsOk(t: nat, seconds: Seconds) {
    seconds != map[] && forall s :: s in seconds ==> s < UINT64 && FieldsOk(t, seconds[s])
  }

  ghost predicate FirstsOk(t: nat, firsts: Firsts) {
    firsts != map[] && forall f :: f in firsts ==> f < UINT64 && SecondsOk(t, firsts[f])
  }

  // Every level of the nested maps has entries, and every field stands under its table.
  ghost predicate Valid(b: Tables) {
    forall t :: t in b ==> FirstsOk(t, b[t])
  }

  ghost predicate ChangeOk(c: Change) {
    c.first < UINT64 && c.second < UINT64 && c.id < UINT32
  }

  lemma ApplyValid(b: Tables, c: Change)
    requires Valid(b) && ChangeOk(c)
    ensures Valid(Apply(b, c))
  {
    hide And, TableOf, FirstsOk, SecondsOk, FieldsOk;
    var t := TableOf(c.id);
    var firsts := Found(b, t);
    var seconds := Found(firsts, c.first);
    FoundOk(b, t, c.first, c.second);
    SetField(t, Found(seconds, c.second), c.id, c.value);
    SetSecond(t, seconds, c.second, Found(seconds, c.second)[c.id := c.value]);
    SetFirst(t, firsts, c.first, seconds[c.second := Found(seconds, c.second)[c.id := c.value]]);
  }

  lemma FoundOk(b: Tables, t: nat, f: nat, s: nat)
    requires Valid(b)
    ensures var firsts := Found(b, t);
            var seconds := Found(firsts, f);
            var fields := Found(seconds, s);
            && (firsts == map[] || FirstsOk(t, firsts))
            && (seconds == map[] || SecondsOk(t, seconds))
            && (fields == map[] || FieldsOk(t, fields))
  {
    hide And, TableOf;
  }

  lemma SetField(t: nat, fields: Fields, id: nat, v: seq<byte>)
    requires fields == map[] || FieldsOk(t, fields)
    requires TableOf(id) == t && id < UINT32
    ensures FieldsOk(t, fields[id := v])
  {
    hide And, TableOf;
    assert id in fields[id := v];
  }

  lemma SetSecond(t: nat, seconds: Seconds, s: nat, fields: Fields)
    requires seconds == map[] || SecondsOk(t, seconds)
    requires s < UINT64 && FieldsOk(t, fields)
    ensures SecondsOk(t, seconds[s := fields])
  {
    hide FieldsOk;
    assert s in seconds[s := fields];
  }

  lemma SetFirst(t: nat, firsts: Firsts, f: nat, seconds: Seconds)
    requires firsts == map[] || FirstsOk(t, firsts)
    requires f < UINT64 && SecondsOk(t, seconds)
    ensures FirstsOk(t, firsts[f := seconds])
  {
    hide SecondsOk;
    assert f in firsts[f := seconds];
  }

  // ---- The order of std::map ----

  ghost predicate Lower(x: nat, s: set<nat>) {
    forall y :: y in s ==> x <= y
  }

  lemma {:induction false} FindMin(s: set<nat>) returns (x: nat)
    requires s != {}
    ensures x in s && Lower(x, s)
  {
    hide Lower;
    x :| x in s;
    if s == {x} {
      AloneIsLower(x);
    } else {
      var y := FindMin(s - {x});
      LesserIsLower(s, x, y);
      if y < x {
        x := y;
      }
    }
  }

  lemma AloneIsLower(x: nat)
    ensures Lower(x, {x})
  {
  }

  lemma LesserIsLower(s: set<nat>, x: nat, y: nat)
    requires Lower(y, s - {x})
    ensures Lower(if y < x then y else x, s)
  {
    forall z | z in s
      ensures (if y < x then y else x) <= z
    {
      assert z == x || z in s - {x};
    }
  }

  lemma MinExists(s: set<nat>)
    requires s != {}
    ensures exists x :: x in s && forall y :: y in s ==> x <= y
  {
    var x := FindMin(s);
  }

  function Least(s: set<nat>): (x: nat)
    requires s != {}
    ensures x in s && forall y :: y in s ==> x <= y
  {
    MinExists(s);
    var x :| x in s && forall y :: y in s ==> x <= y;
    x
  }

  function Ascending(s: set<nat>): seq<nat>
    decreases |s|
  {
    if s == {} then [] else [Least(s)] + Ascending(s - {Least(s)})
  }

  ghost predicate Increasing(r: seq<nat>) {
    forall i, j :: 0 <= i < j < |r| ==> r[i] < r[j]
  }

  lemma {:induction false} AscendingIs(s: set<nat>)
    ensures forall x :: x in Ascending(s) <==> x in s
    ensures Increasing(Ascending(s))
    decreases |s|
  {
    if s != {} {
      var x := Least(s);
      AscendingIs(s - {x});
      var rest := Ascending(s - {x});
      hide Ascending;
      assert Ascending(s) == [x] + rest by { AscendingStep(s); }
      assert forall y :: y in s <==> y == x || y in s - {x};
      forall i, j | 0 <= i < j < |[x] + rest|
        ensures ([x] + rest)[i] < ([x] + rest)[j]
      {
        assert ([x] + rest)[j] == rest[j - 1] && rest[j - 1] in rest;
      }
    }
  }

  lemma AscendingStep(s: set<nat>)
    requires s != {}
    ensures Ascending(s) == [Least(s)] + Ascending(s - {Least(s)})
  {
  }

  // ---- Groups ----

  datatype Group = Group(table: nat, first: nat, second: nat, fields: Fields)

  function SecondGroups(t: nat, f: nat, seconds: Seconds, order: seq<nat>): seq<Group>
    requires forall s :: s in order ==> s in seconds
  {
    if order == [] then []
    else [Group(t, f, order[0], seconds[order[0]])] + SecondGroups(t, f, seconds, order[1..])
  }

  function GroupsOfSecond(t: nat, f: nat, seconds: Seconds): seq<Group> {
    AscendingIs(seconds.Keys);
    SecondGroups(t, f, seconds, Ascending(seconds.Keys))
  }

  function FirstGroups(t: nat, firsts: Firsts, order: seq<nat>): seq<Group>
    requires forall f :: f in order ==> f in firsts
  {
    if order == [] then [] else GroupsOfSecond(t, order[0], firsts[order[0]]) + FirstGroups(t, firsts, order[1..])
  }

  function GroupsOfFirst(t: nat, firsts: Firsts): seq<Group> {
    AscendingIs(firsts.Keys);
    FirstGroups(t, firsts, Ascending(firsts.Keys))
  }

  function TableGroups(b: Tables, order: seq<nat>): seq<Group>
    requires forall t :: t in order ==> t in b
  {
    if order == [] then [] else GroupsOfFirst(order[0], b[order[0]]) + TableGroups(b, order[1..])
  }

  // The groups of the buffer in the order Batch visits them.
  function Groups(b: Tables): seq<Group> {
    AscendingIs(b.Keys);
    TableGroups(b, Ascending(b.Keys))
  }

  // No two groups with the same keys.
  ghost predicate Apart(gs: seq<Group>) {
    forall i, j :: 0 <= i < j < |gs| ==>
      gs[i].table != gs[j].table || gs[i].first != gs[j].first || gs[i].second != gs[j].second
  }

  ghost predicate InSecond(g: Group, t: nat, f: nat, seconds: Seconds) {
    g.table == t && g.first == f && g.second in seconds && g.fields == seconds[g.second]
  }

  ghost predicate InFirst(g: Group, t: nat, firsts: Firsts) {
    g.first in firsts && InSecond(g, t, g.first, firsts[g.first])
  }

  ghost predicate InTables(g: Group, b: Tables) {
    g.table in b && InFirst(g, g.table, b[g.table])
  }

  lemma ApartConcat(a: seq<Group>, b: seq<Group>)
    requires Apart(a) && Apart(b)
    requires forall g, h :: g in a && h in b ==> g.table != h.table || g.first != h.first || g.second != h.second
    ensures Apart(a + b)
  {
    var c := a + b;
    forall i, j | 0 <= i < j < |c|
      ensures c[i].table != c[j].table || c[i].first != c[j].first || c[i].second != c[j].second
    {
      if i < |a| <= j {
        assert c[i] in a && c[j] in b;
      }
    }
  }

  lemma {:induction false} SecondGroupsHave(t: nat, f: nat, seconds: Seconds, order: seq<nat>)
    requires Increasing(order) && forall s :: s in order ==> s in seconds
    ensures forall g :: g in SecondGroups(t, f, seconds, order) <==> g.second in order && InSecond(g, t, f, seconds)
    ensures Apart(SecondGroups(t, f, seconds, order))
  {
    if order != [] {
      SecondGroupsHave(t, f, seconds, order[1..]);
      assert forall i :: 0 < i < |order| ==> order[i] == order[1..][i - 1];
      ApartConcat([Group(t, f, order[0], seconds[order[0]])], SecondGroups(t, f, seconds, order[1..]));
    }
  }

  lemma GroupsOfSecondHave(t: nat, f: nat, seconds: Seconds)
    ensures forall g :: g in GroupsOfSecond(t, f, seconds) <==> InSecond(g, t, f, seconds)
    ensures Apart(GroupsOfSecond(t, f, seconds))
  {
    AscendingIs(seconds.Keys);
    SecondGroupsHave(t, f, seconds, Ascending(seconds.Keys));
  }

  lemma {:induction false} FirstGroupsHave(t: nat, firsts: Firsts, order: seq<nat>)
    requires Increasing(order) && forall f :: f in order ==> f in firsts
    ensures forall g :: g in FirstGroups(t, firsts, order) <==> g.first in order && InFirst(g, t, firsts)
    ensures Apart(FirstGroups(t, firsts, order))
  {
    hide GroupsOfSecond;
    if order != [] {
      var f := order[0];
      FirstGroupsHave(t, firsts, order[1..]);
      GroupsOfSecondHave(t, f, firsts[f]);
      assert forall i :: 0 < i < |order| ==> order[i] == order[1..][i - 1];
      ApartConcat(GroupsOfSecond(t, f, firsts[f]), FirstGroups(t, firsts, order[1..]));
    }
  }

  lemma GroupsOfFirstHave(t: nat, firsts: Firsts)
    ensures forall g :: g in GroupsOfFirst(t, firsts) <==> g.table == t && InFirst(g, t, firsts)
    ensures Apart(GroupsOfFirst(t, firsts))
  {
    AscendingIs(firsts.Keys);
    FirstGroupsHave(t, firsts, Ascending(firsts.Keys));
  }

  lemma {:induction false} TableGroupsHave(b: Tables, order: seq<nat>)
    requires Increasing(order) && forall t :: t in order ==> t in b
    ensures forall g :: g in TableGroups(b, order) <==> g.table in order && InTables(g, b)
    ensures Apart(TableGroups(b, order))
  {
    hide GroupsOfFirst, InFirst;
    if order != [] {
      var t := order[0];
      TableGroupsHave(b, order[1..]);
      GroupsOfFirstHave(t, b[t]);
      assert forall i :: 0 < i < |order| ==> order[i] == order[1..][i - 1];
      ApartConcat(GroupsOfFirst(t, b[t]), TableGroups(b, order[1..]));
    }
  }

  // The groups are those of the buffer, each once.
  lemma GroupsHave(b: Tables)
    ensures forall g :: g in Groups(b) <==> InTables(g, b)
    ensures Apart(Groups(b))
  {
    AscendingIs(b.Keys);
    TableGroupsHave(b, Ascending(b.Keys));
  }

  // ---- Batch ----

  // The names registered for tables and for fields.
  datatype Names = Names(keys: map<nat, seq<byte>>, fields: map<nat, seq<byte>>)

  function SaveFields(fields: Fields, order: seq<nat>, names: Names): seq<byte>
    requires forall id :: id in order ==> id in fields && id in names.fields
  {
    if order == [] then []
    else names.fields[order[0]] + [SPACE] + fields[order[0]] + [SPACE] + SaveFields(fields, order[1..], names)
  }

  function PublishFields(fields: Fields, order: seq<nat>): seq<byte>
    requires forall id :: id in order ==> id in fields
  {
    if order == [] then []
    else Decimal(order[0]) + [COLON] + fields[order[0]] + [BAR] + PublishFields(fields, order[1..])
  }

  function SaveKey(name: seq<byte>, first: nat, second: nat): seq<byte> {
    if first == 0 then name
    else if second == 0 then name + [COLON] + Decimal(first)
    else name + [COLON] + Decimal(first) + [COLON] + Decimal(second)
  }

  ghost predicate Named(g: Group, names: Names) {
    g.table in names.keys && forall id :: id in g.fields ==> id in names.fields
  }

  function Save(g: Group, names: Names): seq<byte>
    requires Named(g, names)
  {
    AscendingIs(g.fields.Keys);
    HMSET + [SPACE] + SaveKey(names.keys[g.table], g.first, g.second) + [SPACE]
      + SaveFields(g.fields, Ascending(g.fields.Keys), names)
  }

  // The message of the publish command
  function Payload(g: Group): seq<byte> {
    AscendingIs(g.fields.Keys);
    [UPPER_S, BAR] + Decimal(g.first) + [BAR] + Decimal(g.second) + [BAR]
      + PublishFields(g.fields, Ascending(g.fields.Keys))
  }

  function Publish(g: Group): seq<byte> {
    PUBLISH + [SPACE] + Decimal(g.table) + [SPACE] + Payload(g)
  }

  // The commands for the groups, up to one with a table or field that has no name.
  ghost function Emit(gs: seq<Group>, names: Names): (r: (seq<seq<byte>>, bool)) {
    if gs == [] then ([], true)
    else if !Named(gs[0], names) then ([], false)
    else
      var (rest, ok) := Emit(gs[1..], names);
      ([Save(gs[0], names), Publish(gs[0])] + rest, ok)
  }

  lemma {:induction false} EmitConcat(a: seq<Group>, b: seq<Group>, names: Names)
    ensures Emit(a, names).1 ==> Emit(a + b, names) == (Emit(a, names).0 + Emit(b, names).0, Emit(b, names).1)
    ensures !Emit(a, names).1 ==> Emit(a + b, names) == Emit(a, names)
  {
    hide Named, Save, Publish;
    if a == [] {
      assert a + b == b && [] + Emit(b, names).0 == Emit(b, names).0;
    } else {
      EmitConcat(a[1..], b, names);
      assert (a + b)[1..] == a[1..] + b;
      if Named(a[0], names) {
        var two, x, y := [Save(a[0], names), Publish(a[0])], Emit(a[1..], names).0, Emit(b, names).0;
        assert two + (x + y) == two + x + y;
      }
    }
  }

  // One save and one publish for every group, in order.
  lemma {:induction false} EmitsEachGroup(gs: seq<Group>, names: Names)
    requires forall i :: 0 <= i < |gs| ==> Named(gs[i], names)
    ensures Emit(gs, names).1 && |Emit(gs, names).0| == 2 * |gs|
    ensures forall i :: 0 <= i < |gs| ==>
              Emit(gs, names).0[2 * i] == Save(gs[i], names) && Emit(gs, names).0[2 * i + 1] == Publish(gs[i])
  {
    hide Named, Save, Publish;
    if gs != [] {
      EmitsEachGroup(gs[1..], names);
      forall i | 0 < i < |gs|
        ensures Emit(gs, names).0[2 * i] == Save(gs[i], names) && Emit(gs, names).0[2 * i + 1] == Publish(gs[i])
      {
        assert gs[i] == gs[1..][i - 1];
        assert Emit(gs, names).0[2 * i] == Emit(gs[1..], names).0[2 * (i - 1)];
      }
    }
  }

  ghost function Prefixed(cmds: seq<seq<byte>>, e: (seq<seq<byte>>, bool)): (seq<seq<byte>>, bool) {
    (cmds + e.0, e.1)
  }

  lemma EmitMore(cmds: seq<seq<byte>>, a: seq<Group>, b: seq<Group>, names: Names)
    ensures Emit(a, names).1 ==> Prefixed(cmds, Emit(a + b, names)) == Prefixed(cmds + Emit(a, names).0, Emit(b, names))
    ensures !Emit(a, names).1 ==> Prefixed(cmds, Emit(a + b, names)) == (cmds + Emit(a, names).0, false)
    ensures Prefixed([], Emit(b, names)) == Emit(b, names)
    ensures Prefixed(cmds, Emit([], names)) == (cmds, true)
  {
    EmitConcat(a, b, names);
    var x, y := Emit(a, names).0, Emit(b, names).0;
    assert cmds + (x + y) == cmds + x + y;
    assert [] + y == y && cmds + [] == cmds;
  }

  lemma EmitOne(g: Group, names: Names)
    ensures Named(g, names) ==> Emit([g], names) == ([Save(g, names), Publish(g)], true)
    ensures !Named(g, names) ==> Emit([g], names) == ([], false)
  {
    hide Save, Publish, Named;
    assert [g][1..] == [];
    assert Named(g, names) ==> [Save(g, names), Publish(g)] + [] == [Save(g, names), Publish(g)];
  }

  class RedisBuffer {
    var m_mBuffer: Tables

    constructor ()
      ensures m_mBuffer == map[] && Valid(m_mBuffer)
    {
      m_mBuffer := map[];
    }

    method AddValueChange(i64Key: nat, iIndex: nat, iKeyField: nat, strValue: seq<byte>)
      requires Valid(m_mBuffer) && ChangeOk(Change(i64Key, iIndex, iKeyField, strValue))
      modifies this
      ensures m_mBuffer == Apply(old(m_mBuffer), Change(i64Key, iIndex, iKeyField, strValue)) && Valid(m_mBuffer)
    {
      ApplyValid(m_mBuffer, Change(i64Key, iIndex, iKeyField, strValue));
      var t := TableOf(iKeyField);
      var firsts: Firsts := if t in m_mBuffer then m_mBuffer[t] else map[];
      var seconds: Seconds := if i64Key in firsts then firsts[i64Key] else map[];
      var fields: Fields := if iIndex in seconds then seconds[iIndex] else map[];
      m_mBuffer := m_mBuffer[t := firsts[i64Key := seconds[iIndex := fields[iKeyField := strValue]]]];
    }

    method Clear()
      modifies this
      ensures m_mBuffer == map[]
    {
      m_mBuffer := map[];
    }

    // The commands given to RedisCmd; ok is false when it throws on a missing name, which leaves
    // the buffer as it was.
    method Batch(names: Names) returns (cmds: seq<seq<byte>>, ok: bool)
      requires Valid(m_mBuffer)
      modifies this
      ensures (cmds, ok) == Emit(Groups(old(m_mBuffer)), names)
      ensures m_mBuffer == if ok then map[] else old(m_mBuffer)
    {
      hide GroupsOfFirst, Emit, FirstsOk;
      AscendingIs(m_mBuffer.Keys);
      var order := Ascending(m_mBuffer.Keys);
      cmds := [];
      EmitMore([], [], TableGroups(m_mBuffer, order), names);
      assert order[0..] == order;
      for i := 0 to |order|
        invariant m_mBuffer == old(m_mBuffer)
        invariant forall t :: t in order[i..] ==> t in m_mBuffer
        invariant Emit(Groups(m_mBuffer), names) == Prefixed(cmds, Emit(TableGroups(m_mBuffer, order[i..]), names))
      {
        var t := order[i];
        assert order[i..][1..] == order[i + 1..] && t in order[i..];
        ghost var rest := TableGroups(m_mBuffer, order[i + 1..]);
        ghost var these := GroupsOfFirst(t, m_mBuffer[t]);
        EmitMore(cmds, these, rest, names);
        if t !in names.keys {
          UnknownTable(t, m_mBuffer[t], names);
          assert cmds + [] == cmds;
          return cmds, false;
        }
        var more;
        more, ok := BatchFirst(t, m_mBuffer[t], names);
        cmds := cmds + more;
        if !ok {
          return;
        }
      }
      EmitMore(cmds, [], [], names);
      Clear();
      ok := true;
    }
  }

  // The loops of Batch
  method BatchFirst(t: nat, firsts: Firsts, names: Names) returns (cmds: seq<seq<byte>>, ok: bool)
    requires t in names.keys
    ensures (cmds, ok) == Emit(GroupsOfFirst(t, firsts), names)
  {
    hide GroupsOfSecond, Emit;
    AscendingIs(firsts.Keys);
    var order := Ascending(firsts.Keys);
    cmds := [];
    EmitMore([], [], FirstGroups(t, firsts, order), names);
    assert order[0..] == order;
    for i := 0 to |order|
      invariant forall f :: f in order[i..] ==> f in firsts
      invariant Emit(GroupsOfFirst(t, firsts), names) == Prefixed(cmds, Emit(FirstGroups(t, firsts, order[i..]), names))
    {
      var f := order[i];
      assert order[i..][1..] == order[i + 1..] && f in order[i..];
      EmitMore(cmds, GroupsOfSecond(t, f, firsts[f]), FirstGroups(t, firsts, order[i + 1..]), names);
      var more;
      more, ok := BatchSecond(t, f, firsts[f], names);
      cmds := cmds + more;
      if !ok {
        return;
      }
    }
    EmitMore(cmds, [], [], names);
    ok := true;
  }

  method BatchSecond(t: nat, f: nat, seconds: Seconds, names: Names) returns (cmds: seq<seq<byte>>, ok: bool)
    requires t in names.keys
    ensures (cmds, ok) == Emit(GroupsOfSecond(t, f, seconds), names)
  {
    hide Emit, Save, Publish;
    AscendingIs(seconds.Keys);
    var order := Ascending(seconds.Keys);
    cmds := [];
    EmitMore([], [], SecondGroups(t, f, seconds, order), names);
    assert order[0..] == order;
    for i := 0 to |order|
      invariant forall s :: s in order[i..] ==> s in seconds
      invariant Emit(GroupsOfSecond(t, f, seconds), names)
             == Prefixed(cmds, Emit(SecondGroups(t, f, seconds, order[i..]), names))
    {
      var s := order[i];
      assert order[i..][1..] == order[i + 1..] && s in order[i..];
      ghost var g := Group(t, f, s, seconds[s]);
      EmitMore(cmds, [g], SecondGroups(t, f, seconds, order[i + 1..]), names);
      EmitOne(g, names);
      var save, pub;
      save, pub, ok := BatchGroup(t, f, s, seconds[s], names);
      if !ok {
        assert cmds + [] == cmds;
        return;
      }
      cmds := cmds + [save, pub];
    }
    EmitMore(cmds, [], [], names);
    ok := true;
  }

  // The texts built for a group
  method BatchGroup(t: nat, f: nat, s: nat, fields: Fields, names: Names)
    returns (ssSave: seq<byte>, ssPub: seq<byte>, ok: bool)
    requires t in names.keys
    ensures ok <==> Named(Group(t, f, s, fields), names)
    ensures ok ==> ssSave == Save(Group(t, f, s, fields), names) && ssPub == Publish(Group(t, f, s, fields))
  {
    hide Decimal, Ascending, SaveKey, SaveFields, PublishFields;
    ghost var g := Group(t, f, s, fields);
    ssSave, ssPub := BatchHeads(t, f, s, names);
    ssSave, ssPub, ok := BatchFields(fields, ssSave, ssPub, names);
    if ok {
      HeadAndFields(PUBLISH + [SPACE] + Decimal(t) + [SPACE],
                    [UPPER_S, BAR] + Decimal(f) + [BAR] + Decimal(s) + [BAR],
                    PublishFields(fields, Ascending(fields.Keys)));
      assert ssPub == Publish(g);
    }
  }

  // What stands before the fields
  method BatchHeads(t: nat, f: nat, s: nat, names: Names) returns (ssSave: seq<byte>, ssPub: seq<byte>)
    requires t in names.keys
    ensures ssSave == HMSET + [SPACE] + SaveKey(names.keys[t], f, s) + [SPACE]
    ensures ssPub == (PUBLISH + [SPACE] + Decimal(t) + [SPACE])
                     + ([UPPER_S, BAR] + Decimal(f) + [BAR] + Decimal(s) + [BAR])
  {
    hide Decimal;
    ssSave := HMSET + [SPACE] + names.keys[t];
    ssPub := PUBLISH + [SPACE] + Decimal(t) + [SPACE] + [UPPER_S, BAR] + Decimal(f) + [BAR] + Decimal(s) + [BAR];
    InOneGo(PUBLISH + [SPACE] + Decimal(t) + [SPACE], [UPPER_S, BAR], Decimal(f), [BAR], Decimal(s));
    HeadAndFields(PUBLISH + [SPACE] + Decimal(t) + [SPACE], [UPPER_S, BAR] + Decimal(f) + [BAR] + Decimal(s), [BAR]);
    InOneGo(HMSET + [SPACE], names.keys[t], [COLON], Decimal(f), []);
    if f != 0 {
      ssSave := ssSave + [COLON] + Decimal(f);
      if s != 0 {
        InOneGo(HMSET + [SPACE], names.keys[t] + [COLON], Decimal(f), [COLON], Decimal(s));
        ssSave := ssSave + [COLON] + Decimal(s);
      }
    }
    ssSave := ssSave + [SPACE];
  }

  lemma HeadAndFields(a: seq<byte>, b: seq<byte>, c: seq<byte>)
    ensures a + b + c == a + (b + c)
  {
  }

  lemma InOneGo(a: seq<byte>, b: seq<byte>, c: seq<byte>, d: seq<byte>, e: seq<byte>)
    ensures a + b + c + d + e == a + (b + c + d + e)
  {
  }

  method BatchFields(fields: Fields, save0: seq<byte>, pub0: seq<byte>, names: Names)
    returns (ssSave: seq<byte>, ssPub: seq<byte>, ok: bool)
    ensures (forall id :: id in Ascending(fields.Keys) <==> id in fields)
    ensures ok <==> forall id :: id in fields ==> id in names.fields
    ensures ok ==> ssSave == save0 + SaveFields(fields, Ascending(fields.Keys), names)
    ensures ok ==> ssPub == pub0 + PublishFields(fields, Ascending(fields.Keys))
  {
    hide Decimal, Ascending, SaveFields, PublishFields;
    AscendingIs(fields.Keys);
    var order := Ascending(fields.Keys);
    ssSave, ssPub := save0, pub0;
    NoFields(fields, names);
    assert order[..0] == [];
    for i := 0 to |order|
      invariant forall id :: id in order[..i] ==> id in names.fields
      invariant ssSave == save0 + SaveFields(fields, order[..i], names)
      invariant ssPub == pub0 + PublishFields(fields, order[..i])
    {
      var id := order[i];
      assert id in order;
      if id !in names.fields {
        return ssSave, ssPub, false;
      }
      assert order[..i + 1] == order[..i] + [id];
      SaveSnoc(fields, order[..i], id, names);
      PublishSnoc(fields, order[..i], id, names);
      InOneGo(ssSave, names.fields[id], [SPACE], fields[id], [SPACE]);
      InOneGo(ssPub, Decimal(id), [COLON], fields[id], [BAR]);
      HeadAndFields(save0, SaveFields(fields, order[..i], names),
                    names.fields[id] + [SPACE] + fields[id] + [SPACE]);
      HeadAndFields(pub0, PublishFields(fields, order[..i]), Decimal(id) + [COLON] + fields[id] + [BAR]);
      ssSave := ssSave + names.fields[id] + [SPACE] + fields[id] + [SPACE];
      ssPub := ssPub + Decimal(id) + [COLON] + fields[id] + [BAR];
    }
    assert order[..|order|] == order;
    ok := true;
  }

  lemma NoFields(fields: Fields, names: Names)
    ensures SaveFields(fields, [], names) == [] && PublishFields(fields, []) == []
  {
  }

  function SaveField(id: nat, fields: Fields, names: Names): seq<byte>
    requires id in fields && id in names.fields
  {
    names.fields[id] + [SPACE] + fields[id] + [SPACE]
  }

  function PublishField(id: nat, fields: Fields): seq<byte>
    requires id in fields
  {
    Decimal(id) + [COLON] + fields[id] + [BAR]
  }

  lemma {:induction false} SaveSnoc(fields: Fields, order: seq<nat>, id: nat, names: Names)
    requires forall x :: x in order + [id] ==> x in fields && x in names.fields
    ensures SaveFields(fields, order + [id], names) == SaveFields(fields, order, names) + SaveField(id, fields, names)
  {
    hide SaveField;
    if order == [] {
      assert [] + [id] == [id];
      OneField(fields, id, names);
      assert [] + SaveField(id, fields, names) == SaveField(id, fields, names);
    } else {
      assert (order + [id])[1..] == order[1..] + [id];
      SaveSnoc(fields, order[1..], id, names);
      FirstField(fields, order, names);
      FirstField(fields, order + [id], names);
      hide SaveFields;
      HeadAndFields(SaveField(order[0], fields, names), SaveFields(fields, order[1..], names),
                    SaveField(id, fields, names));
    }
  }

  lemma FirstField(fields: Fields, order: seq<nat>, names: Names)
    requires order != [] && forall x :: x in order ==> x in fields && x in names.fields
    ensures SaveFields(fields, order, names)
         == SaveField(order[0], fields, names) + SaveFields(fields, order[1..], names)
    ensures PublishFields(fields, order) == PublishField(order[0], fields) + PublishFields(fields, order[1..])
  {
    hide Decimal;
  }

  lemma OneField(fields: Fields, id: nat, names: Names)
    requires id in fields && id in names.fields
    ensures SaveFields(fields, [id], names) == SaveField(id, fields, names) && SaveFields(fields, [], names) == []
    ensures PublishFields(fields, [id]) == PublishField(id, fields) && PublishFields(fields, []) == []
  {
    hide Decimal;
    FirstField(fields, [id], names);
    assert [id][1..] == [];
    NoFields(fields, names);
    hide SaveField, PublishField;
    assert SaveField(id, fields, names) + [] == SaveField(id, fields, names);
    assert PublishField(id, fields) + [] == PublishField(id, fields);
  }

  lemma {:induction false} PublishSnoc(fields: Fields, order: seq<nat>, id: nat, names: Names)
    requires forall x :: x in order + [id] ==> x in fields && x in names.fields
    ensures PublishFields(fields, order + [id]) == PublishFields(fields, order) + PublishField(id, fields)
  {
    hide PublishField;
    if order == [] {
      assert [] + [id] == [id];
      OneField(fields, id, names);
      assert [] + PublishField(id, fields) == PublishField(id, fields);
    } else {
      assert (order + [id])[1..] == order[1..] + [id];
      PublishSnoc(fields, order[1..], id, names);
      FirstField(fields, order, names);
      FirstField(fields, order + [id], names);
      hide PublishFields;
      HeadAndFields(PublishField(order[0], fields), PublishFields(fields, order[1..]), PublishField(id, fields));
    }
  }

  lemma UnknownTable(t: nat, firsts: Firsts, names: Names)
    requires FirstsOk(t, firsts) && t !in names.keys
    ensures Emit(GroupsOfFirst(t, firsts), names) == ([], false)
  {
    hide Save, Publish;
    AscendingIs(firsts.Keys);
    GroupsOfFirstHave(t, firsts);
    var f :| f in firsts;
    var s :| s in firsts[f];
    assert InSecond(Group(t, f, s, firsts[f][s]), t, f, firsts[f]);
    assert Group(t, f, s, firsts[f][s]) in GroupsOfFirst(t, firsts);
    assert GroupsOfFirst(t, firsts)[0] in GroupsOfFirst(t, firsts);
  }
}
