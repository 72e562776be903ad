/** The chained hash table that keeps the subscription callbacks: linked buckets, doubled and
    relinked when full. It is a finite map, and an iterator over it may delete what it returns. */
module HashTable {
  import Bits

  const INITIAL_SIZE: nat := 4
  const LONG_MAX: nat := 0x7FFF_FFFF

  class Entry<K, V> {
    const key: K
    var val: V
    var next: Entry?<K, V>

    constructor (key: K, val: V, next: Entry?<K, V>)
      ensures this.key == key && this.val == val && this.next == next
    {
      this.key, this.val, this.next := key, val, next;
    }
  }

  // ---- Chains of entries; keys never change, so this part does not depend on the heap ----

  function Slot<K>(hash: K -> nat, mask: nat, k: K): (h: nat)
    ensures h <= mask
  {
    Bits.And(hash(k), mask)
  }

  function Nth<K, V>(chain: seq<Entry<K, V>>, j: nat): Entry?<K, V> {
    if j < |chain| then chain[j] else null
  }

  ghost predicate Distinct<K, V>(chain: seq<Entry<K, V>>) {
    forall i, j :: 0 <= i < j < |chain| ==> chain[i].key != chain[j].key
  }

  // Bucket i holds entries of the map whose keys hash to it, none twice.
  ghost predicate Bucket<K(!new), V>(chain: seq<Entry<K, V>>, entries: map<K, Entry<K, V>>, hash: K -> nat, mask: nat,
                                     i: nat)
  {
    && Distinct(chain)
    && forall e :: e in chain ==> e.key in entries && entries[e.key] == e && Slot(hash, mask, e.key) == i
  }

  ghost predicate Holds<K, V>(chains: seq<seq<Entry<K, V>>>, h: nat, e: Entry<K, V>) {
    h < |chains| && e in chains[h]
  }

  // Every entry of the map is in its bucket, and only those are in the buckets, each once.
  ghost predicate Shape<K(!new), V>(chains: seq<seq<Entry<K, V>>>, entries: map<K, Entry<K, V>>, hash: K -> nat,
                                    mask: nat)
  {
    && (forall i :: 0 <= i < |chains| ==> Bucket(chains[i], entries, hash, mask, i))
    && (forall k :: k in entries ==> entries[k].key == k && Holds(chains, Slot(hash, mask, k), entries[k]))
  }

  function Total<K, V>(chains: seq<seq<Entry<K, V>>>): nat {
    if chains == [] then 0 else |chains[0]| + Total(chains[1..])
  }

  lemma {:induction false} TotalUpdate<K, V>(chains: seq<seq<Entry<K, V>>>, h: nat, chain: seq<Entry<K, V>>)
    requires h < |chains|
    ensures Total(chains[h := chain]) == Total(chains) - |chains[h]| + |chain|
  {
    if h == 0 {
      assert chains[h := chain][1..] == chains[1..];
    } else {
      TotalUpdate(chains[1..], h - 1, chain);
      assert chains[h := chain][1..] == chains[1..][h - 1 := chain];
    }
  }

  lemma {:induction false} TotalZero<K, V>(chains: seq<seq<Entry<K, V>>>, i: nat)
    requires Total(chains) == 0 && i < |chains|
    ensures chains[i] == []
  {
    if i > 0 {
      TotalZero(chains[1..], i - 1);
    }
  }

  // Linking a new entry in front of its bucket.
  function Insert<K, V>(chains: seq<seq<Entry<K, V>>>, e: Entry<K, V>, h: nat): seq<seq<Entry<K, V>>>
    requires h < |chains|
  {
    chains[h := [e] + chains[h]]
  }

  lemma InsertShape<K(!new), V>(chains: seq<seq<Entry<K, V>>>, entries: map<K, Entry<K, V>>, hash: K -> nat, mask: nat,
                          e: Entry<K, V>)
    requires Shape(chains, entries, hash, mask) && e.key !in entries && Slot(hash, mask, e.key) < |chains|
    ensures Shape(Insert(chains, e, Slot(hash, mask, e.key)), entries[e.key := e], hash, mask)
    ensures Total(Insert(chains, e, Slot(hash, mask, e.key))) == Total(chains) + 1
  {
    hide Bits.And, Slot, Total, Bucket;
    var h := Slot(hash, mask, e.key);
    var n, entries' := Insert(chains, e, h), entries[e.key := e];
    TotalUpdate(chains, h, [e] + chains[h]);
    forall i | 0 <= i < |n|
      ensures Bucket(n[i], entries', hash, mask, i)
    {
      BucketStays(chains[i], entries, entries', hash, mask, i);
      if i == h {
        BucketGrows(chains[h], e, entries', hash, mask, h);
      }
    }
    forall k | k in entries'
      ensures Holds(n, Slot(hash, mask, k), entries'[k])
    {
      if k == e.key {
        assert n[h][0] == e;
      } else {
        assert Holds(chains, Slot(hash, mask, k), entries[k]);
      }
    }
  }

  lemma BucketStays<K(!new), V>(chain: seq<Entry<K, V>>, entries: map<K, Entry<K, V>>, entries': map<K, Entry<K, V>>,
                                hash: K -> nat, mask: nat, i: nat)
    requires Bucket(chain, entries, hash, mask, i)
    requires forall e :: e in chain && e.key in entries ==> e.key in entries' && entries'[e.key] == entries[e.key]
    ensures Bucket(chain, entries', hash, mask, i)
    ensures forall e :: e in chain ==> e.key in entries
  {
  }

  lemma BucketGrows<K(!new), V>(chain: seq<Entry<K, V>>, e: Entry<K, V>, entries: map<K, Entry<K, V>>,
                                hash: K -> nat, mask: nat, i: nat)
    requires Bucket(chain, entries, hash, mask, i) && e.key in entries && entries[e.key] == e
    requires Slot(hash, mask, e.key) == i && e !in chain
    ensures Bucket([e] + chain, entries, hash, mask, i)
  {
    hide Slot;
    var c := [e] + chain;
    forall i, j | 0 <= i < j < |c|
      ensures c[i].key != c[j].key
    {
      assert c[j] == chain[j - 1];
      if i > 0 {
        assert c[i] == chain[i - 1];
      }
    }
  }

  // Unlinking an entry.
  function Without<K, V>(chain: seq<Entry<K, V>>, j: nat): seq<Entry<K, V>>
    requires j < |chain|
  {
    chain[..j] + chain[j + 1..]
  }

  lemma RemoveShape<K(!new), V>(chains: seq<seq<Entry<K, V>>>, entries: map<K, Entry<K, V>>, hash: K -> nat, mask: nat,
                                h: nat, j: nat)
    requires Shape(chains, entries, hash, mask) && h < |chains| && j < |chains[h]|
    ensures Shape(chains[h := Without(chains[h], j)], entries - {chains[h][j].key}, hash, mask)
    ensures Total(chains[h := Without(chains[h], j)]) == Total(chains) - 1
  {
    hide Bits.And, Slot, Total, Bucket, Without;
    var e, rest := chains[h][j], Without(chains[h], j);
    var n, entries' := chains[h := rest], entries - {e.key};
    TotalUpdate(chains, h, rest);
    WithoutBucket(chains[h], j, entries, hash, mask, h);
    forall i | 0 <= i < |n|
      ensures Bucket(n[i], entries', hash, mask, i)
    {
      if i != h {
        OtherBucket(chains[i], entries, e, hash, mask, i);
      }
    }
    forall k | k in entries'
      ensures Holds(n, Slot(hash, mask, k), entries'[k])
    {
      assert Holds(chains, Slot(hash, mask, k), entries[k]);
    }
  }

  lemma OtherBucket<K(!new), V>(chain: seq<Entry<K, V>>, entries: map<K, Entry<K, V>>, e: Entry<K, V>,
                                hash: K -> nat, mask: nat, i: nat)
    requires Bucket(chain, entries, hash, mask, i) && Slot(hash, mask, e.key) != i
    ensures Bucket(chain, entries - {e.key}, hash, mask, i)
  {
    hide Slot;
  }

  lemma WithoutBucket<K(!new), V>(chain: seq<Entry<K, V>>, j: nat, entries: map<K, Entry<K, V>>,
                                  hash: K -> nat, mask: nat, i: nat)
    requires Bucket(chain, entries, hash, mask, i) && j < |chain|
    ensures Slot(hash, mask, chain[j].key) == i && |Without(chain, j)| == |chain| - 1
    ensures forall e :: e in Without(chain, j) <==> e in chain && e != chain[j]
    ensures Bucket(Without(chain, j), entries - {chain[j].key}, hash, mask, i)
  {
    hide Slot;
    var rest := Without(chain, j);
    assert forall m :: 0 <= m < |rest| ==> rest[m] == chain[if m < j then m else m + 1];
    forall e | e in chain && e != chain[j]
      ensures e in rest
    {
      var m :| 0 <= m < |chain| && chain[m] == e;
      assert rest[if m < j then m else m - 1] == e;
    }
    assert forall m :: 0 <= m < |rest| ==> rest[m].key != chain[j].key;
  }

  // ---- The heap ----

  // A chain as the heap has it: the nodes are among the given ones.
  ghost predicate Linked<K, V>(head: Entry?<K, V>, chain: seq<Entry<K, V>>, nodes: set<Entry<K, V>>)
    reads nodes
  {
    && (forall e :: e in chain ==> e in nodes)
    && head == Nth(chain, 0)
    && forall j :: 0 <= j < |chain| ==> chain[j].next == Nth(chain, j + 1)
  }

  // A power of two not below INITIAL_SIZE.
  ghost predicate IsSize(n: nat)
  {
    exists k: nat :: k >= 2 && n == Bits.Pow2(k)
  }

  lemma {:induction false} Pow2Grows(j: nat, k: nat)
    requires j <= k
    ensures Bits.Pow2(j) <= Bits.Pow2(k)
    decreases k
  {
    if j < k {
      Pow2Grows(j, k - 1);
    }
  }

  // The next power of two is the double.
  lemma NextIsDouble(a: nat, b: nat)
    requires IsSize(a) && IsSize(b) && 2 * a <= b && (b == 4 || b < 4 * a)
    ensures b == 2 * a
  {
    var j: nat :| j >= 2 && a == Bits.Pow2(j);
    var k: nat :| k >= 2 && b == Bits.Pow2(k);
    assert Bits.Pow2(j + 1) == 2 * a && Bits.Pow2(j + 2) == 4 * a;
    Pow2Grows(2, j);
    assert Bits.Pow2(2) == 4;
    if k <= j {
      Pow2Grows(k, j);
    } else if k >= j + 2 {
      Pow2Grows(j + 2, k);
    }
  }

  // _dictNextPower: the least table size for n entries.
  method NextPower(n: nat) returns (p: nat)
    ensures n >= 0x7FFF_FFFF ==> p == 0x7FFF_FFFF
    ensures n < 0x7FFF_FFFF ==> IsSize(p) && n <= p && (p == 4 || p < 2 * n)
  {
    if n >= LONG_MAX {
      return LONG_MAX;
    }
    p := INITIAL_SIZE;
    ghost var k: nat := 2;
    while p < n
      invariant k >= 2 && p == Bits.Pow2(k)
      invariant p == 4 || p < 2 * n
      decreases n - p
    {
      p := p * 2;
      k := k + 1;
    }
  }

  lemma NotInBuckets<K(!new), V>(chains: seq<seq<Entry<K, V>>>, entries: map<K, Entry<K, V>>, hash: K -> nat, mask: nat,
                                 e: Entry<K, V>)
    requires Shape(chains, entries, hash, mask) && e.key !in entries
    ensures forall i :: 0 <= i < |chains| ==> e !in chains[i]
  {
  }

  // What of the map stands in the buckets below i.
  ghost predicate Moved<K(!new), V>(entries: map<K, Entry<K, V>>, moved: map<K, Entry<K, V>>, hash: K -> nat,
                                    mask: nat, i: nat)
  {
    && (forall k :: k in moved ==> k in entries && moved[k] == entries[k] && Slot(hash, mask, k) < i)
    && (forall k :: k in entries && Slot(hash, mask, k) < i ==> k in moved)
  }

  lemma NothingMoved<K(!new), V>(entries: map<K, Entry<K, V>>, hash: K -> nat, mask: nat)
    ensures Moved(entries, map[], hash, mask, 0)
  {
  }

  lemma {:induction false} NothingInTotal<K, V>(chains: seq<seq<Entry<K, V>>>)
    requires forall i :: 0 <= i < |chains| ==> chains[i] == []
    ensures Total(chains) == 0
  {
    if chains != [] {
      NothingInTotal(chains[1..]);
    }
  }

  lemma TotalSplit<K, V>(chains: seq<seq<Entry<K, V>>>, i: nat)
    requires i < |chains|
    ensures Total(chains[i..]) == |chains[i]| + Total(chains[i + 1..])
  {
    assert chains[i..][1..] == chains[i + 1..];
  }

  lemma BucketsLinked<K(!new), V>(table: array<Entry?<K, V>>, chains: seq<seq<Entry<K, V>>>, nodes: set<Entry<K, V>>)
    requires Table(table, chains, nodes)
    ensures |chains| == table.Length && forall b :: 0 <= b < |chains| ==> Linked(table[b], chains[b], nodes)
  {
  }

  lemma BucketFacts<K(!new), V>(chains: seq<seq<Entry<K, V>>>, entries: map<K, Entry<K, V>>, moved: map<K, Entry<K, V>>,
                                hash: K -> nat, mask: nat, i: nat)
    requires Shape(chains, entries, hash, mask) && Moved(entries, moved, hash, mask, i) && i < |chains|
    ensures Distinct(chains[i])
    ensures forall e :: e in chains[i] ==> e.key !in moved
    ensures ApartFrom(chains, i, chains[i])
  {
    hide Slot;
    assert Bucket(chains[i], entries, hash, mask, i);
    forall b, e | i < b < |chains| && e in chains[b]
      ensures e !in chains[i]
    {
      assert Bucket(chains[b], entries, hash, mask, b);
    }
  }

  lemma MovedMore<K(!new), V>(chains: seq<seq<Entry<K, V>>>, entries: map<K, Entry<K, V>>, moved: map<K, Entry<K, V>>,
                              moved': map<K, Entry<K, V>>, hash: K -> nat, mask: nat, i: nat)
    requires Shape(chains, entries, hash, mask) && Moved(entries, moved, hash, mask, i) && i < |chains|
    requires Arrived(moved, moved', chains[i], |chains[i]|)
    ensures Moved(entries, moved', hash, mask, i + 1)
  {
    hide Slot;
    assert Bucket(chains[i], entries, hash, mask, i);
    forall k | k in entries && Slot(hash, mask, k) < i + 1
      ensures k in moved'
    {
      assert Holds(chains, Slot(hash, mask, k), entries[k]);
    }
  }

  lemma AllMoved<K(!new), V>(chains: seq<seq<Entry<K, V>>>, entries: map<K, Entry<K, V>>, moved: map<K, Entry<K, V>>,
                             hash: K -> nat, mask: nat, i: nat)
    requires Shape(chains, entries, hash, mask) && Moved(entries, moved, hash, mask, i) && i <= |chains|
    requires i == |chains| || Total(chains[i..]) == 0
    ensures moved == entries && Total(chains[i..]) == 0
  {
    hide Slot;
    forall k | k in entries
      ensures k in moved
    {
      var h := Slot(hash, mask, k);
      assert Holds(chains, h, entries[k]);
      if h >= i {
        TotalZero(chains[i..], h - i);
      }
    }
  }

  // The buckets of an array are these chains.
  ghost predicate Table<K, V>(table: array<Entry?<K, V>>, chains: seq<seq<Entry<K, V>>>, nodes: set<Entry<K, V>>)
    reads table, nodes
  {
    TableFrom(table, chains, nodes, 0)
  }

  // The buckets of an array from `from` on are these chains.
  ghost predicate TableFrom<K, V>(table: array<Entry?<K, V>>, chains: seq<seq<Entry<K, V>>>, nodes: set<Entry<K, V>>,
                                  from: nat)
    reads table, nodes
  {
    |chains| == table.Length && forall b :: from <= b < |chains| ==> Linked(table[b], chains[b], nodes)
  }

  ghost predicate ApartFrom<K, V>(chains: seq<seq<Entry<K, V>>>, i: nat, list: seq<Entry<K, V>>) {
    forall b :: i < b < |chains| ==> forall e :: e in chains[b] ==> e !in list
  }

  class Dict<K(==, !new), V> {
    const hash: K -> nat
    var table: array<Entry?<K, V>>
    var size: nat
    var sizemask: nat
    var used: nat
    ghost var chains: seq<seq<Entry<K, V>>>
    ghost var entries: map<K, Entry<K, V>>

    ghost function Nodes(): set<Entry<K, V>>
      reads this
    {
      NodesOf(entries)
    }

    ghost predicate Valid()
      reads this, table, Nodes()
    {
      && table.Length == size && Table(table, chains, Nodes())
      && Shape(chains, entries, hash, sizemask)
      && used == |entries| == Total(chains)
      && (size == 0 || size == LONG_MAX || IsSize(size)) && sizemask == (if size == 0 then 0 else size - 1)
      && (used <= size || size == LONG_MAX)
    }

    ghost function Contents(): map<K, V>
      reads this, Nodes()
    {
      NodesHave(entries);
      map k | k in entries :: entries[k].val
    }

    constructor (hash: K -> nat)
      ensures Valid() && Contents() == map[] && this.hash == hash && fresh(table)
    {
      this.hash := hash;
      table := new Entry?<K, V>[0];
      size, sizemask, used := 0, 0, 0;
      chains, entries := [], map[];
    }

    // calloc of a table
    method EmptyTable(n: nat, ghost nodes: set<Entry<K, V>>)
      returns (table: array<Entry?<K, V>>, ghost chains: seq<seq<Entry<K, V>>>, ghost entries: map<K, Entry<K, V>>)
      requires n > 0
      ensures fresh(table) && table.Length == n && entries == map[]
      ensures Table(table, chains, nodes) && Shape(chains, entries, hash, n - 1) && Total(chains) == 0
    {
      table := new Entry?<K, V>[n](_ => null);
      chains, entries := seq(n, _ => []), map[];
      NothingInTotal(chains);
    }

    // An entry becomes the first of its bucket in the new table.
    method Relink(he: Entry<K, V>, wider: array<Entry?<K, V>>, mask: nat, ghost chains: seq<seq<Entry<K, V>>>,
                  ghost moved: map<K, Entry<K, V>>, ghost nodes: set<Entry<K, V>>)
      requires mask < wider.Length && Table(wider, chains, nodes) && Shape(chains, moved, hash, mask)
      requires he in nodes && he.key !in moved
      modifies wider, he`next
      ensures var after := Insert(chains, he, Slot(hash, mask, he.key));
              && Table(wider, after, nodes) && Shape(after, moved[he.key := he], hash, mask)
              && Total(after) == Total(chains) + 1
    {
      hide Shape, Total;
      var h := Bits.And(hash(he.key), mask);
      assert h == Slot(hash, mask, he.key);
      hide Slot, Bits.And;
      NotInBuckets(chains, moved, hash, mask, he);
      InsertShape(chains, moved, hash, mask, he);
      he.next := wider[h];
      wider[h] := he;
      ghost var after := Insert(chains, he, h);
      forall i | 0 <= i < |after|
        ensures Linked(wider[i], after[i], nodes)
      {
        assert old(Linked(wider[i], chains[i], nodes));
        assert forall j :: 0 <= j < |chains[i]| ==> chains[i][j] in chains[i];
        if i == h {
          assert forall j :: 0 < j < |after[i]| ==> after[i][j] == chains[i][j - 1];
        }
      }
    }

    // The inner loop of dictExpand: one bucket of the old table is relinked into the new one.
    method MoveBucket(first: Entry?<K, V>, wider: array<Entry?<K, V>>, mask: nat, ghost list: seq<Entry<K, V>>,
                      ghost before: seq<seq<Entry<K, V>>>, ghost moved: map<K, Entry<K, V>>,
                      ghost nodes: set<Entry<K, V>>)
      returns (ghost after: seq<seq<Entry<K, V>>>, ghost moved': map<K, Entry<K, V>>)
      requires Linked(first, list, nodes) && Distinct(list) && |list| <= used
      requires mask < wider.Length && Table(wider, before, nodes) && Shape(before, moved, hash, mask)
      requires forall e :: e in list ==> e.key !in moved
      modifies this`used, wider, list`next
      ensures Table(wider, after, nodes) && Shape(after, moved', hash, mask)
      ensures used == old(used) - |list| && Total(after) == Total(before) + |list|
      ensures Arrived(moved, moved', list, |list|)
    {
      hide Shape, Slot, Table, Insert, Total, Arrived, Distinct;
      var he := first;
      ghost var m := 0;
      after, moved' := before, moved;
      NoneArrived(moved, list);
      while he != null
        invariant m <= |list| && he == Nth(list, m)
        invariant used == old(used) - m && Total(after) == Total(before) + m
        invariant forall j :: m <= j < |list| ==> list[j].next == Nth(list, j + 1)
        invariant mask < wider.Length && Table(wider, after, nodes) && Shape(after, moved', hash, mask)
        invariant Arrived(moved, moved', list, m)
        decreases |list| - m
      {
        var nextHe := he.next;
        OneArrives(moved, moved', list, m);
        OthersLater(list, m);
        BucketsLinked(wider, after, nodes);
        Relink(he, wider, mask, after, moved', nodes);
        used := used - 1;
        after, moved' := Insert(after, he, Slot(hash, mask, he.key)), moved'[he.key := he];
        he, m := nextHe, m + 1;
      }
    }

    // A round of dictExpand: bucket i.
    method ExpandStep(wider: array<Entry?<K, V>>, mask: nat, i: nat, ghost before: seq<seq<Entry<K, V>>>,
                      ghost moved: map<K, Entry<K, V>>, ghost nodes: set<Entry<K, V>>)
      returns (ghost after: seq<seq<Entry<K, V>>>, ghost moved': map<K, Entry<K, V>>)
      requires Shape(chains, entries, hash, sizemask) && nodes == Nodes()
      requires wider != table && i < table.Length == |chains|
      requires TableFrom(table, chains, nodes, i)
      requires Moved(entries, moved, hash, sizemask, i) && used == Total(chains[i..])
      requires mask < wider.Length && Table(wider, before, nodes) && Shape(before, moved, hash, mask)
      modifies this`used, wider, nodes`next
      ensures Table(wider, after, nodes) && Shape(after, moved', hash, mask)
      ensures TableFrom(table, chains, nodes, i + 1)
      ensures Moved(entries, moved', hash, sizemask, i + 1)
      ensures used == Total(chains[i + 1..]) && Total(after) + used == Total(before) + old(used)
    {
      hide Shape, Table, Slot, Total, Moved, Distinct, Arrived;
      ghost var list := chains[i];
      assert Linked(table[i], list, nodes);
      TotalSplit(chains, i);
      BucketFacts(chains, entries, moved, hash, sizemask, i);
      after, moved' := MoveBucket(table[i], wider, mask, list, before, moved, nodes);
      MovedMore(chains, entries, moved, moved', hash, sizemask, i);
      forall b | i + 1 <= b < |chains|
        ensures Linked(table[b], chains[b], nodes)
      {
        assert old(Linked(table[b], chains[b], nodes));
        forall j | 0 <= j < |chains[b]|
          ensures chains[b][j].next == Nth(chains[b], j + 1)
        {
          assert chains[b][j] in chains[b];
        }
      }
    }

    // The outer loop of dictExpand. It ends with every entry counted off, so its assert holds.
    method Rehash(wider: array<Entry?<K, V>>, mask: nat, ghost before: seq<seq<Entry<K, V>>>)
      returns (ghost after: seq<seq<Entry<K, V>>>)
      requires Valid() && wider != table && mask < wider.Length
      requires Table(wider, before, Nodes()) && Shape(before, map[], hash, mask) && Total(before) == 0
      modifies this`used, wider, Nodes()`next
      ensures used == 0 && Total(after) == old(used)
      ensures Table(wider, after, Nodes()) && Shape(after, entries, hash, mask)
    {
      hide Shape, Slot, Linked, IsSize, Total, Moved;
      ghost var nodes, moved: map<K, Entry<K, V>> := Nodes(), map[];
      after := before;
      assert chains[0..] == chains;
      NothingMoved(entries, hash, sizemask);
      var i := 0;
      while i < size && used > 0
        invariant 0 <= i <= size && used == Total(chains[i..])
        invariant Table(wider, after, nodes) && Shape(after, moved, hash, mask)
        invariant TableFrom(table, chains, nodes, i)
        invariant Moved(entries, moved, hash, sizemask, i) && Total(after) == old(used) - used
        modifies this`used, wider, nodes`next
      {
        after, moved := ExpandStep(wider, mask, i, after, moved, nodes);
        i := i + 1;
      }
      AllMoved(chains, entries, moved, hash, sizemask, i);
      assert used == 0;
    }

    // dictExpand: the entries move to a table for n of them, unless there are more already.
    method Expand(n: nat) returns (ok: bool)
      requires Valid()
      modifies this, Nodes()`next
      ensures Valid() && entries == old(entries) && used == old(used)
      ensures ok == (used <= n)
      ensures ok && n >= LONG_MAX ==> fresh(table) && size == LONG_MAX
      ensures ok && n < LONG_MAX ==> fresh(table) && IsSize(size) && n <= size && (size == 4 || size < 2 * n)
      ensures !ok ==> table == old(table) && size == old(size) && chains == old(chains)
    {
      hide Shape, Linked, IsSize, Total, Slot, Table;
      var realsize := NextPower(n);
      if used > n {
        return false;
      }
      var count := used;
      ghost var after, moved;
      var wider;
      wider, after, moved := EmptyTable(realsize, Nodes());
      after := Rehash(wider, realsize - 1, after);
      Install(wider, count, after);
      ok := true;
    }

    // *ht = n
    method Install(wider: array<Entry?<K, V>>, count: nat, ghost after: seq<seq<Entry<K, V>>>)
      requires wider.Length > 0 && Table(wider, after, Nodes()) && Shape(after, entries, hash, wider.Length - 1)
      requires count == |entries| == Total(after)
      requires wider.Length == LONG_MAX || (IsSize(wider.Length) && count <= wider.Length)
      modifies this`table, this`size, this`sizemask, this`used, this`chains
      ensures Valid() && table == wider && size == wider.Length && used == count
    {
      hide Shape, Linked, IsSize, Total, Slot;
      table, size, sizemask, used := wider, wider.Length, wider.Length - 1, count;
      chains := after;
    }

    // _dictExpandIfNeeded; it never fails.
    method ExpandIfNeeded() returns (ok: bool)
      requires Valid()
      modifies this, Nodes()`next
      ensures ok && Valid() && entries == old(entries) && used == old(used)
      ensures table == old(table) || fresh(table)
      ensures size > 0 && (used < size || size == LONG_MAX)
      ensures size == if old(size) == 0 then 4
                      else if old(used) < old(size) then old(size)
                      else if 2 * old(size) < LONG_MAX then 2 * old(size) else LONG_MAX
    {
      hide Shape, Table, Total, IsSize;
      SizePositive(size);
      if size == 0 {
        ok := Expand(INITIAL_SIZE);
        LeastSize(size);
      } else if used == size {
        ghost var was := size;
        ok := Expand(size * 2);
        if 2 * was < LONG_MAX {
          NextIsDouble(was, size);
        }
      } else {
        ok := true;
      }
      SizePositive(size);
    }

    // _dictKeyIndex: the bucket for a new key, -1 if the key is there.
    method KeyIndex(k: K) returns (index: int)
      requires Valid()
      modifies this, Nodes()`next
      ensures Valid() && entries == old(entries) && used == old(used)
      ensures table == old(table) || fresh(table)
      ensures index == -1 <==> k in entries
      ensures index != -1 ==> index == Slot(hash, sizemask, k) && index < size && (used < size || size == LONG_MAX)
    {
      hide Shape, Slot, Total, IsSize;
      var _ := ExpandIfNeeded();
      var h := Bits.And(hash(k), sizemask);
      SlotIs(hash, sizemask, k);
      LookUp(chains, entries, hash, sizemask, k);
      var found := Search(h, k);
      index := if found then -1 else h;
    }

    // Is the key in the bucket?
    method Search(h: nat, k: K) returns (found: bool)
      requires Valid() && h < size
      ensures h < |chains| && (found <==> exists e :: e in chains[h] && e.key == k)
    {
      hide Shape, Total, IsSize;
      assert Linked(table[h], chains[h], Nodes());
      var he := table[h];
      ghost var m := 0;
      while he != null
        invariant m <= |chains[h]| && he == Nth(chains[h], m)
        invariant forall j :: 0 <= j < m ==> chains[h][j].key != k
        decreases |chains[h]| - m
      {
        if he.key == k {
          assert he in chains[h];
          return true;
        }
        he, m := he.next, m + 1;
      }
      found := false;
    }

    // dictFind
    method Find(k: K) returns (e: Entry?<K, V>)
      requires Valid()
      ensures e == null <==> k !in Contents()
      ensures e != null ==> e == entries[k] && e.key == k && e.val == Contents()[k]
    {
      hide Shape, Slot, Total, IsSize;
      if size == 0 {
        NothingStored(entries, hash, sizemask);
        return null;
      }
      var h := Bits.And(hash(k), sizemask);
      SlotIs(hash, sizemask, k);
      LookUp(chains, entries, hash, sizemask, k);
      e := table[h];
      ghost var m := 0;
      while e != null
        invariant m <= |chains[h]| && e == Nth(chains[h], m)
        invariant forall j :: 0 <= j < m ==> chains[h][j].key != k
        decreases |chains[h]| - m
      {
        if e.key == k {
          assert e in chains[h];
          return;
        }
        e, m := e.next, m + 1;
      }
    }

    // The new entry becomes the first of its bucket.
    method Link(k: K, v: V, index: nat)
      requires Valid() && k !in entries && index == Slot(hash, sizemask, k) && index < size
      requires used < size || size == LONG_MAX
      modifies this`used, this`chains, this`entries, table
      ensures Valid() && fresh(Nodes() - old(Nodes())) && Contents() == old(Contents())[k := v]
    {
      hide Shape, Slot, Total, IsSize, Insert, NodesOf;
      ghost var was, nodes := chains, Nodes();
      var entry := new Entry<K, V>(k, v, table[index]);
      InsertShape(chains, entries, hash, sizemask, entry);
      NodesGrow(entries, entry);
      ghost var before := entries;
      table[index] := entry;
      used := used + 1;
      chains, entries := Insert(chains, entry, index), entries[k := entry];
      FrontLinked(table, was, chains, nodes, Nodes(), index, entry);
      assert forall x :: x in before ==> before[x] in nodes by { NodesHave(before); }
    }

    // dictAdd
    method Add(k: K, v: V) returns (ok: bool)
      requires Valid()
      modifies this, table, Nodes()`next
      ensures Valid() && (table == old(table) || fresh(table)) && fresh(Nodes() - old(Nodes()))
      ensures ok == (k !in old(Contents()))
      ensures Contents() == if ok then old(Contents())[k := v] else old(Contents())
      ensures !ok ==> entries == old(entries)
    {
      hide Shape, Slot, Total, IsSize, Table;
      var index := KeyIndex(k);
      if index == -1 {
        return false;
      }
      Link(k, v, index);
      ok := true;
    }

    // dictReplace: true if the key is new.
    method Replace(k: K, v: V) returns (added: bool)
      requires Valid()
      modifies this, table, Nodes()
      ensures Valid() && (table == old(table) || fresh(table)) && fresh(Nodes() - old(Nodes()))
      ensures added == (k !in old(Contents()))
      ensures Contents() == old(Contents())[k := v]
    {
      hide Shape, Slot, Total, IsSize, Table;
      added := Add(k, v);
      if added {
        return;
      }
      var entry := Find(k);
      SetVal(entry, v);
    }

    method SetVal(entry: Entry<K, V>, v: V)
      requires Valid() && entry.key in entries && entries[entry.key] == entry
      modifies entry`val
      ensures Valid() && Contents() == old(Contents())[entry.key := v]
    {
      hide Shape, Slot, Total, IsSize, NodesOf;
      NodesKeyed(chains, entries, hash, sizemask);
      entry.val := v;
      forall i | 0 <= i < |chains|
        ensures Linked(table[i], chains[i], Nodes())
      {
        assert old(Linked(table[i], chains[i], Nodes()));
      }
    }

    // Unlinking an entry from its chain, behind prev if there is one.
    method Unlink(de: Entry<K, V>, prev: Entry?<K, V>, h: nat, ghost m: nat)
      requires Valid() && h < size && m < |chains[h]| && de == chains[h][m]
      requires prev == if m == 0 then null else chains[h][m - 1]
      modifies this`used, this`chains, this`entries, table, Nodes()`next
      ensures Valid() && chains == old(chains)[h := Without(old(chains)[h], m)]
      ensures de.key in old(entries) && entries == old(entries) - {de.key}
    {
      hide Shape, Slot, Total, IsSize, Without, NodesOf, Table, Distinct;
      ghost var was, nodes := chains, Nodes();
      Sized(table, chains, nodes);
      RemoveShape(chains, entries, hash, sizemask, h, m);
      NodesShrink(chains, entries, hash, sizemask, de, h);
      UnlinkNode(de, prev, h, nodes, m);
      used := used - 1;
      chains, entries := was[h := Without(was[h], m)], entries - {de.key};
      assert Nodes() == nodes - {de};
    }

    twostate lemma ContentsWithout(k: K)
      requires entries == old(entries) - {k}
      requires forall i :: i in old(entries) ==> old(entries)[i].val == old(entries[i].val)
      ensures Contents() == old(Contents()) - {k}
      ensures k in old(Contents()) <==> k in old(entries)
    {
    }

    lemma InRange(k: K)
      requires Valid() && size > 0
      ensures Slot(hash, sizemask, k) < size == |chains|
    {
      hide Bits.And, Shape, Total, IsSize;
    }

    lemma NothingThere()
      requires Valid() && size == 0
      ensures entries == map[] && Contents() == map[]
    {
      NothingStored(entries, hash, sizemask);
    }

    method UnlinkNode(de: Entry<K, V>, prev: Entry?<K, V>, h: nat, ghost nodes: set<Entry<K, V>>, ghost m: nat)
      requires Table(table, chains, nodes) && h < table.Length == |chains| && m < |chains[h]| && de == chains[h][m]
      requires prev == (if m == 0 then null else chains[h][m - 1]) && Distinct(chains[h])
      requires forall i, x :: 0 <= i < |chains| && i != h && x in chains[i] ==> x !in chains[h]
      modifies table, nodes`next
      ensures Table(table, chains[h := Without(chains[h], m)], nodes - {de})
    {
      hide Table, Without, Distinct;
      if prev != null {
        ChainNodes(table, chains, nodes, h);
        assert prev in chains[h];
        UnlinkBehind(de, prev, h, nodes, m);
      } else {
        UnlinkFirst(de, h, nodes);
      }
    }

    // prevde->next = de->next
    method UnlinkBehind(de: Entry<K, V>, prev: Entry<K, V>, h: nat, ghost nodes: set<Entry<K, V>>, ghost m: nat)
      requires Table(table, chains, nodes) && h < |chains| && 0 < m < |chains[h]| && de == chains[h][m]
      requires prev == chains[h][m - 1] && Distinct(chains[h])
      requires forall i, x :: 0 <= i < |chains| && i != h && x in chains[i] ==> x !in chains[h]
      modifies prev`next
      ensures Table(table, chains[h := Without(chains[h], m)], nodes - {de})
    {
      hide Without, Distinct;
      ghost var c, rest := chains[h], Without(chains[h], m);
      WithoutAt(c, m);
      assert de in c && prev in c;
      prev.next := de.next;
      forall i | 0 <= i < |chains|
        ensures Linked(table[i], chains[h := rest][i], nodes - {de})
      {
        assert old(Linked(table[i], chains[i], nodes));
        if i != h {
          assert forall j :: 0 <= j < |chains[i]| ==> chains[i][j] in chains[i];
        }
      }
    }

    // ht->table[h] = de->next
    method UnlinkFirst(de: Entry<K, V>, h: nat, ghost nodes: set<Entry<K, V>>)
      requires Table(table, chains, nodes) && h < |chains| && 0 < |chains[h]| && de == chains[h][0]
      requires Distinct(chains[h])
      requires forall i, x :: 0 <= i < |chains| && i != h && x in chains[i] ==> x !in chains[h]
      modifies table
      ensures Table(table, chains[h := Without(chains[h], 0)], nodes - {de})
    {
      hide Without, Distinct;
      ghost var c, rest := chains[h], Without(chains[h], 0);
      WithoutAt(c, 0);
      assert de in c;
      table[h] := de.next;
      forall i | 0 <= i < |chains|
        ensures Linked(table[i], chains[h := rest][i], nodes - {de})
      {
        assert old(Linked(table[i], chains[i], nodes));
      }
    }

    // dictDelete
    method Delete(k: K) returns (ok: bool, ghost at: nat)
      requires Valid()
      modifies this`used, this`chains, this`entries, table, Nodes()`next
      ensures Valid() && ok == (k in old(Contents())) && Contents() == old(Contents()) - {k}
      ensures entries == old(entries) - {k}
      ensures !ok ==> chains == old(chains)
      ensures ok ==>
                var h := Slot(hash, sizemask, k);
                && h < |old(chains)| && at < |old(chains)[h]| && old(chains)[h][at].key == k
                && chains == old(chains)[h := Without(old(chains)[h], at)]
    {
      hide Valid, Contents, Without;
      at := 0;
      if size == 0 {
        NothingThere();
        return false, 0;
      }
      var de, prevde, h;
      de, prevde, h, at := Seek(k);
      if de != null {
        Unlink(de, prevde, h, at);
      }
      ok := de != null;
      ContentsWithout(k);
    }

    // The entry of the key and the one before it in their bucket
    method Seek(k: K) returns (de: Entry?<K, V>, prevde: Entry?<K, V>, h: nat, ghost at: nat)
      requires Valid() && size > 0
      ensures h == Slot(hash, sizemask, k) && h < size == |chains| && (de == null <==> k !in entries)
      ensures de != null ==>
                && at < |chains[h]| && de == chains[h][at] && de.key == k
                && prevde == if at == 0 then null else chains[h][at - 1]
    {
      hide Bits.And, Slot, Shape, Total, IsSize, TableFrom;
      h := Bits.And(hash(k), sizemask);
      SlotIs(hash, sizemask, k);
      InRange(k);
      LookUp(chains, entries, hash, sizemask, k);
      de, prevde, at := SeekIn(h, k);
    }

    method SeekIn(h: nat, k: K) returns (de: Entry?<K, V>, prevde: Entry?<K, V>, ghost at: nat)
      requires Valid() && h < size
      ensures h < size == |chains| && (de == null ==> forall e :: e in chains[h] ==> e.key != k)
      ensures de != null ==>
                && at < |chains[h]| && de == chains[h][at] && de.key == k
                && prevde == if at == 0 then null else chains[h][at - 1]
    {
      hide Shape, Total, IsSize;
      assert Linked(table[h], chains[h], Nodes());
      hide TableFrom, Table;
      prevde, de, at := null, table[h], 0;
      while de != null
        invariant at <= |chains[h]| && de == Nth(chains[h], at)
        invariant prevde == if at == 0 then null else chains[h][at - 1]
        invariant forall j :: 0 <= j < at ==> chains[h][j].key != k
        decreases |chains[h]| - at
      {
        if de.key == k {
          return;
        }
        prevde := de;
        de, at := de.next, at + 1;
      }
    }
  }

  ghost function NodesOf<K(!new), V>(entries: map<K, Entry<K, V>>): set<Entry<K, V>> {
    set k | k in entries :: entries[k]
  }

  lemma NodesHave<K(!new), V>(entries: map<K, Entry<K, V>>)
    ensures forall k :: k in entries ==> entries[k] in NodesOf(entries)
  {
  }

  lemma NodesGrow<K(!new), V>(entries: map<K, Entry<K, V>>, e: Entry<K, V>)
    requires e.key !in entries
    ensures NodesOf(entries[e.key := e]) == NodesOf(entries) + {e}
  {
    var m := entries[e.key := e];
    assert m[e.key] == e;
    forall x | x in NodesOf(entries)
      ensures x in NodesOf(m)
    {
      var k :| k in entries && entries[k] == x;
      assert m[k] == x;
    }
  }

  lemma NodesKeyed<K(!new), V>(chains: seq<seq<Entry<K, V>>>, entries: map<K, Entry<K, V>>, hash: K -> nat, mask: nat)
    requires Shape(chains, entries, hash, mask)
    ensures forall k :: k in entries ==> entries[k].key == k
  {
  }

  // The entry leaves the nodes, and no other chain had it.
  // The first m entries of the list have joined the map.
  ghost predicate Arrived<K(!new), V>(moved: map<K, Entry<K, V>>, moved': map<K, Entry<K, V>>,
                                      list: seq<Entry<K, V>>, m: nat)
  {
    && m <= |list|
    && (forall k :: k in moved ==> k in moved' && moved'[k] == moved[k])
    && (forall k :: k in moved' ==> k in moved || (moved'[k] in list && moved'[k].key == k))
    && (forall j :: 0 <= j < m ==> list[j].key in moved' && moved'[list[j].key] == list[j])
    && (forall j :: m <= j < |list| ==> list[j].key !in moved')
  }

  lemma NoneArrived<K(!new), V>(moved: map<K, Entry<K, V>>, list: seq<Entry<K, V>>)
    requires forall e :: e in list ==> e.key !in moved
    ensures Arrived(moved, moved, list, 0)
  {
  }

  lemma OneArrives<K(!new), V>(moved: map<K, Entry<K, V>>, moved': map<K, Entry<K, V>>, list: seq<Entry<K, V>>, m: nat)
    requires Arrived(moved, moved', list, m) && m < |list| && Distinct(list)
    ensures list[m].key !in moved' && Arrived(moved, moved'[list[m].key := list[m]], list, m + 1)
  {
  }

  lemma OthersLater<K, V>(list: seq<Entry<K, V>>, m: nat)
    requires Distinct(list) && m < |list|
    ensures forall j :: m < j < |list| ==> list[j] != list[m]
  {
  }

  lemma NodesShrink<K(!new), V>(chains: seq<seq<Entry<K, V>>>, entries: map<K, Entry<K, V>>, hash: K -> nat, mask: nat,
                                e: Entry<K, V>, h: nat)
    requires Shape(chains, entries, hash, mask) && h < |chains| && e in chains[h]
    ensures e.key in entries && NodesOf(entries - {e.key}) == NodesOf(entries) - {e}
    ensures forall i, x :: 0 <= i < |chains| && i != h && x in chains[i] ==> x !in chains[h]
    ensures Distinct(chains[h])
  {
    hide Slot;
    assert Bucket(chains[h], entries, hash, mask, h);
    forall x | x in NodesOf(entries) - {e}
      ensures x in NodesOf(entries - {e.key})
    {
      var k :| k in entries && entries[k] == x;
      assert (entries - {e.key})[k] == x;
    }
    forall i, x | 0 <= i < |chains| && i != h && x in chains[i]
      ensures x !in chains[h]
    {
      assert Bucket(chains[i], entries, hash, mask, i);
    }
  }

  // In a table of a power of two the bucket of a key is its hash modulo the size.
  lemma SlotIsModulus<K>(hash: K -> nat, j: nat, k: K)
    ensures Slot(hash, Bits.Pow2(j) - 1, k) == hash(k) % Bits.Pow2(j)
  {
    Bits.MaskIsModulus(hash(k), j);
  }

  lemma SlotIs<K>(hash: K -> nat, mask: nat, k: K)
    ensures Slot(hash, mask, k) == Bits.And(hash(k), mask)
  {
  }

  lemma LeastSize(n: nat)
    requires IsSize(n) && n < 8
    ensures n == 4
  {
    var k: nat :| k >= 2 && n == Bits.Pow2(k);
    assert Bits.Pow2(2) == 4 && Bits.Pow2(3) == 8;
    if k >= 3 {
      Pow2Grows(3, k);
    }
  }

  lemma SizePositive(size: nat)
    requires size == 0 || size == LONG_MAX || IsSize(size)
    ensures !IsSize(0)
  {
  }

  lemma Sized<K(!new), V>(table: array<Entry?<K, V>>, chains: seq<seq<Entry<K, V>>>, nodes: set<Entry<K, V>>)
    requires Table(table, chains, nodes)
    ensures |chains| == table.Length
  {
  }

  lemma ChainNodes<K(!new), V>(table: array<Entry?<K, V>>, chains: seq<seq<Entry<K, V>>>, nodes: set<Entry<K, V>>,
                               h: nat)
    requires Table(table, chains, nodes) && h < |chains|
    ensures forall e :: e in chains[h] ==> e in nodes
  {
    assert Linked(table[h], chains[h], nodes);
  }

  lemma WithoutAt<K(!new), V>(c: seq<Entry<K, V>>, m: nat)
    requires m < |c| && Distinct(c)
    ensures var rest := Without(c, m);
            && |rest| == |c| - 1
            && (forall j :: 0 <= j < |rest| ==> rest[j] == c[if j < m then j else j + 1])
            && (forall e :: e in rest ==> e in c && e != c[m])
            && (forall j :: 0 <= j < |c| && m != 0 && j != m - 1 ==> c[j] != c[m - 1])
  {
    var rest := Without(c, m);
    assert forall j :: 0 <= j < |rest| ==> rest[j] == c[if j < m then j else j + 1];
  }

  // A key is in the map if and only if its bucket has it.
  lemma LookUp<K(!new), V>(chains: seq<seq<Entry<K, V>>>, entries: map<K, Entry<K, V>>, hash: K -> nat, mask: nat, k: K)
    requires Shape(chains, entries, hash, mask) && Slot(hash, mask, k) < |chains|
    ensures var chain := chains[Slot(hash, mask, k)];
            && (forall e :: e in chain && e.key == k ==> k in entries && entries[k] == e)
            && (k in entries ==> entries[k] in chain && entries[k].key == k)
  {
    assert Bucket(chains[Slot(hash, mask, k)], entries, hash, mask, Slot(hash, mask, k));
  }

  lemma NothingStored<K(!new), V>(entries: map<K, Entry<K, V>>, hash: K -> nat, mask: nat)
    requires Shape([], entries, hash, mask)
    ensures entries == map[]
  {
  }

  lemma FrontLinked<K(!new), V>(table: array<Entry?<K, V>>, was: seq<seq<Entry<K, V>>>, chains: seq<seq<Entry<K, V>>>,
                                nodes: set<Entry<K, V>>, all: set<Entry<K, V>>, h: nat, e: Entry<K, V>)
    requires h < |was| && |was| == table.Length && chains == Insert(was, e, h) && all == nodes + {e}
    requires forall i :: 0 <= i < |was| && i != h ==> Linked(table[i], was[i], nodes)
    requires Linked(e.next, was[h], nodes) && table[h] == e
    ensures Table(table, chains, all)
  {
    forall i | 0 <= i < |chains|
      ensures Linked(table[i], chains[i], all)
    {
      if i == h {
        assert forall j :: 0 < j < |chains[i]| ==> chains[i][j] == was[i][j - 1];
      } else {
        assert Linked(table[i], was[i], nodes);
      }
    }
  }

  // The entries of the buckets from i on, in the order an iterator finds them.
  ghost function Flat<K, V>(chains: seq<seq<Entry<K, V>>>, i: nat): seq<Entry<K, V>>
    decreases |chains| - i
  {
    if i >= |chains| then [] else chains[i] + Flat(chains, i + 1)
  }

  // What is left when `at` entries of bucket `index` have been returned, or all of it.
  ghost function Remaining<K, V>(chains: seq<seq<Entry<K, V>>>, walking: bool, index: int, at: nat): seq<Entry<K, V>>
    requires -1 <= index && (walking ==> 0 <= index < |chains| && at <= |chains[index]|)
  {
    if walking then chains[index][at..] + Flat(chains, index + 1) else Flat(chains, index + 1)
  }

  lemma NextBucket<K, V>(chains: seq<seq<Entry<K, V>>>, index: int, at: nat)
    requires -1 <= index
    ensures index + 1 >= |chains| ==>
              Remaining(chains, false, index, at) == Remaining(chains, false, index + 1, at) == []
    ensures index + 1 < |chains| && chains[index + 1] == [] ==>
              Remaining(chains, false, index, at) == Remaining(chains, false, index + 1, 0)
    ensures index + 1 < |chains| && chains[index + 1] != [] ==>
              Remaining(chains, false, index, at) == [chains[index + 1][0]] + Remaining(chains, true, index + 1, 1)
  {
  }

  lemma NextInBucket<K, V>(chains: seq<seq<Entry<K, V>>>, index: nat, at: nat)
    requires index < |chains| && at <= |chains[index]|
    ensures at == |chains[index]| ==> Remaining(chains, true, index, at) == Remaining(chains, false, index, at)
    ensures at < |chains[index]| ==>
              Remaining(chains, true, index, at) == [chains[index][at]] + Remaining(chains, true, index, at + 1)
  {
  }

  // dictIterator
  class Iterator<K(==, !new), V> {
    const ht: Dict<K, V>
    var index: int
    var entry: Entry?<K, V>
    var nextEntry: Entry?<K, V>
    ghost var at: nat

    // dictGetIterator
    constructor (ht: Dict<K, V>)
      requires ht.Valid()
      ensures this.ht == ht && Valid() && Left() == Flat(ht.chains, 0)
    {
      this.ht := ht;
      index, entry, nextEntry, at := -1, null, null, 0;
    }

    // The chain being walked goes on at nextEntry; entry itself may be gone.
    ghost predicate Valid()
      reads this, ht, ht.table, ht.Nodes()
    {
      && ht.Valid() && -1 <= index
      && (entry != null ==>
            0 <= index < ht.size && at <= |ht.chains[index]| && nextEntry == Nth(ht.chains[index], at))
    }

    // The entries still to be returned
    ghost function Left(): seq<Entry<K, V>>
      requires Valid()
      reads this, ht, ht.table, ht.Nodes()
    {
      Remaining(ht.chains, entry != null, index, at)
    }

    // An entry to return is saved together with its successor: the user may delete it.
    ghost predicate Returns(left: seq<Entry<K, V>>)
      reads this, ht, ht.table, ht.Nodes()
    {
      && Valid()
      && (entry == null ==> left == Left())
      && (entry != null ==> left == [entry] + Left() && 0 < at && entry == ht.chains[index][at - 1])
    }

    // The branches of dictNext: on to the next bucket,
    method EnterBucket()
      requires Valid() && entry == null && index + 1 < ht.size
      modifies this
      ensures Returns(old(Left())) && index == old(index) + 1
    {
      hide Remaining, Dict.Valid, Dict.Nodes;
      NotANode(ht, this);
      NextBucket(ht.chains, index, at);
      TableOf(ht);
      ChainOf(ht, index + 1);
      index := index + 1;
      entry, at := ht.table[index], 0;
      if entry != null {
        nextEntry, at := entry.next, 1;
      }
    }

    // or on in this one.
    method FollowChain()
      requires Valid() && entry != null
      modifies this
      ensures Returns(old(Left())) && index == old(index)
    {
      hide Remaining, Dict.Valid, Dict.Nodes;
      NotANode(ht, this);
      TableOf(ht);
      NextInBucket(ht.chains, index, at);
      entry := nextEntry;
      if entry != null {
        NextOf(ht, index, at);
        nextEntry, at := entry.next, at + 1;
      }
    }

    // dictNext
    method Next() returns (e: Entry?<K, V>)
      requires Valid()
      modifies this
      ensures e == entry && Returns(old(Left())) && (e == null ==> Left() == [])
    {
      hide Remaining, Dict.Valid, Dict.Nodes;
      NotANode(ht, this);
      TableOf(ht);
      if entry != null {
        FollowChain();
      }
      while entry == null
        invariant Returns(old(Left()))
        decreases ht.size - index
      {
        if index + 1 >= ht.size {
          NextBucket(ht.chains, index, at);
          index := index + 1;
          return null;
        }
        EnterBucket();
      }
      e := entry;
    }
  }

  // dictDelete of the entry the iterator has just returned
  method DeleteReturned<K(==, !new), V>(it: Iterator<K, V>)
    requires it.Valid() && it.entry != null && 0 < it.at && it.entry == it.ht.chains[it.index][it.at - 1]
    modifies it`at, it.ht`used, it.ht`chains, it.ht`entries, it.ht.table, it.ht.Nodes()`next
    ensures it.Valid() && it.entry == old(it.entry) && it.Left() == old(it.Left())
    ensures it.ht.entries == old(it.ht.entries) - {it.entry.key} && it.ht.Nodes() <= old(it.ht.Nodes())
  {
    hide Dict.Valid, Shape, Flat, Slot, Without;
    var ht := it.ht;
    NotANode(ht, it);
    TableOf(ht);
    InBucket(ht, it.index, it.at - 1);
    ghost var was := ht.chains;
    var _, at := ht.Delete(it.entry.key);
    TableOf(ht);
    WithoutShifts(was[it.index], at);
    assert it.index == Slot(ht.hash, ht.sizemask, it.entry.key) && at == it.at - 1;
    NotANode(ht, it);
    it.at := it.at - 1;
    assert it.nextEntry == Nth(ht.chains[it.index], it.at);
    FlatAbove(was, ht.chains, it.index, it.index + 1);
  }

  method VisitNext<K(==, !new), V>(it: Iterator<K, V>, dropped: bool, ghost left: seq<Entry<K, V>>)
    returns (e: Entry?<K, V>)
    requires it.Returns(left) && it.entry != null
    modifies it, it.ht`used, it.ht`chains, it.ht`entries, it.ht.table, it.ht.Nodes()`next
    ensures left != [] && it.Returns(left[1..]) && e == it.entry && (e == null ==> left[1..] == [])
    ensures it.ht.entries == if dropped then old(it.ht.entries) - {old(it.entry).key} else old(it.ht.entries)
    ensures it.ht.Nodes() <= old(it.ht.Nodes())
  {
    hide Dict.Valid, Iterator.Left, Iterator.Valid;
    assert left[1..] == it.Left();
    hide Iterator.Returns;
    if dropped {
      DeleteReturned(it);
    }
    e := it.Next();
  }

  // Walking the whole table, deleting some of the entries as they are returned: every key is
  // visited once, and just the others remain.
  method Visit<K(==, !new), V>(ht: Dict<K, V>, drop: K -> bool) returns (visited: seq<K>)
    requires ht.Valid()
    modifies ht, ht.table, ht.Nodes()`next
    ensures ht.Valid()
    ensures forall i, j :: 0 <= i < j < |visited| ==> visited[i] != visited[j]
    ensures forall k :: k in visited <==> k in old(ht.Contents())
    ensures forall k :: k in ht.Contents() <==> k in old(ht.Contents()) && !drop(k)
    ensures forall k :: k in ht.Contents() ==> ht.Contents()[k] == old(ht.Contents())[k]
  {
    hide Dict.Valid, Dict.Nodes, Shape, Flat, Slot, Distinct, Dropped;
    FlatShape(ht);
    ghost var all := Flat(ht.chains, 0);
    visited := Walk(ht, drop);
    AllVisited(ht.entries, old(ht.entries), all, visited, drop);
  }

  // The loop of the walk
  method Walk<K(==, !new), V>(ht: Dict<K, V>, drop: K -> bool) returns (visited: seq<K>)
    requires ht.Valid()
    modifies ht, ht.table, ht.Nodes()`next
    ensures ht.Valid() && ht.entries == old(ht.entries) - Dropped(visited, drop)
    ensures |visited| == |old(Flat(ht.chains, 0))|
    ensures forall i :: 0 <= i < |visited| ==> visited[i] == old(Flat(ht.chains, 0))[i].key
  {
    hide Dict.Valid, Dict.Nodes, Iterator.Left, Iterator.Returns, Shape, Flat, Slot, Dropped;
    NoneDropped(drop);
    ghost var all := Flat(ht.chains, 0);
    var it := new Iterator<K, V>(ht);
    visited := [];
    var e := it.Next();
    assert all[0..] == all;
    if e == null {
      ReturnsNone(it, all);
    }
    while e != null
      invariant |visited| <= |all| && e == it.entry && it.ht == ht && it.Returns(all[|visited|..])
      invariant forall i :: 0 <= i < |visited| ==> visited[i] == all[i].key
      invariant e == null ==> |visited| == |all|
      invariant ht.Nodes() <= old(ht.Nodes()) && ht.table == old(ht.table)
      invariant ht.entries == old(ht.entries) - Dropped(visited, drop)
      decreases |all| - |visited|
    {
      var key := e.key;
      ReturnsFirst(it, all[|visited|..]);
      DroppedMore(visited, key, drop);
      e := VisitNext(it, drop(key), all[|visited|..]);
      visited := visited + [key];
    }
    ReturnsValid(it, all[|visited|..]);
  }

  lemma ReturnsFirst<K(!new), V>(it: Iterator<K, V>, left: seq<Entry<K, V>>)
    requires it.Returns(left) && it.entry != null
    ensures left != [] && left[0] == it.entry
  {
  }

  lemma ReturnsNone<K(!new), V>(it: Iterator<K, V>, left: seq<Entry<K, V>>)
    requires it.Returns(left) && it.entry == null
    ensures left == it.Left()
  {
  }

  lemma ReturnsValid<K(!new), V>(it: Iterator<K, V>, left: seq<Entry<K, V>>)
    requires it.Returns(left)
    ensures it.ht.Valid()
  {
  }

  ghost function Dropped<K>(visited: seq<K>, drop: K -> bool): set<K> {
    set k | k in visited && drop(k)
  }

  lemma NoneDropped<K>(drop: K -> bool)
    ensures Dropped([], drop) == {}
  {
  }

  lemma DroppedMore<K>(visited: seq<K>, k: K, drop: K -> bool)
    ensures Dropped(visited + [k], drop) == if drop(k) then Dropped(visited, drop) + {k} else Dropped(visited, drop)
  {
  }

  lemma AllVisited<K(!new), V>(now: map<K, Entry<K, V>>, was: map<K, Entry<K, V>>, all: seq<Entry<K, V>>,
                               visited: seq<K>, drop: K -> bool)
    requires |visited| == |all| && forall i :: 0 <= i < |visited| ==> visited[i] == all[i].key
    requires Distinct(all) && forall e :: e in all ==> e.key in was
    requires forall k :: k in was ==> was[k] in all && was[k].key == k
    requires now == was - Dropped(visited, drop)
    ensures forall i, j :: 0 <= i < j < |visited| ==> visited[i] != visited[j]
    ensures forall k :: k in visited <==> k in was
    ensures forall k :: k in now <==> k in was && !drop(k)
  {
    assert forall i :: 0 <= i < |all| ==> all[i] in all;
    forall k | k in was
      ensures k in visited
    {
      var i :| 0 <= i < |all| && all[i] == was[k];
      assert visited[i] == k;
    }
  }

  lemma InBucket<K(!new), V>(ht: Dict<K, V>, i: nat, j: nat)
    requires ht.Valid() && i < ht.size && j < |ht.chains[i]|
    ensures var e := ht.chains[i][j];
            && e.key in ht.entries && ht.entries[e.key] == e && Slot(ht.hash, ht.sizemask, e.key) == i
            && forall m :: 0 <= m < |ht.chains[i]| && m != j ==> ht.chains[i][m].key != e.key
  {
    assert Bucket(ht.chains[i], ht.entries, ht.hash, ht.sizemask, i);
    assert ht.chains[i][j] in ht.chains[i];
  }

  lemma WithoutShifts<K, V>(c: seq<Entry<K, V>>, m: nat)
    requires m < |c|
    ensures |Without(c, m)| == |c| - 1 && Without(c, m)[m..] == c[m + 1..]
    ensures Nth(Without(c, m), m) == Nth(c, m + 1)
  {
  }

  lemma {:induction false} FlatAbove<K, V>(a: seq<seq<Entry<K, V>>>, b: seq<seq<Entry<K, V>>>, i: nat, from: nat)
    requires |a| == |b| && i < from && forall j :: 0 <= j < |a| && j != i ==> a[j] == b[j]
    ensures Flat(a, from) == Flat(b, from)
    decreases |a| - from
  {
    if from < |a| {
      FlatAbove(a, b, i, from + 1);
    }
  }

  // The buckets hold every entry of the map once.
  lemma FlatShape<K(!new), V>(ht: Dict<K, V>)
    requires ht.Valid()
    ensures Distinct(Flat(ht.chains, 0))
    ensures forall e :: e in Flat(ht.chains, 0) ==> e.key in ht.entries
    ensures forall k :: k in ht.entries ==> ht.entries[k] in Flat(ht.chains, 0) && ht.entries[k].key == k
  {
    hide Slot;
    FlatFrom(ht.chains, ht.entries, ht.hash, ht.sizemask, 0);
    forall k | k in ht.entries
      ensures ht.entries[k] in Flat(ht.chains, 0)
    {
      assert Holds(ht.chains, Slot(ht.hash, ht.sizemask, k), ht.entries[k]);
    }
  }

  lemma {:induction false} FlatFrom<K(!new), V>(chains: seq<seq<Entry<K, V>>>, entries: map<K, Entry<K, V>>,
                                                hash: K -> nat, mask: nat, i: nat)
    requires Shape(chains, entries, hash, mask) && i <= |chains|
    ensures Distinct(Flat(chains, i))
    ensures forall e :: e in Flat(chains, i) ==> e.key in entries && entries[e.key] == e && Slot(hash, mask, e.key) >= i
    ensures forall b, e :: i <= b < |chains| && e in chains[b] ==> e in Flat(chains, i)
    decreases |chains| - i
  {
    hide Slot, Shape;
    if i < |chains| {
      FlatFrom(chains, entries, hash, mask, i + 1);
      ShapeBucket(chains, entries, hash, mask, i);
      var a: seq<Entry<K, V>>, rest: seq<Entry<K, V>> := chains[i], Flat(chains, i + 1);
      var all: seq<Entry<K, V>> := a + rest;
      forall x, y | 0 <= x < y < |all|
        ensures all[x].key != all[y].key
      {
        if x < |a| <= y {
          assert all[x] in a && all[y] in rest;
        }
      }
    }
  }

  lemma ShapeBucket<K(!new), V>(chains: seq<seq<Entry<K, V>>>, entries: map<K, Entry<K, V>>, hash: K -> nat, mask: nat,
                                i: nat)
    requires Shape(chains, entries, hash, mask) && i < |chains|
    ensures Bucket(chains[i], entries, hash, mask, i)
  {
  }

  // The iterator lies outside of the table.
  lemma NotANode<K(!new), V>(ht: Dict<K, V>, it: Iterator<K, V>)
    ensures forall e: Entry<K, V> :: e in ht.Nodes() ==> (e as object) != (it as object)
  {
  }

  lemma TableOf<K(!new), V>(ht: Dict<K, V>)
    requires ht.Valid()
    ensures ht.size == ht.table.Length == |ht.chains|
  {
  }

  lemma NextOf<K(!new), V>(ht: Dict<K, V>, i: nat, at: nat)
    requires ht.Valid() && i < ht.size && at < |ht.chains[i]|
    ensures ht.chains[i][at].next == Nth(ht.chains[i], at + 1)
  {
    ChainOf(ht, i);
  }

  lemma ChainOf<K(!new), V>(ht: Dict<K, V>, i: nat)
    requires ht.Valid() && i < ht.size
    ensures var chain := ht.chains[i];
            ht.table[i] == Nth(chain, 0) && forall j :: 0 <= j < |chain| ==> chain[j].next == Nth(chain, j + 1)
  {
    hide Shape, IsSize, Total;
    assert Linked(ht.table[i], ht.chains[i], ht.Nodes());
  }
}
