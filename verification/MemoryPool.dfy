/** rapidxml's memory_pool: blocks are cut from a static block and then from ever new pools, whose
    headers chain them for clear. Addresses are numbers. */
module MemoryPool {
  import opened Bits

  datatype Region = Region(begin: nat, end: nat)

  predicate Disjoint(a: Region, b: Region) {
    a.end <= b.begin || b.end <= a.begin
  }

  predicate Within(a: Region, b: Region) {
    b.begin <= a.begin && a.end <= b.end
  }

  // A block and the pool it was cut from: 0 is the static one.
  datatype Block = Block(at: Region, pool: nat)

  class Pool {
    const k: nat
    const HEADER: nat
    const STATIC_SIZE: nat
    const DYNAMIC_SIZE: nat
    const m_static_memory: nat
    var m_begin: nat
    var m_ptr: nat
    var m_end: nat
    // What the headers hold, by their address.
    var previous_begin: map<nat, nat>
    // The static block and the pools allocated since, and the blocks handed out.
    ghost var pools: seq<Region>
    ghost var blocks: seq<Block>

    ghost function Header(p: Region): Region {
      Region(Align(p.begin, k), Align(p.begin, k) + HEADER)
    }

    // The first address of a pool that is not taken by its header.
    ghost function Usable(i: nat): nat
      requires i < |pools|
      reads this
    {
      if i == 0 then pools[0].begin else Header(pools[i]).end
    }

    ghost predicate PoolsOk()
      reads this`pools, this`previous_begin
    {
      && |pools| > 0 && pools[0] == Region(m_static_memory, m_static_memory + STATIC_SIZE)
      && (forall i, j :: 0 <= i < j < |pools| ==> Disjoint(pools[i], pools[j]) && pools[j].begin != pools[i].begin)
      && (forall i :: 0 < i < |pools| ==>
            && Header(pools[i]).begin in previous_begin && previous_begin[Header(pools[i]).begin] == pools[i - 1].begin
            && Within(Header(pools[i]), pools[i]))
    }

    ghost predicate BlockOk(b: Block)
      reads this
    {
      && Aligned(b.at.begin, k) && b.at.begin <= b.at.end && b.pool < |pools|
      && Within(b.at, pools[b.pool]) && Usable(b.pool) <= b.at.begin
      && (b.pool == |pools| - 1 ==> b.at.end <= m_ptr)
    }

    ghost predicate BlocksOk()
      reads this
    {
      && (forall b :: b in blocks ==> BlockOk(b))
      && (forall i, j :: 0 <= i < j < |blocks| ==> Disjoint(blocks[i].at, blocks[j].at))
    }

    ghost predicate Valid()
      reads this
    {
      && HEADER > 0 && PoolsOk() && BlocksOk()
      && m_begin == pools[|pools| - 1].begin && m_end == pools[|pools| - 1].end && Usable(|pools| - 1) <= m_ptr
    }

    constructor (k: nat, header: nat, staticSize: nat, dynamicSize: nat, staticMemory: nat)
      requires header > 0
      ensures Valid() && blocks == [] && |pools| == 1
      ensures this.k == k && HEADER == header && STATIC_SIZE == staticSize && DYNAMIC_SIZE == dynamicSize
    {
      this.k, HEADER, STATIC_SIZE, DYNAMIC_SIZE := k, header, staticSize, dynamicSize;
      m_static_memory, previous_begin := staticMemory, map[];
      new;
      Init();
    }

    method Init()
      requires HEADER > 0
      modifies this`m_begin, this`m_ptr, this`m_end, this`pools, this`blocks
      ensures Valid() && blocks == [] && pools == [Region(m_static_memory, m_static_memory + STATIC_SIZE)]
      ensures m_begin == m_static_memory && m_ptr == Align(m_static_memory, k) && m_end == m_static_memory + STATIC_SIZE
    {
      m_begin := m_static_memory;
      AlignIs(m_begin, k);
      m_ptr := Align(m_begin, k);
      m_end := m_static_memory + STATIC_SIZE;
      pools, blocks := [Region(m_begin, m_end)], [];
    }

    // Bytes asked for when a block does not fit into the current pool.
    function AllocSize(size: nat): nat {
      HEADER + (2 * Pow2(k) - 2) + if DYNAMIC_SIZE < size then size else DYNAMIC_SIZE
    }

    // What the allocation function returns is memory nobody else has.
    ghost predicate Unused(r: Region)
      reads this
    {
      forall i :: 0 <= i < |pools| ==> Disjoint(pools[i], r) && r.begin != pools[i].begin
    }

    // allocate_aligned; `raw` is what allocate_raw returns if it is called.
    method AllocateAligned(size: nat, raw: nat) returns (result: nat)
      requires Valid()
      requires Align(m_ptr, k) + size > m_end ==> Unused(Region(raw, raw + AllocSize(size)))
      modifies this
      ensures Valid() && blocks == old(blocks) + [Block(Region(result, result + size), |pools| - 1)]
      ensures pools == if Align(old(m_ptr), k) + size > old(m_end)
                       then old(pools) + [Region(raw, raw + AllocSize(size))] else old(pools)
    {
      hide Align, Aligned;
      result := Align(m_ptr, k);
      if result + size > m_end {
        Refill(size, raw);
        result := Align(m_ptr, k);
      }
      AlignIs(m_ptr, k);
      Hand(result, size);
    }

    // A new pool: after it, a block of the size fits, wherever the alignment puts header and block.
    method Refill(size: nat, raw: nat)
      requires Valid() && Unused(Region(raw, raw + AllocSize(size)))
      modifies this`m_begin, this`m_ptr, this`m_end, this`previous_begin, this`pools
      ensures Valid() && pools == old(pools) + [Region(raw, raw + AllocSize(size))]
      ensures Align(m_ptr, k) + size <= m_end
    {
      hide Align, Aligned, Disjoint, Pow2, BlocksOk, PoolsOk;
      var pool_size := DYNAMIC_SIZE;
      if pool_size < size {
        pool_size := size;
      }
      var alloc_size := HEADER + (2 * Pow2(k) - 2) + pool_size;
      AlignIs(raw, k);
      AddPool(raw, alloc_size);
      AlignIs(m_ptr, k);
    }

    // The memory becomes the current pool, with its header at the first aligned address.
    method AddPool(raw: nat, alloc_size: nat)
      requires Valid() && Unused(Region(raw, raw + alloc_size))
      requires raw <= Align(raw, k) && Align(raw, k) + HEADER <= raw + alloc_size
      modifies this`m_begin, this`m_ptr, this`m_end, this`previous_begin, this`pools
      ensures Valid() && pools == old(pools) + [Region(raw, raw + alloc_size)]
      ensures m_ptr == Align(raw, k) + HEADER && m_end == raw + alloc_size
    {
      hide Align, Aligned, Disjoint;
      var pool := Align(raw, k);
      NewHeader(Region(raw, raw + alloc_size));
      previous_begin := previous_begin[pool := m_begin];
      m_begin := raw;
      m_ptr := pool + HEADER;
      m_end := raw + alloc_size;
      pools := pools + [Region(raw, raw + alloc_size)];
      forall b | b in blocks
        ensures BlockOk(b)
      {
        assert old(BlockOk(b));
      }
    }

    // The header of a new pool is none of the old ones.
    lemma NewHeader(r: Region)
      requires HEADER > 0 && PoolsOk() && Unused(r) && Within(Header(r), r)
      ensures forall i :: 0 < i < |pools| ==> Header(pools[i]).begin != Header(r).begin
    {
      hide Align;
      forall i | 0 < i < |pools|
        ensures Header(pools[i]).begin != Header(r).begin
      {
        assert Disjoint(pools[i], r) && Within(Header(pools[i]), pools[i]);
      }
    }

    // The block at result is taken from the current pool.
    method Hand(result: nat, size: nat)
      requires Valid() && Aligned(result, k) && m_ptr <= result && result + size <= m_end
      modifies this`m_ptr, this`blocks
      ensures Valid() && blocks == old(blocks) + [Block(Region(result, result + size), |pools| - 1)]
    {
      hide Aligned, Align, PoolsOk, Disjoint, Header;
      SomePool();
      ghost var was, b := blocks, Block(Region(result, result + size), |pools| - 1);
      Beyond(b.at);
      TopHolds(b);
      assert forall i :: 0 <= i < |was| ==> was[i] in was;
      m_ptr := result + size;
      blocks := was + [b];
      forall x | x in blocks
        ensures BlockOk(x)
      {
        assert x in was ==> old(BlockOk(x));
      }
    }

    // What lies behind m_ptr in the current pool is apart from every block.
    lemma Beyond(at: Region)
      requires Valid() && m_ptr <= at.begin && at.end <= m_end
      ensures forall x :: x in blocks ==> Disjoint(x.at, at)
    {
      hide Aligned, Align;
      var top := |pools| - 1;
      forall x | x in blocks
        ensures Disjoint(x.at, at)
      {
        assert BlockOk(x);
        if x.pool < top {
          assert Disjoint(pools[x.pool], pools[top]);
        }
      }
    }

    lemma TopHolds(b: Block)
      requires Valid() && b.pool == |pools| - 1 && m_ptr <= b.at.begin && b.at.end <= m_end
      ensures Within(b.at, pools[b.pool]) && Usable(b.pool) <= b.at.begin
    {
      hide Align;
    }

    // clear: frees every allocated pool once, the newest first, and starts over in the static block.
    method Clear() returns (freed: seq<nat>)
      requires Valid()
      modifies this
      ensures Valid() && blocks == [] && pools == [Region(m_static_memory, m_static_memory + STATIC_SIZE)]
      ensures m_begin == m_static_memory && m_ptr == Align(m_static_memory, k) && m_end == m_static_memory + STATIC_SIZE
      ensures |freed| == |old(pools)| - 1
      ensures forall i :: 0 <= i < |freed| ==> freed[i] == old(pools)[|old(pools)| - 1 - i].begin
    {
      hide Align, PoolsOk;
      SomePool();
      freed := [];
      ghost var n := |pools| - 1;
      while m_begin != m_static_memory
        invariant 0 <= n < |pools| && n == |pools| - 1 - |freed| && m_begin == pools[n].begin
        invariant forall i :: 0 <= i < |freed| ==> freed[i] == pools[|pools| - 1 - i].begin
        invariant PoolsOk()
        decreases n
        modifies this`m_begin
      {
        Back(n);
        var previous := previous_begin[Align(m_begin, k)];
        freed := freed + [m_begin];
        m_begin := previous;
        n := n - 1;
      }
      Back(n);
      Init();
    }

    lemma SomePool()
      requires PoolsOk()
      ensures |pools| > 0
    {
    }

    // What the header of a pool holds, and which pool is the static block.
    lemma Back(n: nat)
      requires PoolsOk() && n < |pools|
      ensures pools[n].begin == m_static_memory <==> n == 0
      ensures n > 0 ==> Align(pools[n].begin, k) in previous_begin
      ensures n > 0 ==> previous_begin[Align(pools[n].begin, k)] == pools[n - 1].begin
    {
      hide Align;
      if n > 0 {
        assert Header(pools[n]).begin in previous_begin;
      }
    }
  }
}
