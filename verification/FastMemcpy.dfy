/** memcpy_fast: a jump table of overlapping stores for small sizes, and blocks of eight 16-byte
    stores at aligned addresses for the others. It is a plain copy. */
module FastMemcpy {
  import opened Bits
  import opened Bytes

  const CACHESIZE: nat := 0x200000

  // A store of `width` bytes that starts `back` bytes before the end of what is to be copied.
  datatype Store = Store(back: nat, width: nat)

  // ---- The switch of memcpy_tiny, where 64 to 127 fall through to the cases of 0 to 63 ----

  // sizes 0 to 15
  function Tail0(n: nat): seq<Store>
    requires 0 <= n < 16
  {
    if n == 0 then []
    else if n == 1 then [Store(1, 1)]
    else if n == 2 then [Store(2, 2)]
    else if n == 3 then [Store(3, 2), Store(1, 1)]
    else if n == 4 then [Store(4, 4)]
    else if n == 5 then [Store(5, 4), Store(1, 1)]
    else if n == 6 then [Store(6, 4), Store(2, 2)]
    else if n == 7 then [Store(7, 4), Store(4, 4)]
    else if n == 8 then [Store(8, 8)]
    else if n == 9 then [Store(9, 8), Store(1, 1)]
    else if n == 10 then [Store(10, 8), Store(2, 2)]
    else if n == 11 then [Store(11, 8), Store(4, 4)]
    else if n == 12 then [Store(12, 8), Store(4, 4)]
    else if n == 13 then [Store(13, 8), Store(5, 4), Store(1, 1)]
    else if n == 14 then [Store(14, 8), Store(8, 8)]
    else [Store(15, 8), Store(8, 8)]
  }

  // sizes 16 to 31
  function Tail16(n: nat): seq<Store>
    requires 16 <= n < 32
  {
    if n == 16 then [Store(16, 16)]
    else if n == 17 then [Store(17, 16), Store(1, 1)]
    else if n == 18 then [Store(18, 16), Store(2, 2)]
    else if n == 19 then [Store(19, 16), Store(3, 2), Store(1, 1)]
    else if n == 20 then [Store(20, 16), Store(4, 4)]
    else if n == 21 then [Store(21, 16), Store(5, 4), Store(1, 1)]
    else if n == 22 then [Store(22, 16), Store(6, 4), Store(2, 2)]
    else if n == 23 then [Store(23, 16), Store(7, 4), Store(4, 4)]
    else if n == 24 then [Store(24, 16), Store(16, 16)]
    else if n == 25 then [Store(25, 16), Store(16, 16)]
    else if n == 26 then [Store(26, 16), Store(16, 16)]
    else if n == 27 then [Store(27, 16), Store(16, 16)]
    else if n == 28 then [Store(28, 16), Store(16, 16)]
    else if n == 29 then [Store(29, 16), Store(16, 16)]
    else if n == 30 then [Store(30, 16), Store(16, 16)]
    else [Store(31, 16), Store(16, 16)]
  }

  // sizes 32 to 47
  function Tail32(n: nat): seq<Store>
    requires 32 <= n < 48
  {
    if n == 32 then [Store(32, 32)]
    else if n == 33 then [Store(33, 32), Store(1, 1)]
    else if n == 34 then [Store(34, 32), Store(2, 2)]
    else if n == 35 then [Store(35, 32), Store(3, 2), Store(1, 1)]
    else if n == 36 then [Store(36, 32), Store(4, 4)]
    else if n == 37 then [Store(37, 32), Store(5, 4), Store(1, 1)]
    else if n == 38 then [Store(38, 32), Store(6, 4), Store(2, 2)]
    else if n == 39 then [Store(39, 32), Store(7, 4), Store(4, 4)]
    else if n == 40 then [Store(40, 32), Store(8, 8)]
    else if n == 41 then [Store(41, 32), Store(9, 8), Store(1, 1)]
    else if n == 42 then [Store(42, 32), Store(10, 8), Store(2, 2)]
    else if n == 43 then [Store(43, 32), Store(11, 8), Store(4, 4)]
    else if n == 44 then [Store(44, 32), Store(12, 8), Store(4, 4)]
    else if n == 45 then [Store(45, 32), Store(13, 8), Store(5, 4), Store(1, 1)]
    else if n == 46 then [Store(46, 32), Store(14, 8), Store(8, 8)]
    else [Store(47, 32), Store(15, 8), Store(8, 8)]
  }

  // sizes 48 to 63
  function Tail48(n: nat): seq<Store>
    requires 48 <= n < 64
  {
    if n == 48 then [Store(48, 32), Store(16, 16)]
    else if n == 49 then [Store(49, 32), Store(17, 16), Store(1, 1)]
    else if n == 50 then [Store(50, 32), Store(18, 16), Store(2, 2)]
    else if n == 51 then [Store(51, 32), Store(19, 16), Store(3, 2), Store(1, 1)]
    else if n == 52 then [Store(52, 32), Store(20, 16), Store(4, 4)]
    else if n == 53 then [Store(53, 32), Store(21, 16), Store(5, 4), Store(1, 1)]
    else if n == 54 then [Store(54, 32), Store(22, 16), Store(6, 4), Store(2, 2)]
    else if n == 55 then [Store(55, 32), Store(23, 16), Store(7, 4), Store(4, 4)]
    else if n == 56 then [Store(56, 32), Store(24, 16), Store(16, 16)]
    else if n == 57 then [Store(57, 32), Store(25, 16), Store(16, 16)]
    else if n == 58 then [Store(58, 32), Store(26, 16), Store(16, 16)]
    else if n == 59 then [Store(59, 32), Store(27, 16), Store(16, 16)]
    else if n == 60 then [Store(60, 32), Store(28, 16), Store(16, 16)]
    else if n == 61 then [Store(61, 32), Store(29, 16), Store(16, 16)]
    else if n == 62 then [Store(62, 32), Store(30, 16), Store(16, 16)]
    else [Store(63, 32), Store(31, 16), Store(16, 16)]
  }

  function Tail(n: nat): seq<Store>
    requires n < 64
  {
    if n < 16 then Tail0(n) else if n < 32 then Tail16(n) else if n < 48 then Tail32(n) else Tail48(n)
  }

  function Stores(size: nat): seq<Store>
    requires size <= 128
  {
    if size < 64 then Tail(size)
    else if size < 128 then [Store(size, 64)] + Tail(size - 64)
    else [Store(128, 128)]
  }

  // Stores that leave no gap in the last `need` bytes, nor reach beyond the last `size`.
  ghost predicate Covers(stores: seq<Store>, need: nat, size: nat) {
    if stores == [] then need == 0
    else
      var st := stores[0];
      need <= st.back <= size && st.width <= st.back && Covers(stores[1..], st.back - st.width, size)
  }

  lemma TailCovers0(n: nat)
    requires n < 16
    ensures Covers(Tail0(n), n, n)
  {
    CoversShort(Tail0(n), n);
  }

  lemma TailCovers16(n: nat)
    requires 16 <= n < 32
    ensures Covers(Tail16(n), n, n)
  {
    CoversShort(Tail16(n), n);
  }

  lemma TailCovers32(n: nat)
    requires 32 <= n < 48
    ensures Covers(Tail32(n), n, n)
  {
    CoversShort(Tail32(n), n);
  }

  lemma TailCovers48(n: nat)
    requires 48 <= n < 64
    ensures Covers(Tail48(n), n, n)
  {
    CoversShort(Tail48(n), n);
  }

  // What covering means for up to four stores.
  lemma CoversShort(r: seq<Store>, n: nat)
    requires |r| <= 4
    requires forall i :: 0 <= i < |r| ==> r[i].width <= r[i].back <= n
    requires forall i :: 1 <= i < |r| ==> r[i - 1].back - r[i - 1].width <= r[i].back
    requires if r == [] then n == 0 else r[0].back == n && r[|r| - 1].back == r[|r| - 1].width
    ensures Covers(r, n, n)
  {
    if |r| > 0 {
      CoversFrom(r, n, n);
    }
  }

  lemma {:induction false} CoversFrom(r: seq<Store>, need: nat, n: nat)
    requires |r| > 0 && need <= r[0].back
    requires forall i :: 0 <= i < |r| ==> r[i].width <= r[i].back <= n
    requires forall i :: 1 <= i < |r| ==> r[i - 1].back - r[i - 1].width <= r[i].back
    requires r[|r| - 1].back == r[|r| - 1].width
    ensures Covers(r, need, n)
    decreases |r|
  {
    if |r| > 1 {
      assert forall i :: 1 <= i < |r| ==> r[1..][i - 1] == r[i];
      CoversFrom(r[1..], r[0].back - r[0].width, n);
    }
  }

  lemma {:induction false} CoversMore(r: seq<Store>, need: nat, size: nat, more: nat)
    requires Covers(r, need, size) && size <= more
    ensures Covers(r, need, more)
  {
    if r != [] {
      CoversMore(r[1..], r[0].back - r[0].width, size, more);
    }
  }

  // Every case of the switch covers its size.
  lemma StoresCover(size: nat)
    requires size <= 128
    ensures Covers(Stores(size), size, size)
  {
    hide Tail0, Tail16, Tail32, Tail48;
    if size < 128 {
      var n := if size < 64 then size else size - 64;
      if n < 16 {
        TailCovers0(n);
      } else if n < 32 {
        TailCovers16(n);
      } else if n < 48 {
        TailCovers32(n);
      } else {
        TailCovers48(n);
      }
      if size >= 64 {
        CoversMore(Tail(n), n, n, size);
        assert Stores(size)[1..] == Tail(n);
      }
    }
  }

  lemma NoStrict(strictLoad: bool)
    ensures StrictCount(0, strictLoad) == 0
  {
  }

  lemma StrictOne(stores: nat, strictLoad: bool)
    ensures StrictCount(stores + 1, strictLoad) == StrictCount(stores, strictLoad) + if strictLoad then 2 else 1
  {
  }

  lemma StrictMore(stores: nat, strictLoad: bool)
    ensures StrictCount(stores + 8, strictLoad) == StrictCount(stores, strictLoad) + StrictCount(8, strictLoad)
  {
  }

  // ---- Copying ----

  // How many strict accesses copy 16 bytes that many times.
  function StrictCount(stores: nat, strictLoad: bool): nat {
    if strictLoad then 2 * stores else stores
  }

  class Copier {
    const dst: array<byte>
    const src: array<byte>
    // The addresses of the first bytes
    const dstBase: nat
    const srcBase: nat
    // The addresses given so far to the loads and stores that fault unless they are multiples of 16
    ghost var strict: seq<nat>

    constructor (dst: array<byte>, src: array<byte>, dstBase: nat, srcBase: nat)
      ensures this.dst == dst && this.src == src && this.dstBase == dstBase && this.srcBase == srcBase
      ensures strict == []
    {
      this.dst, this.src, this.dstBase, this.srcBase, this.strict := dst, src, dstBase, srcBase, [];
    }

    // The regions lie in the buffers and do not overlap; they may lie in one buffer.
    ghost predicate Room(d: nat, s: nat, n: nat) {
      d + n <= dst.Length && s + n <= src.Length && (dst == src ==> d + n <= s || s + n <= d)
    }

    // The n bytes from d on are those from s on.
    ghost predicate Copied(d: nat, s: nat, n: nat)
      requires Room(d, s, n)
      reads dst, src
    {
      forall k :: d <= k < d + n ==> dst[k] == src[s + (k - d)]
    }

    twostate predicate Only(d: nat, n: nat)
      reads dst
    {
      forall k :: 0 <= k < dst.Length && !(d <= k < d + n) ==> dst[k] == old(dst[k])
    }

    // How many strict accesses copy `size` bytes from `s` on to a multiple of 16.
    function RestCount(s: nat, size: nat): nat {
      StrictCount(size / 128 * 8, size > CACHESIZE && (srcBase + s) % 16 == 0)
    }

    // The strict accesses since: `count` of them, and all at multiples of 16.
    twostate predicate Aligned(count: nat)
      reads this
    {
      && |strict| == |old(strict)| + count && strict[..|old(strict)|] == old(strict)
      && forall k :: |old(strict)| <= k < |strict| ==> strict[k] % 16 == 0
    }

    // A load of `width` bytes and an unaligned store
    method Move(d: nat, s: nat, width: nat)
      requires Room(d, s, width)
      modifies dst
      ensures Copied(d, s, width) && Only(d, width)
    {
      var i := 0;
      while i < width
        invariant 0 <= i <= width && Copied(d, s, i) && Only(d, i)
      {
        dst[d + i] := src[s + i];
        i := i + 1;
      }
    }

    // memcpy_tiny
    method Tiny(d: nat, s: nat, size: nat)
      requires Room(d, s, size) && size <= 128
      modifies dst
      ensures Copied(d, s, size) && Only(d, size)
    {
      hide Stores;
      StoresCover(size);
      var stores := Stores(size);
      var i := 0;
      ghost var need: nat := size;
      assert stores[0..] == stores;
      while i < |stores|
        invariant 0 <= i <= |stores| && need <= size && Covers(stores[i..], need, size)
        invariant Copied(d, s, size - need) && Only(d, size)
      {
        var st := stores[i];
        assert stores[i..][1..] == stores[i + 1..];
        Move(d + size - st.back, s + size - st.back, st.width);
        need := st.back - st.width;
        i := i + 1;
      }
    }

    // A load of 16 bytes, strict or not, and a strict store
    method MoveStrict(d: nat, s: nat, strictLoad: bool)
      requires Room(d, s, 16)
      modifies dst, this`strict
      ensures Copied(d, s, 16) && Only(d, 16)
      ensures strict == old(strict) + (if strictLoad then [srcBase + s] else []) + [dstBase + d]
    {
      strict := strict + (if strictLoad then [srcBase + s] else []) + [dstBase + d];
      Move(d, s, 16);
    }

    // Eight loads and eight stores
    method Block(d: nat, s: nat, strictLoad: bool)
      requires Room(d, s, 128)
      requires (dstBase + d) % 16 == 0 && (strictLoad ==> (srcBase + s) % 16 == 0)
      modifies dst, this`strict
      ensures Copied(d, s, 128) && Only(d, 128)
      ensures Aligned(StrictCount(8, strictLoad))
    {
      hide StrictCount;
      NoStrict(strictLoad);
      var i := 0;
      while i < 8
        invariant 0 <= i <= 8 && Copied(d, s, 16 * i) && Only(d, 16 * i)
        invariant Aligned(StrictCount(i, strictLoad))
      {
        StrictOne(i, strictLoad);
        assert (dstBase + (d + 16 * i)) % 16 == 0;
        assert strictLoad ==> (srcBase + (s + 16 * i)) % 16 == 0;
        MoveStrict(d + 16 * i, s + 16 * i, strictLoad);
        i := i + 1;
      }
    }

    // The loops of memcpy_fast
    method Blocks(d0: nat, s0: nat, size0: nat, strictLoad: bool) returns (d: nat, s: nat, size: nat)
      requires Room(d0, s0, size0)
      requires (dstBase + d0) % 16 == 0 && (strictLoad ==> (srcBase + s0) % 16 == 0)
      modifies dst, this`strict
      ensures size == size0 % 128 && d == d0 + (size0 - size) && s == s0 + (size0 - size)
      ensures Copied(d0, s0, size0 - size) && Only(d0, size0 - size)
      ensures Aligned(StrictCount(size0 / 128 * 8, strictLoad))
    {
      hide StrictCount;
      NoStrict(strictLoad);
      d, s, size := d0, s0, size0;
      ghost var blocks: nat := 0;
      while size >= 128
        invariant size + 128 * blocks == size0 && d == d0 + (size0 - size) && s == s0 + (size0 - size)
        invariant (dstBase + d) % 16 == 0 && (strictLoad ==> (srcBase + s) % 16 == 0)
        invariant Copied(d0, s0, size0 - size) && Only(d0, size0 - size)
        invariant Aligned(StrictCount(8 * blocks, strictLoad))
      {
        StrictMore(8 * blocks, strictLoad);
        Block(d, s, strictLoad);
        d, s, size, blocks := d + 128, s + 128, size - 128, blocks + 1;
      }
      assert blocks == size0 / 128;
    }

    // memcpy_fast
    method Copy(destination: nat, source: nat, size0: nat)
      requires Room(destination, source, size0)
      modifies dst, this`strict
      ensures Copied(destination, source, size0) && Only(destination, size0)
      ensures var padding := (16 - (dstBase + destination) % 16) % 16;
              Aligned(if size0 <= 128 then 0 else RestCount(source + padding, size0 - padding))
    {
      hide And;
      var d, s, size := destination, source, size0;
      if size <= 128 {
        Tiny(d, s, size);
        return;
      }
      var padding := AlignDestination(d, s, size);
      d, s, size := d + padding, s + padding, size - padding;
      Rest(d, s, size);
    }

    // Copies 16 bytes, of which the padding is kept: it takes the destination to a multiple of 16.
    method AlignDestination(d: nat, s: nat, ghost size: nat) returns (padding: nat)
      requires Room(d, s, size) && size >= 16
      modifies dst
      ensures padding == (16 - (dstBase + d) % 16) % 16 && (dstBase + (d + padding)) % 16 == 0
      ensures Copied(d, s, padding) && Only(d, size)
    {
      hide And;
      padding := And(16 - And(dstBase + d, 15), 15);
      Padding(dstBase + d);
      assert padding == (16 - (dstBase + d) % 16) % 16;
      if padding > 0 {
        Move(d, s, 16);
      }
    }

    // What is left to copy to an aligned destination
    method Rest(d0: nat, s0: nat, size0: nat)
      requires Room(d0, s0, size0) && (dstBase + d0) % 16 == 0
      modifies dst, this`strict
      ensures Copied(d0, s0, size0) && Only(d0, size0)
      ensures Aligned(RestCount(s0, size0))
    {
      hide And;
      var d, s, size := d0, s0, size0;
      if size <= CACHESIZE {
        d, s, size := Blocks(d, s, size, false);
      } else {
        Padding(srcBase + s);
        d, s, size := Blocks(d, s, size, And(srcBase + s, 15) == 0);
      }
      Tiny(d, s, size);
    }
  }

  // The bytes that are copied first take the destination to a multiple of 16.
  lemma Padding(address: nat)
    ensures And(address, 15) == address % 16
    ensures var padding := And(16 - And(address, 15), 15); padding < 16 && (address + padding) % 16 == 0
  {
    hide And;
    LowBits(address);
    LowBits(16 - address % 16);
  }

  lemma LowBits(a: nat)
    ensures And(a, 15) == a % 16
  {
    AndOdd(a, 7);
    AndOdd(a / 2, 3);
    AndOdd(a / 4, 1);
    AndOdd(a / 8, 0);
    NoBits(a / 16);
    hide And;
    assert a / 2 / 2 == a / 4 && a / 4 / 2 == a / 8 && a / 8 / 2 == a / 16;
  }

  lemma NoBits(a: nat)
    ensures And(a, 0) == 0
  {
  }
}
