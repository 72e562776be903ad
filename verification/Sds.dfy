/** sds.c's dynamic strings: one allocation with its length, its spare room and a terminator. */
module Sds {
  import opened Bytes
  import SdsQuoting

  // The bytes sdsrange keeps: from start to end, both included, negative ones counting from the
  // end of the string and clamped to its first byte.
  function Clamp(len: nat, i: int): (k: nat) {
    if i >= 0 then i else if len + i < 0 then 0 else len + i
  }

  function Range(c: seq<byte>, start: int, end: int): (r: seq<byte>) {
    var lo, hi := Clamp(|c|, start), Clamp(|c|, end);
    if lo > hi || lo >= |c| then [] else c[lo..if hi < |c| then hi + 1 else |c|]
  }

  // Both ends are kept, and either may be counted from the end of the string.
  lemma RangeIs(c: seq<byte>, a: nat, b: nat)
    requires a <= b < |c|
    ensures Range(c, a, b) == Range(c, a - |c|, b) == Range(c, a, b - |c|) == Range(c, a - |c|, b - |c|) == c[a..b + 1]
  {
  }

  // Ends outside of the string are moved to its first or last byte, but for a start behind it.
  lemma RangeOutside(c: seq<byte>, start: int, end: int)
    ensures end >= |c| ==> Range(c, start, end) == Range(c, start, -1)
    ensures start < -|c| ==> Range(c, start, end) == Range(c, 0, end)
    ensures end < -|c| ==> Range(c, start, end) == Range(c, start, 0)
    ensures start >= |c| ==> Range(c, start, end) == []
    ensures 0 <= end < start ==> Range(c, start, end) == []
  {
  }

  // What is behind the first n bytes.
  lemma RangeDrops(c: seq<byte>, n: nat)
    requires n <= |c|
    ensures Range(c, n, -1) == c[n..]
  {
    if n == |c| {
      assert c[n..] == [];
    }
  }

  class Buffer {
    var buf: array<byte>
    var len: nat
    var free: nat

    ghost predicate Valid()
      reads this, buf
    {
      buf.Length == len + free + 1 && buf[len] == NUL
    }

    ghost function Contents(): (s: seq<byte>)
      requires Valid()
      reads this, buf
    {
      buf[..len]
    }

    // sdsnewlen
    constructor (init: seq<byte>)
      ensures Valid() && Contents() == init && free == 0 && fresh(buf)
    {
      len, free := |init|, 0;
      buf := new byte[|init| + 1](i => if 0 <= i < |init| then init[i] else NUL);
    }

    // sdsMakeRoomFor: the string moves to twice the room it needs, unless it fits already.
    method MakeRoomFor(addlen: nat)
      requires Valid()
      modifies this
      ensures Valid() && len == old(len) && Contents() == old(Contents()) && free >= addlen
      ensures if old(free) >= addlen then buf == old(buf) && free == old(free)
              else fresh(buf) && free == len + 2 * addlen
    {
      if free >= addlen {
        return;
      }
      var newlen := (len + addlen) * 2;
      var wider := new byte[newlen + 1];
      for i := 0 to len + 1
        invariant wider[..i] == buf[..i]
        modifies wider
      {
        wider[i] := buf[i];
      }
      assert wider[..len + 1][len] == buf[..len + 1][len];
      assert wider[..len + 1][..len] == buf[..len + 1][..len];
      buf := wider;
      free := newlen - len;
    }

    // memcpy to the bytes from `at` on
    method Store(at: nat, t: seq<byte>)
      requires at + |t| <= buf.Length
      modifies buf
      ensures buf[at..at + |t|] == t
      ensures forall k :: 0 <= k < buf.Length && !(at <= k < at + |t|) ==> buf[k] == old(buf[k])
    {
      for i := 0 to |t|
        invariant forall k :: 0 <= k < i ==> buf[at + k] == t[k]
        invariant forall k :: 0 <= k < buf.Length && !(at <= k < at + i) ==> buf[k] == old(buf[k])
      {
        buf[at + i] := t[i];
      }
    }

    // sdscatlen
    method CatLen(t: seq<byte>)
      requires Valid()
      modifies this, buf
      ensures Valid() && Contents() == old(Contents()) + t && (buf == old(buf) || fresh(buf))
    {
      MakeRoomFor(|t|);
      Extend(t);
    }

    // The bytes join the string, which has room for them.
    method Extend(t: seq<byte>)
      requires Valid() && |t| <= free
      modifies this`len, this`free, buf
      ensures Valid() && Contents() == old(Contents()) + t && len + free == old(len + free)
    {
      var curlen := len;
      ghost var before := buf[..curlen];
      Store(curlen, t);
      len := curlen + |t|;
      free := free - |t|;
      buf[curlen + |t|] := NUL;
      assert buf[..curlen] == before;
      assert buf[..len] == buf[..curlen] + buf[curlen..len];
    }

    // sdscpylen
    method CpyLen(t: seq<byte>)
      requires Valid()
      modifies this, buf
      ensures Valid() && Contents() == t && (buf == old(buf) || fresh(buf))
    {
      var totlen := free + len;
      if totlen < |t| {
        MakeRoomFor(|t| - len);
        totlen := free + len;
      }
      Store(0, t);
      buf[|t|] := NUL;
      len := |t|;
      free := totlen - |t|;
      assert buf[..len] == buf[0..0 + |t|];
    }

    // sdsgrowzero
    method GrowZero(n: nat)
      requires Valid()
      modifies this, buf
      ensures Valid() && (buf == old(buf) || fresh(buf))
      ensures Contents() == old(Contents()) + seq(if n > old(len) then n - old(len) else 0, _ => NUL)
    {
      if n <= len {
        return;
      }
      MakeRoomFor(n - len);
      ZeroTo(n);
    }

    // Zeros up to n bytes, with the terminator behind them
    method ZeroTo(n: nat)
      requires Valid() && len < n <= len + free
      modifies this`len, this`free, buf
      ensures Valid() && Contents() == old(Contents()) + seq(n - old(len), _ => NUL)
    {
      var curlen := len;
      ghost var before := buf[..curlen];
      Store(curlen, seq(n - curlen + 1, _ => NUL));
      assert buf[..curlen] == before;
      ghost var all := buf[curlen..curlen + (n - curlen + 1)];
      assert buf[n] == all[n - curlen];
      assert buf[curlen..n] == all[..n - curlen];
      assert buf[..n] == buf[..curlen] + buf[curlen..n];
      var totlen := len + free;
      len := n;
      free := totlen - len;
    }

    // memmove of the bytes at `from` to the front
    method MoveDown(from: nat, n: nat)
      requires from + n <= buf.Length
      modifies buf
      ensures buf[..n] == old(buf[from..from + n])
      ensures forall k :: n <= k < buf.Length ==> buf[k] == old(buf[k])
    {
      for i := 0 to n
        invariant buf[..i] == old(buf[from..from + i])
        invariant forall k :: i <= k < buf.Length ==> buf[k] == old(buf[k])
      {
        buf[i] := buf[from + i];
        assert buf[..i + 1] == buf[..i] + [old(buf[from + i])];
        assert old(buf[from..from + (i + 1)]) == old(buf[from..from + i]) + [old(buf[from + i])];
      }
    }

    // sdsrange
    method KeepRange(start: int, end: int)
      requires Valid()
      modifies this`len, this`free, buf
      ensures Valid() && Contents() == Range(old(Contents()), start, end)
      ensures len + free == old(len + free)
    {
      if len == 0 {
        return;
      }
      var lo, hi := start, end;
      if lo < 0 {
        lo := len + lo;
        if lo < 0 {
          lo := 0;
        }
      }
      if hi < 0 {
        hi := len + hi;
        if hi < 0 {
          hi := 0;
        }
      }
      var newlen := if lo > hi then 0 else hi - lo + 1;
      if newlen != 0 {
        if lo >= len {
          newlen := 0;
        } else if hi >= len {
          hi := len - 1;
          newlen := if lo > hi then 0 else hi - lo + 1;
        }
      } else {
        lo := 0;
      }
      Keep(lo, newlen);
    }

    // What sdsrange writes once it knows where the kept bytes start and how many there are.
    method Keep(start: nat, newlen: nat)
      requires Valid() && newlen <= len && (newlen > 0 ==> start + newlen <= len)
      modifies this`len, this`free, buf
      ensures Valid() && len + free == old(len + free)
      ensures Contents() == if newlen == 0 then [] else old(Contents())[start..start + newlen]
    {
      ghost var c := buf[..len];
      if start != 0 && newlen != 0 {
        MoveDown(start, newlen);
        assert buf[..newlen] == c[start..start + newlen];
      }
      ghost var kept := buf[..newlen];
      buf[newlen] := NUL;
      free := free + (len - newlen);
      len := newlen;
      assert buf[..newlen] == kept;
    }

    // sdscatrepr
    method CatRepr(p: seq<byte>)
      requires Valid()
      modifies this, buf
      ensures Valid() && Contents() == old(Contents()) + SdsQuoting.Repr(p) && (buf == old(buf) || fresh(buf))
    {
      hide Valid, SdsQuoting.ReprBytes;
      ghost var c := Contents();
      CatLen([QUOT]);
      CatReprBytes(p);
      CatLen([QUOT]);
      assert c + [QUOT] + SdsQuoting.ReprBytes(p) + [QUOT] == c + SdsQuoting.Repr(p);
    }

    method CatReprBytes(p: seq<byte>)
      requires Valid()
      modifies this, buf
      ensures Valid() && Contents() == old(Contents()) + SdsQuoting.ReprBytes(p) && (buf == old(buf) || fresh(buf))
    {
      hide Valid, SdsQuoting.ReprByte, SdsQuoting.ReprBytes;
      ghost var c := Contents();
      SdsQuoting.NoReprBytes();
      assert p[..0] == [] && c + [] == c;
      for i := 0 to |p|
        invariant Valid() && (buf == old(buf) || fresh(buf))
        invariant Contents() == c + SdsQuoting.ReprBytes(p[..i])
      {
        SdsQuoting.ReprSnoc(p[..i], p[i]);
        assert p[..i + 1] == p[..i] + [p[i]];
        CatLen(SdsQuoting.ReprByte(p[i]));
      }
      assert p[..|p|] == p;
    }
  }
}
