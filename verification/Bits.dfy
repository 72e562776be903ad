/** C's `&` and `|` on non-negative integers, bit by bit. */
module Bits {
  // The values of uint32_t and uint64_t are below these.
  const UINT32: nat := 0x1_0000_0000
  const UINT64: nat := 0x1_0000_0000_0000_0000

  function And(a: nat, b: nat): (r: nat)
    ensures r <= b
  {
    if a == 0 || b == 0 then 0 else (if a % 2 == 1 && b % 2 == 1 then 1 else 0) + 2 * And(a / 2, b / 2)
  }

  function Or(a: nat, b: nat): nat {
    if a == 0 then b
    else if b == 0 then a
    else (if a % 2 == 1 || b % 2 == 1 then 1 else 0) + 2 * Or(a / 2, b / 2)
  }

  function Pow2(k: nat): (p: nat)
    ensures p >= 1
  {
    if k == 0 then 1 else 2 * Pow2(k - 1)
  }

  // C's `a << k`.
  function Shl(a: nat, k: nat): nat {
    if k == 0 then a else 2 * Shl(a, k - 1)
  }

  lemma {:induction false} ShlTimes(a: nat, k: nat)
    ensures Shl(a, k) == a * Pow2(k)
  {
    if k > 0 {
      ShlTimes(a, k - 1);
      TwiceTimes(a, Pow2(k - 1));
    }
  }

  lemma TwiceTimes(a: nat, b: nat)
    ensures a * (2 * b) == 2 * (a * b)
  {
  }

  // `a & (p - 1)` for a power of two p is what a has above a multiple of p.
  lemma {:induction false} AndMask(a: nat, k: nat) returns (q: nat)
    ensures a == Shl(q, k) + And(a, Pow2(k) - 1)
  {
    if k == 0 {
      q := a;
    } else {
      q := AndMask(a / 2, k - 1);
      AndOdd(a, Pow2(k - 1) - 1);
    }
  }

  lemma MaskIsModulus(a: nat, k: nat)
    ensures And(a, Pow2(k) - 1) == a % Pow2(k)
  {
    var q := AndMask(a, k);
    ShlTimes(q, k);
    hide And, Shl, Pow2;
    RemainderIs(q, Pow2(k), And(a, Pow2(k) - 1));
  }

  lemma RemainderIs(q: nat, p: nat, r: nat)
    requires r < p
    ensures (q * p + r) % p == r
  {
    var a := q * p + r;
    var d, m := a / p, a % p;
    assert a == d * p + m;
    if q > d {
      assert (q - d) * p >= p by { TimesAtLeast(q - d, p); }
      Distributes(q, d, p);
    } else if q < d {
      assert (d - q) * p >= p by { TimesAtLeast(d - q, p); }
      Distributes(d, q, p);
    }
  }

  lemma TimesAtLeast(n: nat, p: nat)
    requires n >= 1
    ensures n * p >= p
  {
  }

  lemma Distributes(a: nat, b: nat, p: nat)
    requires a >= b
    ensures (a - b) * p == a * p - b * p
  {
  }

  lemma AndOdd(a: nat, m: nat)
    ensures And(a, 2 * m + 1) == a % 2 + 2 * And(a / 2, m)
  {
  }

  lemma AndEven(a: nat, m: nat)
    ensures And(a, 2 * m) == 2 * And(a / 2, m)
  {
    assert 2 * m / 2 == m && 2 * m % 2 == 0;
    if a != 0 && m != 0 {
      assert And(a, 2 * m) == 0 + 2 * And(a / 2, 2 * m / 2);
    }
  }

  lemma {:induction false} AndAll(a: nat, k: nat)
    requires a < Pow2(k)
    ensures And(a, Pow2(k) - 1) == a
  {
    if k > 0 {
      AndOdd(a, Pow2(k - 1) - 1);
      AndAll(a / 2, k - 1);
      hide And;
      assert Pow2(k) - 1 == 2 * (Pow2(k - 1) - 1) + 1;
    }
  }

  // The mask ~0xFF on 32 bits takes off the low byte.
  lemma AndHighBytes(a: nat)
    requires a < UINT32
    ensures And(a, 0xFFFF_FF00) == a - a % 256
  {
    hide And, Pow2;
    PowerOf24();
    var a1, a2, a3, a4 := a / 2, a / 4, a / 8, a / 16;
    var a5, a6, a7, a8 := a / 32, a / 64, a / 128, a / 256;
    AndEven(a, 0x7FFF_FF80);
    AndEven(a1, 0x3FFF_FFC0);
    AndEven(a2, 0x1FFF_FFE0);
    AndEven(a3, 0x0FFF_FFF0);
    AndEven(a4, 0x07FF_FFF8);
    AndEven(a5, 0x03FF_FFFC);
    AndEven(a6, 0x01FF_FFFE);
    AndEven(a7, 0x00FF_FFFF);
    AndAll(a8, 24);
    assert a1 / 2 == a2 && a2 / 2 == a3 && a3 / 2 == a4 && a4 / 2 == a5;
    assert a5 / 2 == a6 && a6 / 2 == a7 && a7 / 2 == a8;
    assert And(a, 0xFFFF_FF00) == 256 * a8;
  }

  lemma PowerOf24()
    ensures Pow2(24) == 0x100_0000
  {
    assert Pow2(8) == 0x100;
    assert Pow2(16) == 0x1_0000;
  }

  lemma OrEven(a: nat, o: nat)
    ensures Or(a, 2 * o) == a % 2 + 2 * Or(a / 2, o)
  {
  }

  lemma KeepBit(a: nat, o: nat, m: nat)
    ensures And(Or(a, 2 * o), 2 * m + 1) == a % 2 + 2 * And(Or(a / 2, o), m)
  {
    hide And, Or;
    OrEven(a, o);
    AndOdd(Or(a, 2 * o), m);
  }

  lemma TopBit(a: nat)
    ensures And(Or(a, 2), 2) == 2
  {
    OrEven(a, 1);
    var b := Or(a, 2);
    assert Or(a / 2, 1) % 2 == 1;
    assert And(b, 2) == 2 * And(b / 2, 1);
    assert And(b / 2, 1) == 1;
  }

  // A continuation byte: `(code | 0x80) & 0xBF` keeps six bits of the code and sets the top one.
  lemma Continuation(code: nat)
    ensures And(Or(code, 0x80), 0xBF) == 0x80 + code % 64
  {
    hide And, Or;
    var c1, c2, c3 := code / 2, code / 4, code / 8;
    var c4, c5, c6 := code / 16, code / 32, code / 64;
    KeepBit(code, 0x40, 0x5F);
    KeepBit(c1, 0x20, 0x2F);
    KeepBit(c2, 0x10, 0x17);
    KeepBit(c3, 8, 0xB);
    KeepBit(c4, 4, 5);
    KeepBit(c5, 2, 2);
    TopBit(c6);
    assert c1 / 2 == c2 && c2 / 2 == c3 && c3 / 2 == c4 && c4 / 2 == c5 && c5 / 2 == c6;
  }

  // Setting bits that lie above every bit of the code is adding them.
  lemma {:induction false} LeadBits(code: nat, k: nat, lead: nat)
    requires code < Pow2(k)
    ensures Or(code, Shl(lead, k)) == code + Shl(lead, k)
  {
    if k == 0 {
      assert Or(0, lead) == lead;
    } else {
      LeadBits(code / 2, k - 1, lead);
      OrEven(code, Shl(lead, k - 1));
    }
  }

  // The next multiple of 2^k, as rapidxml and memcpy_fast compute it.
  function Align(ptr: nat, k: nat): (r: nat) {
    var alignment := Pow2(k);
    ptr + And(alignment - And(ptr, alignment - 1), alignment - 1)
  }

  ghost predicate Aligned(ptr: nat, k: nat) {
    exists q: nat :: ptr == q * Pow2(k)
  }

  lemma AlignIs(ptr: nat, k: nat)
    ensures ptr <= Align(ptr, k) < ptr + Pow2(k)
    ensures Aligned(Align(ptr, k), k)
  {
    var a := Pow2(k);
    var q := AndMask(ptr, k);
    var r := And(ptr, a - 1);
    var q' := AndMask(a - r, k);
    var s := And(a - r, a - 1);
    ShlTimes(q, k);
    ShlTimes(q', k);
    hide And, Pow2, Shl;
    Rest(a, q', a - r, s);
    NextMultiple(q, a);
    assert ptr + s == if r == 0 then q * a else (q + 1) * a;
  }

  lemma NextMultiple(q: nat, a: nat)
    ensures (q + 1) * a == q * a + a
  {
  }

  lemma Rest(a: nat, q: nat, x: nat, s: nat)
    requires 0 < x <= a && x == q * a + s && s <= a - 1
    ensures s == if x == a then 0 else x
  {
    Twice(a, q);
    assert q == 0 || q == 1;
  }

  lemma Twice(a: nat, q: nat)
    ensures q >= 2 ==> q * a >= 2 * a
    ensures q == 1 ==> q * a == a
    ensures q == 0 ==> q * a == 0
  {
    if q >= 2 {
      assert q * a == 2 * a + (q - 2) * a;
    }
  }
}
