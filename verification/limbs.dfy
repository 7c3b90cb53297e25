/** The portable 96-bit helpers of the digit parser: a DECIMAL's three
    mantissa limbs updated in place by shifting, adding and dividing. */
module Limbs {
  import opened Primitives
  import opened Rounding

  /** The 32-bit sum of v and i and its carry: D32AddCarry stores the
      wrapped sum and reports a carry when the sum is below either
      operand. */
  function D32AddCarry(v: u32, i: u32): (r: (u32, Carry))
    ensures r.0 + B32 * r.1 == v + i
  {
    var sum := (v + i) % B32;
    (sum, if sum < v || sum < i then 1 else 0)
  }

  /** One step of the long division by 10^9: hi32:lo32 divided by 10^9,
      the quotient truncated to 32 bits as the cast does, and the
      remainder. With hi32 below 10^9 (as every caller passes) nothing is
      truncated. */
  function D32DivMod1E9(hi32: u32, lo32: u32): (r: (u32, u32))
    ensures r.1 < 1_000_000_000
    ensures hi32 < 1_000_000_000 ==> r.0 * 1_000_000_000 + r.1 == hi32 * B32 + lo32
  {
    var n := hi32 * B32 + lo32;
    DivBelow(hi32, lo32);
    ((n / 1_000_000_000) % B32, n % 1_000_000_000)
  }

  lemma DivBelow(hi32: u32, lo32: u32)
    ensures hi32 < 1_000_000_000 ==> (hi32 * B32 + lo32) / 1_000_000_000 < B32
  {
    var n := hi32 * B32 + lo32;
    if hi32 < 1_000_000_000 {
      assert n < 1_000_000_000 * B32;
      QuotientBelow(n, 1_000_000_000, B32);
    }
  }

  /** The mantissa limbs of a DECIMAL, least significant first as lo,
      mid, hi; the sign and scale bytes are not touched by these
      helpers. */
  class DecimalBuffer {
    var lo: u32
    var mid: u32
    var hi: u32

    constructor (lo: u32, mid: u32, hi: u32)
      ensures this.lo == lo && this.mid == mid && this.hi == hi
    {
      this.lo, this.mid, this.hi := lo, mid, hi;
    }

    /** The 96-bit mantissa. */
    function Value(): (v: nat)
      reads this
      ensures v < B96
    {
      Words(lo, mid, hi)
    }

    /** DecShiftLeft: the mantissa doubled modulo 2^96, each limb taking
        the bit shifted out of the limb below. */
    method ShiftLeft()
      modifies this
      ensures Value() == (2 * old(Value())) % B96
    {
      var c0: u32 := if lo >= 0x8000_0000 then 1 else 0;
      var c1: u32 := if mid >= 0x8000_0000 then 1 else 0;
      ghost var v := Value();
      ghost var h := hi;
      lo := (2 * lo) % B32;
      mid := (2 * mid) % B32 + c0;
      hi := (2 * hi) % B32 + c1;
      DoubleWords(old(lo), old(mid), h, c0, c1, lo, mid, hi);
    }

    /** DecAdd: the mantissa of d added modulo 2^96, the carry out of each
        limb rippled into the limbs above. */
    method Add(d: DecimalBuffer)
      requires d != this
      modifies this
      ensures Value() == (old(Value()) + d.Value()) % B96
    {
      var r := AddWords(lo, mid, hi, d.lo, d.mid, d.hi);
      WrapMod(Value() + d.Value(), Words(r.0, r.1, r.2), r.3);
      lo, mid, hi := r.0, r.1, r.2;
      assert d.lo == old(d.lo) && d.mid == old(d.mid) && d.hi == old(d.hi);
    }

    /** DecMul10: the mantissa times ten modulo 2^96, as ((v * 2 * 2) + v)
        * 2. */
    method Mul10()
      modifies this
      ensures Value() == (10 * old(Value())) % B96
    {
      ghost var v := Value();
      var d := new DecimalBuffer(lo, mid, hi);
      assert d.Value() == v;
      ShiftLeft();
      ghost var v2 := Value();
      ShiftLeft();
      ghost var v4 := Value();
      assert v4 == (4 * v) % B96 by { Twice(2 * v, v2); }
      Add(d);
      ghost var v5 := Value();
      assert v5 == (5 * v) % B96 by { Plus(4 * v, v, v4, v5); }
      ShiftLeft();
      Twice(5 * v, v5);
    }

    /** DecAddInt32: i added modulo 2^96, the carry rippled upward. */
    method AddInt32(i: u32)
      modifies this
      ensures Value() == (old(Value()) + i) % B96
    {
      var r := RippleLow(lo, mid, hi, i);
      WrapMod(Value() + i, Words(r.0, r.1, r.2), r.3);
      lo, mid, hi := r.0, r.1, r.2;
    }

    /** DecDivMod1E9: the mantissa divided in place by 10^9, from the top
        limb down; the remainder is returned. */
    method DivMod1E9() returns (r: u32)
      modifies this
      ensures old(Value()) == Value() * 1_000_000_000 + r && r < 1_000_000_000
    {
      var r2, r1: u32;
      var t10 := D32DivMod1E9(0, hi);
      hi, r2 := t10.0, t10.1;
      var t11 := D32DivMod1E9(r2, mid);
      mid, r1 := t11.0, t11.1;
      var t12 := D32DivMod1E9(r1, lo);
      lo, r := t12.0, t12.1;
      LongDivide1E9(old(lo), old(mid), old(hi), hi, r2, mid, r1, lo, r);
    }
  }

  // ------------------------------------------------------------------
  // Arithmetic on the limbs

  lemma DoubleWords(lo: u32, mid: u32, hi: u32, c0: nat, c1: nat, lo': nat, mid': nat, hi': nat)
    requires c0 == (if lo >= 0x8000_0000 then 1 else 0) && c1 == (if mid >= 0x8000_0000 then 1 else 0)
    requires lo' == (2 * lo) % B32 && mid' == (2 * mid) % B32 + c0 && hi' == (2 * hi) % B32 + c1
    ensures lo' + B32 * mid' + B64 * hi' == (2 * (lo + B32 * mid + B64 * hi)) % B96
  {
    assert 2 * lo == lo' + B32 * c0;
    assert 2 * mid == (2 * mid) % B32 + B32 * c1;
    var top := (2 * hi) / B32;
    assert 2 * hi == (2 * hi) % B32 + B32 * top;
    var v := lo + B32 * mid + B64 * hi;
    assert 2 * v == lo' + B32 * mid' + B64 * hi' + B96 * top;
    assert lo' + B32 * mid' + B64 * hi' < B96;
    DivModUnique(2 * v, B96, top, lo' + B32 * mid' + B64 * hi');
  }

  /** The value of three limbs. */
  function Words(lo: u32, mid: u32, hi: u32): nat
  {
    lo + B32 * mid + B64 * hi
  }

  /** i added to the low limb, a carry rippled into the middle limb and
      from there into the top limb (the first step of DecAdd and all of
      DecAddInt32). The fourth component is the carry out of the top
      limb, which the code drops: the limbs hold the sum modulo 2^96. */
  function RippleLow(lo: u32, mid: u32, hi: u32, i: u32): (r: (u32, u32, u32, Carry))
    ensures Words(r.0, r.1, r.2) + B96 * r.3 == Words(lo, mid, hi) + i
  {
    var s0 := D32AddCarry(lo, i);
    if s0.1 == 0 then
      (s0.0, mid, hi, 0)
    else
      var s1 := D32AddCarry(mid, 1);
      if s1.1 == 0 then
        (s0.0, s1.0, hi, 0)
      else
        var s2 := D32AddCarry(hi, 1);
        (s0.0, s1.0, s2.0, s2.1)
  }

  /** m added to the middle limb with its carry into the top limb (the
      second step of DecAdd); the carry out of the top limb, which the
      code drops, is the fourth component. */
  function RippleMid(lo: u32, mid: u32, hi: u32, m: u32): (r: (u32, u32, u32, Carry))
    ensures r.0 == lo
    ensures Words(r.0, r.1, r.2) + B96 * r.3 == Words(lo, mid, hi) + B32 * m
  {
    var s1 := D32AddCarry(mid, m);
    if s1.1 == 0 then
      (lo, s1.0, hi, 0)
    else
      var s2 := D32AddCarry(hi, 1);
      (lo, s1.0, s2.0, s2.1)
  }

  /** The limbs of DecAdd: the low limbs added with the carry rippled up,
      then the middle limbs, then the top limbs. The fourth component
      counts the carries out of the top limb, which the code drops: the
      limbs hold the sum of the two mantissas modulo 2^96. */
  function AddWords(lo: u32, mid: u32, hi: u32, dlo: u32, dmid: u32, dhi: u32): (r: (u32, u32, u32, nat))
    ensures Words(r.0, r.1, r.2) + B96 * r.3 == Words(lo, mid, hi) + Words(dlo, dmid, dhi)
  {
    var r1 := RippleLow(lo, mid, hi, dlo);
    var r2 := RippleMid(r1.0, r1.1, r1.2, dmid);
    var t := D32AddCarry(r2.2, dhi);
    (r2.0, r2.1, t.0, r1.3 + r2.3 + t.1)
  }

  lemma SmallMod(x: nat)
    requires x < B96
    ensures x % B96 == x
  {
  }

  lemma WrapMod(x: nat, w: nat, c: nat)
    requires w < B96 && x == w + B96 * c
    ensures x % B96 == w
  {
    DivModUnique(x, B96, c, w);
  }

  /** Doubling commutes with reduction modulo 2^96. */
  lemma Twice(x: nat, xm: nat)
    requires xm == x % B96
    ensures (2 * xm) % B96 == (2 * x) % B96
  {
    var k := x / B96;
    var j := (2 * xm) / B96;
    assert 2 * x == (2 * xm) % B96 + B96 * (j + 2 * k);
    DivModUnique(2 * x, B96, j + 2 * k, (2 * xm) % B96);
  }

  /** Adding v commutes with reduction modulo 2^96. */
  lemma Plus(x: nat, v: nat, xm: nat, s: nat)
    requires xm == x % B96 && s == (xm + v) % B96
    ensures s == (x + v) % B96
  {
    var k := x / B96;
    var j := (xm + v) / B96;
    assert x + v == s + B96 * (j + k);
    DivModUnique(x + v, B96, j + k, s);
  }

  /** The three steps of DecDivMod1E9 make one long division of the
      96-bit mantissa by 10^9. */
  lemma LongDivide1E9(lo: u32, mid: u32, hi: u32, q2: nat, r2: nat, q1: nat, r1: nat, q0: nat, r0: nat)
    requires q2 * 1_000_000_000 + r2 == hi && r2 < 1_000_000_000
    requires q1 * 1_000_000_000 + r1 == r2 * B32 + mid && r1 < 1_000_000_000
    requires q0 * 1_000_000_000 + r0 == r1 * B32 + lo
    ensures lo + B32 * mid + B64 * hi == (q0 + B32 * q1 + B64 * q2) * 1_000_000_000 + r0
  {
    calc {
      lo + B32 * mid + B64 * hi;
      lo + B32 * mid + B64 * (q2 * 1_000_000_000 + r2);
      lo + B32 * (r2 * B32 + mid) + B64 * q2 * 1_000_000_000;
      lo + B32 * (q1 * 1_000_000_000 + r1) + B64 * q2 * 1_000_000_000;
      (r1 * B32 + lo) + (B32 * q1 + B64 * q2) * 1_000_000_000;
      (q0 + B32 * q1 + B64 * q2) * 1_000_000_000 + r0;
    }
  }
}
