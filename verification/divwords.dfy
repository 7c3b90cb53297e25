/** The word-array routines of the division. A dividend, quotient or
    remainder is an array of 32-bit words, least significant first. The
    division multiplies one by a power of ten, adds to it, or divides it by
    a 32-, 64- or 96-bit divisor, always in place. */
module DivWords {
  import opened Primitives
  import opened Rounding

  /** The value of three, four and five consecutive words from index i. */
  function W3(s: seq<u32>, i: nat): nat
    requires i + 3 <= |s|
  {
    s[i] + B32 * s[i + 1] + B64 * s[i + 2]
  }

  function W4(s: seq<u32>, i: nat): nat
    requires i + 4 <= |s|
  {
    W3(s, i) + B96 * s[i + 3]
  }

  function W5(s: seq<u32>, i: nat): nat
    requires i + 5 <= |s|
  {
    W4(s, i) + B128 * s[i + 4]
  }

  lemma W3Bound(s: seq<u32>, i: nat)
    requires i + 3 <= |s|
    ensures W3(s, i) < B96
  {
  }

  // ------------------------------------------------------------------
  // IncreaseScale

  lemma ScaleWords32(j: int, w2: int, pwr: int, lo: int, h: int, tmp: int)
    requires lo + B64 * h == j * pwr && tmp == w2 * pwr + h
    ensures (j + B64 * w2) * pwr == lo + B64 * tmp
  {
  }

  /** IncreaseScale96By32: multiplies the 96-bit number in the first three
      words by pwr; the low 96 bits of the product replace it and the top
      32 bits are returned. */
  method IncreaseScale96By32(a: array<u32>, pwr: u32) returns (hi: u32)
    requires a.Length >= 3
    modifies a
    ensures W3(a[..], 0) + B96 * hi == old(W3(a[..], 0)) * pwr
    ensures forall i :: 3 <= i < a.Length ==> a[i] == old(a[i])
  {
    var (lo, h) := Mul64By32(Join64(a[1], a[0]), pwr);
    var tmp: u64 := Mul32By32(a[2], pwr) + h;
    ScaleWords32(Join64(a[1], a[0]), a[2], pwr, lo, h, tmp);
    a[0] := Lo32(lo);
    a[1] := Hi32(lo);
    a[2] := Lo32(tmp);
    hi := Hi32(tmp);
  }

  lemma ScaleWords64(j: int, w2: int, pwr: int, lo: int, h: int, tmp: int, over: int,
                     tmp': int, over': int)
    requires 0 <= j < B64 && 0 <= w2 < B32 && 0 <= pwr < B64
    requires 0 <= lo < B64 && 0 <= tmp' < B64 && over' >= 0
    requires lo + B64 * h == j * pwr && tmp + B64 * over == w2 * pwr
    requires tmp' + B64 * over' == tmp + h + B64 * over
    ensures (j + B64 * w2) * pwr == lo + B64 * tmp' + B128 * over'
    ensures over' < B32
  {
    MulBounds(j + B64 * w2, pwr, B96 - 1, B64 - 1);
  }

  /** IncreaseScale96By64: the same with a 64-bit factor; the product has
      up to 160 bits and its top 64 bits are returned. */
  method IncreaseScale96By64(a: array<u32>, pwr: u64) returns (over: u64)
    requires a.Length >= 3
    modifies a
    ensures W3(a[..], 0) + B96 * over == old(W3(a[..], 0)) * pwr
    ensures forall i :: 3 <= i < a.Length ==> a[i] == old(a[i])
  {
    ghost var before := W3(a[..], 0);
    assert before == Join64(a[1], a[0]) + B64 * a[2];
    var (lo, h) := Mul64By64(Join64(a[1], a[0]), pwr);
    var (tmp, overflow) := Mul64By64(a[2], pwr);
    var (c, tmp') := AddCarry64(0, tmp, h);
    var (c', overflow') := AddCarry64(c, overflow, 0);
    ScaleWords64(Join64(a[1], a[0]), a[2], pwr, lo, h, tmp, overflow, tmp', overflow' + B64 * c');
    assert c' == 0;
    assert before * pwr == lo + B64 * tmp' + B128 * overflow';
    a[0] := Lo32(lo);
    a[1] := Hi32(lo);
    a[2] := Lo32(tmp');
    over := Lo32(overflow') * B32 + Hi32(tmp');
    assert W3(a[..], 0) == Lo32(lo) + B32 * Hi32(lo) + B64 * Lo32(tmp');
    Recombine(lo, tmp', overflow', over);
  }

  lemma Recombine(lo: u64, tmp: u64, ov: u64, over: int)
    requires ov < B32 && over == Lo32(ov) * B32 + Hi32(tmp)
    ensures Lo32(lo) + B32 * Hi32(lo) + B64 * Lo32(tmp) + B96 * over == lo + B64 * tmp + B128 * ov
  {
  }

  // ------------------------------------------------------------------
  // Add96By32, Add96By64

  /** Adds a 32-bit value to the 96-bit number in the first three words;
      the carry out of the top word is returned. */
  method Add96By32(a: array<u32>, value: u32) returns (carry: Carry)
    requires a.Length >= 3
    modifies a
    ensures W3(a[..], 0) + B96 * carry == old(W3(a[..], 0)) + value
    ensures forall i :: 3 <= i < a.Length ==> a[i] == old(a[i])
  {
    var (c0, w0) := AddCarry32(0, a[0], value);
    var (c1, w1) := AddCarry32(c0, a[1], 0);
    var (c2, w2) := AddCarry32(c1, a[2], 0);
    a[0], a[1], a[2] := w0, w1, w2;
    carry := c2;
  }

  /** Adds a 64-bit value to the 96-bit number in the first three words:
      one 64-bit add on the low two words, then the carry into the top. */
  method Add96By64(a: array<u32>, value: u64) returns (carry: Carry)
    requires a.Length >= 3
    modifies a
    ensures W3(a[..], 0) + B96 * carry == old(W3(a[..], 0)) + value
    ensures forall i :: 3 <= i < a.Length ==> a[i] == old(a[i])
  {
    var (c0, low) := AddCarry64(0, Join64(a[1], a[0]), value);
    var (c1, w2) := AddCarry32(c0, a[2], 0);
    a[0], a[1], a[2] := Lo32(low), Hi32(low), w2;
    carry := c1;
  }

  // ------------------------------------------------------------------
  // Div96By32

  lemma LongDivide2(w1: int, w2: int, q1: int, q2: int, r2: int, r1: int, den: int)
    requires q2 * den + r2 == w2
    requires q1 * den + r1 == r2 * B32 + w1
    ensures (q1 + B32 * q2) * den + r1 == w1 + B32 * w2
  {
  }

  /** The top two words of Div96By32: a top word not below the divisor is
      divided on its own, otherwise it is carried down as the remainder; the
      second word is divided only when something is carried into it or it
      is not below the divisor. Returns the two quotient words and the
      remainder carried into the low word. */
  function DivideTop(w1: u32, w2: u32, den: u32): (r: (u32, u32, u32))
    requires den > 0
    ensures (r.1 + B32 * r.0) * den + r.2 == w1 + B32 * w2 && r.2 < den
  {
    if w2 >= den then
      var (q2, r2) := DivMod32By32(w2, den);
      var (q1, r1) := DivMod64By32InPlace(w1, r2, den);
      LongDivide2(w1, w2, q1, q2, r2, r1, den);
      (q2, q1, r1)
    else if w2 != 0 || w1 >= den then
      var (q1, r1) := DivMod64By32InPlace(w1, w2, den);
      (0, q1, r1)
    else
      (0, 0, w1)
  }

  lemma LongDivide3(w0: int, w12: int, q0: int, q12: int, r1: int, r0: int, den: int)
    requires q12 * den + r1 == w12
    requires q0 * den + r0 == r1 * B32 + w0
    ensures (q0 + B32 * q12) * den + r0 == w0 + B32 * w12
  {
  }

  /** Div96By32_x64: divides the 96-bit number in the first three words by
      a 32-bit divisor, leaving the quotient in place and returning the
      remainder. */
  method Div96By32(a: array<u32>, den: u32) returns (rem: u32)
    requires a.Length >= 3 && den > 0
    modifies a
    ensures W3(old(a[..]), 0) == W3(a[..], 0) * den + rem && rem < den
    ensures forall i :: 3 <= i < a.Length ==> a[i] == old(a[i])
  {
    var w0, w1, w2 := a[0], a[1], a[2];
    assert W3(a[..], 0) == w0 + B32 * (w1 + B32 * w2);
    var (q2, q1, r1) := DivideTop(w1, w2, den);
    var (q0, r0) := DivMod64By32InPlace(w0, r1, den);
    LongDivide3(w0, w1 + B32 * w2, q0, q1 + B32 * q2, r1, r0, den);
    a[0], a[1], a[2] := q0, q1, q2;
    assert W3(a[..], 0) == q0 + B32 * (q1 + B32 * q2);
    rem := r0;
  }

  // ------------------------------------------------------------------
  // Div128By96, Div160By96

  /** The add-back loop of Div128By96: the remainder v of the estimated
      quotient is negative and held modulo 2^96 as num (low 64 bits) and w
      (top word); the divisor is added back, and the quotient lowered, until
      the addition carries out of 96 bits, which is when v turns
      non-negative. */
  method AddBack(quo: u32, num: u64, w: u32, dLo: u64, d2: u32,
                 ghost d: int, ghost total: int, ghost v: int)
      returns (quo': u32, num': u64, w': u32)
    requires d2 > 0 && total >= 0 && d == dLo + B64 * d2
    requires v == total - quo * d
    requires -B96 < v < 0 && num + B64 * w == v + B96
    ensures quo' * d + (num' + B64 * w') == total
    ensures num' + B64 * w' < d
  {
    ghost var rem := v;
    ghost var qd := quo * d;
    quo', num', w' := quo, num, w;
    var carry: Carry := 0;
    while carry == 0
      invariant qd == quo' * d && rem == total - qd
      invariant carry == 0 ==> -B96 < rem < 0 && num' + B64 * w' == rem + B96
      invariant carry == 1 ==> 0 <= rem < d && num' + B64 * w' == rem
      decreases 1 - carry, -rem
    {
      if quo' == 0 {
        assert false;
      }
      LowerQuotient(quo', d, qd);
      quo' := quo' - 1;
      qd := qd - d;
      rem := rem + d;
      var (c, n) := AddCarry64(0, num', dLo);
      var (c', hi) := AddCarry32(c, w', d2);
      num', w', carry := n, hi, c';
    }
  }

  lemma LowerQuotient(q: int, d: int, qd: int)
    requires qd == q * d
    ensures qd - d == (q - 1) * d
  {
  }

  lemma EstimateRemainder(t: int, j: int, a23: int, q: int, r: int, d2: int, dLo: int, d: int,
                          prod: int, hi: int, num: int, c1: int, w: int, c2: int)
    requires t == j + B64 * a23 && a23 == q * d2 + r && d == dLo + B64 * d2
    requires prod + B64 * hi == dLo * q
    requires num - B64 * c1 == j - prod && w - B32 * c2 == r - hi - c1
    ensures num + B64 * w - B96 * c2 == t - q * d
  {
  }

  lemma EstimateBounds(j: int, r: int, d2: int, dLo: int, q: int, v: int)
    requires 0 <= j < B64 && 0 <= r < d2 && 0 <= dLo < B64 && 0 <= q < B32
    requires v == j + B64 * r - q * dLo
    ensures -B96 < v < B64 * d2
  {
    ProductBelow96(q, dLo);
    BelowNextWord(j, r, d2);
  }

  lemma ProductBelow96(q: int, dLo: int)
    requires 0 <= dLo < B64 && 0 <= q < B32
    ensures 0 <= q * dLo < B96
  {
    MulBounds(q, dLo, B32 - 1, B64 - 1);
  }

  lemma BelowNextWord(j: int, r: int, d2: int)
    requires 0 <= j < B64 && 0 <= r < d2
    ensures j + B64 * r < B64 * d2
  {
  }

  /** Div128By96_x64: divides the 128-bit number in words off..off+3 by the
      96-bit divisor in den[0..3], whose top word must exceed the dividend's
      top word. The quotient, at most 32 bits, is estimated from the top two
      dividend words and the top divisor word, then lowered while the
      remainder is negative. The remainder replaces the low three dividend
      words; the fourth word is left as it was. */
  method Div128By96(a: array<u32>, off: nat, den: array<u32>) returns (quo: u32)
    requires a != den && off + 4 <= a.Length && den.Length >= 3
    requires a[off + 3] < den[2]
    modifies a
    ensures W4(old(a[..]), off) == quo * W3(den[..], 0) + W3(a[..], off)
    ensures W3(a[..], off) < W3(den[..], 0)
    ensures forall i :: 0 <= i < a.Length && !(off <= i < off + 3) ==> a[i] == old(a[i])
  {
    var d2 := den[2];
    var dLo := Join64(den[1], den[0]);
    ghost var d := W3(den[..], 0);
    assert d == dLo + B64 * d2;
    var j := Join64(a[off + 1], a[off]);
    var a2, a3 := a[off + 2], a[off + 3];
    ghost var total := j + B64 * (a2 + B32 * a3);
    assert W4(a[..], off) == total;
    if a3 == 0 && a2 < d2 {
      BelowNextWord(j, a2, d2);
      assert W3(a[..], off) == total;
      return 0;
    }
    var (q, r) := DivMod64By32(a2, a3, d2);
    var (prod, hi) := Mul64By32(dLo, q);
    var (c1, num) := SubBorrow64(0, j, prod);
    var (c2, w) := SubBorrow32(c1, r, hi);
    EstimateRemainder(total, j, a2 + B32 * a3, q, r, d2, dLo, d, prod, hi, num, c1, w, c2);
    EstimateBounds(j, r, d2, dLo, q, num + B64 * w - B96 * c2);
    quo := q;
    if c2 != 0 {
      quo, num, w := AddBack(quo, num, w, dLo, d2, d, total, num + B64 * w - B96);
    }
    a[off], a[off + 1], a[off + 2] := Lo32(num), Hi32(num), w;
    assert W3(a[..], off) == num + B64 * w;
    assert total == quo * d + (num + B64 * w);
  }

  /** What the two Div128By96 calls of Div160By96 demand: the top dividend
      word of each is below the top divisor word. The first call divides
      words 1..4 when words 3..4 are not below the top divisor word; the
      second divides words 0..3, its top word being that of the first
      call's remainder when there was a first call. */
  predicate Div160Guard(s: seq<u32>, d: seq<u32>)
    requires |s| >= 5 && |d| >= 3
  {
    if Join64(s[4], s[3]) >= d[2] then
      s[4] < d[2] && (W4(s, 1) % W3(d, 0)) / B64 < d[2]
    else
      s[3] < d[2]
  }

  lemma Combine160(s: seq<u32>, x0: int, q1: int, r1: int, q0: int, r0: int, d: int)
    requires |s| >= 5 && s[0] == x0
    requires W4(s, 1) == q1 * d + r1 && x0 + B32 * r1 == q0 * d + r0
    ensures W5(s, 0) == (q1 * B32 + q0) * d + r0
  {
  }

  /** Div160By96_x64: divides the 160-bit number in words 0..4 by the
      96-bit divisor, giving a quotient of up to 64 bits as two 32-bit
      halves. The remainder replaces the low three words. */
  method Div160By96(a: array<u32>, den: array<u32>) returns (quo: u64)
    requires a != den && a.Length >= 5 && den.Length >= 3
    requires Div160Guard(a[..], den[..])
    modifies a
    ensures W5(old(a[..]), 0) == quo * W3(den[..], 0) + W3(a[..], 0)
    ensures W3(a[..], 0) < W3(den[..], 0)
    ensures forall i :: 5 <= i < a.Length ==> a[i] == old(a[i])
  {
    ghost var s := a[..];
    ghost var d := W3(den[..], 0);
    var q1: u32 := 0;
    if Join64(a[4], a[3]) >= den[2] {
      q1 := Div128By96(a, 1, den);
      assert W4(s, 1) == q1 * d + W3(a[..], 1);
      DivModUnique(W4(s, 1), d, q1, W3(a[..], 1));
      assert a[3] == W3(a[..], 1) / B64;
    } else {
      assert W4(s, 1) == 0 * d + W3(a[..], 1);
    }
    ghost var r1 := W3(a[..], 1);
    assert a[0] == s[0];
    assert W4(a[..], 0) == s[0] + B32 * r1;
    var q0 := Div128By96(a, 0, den);
    Combine160(s, s[0], q1, r1, q0, W3(a[..], 0), d);
    quo := q1 * B32 + q0;
  }

  // ------------------------------------------------------------------
  // Div96By64, Div128By64

  lemma BelowNext(j: int, r: int, d: int, b: int)
    requires 0 <= j < b && 0 <= r < d
    ensures j + b * r < b * d
  {
    MulLe(r + 1, d, b);
  }

  /** The add-back loop of Div96By64: the remainder of the estimate qt is
      negative, above -2^64, and held modulo 2^64 in num. The quotient is
      a 32-bit word, so an estimate of 2^32 is held as 0 and its first
      decrement wraps it to 2^32 - 1. The loop adds the divisor back until
      the held remainder, read as unsigned, is below the divisor. */
  method NegRem(quo: u32, num: u64, den: u64, ghost qt: int, ghost total: int)
      returns (quo': u32, num': u64)
    requires den > 0 && 0 <= total < B32 * den
    requires qt == quo || (qt == B32 && quo == 0)
    requires -B64 < total - qt * den < 0 && num == total - qt * den + B64
    ensures quo' * den + num' == total && num' < den
  {
    ghost var qt' := qt;
    ghost var qd := qt * den;
    ghost var rem := total - qd;
    quo', num' := quo, num;
    while true
      invariant qt' == quo' || (qt' == B32 && quo' == 0)
      invariant qd == qt' * den && rem == total - qd
      invariant -B64 < rem < 0 && num' == rem + B64
      decreases -rem
    {
      if qt' == 0 {
        assert false;
      }
      LowerQuotient(qt', den, qd);
      quo' := (quo' - 1) % B32;
      qt', qd, rem := qt' - 1, qd - den, rem + den;
      num' := (num' + den) % B64;
      if num' < den {
        break;
      }
    }
    assert rem >= 0;
    assert qt' != B32;
  }

  /** Div96By64_x64: divides the 96-bit number in words 0..2 by a 64-bit
      divisor larger than its top 64 bits, giving a 32-bit quotient. The
      quotient is estimated from the top two words and the divisor's high
      word (2^32 when that division would overflow) and lowered while the
      remainder is negative. The remainder replaces words 0..1. */
  method Div96By64(a: array<u32>, den: u64) returns (quo: u32)
    requires a.Length >= 3 && Join64(a[2], a[1]) < den
    modifies a
    ensures W3(old(a[..]), 0) == quo * den + Join64(a[1], a[0]) && Join64(a[1], a[0]) < den
    ensures forall i :: 2 <= i < a.Length ==> a[i] == old(a[i])
  {
    var w0, w1, w2 := a[0], a[1], a[2];
    ghost var total := w0 + B32 * Join64(w2, w1);
    assert W3(a[..], 0) == total;
    BelowNext(w0, Join64(w2, w1), den, B32);
    var dHi, dLo := Hi32(den), Lo32(den);
    var num: u64;
    if w2 >= dHi {
      assert w2 == dHi && w1 < dLo;
      num := Join64((w1 - dLo) % B32, w0);
      assert num == total - B32 * den + B64;
      quo, num := NegRem(0, num, den, B32, total);
    } else {
      if w2 == 0 && Join64(w1, w0) < den {
        return 0;
      }
      var (q, r) := DivMod64By32(w1, w2, dHi);
      var prod := Mul32By32(q, dLo);
      var (c, n) := SubBorrow64(0, Join64(r, w0), prod);
      QuotientRemainder(total, w0, w1, w2, dHi, dLo, den, q, r, prod, n, c);
      quo, num := q, n;
      if c != 0 {
        quo, num := NegRem(quo, num, den, quo, total);
      }
    }
    a[0], a[1] := Lo32(num), Hi32(num);
  }

  lemma QuotientRemainder(total: int, w0: u32, w1: u32, w2: u32, dHi: u32, dLo: u32, den: u64,
                          q: u32, r: u32, prod: int, n: int, c: int)
    requires total == w0 + B32 * Join64(w2, w1) && den == Join64(dHi, dLo)
    requires q * dHi + r == w2 * B32 + w1 && r < dHi
    requires prod == q * dLo && n - B64 * c == Join64(r, w0) - prod
    ensures n - B64 * c == total - q * den
    ensures -B64 < total - q * den < den
  {
    SplitDivisor(q, dHi, dLo, den);
    assert total - q * den == Join64(r, w0) - prod;
    MulBounds(q, dLo, B32 - 1, B32 - 1);
    BelowNext(w0, r, dHi, B32);
    assert Join64(r, w0) < B32 * dHi <= den;
  }

  lemma SplitDivisor(q: int, dHi: int, dLo: int, den: int)
    requires den == dHi * B32 + dLo
    ensures q * den == q * dHi * B32 + q * dLo
  {
  }

  /** Div128By64_x64 with a 128 / 64 bit hardware divide: divides the
      128-bit number in words 0..3 by a 64-bit divisor larger than its top
      64 bits. A dividend below the divisor gives 0 and is left alone;
      otherwise the remainder replaces words 0..1. */
  method Div128By64(a: array<u32>, den: u64) returns (quo: u64)
    requires a.Length >= 4 && Join64(a[3], a[2]) < den
    modifies a
    ensures W4(old(a[..]), 0) == quo * den + Join64(a[1], a[0]) && Join64(a[1], a[0]) < den
    ensures forall i :: 2 <= i < a.Length ==> a[i] == old(a[i])
  {
    var hi64 := Join64(a[3], a[2]);
    var low64 := Join64(a[1], a[0]);
    assert W4(a[..], 0) == hi64 * B64 + low64;
    if hi64 == 0 && low64 < den {
      return 0;
    }
    var (q, r) := DivMod128By64(low64, hi64, den);
    a[0], a[1] := Lo32(r), Hi32(r);
    quo := q;
  }
}
