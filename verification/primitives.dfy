/** Fixed-width word arithmetic the decimal routines are built from:
    add with carry, subtract with borrow, widening multiplies, narrowing
    divides, a bit scan and a 128-bit shift. These are the portable forms
    of decimal_calc.inl; every word is an unbounded integer kept in range by
    a subset type, and every wrap-around is written out. */
module Primitives {

  const B32: int := 0x1_0000_0000
  const B64: int := 0x1_0000_0000_0000_0000
  const B96: int := 0x1_0000_0000_0000_0000_0000_0000
  const B128: int := 0x1_0000_0000_0000_0000_0000_0000_0000_0000

  type u32 = x: int | 0 <= x < 0x1_0000_0000
  type u64 = x: int | 0 <= x < 0x1_0000_0000_0000_0000
  /** A carry or borrow flag. */
  type Carry = c: int | 0 <= c <= 1

  function Lo32(x: u64): u32 { x % B32 }
  function Hi32(x: u64): u32 { x / B32 }
  function Join64(hi: u32, lo: u32): u64 { hi * B32 + lo }

  function Pow2(n: nat): (r: nat)
    ensures r >= 1
  {
    if n == 0 then 1 else 2 * Pow2(n - 1)
  }

  function Pow10(n: nat): (r: nat)
    ensures r >= 1
  {
    if n == 0 then 1 else 10 * Pow10(n - 1)
  }

  // ------------------------------------------------------------------
  // Carries and borrows

  /** Adds two words and an incoming carry; the low word and the
      outgoing carry together are the exact sum. */
  function AddCarry32(carry: Carry, lhs: u32, rhs: u32): (r: (Carry, u32))
    ensures r.1 + B32 * r.0 == carry + lhs + rhs
  {
    var sum := carry + lhs + rhs;
    (sum / B32, sum % B32)
  }

  /** Subtracts a word and an incoming borrow, computing in 64 bits with
      wrap-around; the low word minus the outgoing borrow is the exact
      difference. */
  function SubBorrow32(borrow: Carry, lhs: u32, rhs: u32): (r: (Carry, u32))
    ensures r.1 - B32 * r.0 == lhs - rhs - borrow
  {
    var res := (lhs - (rhs + borrow)) % B64;
    assert lhs - (rhs + borrow) < 0 ==> res == lhs - (rhs + borrow) + B64;
    ((res / B32) % 2, res % B32)
  }

  /** 64-bit add with carry, done as two chained 32-bit halves. */
  function AddCarry64(carry: Carry, lhs: u64, rhs: u64): (r: (Carry, u64))
    ensures r.1 + B64 * r.0 == carry + lhs + rhs
  {
    var (c, lo) := AddCarry32(carry, Lo32(lhs), Lo32(rhs));
    var (c', hi) := AddCarry32(c, Hi32(lhs), Hi32(rhs));
    (c', Join64(hi, lo))
  }

  /** 64-bit subtract with borrow, done as two chained 32-bit halves. */
  function SubBorrow64(borrow: Carry, lhs: u64, rhs: u64): (r: (Carry, u64))
    ensures r.1 - B64 * r.0 == lhs - rhs - borrow
  {
    var (b, lo) := SubBorrow32(borrow, Lo32(lhs), Lo32(rhs));
    var (b', hi) := SubBorrow32(b, Hi32(lhs), Hi32(rhs));
    (b', Join64(hi, lo))
  }

  // ------------------------------------------------------------------
  // Multiplication

  lemma MulBounds(a: nat, b: nat, x: nat, y: nat)
    requires a <= x && b <= y
    ensures a * b <= x * y
  {
  }

  /** 32 x 32 -> 64 bit product; its high word is at most 2^32 - 2. */
  function Mul32By32(lhs: u32, rhs: u32): (r: u64)
    ensures r == lhs * rhs
    ensures r <= 0xFFFF_FFFE_0000_0001
  {
    MulBounds(lhs, rhs, B32 - 1, B32 - 1);
    lhs * rhs
  }

  lemma SplitProduct(h: int, l: int, b: int)
    ensures (h * B32 + l) * b == h * b * B32 + l * b
  {
  }

  /** 64 x 32 -> 96 bit product, returned as the low 64 bits and the high
      32 bits. */
  function Mul64By32(lhs: u64, rhs: u32): (r: (u64, u32))
    ensures r.0 + B64 * r.1 == lhs * rhs
  {
    var lowRes := Mul32By32(Lo32(lhs), rhs);
    var hiRes: u64 := Mul32By32(Hi32(lhs), rhs) + Hi32(lowRes);
    SplitProduct(Hi32(lhs), Lo32(lhs), rhs);
    (Join64(Lo32(hiRes), Lo32(lowRes)), Hi32(hiRes))
  }

  lemma ProductBelow(a: u64, b: u64)
    ensures a * b < B128
  {
    MulBounds(a, b, B64 - 1, B64 - 1);
  }

  lemma Mul64Expand(lh: int, ll: int, rh: int, rl: int)
    ensures (lh * B32 + ll) * (rh * B32 + rl)
         == ll * rl + lh * rl * B32 + ll * rh * B32 + lh * rh * B64
  {
  }

  /** The carry chain of the portable 64 x 64 multiply: accumulates the
      partial products lo*lo, hi*lo (shifted one word), hi*hi (shifted two
      words) and lo*hi (shifted one word) into two 64-bit words. The carries
      out of the top word, which the code drops, are always zero. */
  function MulAccumulate(p0: u64, p1: u64, p2: u64, p3: u64): (r: (u64, u64))
    requires p2 <= 0xFFFF_FFFE_0000_0001
    requires p0 + (p1 + p3) * B32 + p2 * B64 < B128
    ensures r.0 + B64 * r.1 == p0 + (p1 + p3) * B32 + p2 * B64
  {
    var (c1, mid1) := AddCarry32(0, Lo32(p1), Hi32(p0));
    var (c2, hl1) := AddCarry32(c1, Hi32(p1), Lo32(p2));
    var (c5, hh1) := AddCarry32(c2, Hi32(p2), 0);
    assert c5 == 0;
    assert Lo32(p0) + B32 * mid1 + B64 * hl1 + B96 * hh1 == p0 + p1 * B32 + p2 * B64;
    var (c3, mid2) := AddCarry32(0, Lo32(p3), mid1);
    var (c4, hl2) := AddCarry32(c3, Hi32(p3), hl1);
    var (c6, hh2) := AddCarry32(c4, hh1, 0);
    assert Lo32(p0) + B32 * mid2 + B64 * hl2 + B96 * hh2 + B128 * c6
        == p0 + (p1 + p3) * B32 + p2 * B64;
    assert c6 == 0;
    assert Lo32(p0) + B32 * mid2 + B64 * hl2 + B96 * hh2 == p0 + (p1 + p3) * B32 + p2 * B64;
    (Join64(mid2, Lo32(p0)), Join64(hh2, hl2))
  }

  /** 64 x 64 -> 128 bit product, returned as (low 64 bits, high 64 bits),
      built from four 32 x 32 partial products. */
  function Mul64By64(lhs: u64, rhs: u64): (r: (u64, u64))
    ensures r.0 + B64 * r.1 == lhs * rhs
  {
    var lowRes := Mul32By32(Lo32(lhs), Lo32(rhs));
    Mul64Expand(Hi32(lhs), Lo32(lhs), Hi32(rhs), Lo32(rhs));
    ProductBelow(lhs, rhs);
    if Hi32(lhs) == 0 && Hi32(rhs) == 0 then (lowRes, 0)
    else
      MulAccumulate(lowRes, Mul32By32(Hi32(lhs), Lo32(rhs)),
                    Mul32By32(Hi32(lhs), Hi32(rhs)), Mul32By32(Lo32(lhs), Hi32(rhs)))
  }

  // ------------------------------------------------------------------
  // Division

  lemma QuotientBelow(n: nat, d: nat, k: nat)
    requires d > 0 && n < d * k
    ensures n / d < k
  {
    if n / d >= k {
      MulBounds(d, k, d, n / d);
      assert false;
    }
  }

  /** 32 / 32 bit division. */
  function DivMod32By32(num: u32, den: u32): (r: (u32, u32))
    requires den > 0
    ensures r.0 * den + r.1 == num && r.1 < den
  {
    (num / den, num % den)
  }

  /** 64 / 64 bit division. */
  function DivMod64By64(num: u64, den: u64): (r: (u64, u64))
    requires den > 0
    ensures r.0 * den + r.1 == num && r.1 < den
  {
    (num / den, num % den)
  }

  /** Divides the 64-bit number hi:lo by a 32-bit word. The caller must
      keep hi below the divisor so the quotient fits 32 bits; the result
      packs the remainder in its high half and the quotient in its low half
      (the quotient is cut to 32 bits, which changes nothing when the
      requirement holds). */
  function DivMod64By32Impl(lo: u32, hi: u32, den: u32): (r: u64)
    requires hi < den
    ensures Lo32(r) * den + Hi32(r) == hi * B32 + lo && Hi32(r) < den
  {
    if hi == 0 then
      Unpack(lo / den, lo % den);
      Join64(lo % den, lo / den)
    else
      var dividend := Join64(hi, lo);
      QuotientBelow(dividend, den, B32);
      var q := (dividend / den) % B32;
      assert q == dividend / den;
      Unpack(q, dividend % den);
      Join64(dividend % den, q)
  }

  lemma Unpack(q: u32, r: u32)
    ensures Lo32(Join64(r, q)) == q && Hi32(Join64(r, q)) == r
  {
  }

  /** 64 / 32 bit division returning (quotient, remainder). */
  function DivMod64By32(lo: u32, hi: u32, den: u32): (r: (u32, u32))
    requires hi < den
    ensures r.0 * den + r.1 == hi * B32 + lo && r.1 < den
  {
    var packed := DivMod64By32Impl(lo, hi, den);
    (Lo32(packed), Hi32(packed))
  }

  /** The same division for a dividend whose low word is overwritten by
      the quotient: returns (new low word, remainder). */
  function DivMod64By32InPlace(low: u32, hi: u32, den: u32): (r: (u32, u32))
    requires hi < den
    ensures r.0 * den + r.1 == hi * B32 + low && r.1 < den
  {
    var packed := DivMod64By32Impl(low, hi, den);
    (Lo32(packed), Hi32(packed))
  }

  /** 128 / 64 bit division (the hardware divide); hi must be below the
      divisor so the quotient fits 64 bits. */
  function DivMod128By64(lo: u64, hi: u64, den: u64): (r: (u64, u64))
    requires hi < den
    ensures r.0 * den + r.1 == hi * B64 + lo && r.1 < den
  {
    var dividend := hi * B64 + lo;
    QuotientBelow(dividend, den, B64);
    (dividend / den, dividend % den)
  }

  // ------------------------------------------------------------------
  // Bit scan and shift

  /** Position of the most significant set bit of a positive number. */
  function Log2(x: nat): nat
    requires x > 0
  {
    if x == 1 then 0 else 1 + Log2(x / 2)
  }

  lemma {:induction false} Log2Bounds(x: nat)
    requires x > 0
    ensures Pow2(Log2(x)) <= x < Pow2(Log2(x) + 1)
  {
    if x > 1 {
      Log2Bounds(x / 2);
    }
  }

  lemma {:induction false} Pow2Monotone(a: nat, b: nat)
    requires a <= b
    ensures Pow2(a) <= Pow2(b)
  {
    if a < b {
      Pow2Monotone(a, b - 1);
    }
  }

  lemma Pow2Values()
    ensures Pow2(32) == B32 && Pow2(64) == B64
  {
    assert Pow2(4) == 16;
    Pow2Add(4, 4);
    assert Pow2(8) == 256;
    Pow2Add(8, 8);
    assert Pow2(16) == 65536;
    Pow2Add(16, 16);
    assert Pow2(32) == B32;
    Pow2Add(32, 32);
  }

  lemma {:induction false} Pow2Add(a: nat, b: nat)
    ensures Pow2(a + b) == Pow2(a) * Pow2(b)
  {
    if b > 0 {
      Pow2Add(a, b - 1);
      assert Pow2(a + b) == 2 * Pow2(a + b - 1);
    }
  }

  lemma Log2Below(x: nat, n: nat)
    requires 0 < x < Pow2(n)
    ensures Log2(x) < n
  {
    Log2Bounds(x);
    if Log2(x) >= n {
      Pow2Monotone(n, Log2(x));
    }
  }

  /** BitScanReverse on a 64-bit mask: reports whether any bit is set and,
      if so, the index of the highest one. */
  function BitScanMsb64(mask: u64): (r: (bool, nat))
    ensures r.0 <==> mask != 0
    ensures r.0 ==> r.1 < 64 && Pow2(r.1) <= mask < Pow2(r.1 + 1)
  {
    if mask == 0 then (false, 0)
    else
      Log2Bounds(mask);
      Pow2Values();
      Log2Below(mask, 64);
      (true, Log2(mask))
  }

  /** BitScanReverse on a 32-bit mask. */
  function BitScanMsb32(mask: u32): (r: (bool, nat))
    ensures r.0 <==> mask != 0
    ensures r.0 ==> r.1 < 32 && Pow2(r.1) <= mask < Pow2(r.1 + 1)
  {
    Pow2Values();
    if mask != 0 then
      Log2Below(mask, 32);
      BitScanMsb64(mask)
    else
      BitScanMsb64(mask)
  }

  lemma DivUnique64(n: int, q: int, r: int)
    requires n == q * B64 + r && 0 <= r < B64
    ensures n / B64 == q && n % B64 == r
  {
  }

  /** Splits x * p by the word size when p * k == 2^64. */
  lemma MulSplitWord(x: nat, p: nat, k: nat)
    requires p * k == B64 && p > 0 && k > 0
    ensures x * p == (x / k) * B64 + (x % k) * p
    ensures (x % k) * p <= B64 - p
  {
    var xq := x / k;
    var xr := x % k;
    assert x == xq * k + xr;
    assert x * p == xq * (k * p) + xr * p;
    MulBounds(xr, p, k - 1, p);
  }

  lemma WordCarry(n: int, x: int, lq: int, lowPart: int, hq: int, highPart: int)
    requires n == x * B64 + (lq * B64 + lowPart)
    requires x == hq * B64 + highPart && 0 <= highPart && 0 <= lq
    requires highPart + lq < B64 && 0 <= lowPart < B64
    ensures (n / B64) % B64 == x % B64 + lq
  {
    DivUnique64(n, x + lq, lowPart);
    DivUnique64(x, hq, highPart);
    DivUnique64(x + lq, hq, highPart + lq);
  }

  lemma Distribute(a: int, b: int, p: int)
    ensures (a * B64 + b) * p == (a * p) * B64 + b * p
  {
  }

  lemma ShiftSplitCore(lo: u64, hi: u64, p: nat, k: nat)
    requires p > 0 && k > 0 && p * k == B64
    ensures ((hi * B64 + lo) * p / B64) % B64 == (hi * p) % B64 + lo / k
  {
    MulSplitWord(lo, p, k);
    MulSplitWord(hi, p, k);
    QuotientBelow(lo, k, p);
    Distribute(hi, lo, p);
    WordCarry((hi * B64 + lo) * p, hi * p, lo / k, (lo % k) * p, hi / k, (hi % k) * p);
  }

  lemma ShiftSplit(lo: u64, hi: u64, shift: nat)
    requires 0 < shift < 64
    ensures ((hi * B64 + lo) * Pow2(shift) / B64) % B64
         == (hi * Pow2(shift)) % B64 + lo / Pow2(64 - shift)
  {
    Pow2Add(shift, 64 - shift);
    Pow2Values();
    ShiftSplitCore(lo, hi, Pow2(shift), Pow2(64 - shift));
  }

  /** The high 64 bits of the 128-bit value hi:lo shifted left by shift
      bits (the shift is below 64); a shift of zero returns hi unchanged. */
  function ShiftLeft128(lo: u64, hi: u64, shift: nat): (r: u64)
    requires shift < 64
    ensures r == ((hi * B64 + lo) * Pow2(shift) / B64) % B64
  {
    if shift == 0 then
      hi
    else
      ShiftSplit(lo, hi, shift);
      (hi * Pow2(shift)) % B64 + lo / Pow2(64 - shift)
  }

  /** The shift exactly as written, on a 64-bit machine that masks shift
      counts to six bits: for a zero shift the low word is shifted right
      by 64, which the hardware performs as a shift by 0, so the result is
      hi OR lo instead of hi. */
  function ShiftLeft128AsWritten(lo: u64, hi: u64, shift: nat): u64
    requires shift < 64
  {
    var h := (hi as bv64) << shift;
    var l := (lo as bv64) >> ((64 - shift) % 64);
    (h | l) as int
  }
}
