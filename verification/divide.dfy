/** DecimalDiv. The divisor decides the path: a 32-bit divisor divides the
    dividend directly; a wider one is first normalised (shifted left until
    its top bit is set, the dividend shifted with it). Each path then
    loops: while a remainder is left, the quotient and remainder are
    scaled by the largest power of ten the quotient allows and the scaled
    remainder is divided again; when no scaling is left the quotient is
    rounded. Extra powers of ten are finally divided back out. */
module Division {
  import opened Primitives
  import opened Rounding
  import opened Decimals
  import opened DivWords
  import opened QuotientScale
  import opened DivisionSpec
  import Scaling

  /** What a division loop leaves behind: a settled quotient m at scale
      s, the natural scale when the division is exact, and whether a
      remainder was ever seen (the unscale flag); or an overflow. */
  predicate LoopOutcome(n: nat, d: nat, s0: int, ok: bool, s: int, m: nat, unscale: bool)
  {
    d > 0
    && (ok ==> Settled(n, d, s0, s, m) && (n % d == 0 ==> s == Max(0, s0)) && unscale == (n % d != 0))
    && (!ok ==> Overflows(n, d, s0))
  }

  /** The invariant of the division loops: the quotient q and remainder r
      of the dividend at scale i; at the first pass the remainder is that
      of the operands and a non-zero one leaves the quotient below 2^95;
      an exact division keeps r zero and never scales past 0; the unscale
      flag is set from the first pass with a remainder on. */
  predicate LoopInv(n: nat, d: nat, s0: int, i: int, q: nat, r: nat, unscale: bool)
  {
    Progress(n, d, s0, i, q, r)
    && (i == s0 ==> r == n % d && (r == 0 || 2 * q < B96))
    && (n % d == 0 ==> r == 0 && i <= Max(0, s0))
    && (unscale ==> n % d != 0)
    && (i > s0 && n % d != 0 ==> unscale)
  }

  /** No remainder at a scale of 0 or more: the loop ends exactly. */
  lemma ExactStop(n: nat, d: nat, s0: int, i: int, q: nat, unscale: bool)
    requires LoopInv(n, d, s0, i, q, 0, unscale) && i >= 0
    ensures LoopOutcome(n, d, s0, true, i, q, unscale)
  {
    ExactExit(n, d, s0, i, q);
  }

  /** The loop ends with a remainder left (rounded, or carried out of 96
      bits): the division was not exact. */
  lemma InexactStop(n: nat, d: nat, s0: int, ok: bool, s: int, m: nat, i: int, q: nat, r: nat)
    requires LoopInv(n, d, s0, i, q, r, true) && r != 0
    requires ok ==> Settled(n, d, s0, s, m)
    requires !ok ==> Overflows(n, d, s0)
    ensures LoopOutcome(n, d, s0, ok, s, m, true)
  {
  }

  /** A remainder is seen: the unscale flag is set. */
  lemma Remainder(n: nat, d: nat, s0: int, i: int, q: nat, r: nat, unscale: bool)
    requires LoopInv(n, d, s0, i, q, r, unscale) && r != 0
    ensures LoopInv(n, d, s0, i, q, r, true)
  {
  }

  /** A scaling step by 10^k that stays within 96 bits keeps the
      invariant. */
  lemma StepInv(n: nat, d: nat, s0: int, i: int, q: nat, r: nat, unscale: bool,
                k: nat, p: nat, qk: nat, rk: nat)
    requires LoopInv(n, d, s0, i, q, r, unscale || r != 0) && k >= 1 && i + k <= MaxScale
    requires r == 0 ==> i + k <= 0
    requires Scaled(n, s0, i + k) == (q * p + qk) * d + rk && rk < d && q * p + qk < B96
    requires r * p == qk * d + rk
    ensures LoopInv(n, d, s0, i + k, q * p + qk, rk, unscale || r != 0)
  {
  }

  /** (uint32_t)rgulPower10_64[k] for a power that fits 32 bits. */
  function Power32(k: nat): (p: u32)
    requires k <= Scaling.Power10Max32
    ensures p == Pow10(k) && 0 < p <= 1_000_000_000
  {
    Scaling.Power10Table(k);
    Pow10Monotone(k, 9);
    Pow10Values();
    Scaling.Power10[k]
  }

  lemma W3Parity(s: seq<u32>, i: nat)
    requires i + 3 <= |s|
    ensures W3(s, i) % 2 == s[i] % 2
  {
    assert W3(s, i) == s[i] + 2 * (s[i + 1] * (B32 / 2) + s[i + 2] * (B64 / 2));
  }

  lemma SmallWords(s: seq<u32>)
    requires |s| >= 3 && W3(s, 0) < B32
    ensures s[1] == 0 && s[2] == 0
  {
  }

  // ------------------------------------------------------------------
  // Carry out of 96 bits

  /** OverflowUnscale, the handling of a quotient that carried out of 96
      bits when a digit was added or it was rounded up (the code as written
      drops that carry; see Findings). The quotient, 2^96 plus the 96 bits
      left in quo, is divided by ten, rounded on the digit dropped with the
      sticky bit, and the scale lowered by one; at scale 0 this is an
      overflow. The carry only ever happens with less than 2^64 left in
      quo, so its top word is zero. */
  method OverflowUnscale(quo: array<u32>, scale: int, sticky: bool) returns (ok: bool, scale': int)
    requires quo.Length >= 3 && quo[2] == 0
    modifies quo
    ensures scale' == scale - 1 && (ok <==> scale' >= 0)
    ensures ok ==> W3(quo[..], 0) == TenthRounded(B96 + old(W3(quo[..], 0)), sticky)
  {
    scale' := scale - 1;
    if scale' < 0 {
      return false, scale';
    }
    ghost var t := B96 + W3(quo[..], 0);
    var (q0, q1, q2, r0) := QuotientTenthWords(quo[0], quo[1]);
    quo[0], quo[1], quo[2] := q0, q1, q2;
    ghost var qv := W3(quo[..], 0);
    assert qv == q0 + B32 * (q1 + B32 * q2);
    DivModUnique(t, 10, qv, r0);
    W3Parity(quo[..], 0);
    var up := r0 > 5 || (r0 == 5 && (sticky || q0 % 2 == 1));
    assert TenthRounded(t, sticky) == if up then qv + 1 else qv;
    if up {
      assert qv * 10 <= t < B96 + B64;
      assert qv + 1 < B96;
      var c := Add96By32(quo, 1);
      assert c == 0;
    }
    ok := true;
  }

  /** The long division by ten of 2^96 + w1:w0, a word at a time from the
      top: the quotient words and the digit dropped. */
  function QuotientTenthWords(w0: u32, w1: u32): (r: (u32, u32, u32, u32))
    ensures (r.0 + B32 * (r.1 + B32 * r.2)) * 10 + r.3 == B96 + w0 + B32 * w1 && r.3 < 10
  {
    var (q2, r2) := DivMod64By32(0, 1, 10);
    var (q1, r1) := DivMod64By32(w1, r2, 10);
    var (q0, r0) := DivMod64By32(w0, r1, 10);
    LongDivide2(w1, B32, q1, q2, r2, r1, 10);
    LongDivide3(w0, w1 + B32 * B32, q0, q1 + B32 * q2, r1, r0, 10);
    (q0, q1, q2, r0)
  }

  /** A digit step whose quotient t = 2^96 + quo carried out of 96 bits
      at scale j: the result is OverflowUnscale's, the sticky bit being the
      remainder left. */
  method Carried(quo: array<u32>, j: int, rk: nat, ghost t: nat, ghost n: nat, ghost d: nat,
                 ghost s0: int)
      returns (ok: bool, scale: int)
    requires quo.Length >= 3 && t == B96 + W3(quo[..], 0) && W3(quo[..], 0) < B32
    requires d > 0 && s0 < j <= MaxScale && rk < d
    requires Scaled(n, s0, j) == t * d + rk
    modifies quo
    ensures ok ==> Settled(n, d, s0, scale, W3(quo[..], 0))
    ensures !ok ==> Overflows(n, d, s0)
  {
    SmallWords(quo[..]);
    ok, scale := OverflowUnscale(quo, j, rk != 0);
    CarryExit(n, d, s0, j, t, rk);
  }

  /** The end of a loop whose scaling step carried out of 96 bits: the
      quotient q * 10^k + qk is 2^96 plus what quo holds. */
  method CarryOut(quo: array<u32>, i: int, k: nat, pwr: nat, ghost qk: nat, rk: nat,
                  ghost n: nat, ghost d: nat, ghost s0: int, ghost q: nat, ghost r: nat)
      returns (ok: bool, scale: int)
    requires quo.Length >= 3 && LoopInv(n, d, s0, i, q, r, true) && r != 0
    requires k >= 1 && i + k <= MaxScale && rk < d
    requires q * pwr < B96 && qk < B32 && B96 + W3(quo[..], 0) == q * pwr + qk
    requires Scaled(n, s0, i + k) == (q * pwr + qk) * d + rk
    modifies quo
    ensures LoopOutcome(n, d, s0, ok, scale, W3(quo[..], 0), true)
  {
    ok, scale := Carried(quo, i + k, rk, q * pwr + qk, n, d, s0);
    InexactStop(n, d, s0, ok, scale, W3(quo[..], 0), i, q, r);
  }

  /** The end of a scaling step by pwr = 10^k that did not overflow:
      either the quotient carried out of 96 bits and the loop ends, or the
      loop goes on at scale i + k with quotient q * 10^k + qk and remainder
      rk. */
  method Advance(quo: array<u32>, i: int, k: nat, pwr: nat, carry: Carry, ghost qk: nat, rk: nat,
                 unscale: bool, ghost n: nat, ghost d: nat, ghost s0: int, ghost q: nat, ghost r: nat)
      returns (done: bool, ok: bool, scale: int)
    requires quo.Length >= 3 && LoopInv(n, d, s0, i, q, r, unscale) && (r != 0 ==> unscale)
    requires pwr == Pow10(k) && k >= 1 && i + k <= MaxScale && (r == 0 ==> i + k <= 0)
    requires q * pwr < B96 && qk < B32 && W3(quo[..], 0) + B96 * carry == q * pwr + qk
    requires r * pwr == qk * d + rk && rk < d
    requires r == 0 ==> qk == 0 && rk == 0 && carry == 0
    modifies quo
    ensures done ==> LoopOutcome(n, d, s0, ok, scale, W3(quo[..], 0), unscale)
    ensures !done ==> scale == i + k && LoopInv(n, d, s0, scale, W3(quo[..], 0), rk, unscale)
  {
    StepProgress(n, d, s0, i, q, r, k, pwr, qk, rk);
    if carry != 0 {
      ok, scale := CarryOut(quo, i, k, pwr, qk, rk, n, d, s0, q, r);
      return true, ok, scale;
    }
    StepInv(n, d, s0, i, q, r, unscale, k, pwr, qk, rk);
    done, ok, scale := false, true, i + k;
  }

  /** The RoundUp label: one is added to the quotient. A carry out of 96
      bits (the quotient was 2^96 - 1) is handled as in OverflowUnscale. */
  method RoundUp(quo: array<u32>, i: int, ghost n: nat, ghost d: nat, ghost s0: int, ghost r: nat)
      returns (ok: bool, scale: int)
    requires quo.Length >= 3 && Progress(n, d, s0, i, W3(quo[..], 0), r) && i >= 0 && r != 0
    requires i == s0 ==> 2 * W3(quo[..], 0) < B96
    requires i == MaxScale || W3(quo[..], 0) * 10 >= B96
    requires RemainderRoundsUp(W3(quo[..], 0), r, d)
    modifies quo
    ensures ok ==> Settled(n, d, s0, scale, W3(quo[..], 0))
    ensures !ok ==> Overflows(n, d, s0)
  {
    ghost var q := W3(quo[..], 0);
    var carry := Add96By32(quo, 1);
    if carry == 0 {
      RoundExit(n, d, s0, i, q, r);
      return true, i;
    }
    RoundCarryExit(n, d, s0, i, q, r);
    ok, scale := OverflowUnscale(quo, i, true);
  }

  // ------------------------------------------------------------------
  // The 32-bit divisor

  /** A zero remainder scales to a zero digit and a zero remainder. */
  lemma ZeroSplit(q: nat, den: nat, r: nat)
    requires den > 0 && q * den + r == 0
    ensures q == 0 && r == 0
  {
    MulLe(0, q, den);
  }

  /** The remainder of the 32-bit divisor scaled by pwr and divided again
      in one 64 / 32 bit division: the digit and the new remainder. */
  function ScaleRemainder32(rem: u32, den: u32, pwr: u32): (r: (u32, u32))
    requires rem < den
    ensures rem * pwr == r.0 * den + r.1 && r.1 < den
    ensures rem == 0 ==> r.0 == 0 && r.1 == 0
  {
    var num := Mul32By32(rem, pwr);
    ProductBelow32(rem, den, pwr);
    QuotientBelow(num, B32, den);
    var (q, r) := DivMod64By32(Lo32(num), Hi32(num), den);
    if rem == 0 then ZeroSplit(q, den, r); (q, r) else (q, r)
  }

  /** HaveScale32: scales the quotient by pwr (an overflow ends the
      division), then scales the remainder and divides it by the divisor
      in one 64 / 32 bit division, adding the quotient digit qk. */
  method Scale32(quo: array<u32>, rem: u32, den: u32, pwr: u32)
      returns (over: u32, carry: Carry, rem': u32, ghost qk: nat)
    requires quo.Length >= 3 && den > 0 && rem < den
    modifies quo
    ensures over != 0 ==> old(W3(quo[..], 0)) * pwr >= B96
    ensures over == 0 ==> old(W3(quo[..], 0)) * pwr < B96 && qk < B32
    ensures over == 0 ==> W3(quo[..], 0) + B96 * carry == old(W3(quo[..], 0)) * pwr + qk
    ensures over == 0 ==> rem * pwr == qk * den + rem' && rem' < den
    ensures over == 0 && rem == 0 ==> qk == 0 && rem' == 0 && carry == 0
  {
    over := IncreaseScale96By32(quo, pwr);
    if over != 0 {
      return over, 0, 0, 0;
    }
    var (q, r) := ScaleRemainder32(rem, den, pwr);
    carry := Add96By32(quo, q);
    rem', qk := r, q;
  }

  /** The 32-bit rounding test: the remainder doubled in 32 bits, a wrap
      meaning it is past the divisor. */
  lemma RoundTest32(q: nat, rem: u32, den: u32, low: u32)
    requires rem < den && q % 2 == low % 2
    ensures var tmp := (2 * rem) % B32;
            (tmp < rem || tmp > den || (tmp == den && low % 2 == 1)) <==> RemainderRoundsUp(q, rem, den)
  {
  }

  /** No more scaling for the 32-bit divisor: the quotient is rounded. */
  method Round32(quo: array<u32>, rem: u32, den: u32, iScale: int, ghost n: nat, ghost s0: int)
      returns (ok: bool, scale: int)
    requires quo.Length >= 3 && LoopInv(n, den, s0, iScale, W3(quo[..], 0), rem, true)
    requires iScale >= 0 && rem != 0
    requires iScale == MaxScale || W3(quo[..], 0) * 10 >= B96
    modifies quo
    ensures LoopOutcome(n, den, s0, ok, scale, W3(quo[..], 0), true)
  {
    ghost var q := W3(quo[..], 0);
    W3Parity(quo[..], 0);
    RoundTest32(q, rem, den, quo[0]);
    var tmp := (2 * rem) % B32;
    if tmp < rem || tmp > den || (tmp == den && quo[0] % 2 == 1) {
      ok, scale := RoundUp(quo, iScale, n, den, s0, rem);
    } else {
      RoundExit(n, den, s0, iScale, q, rem);
      ok, scale := true, iScale;
    }
    InexactStop(n, den, s0, ok, scale, W3(quo[..], 0), iScale, q, rem);
  }

  /** One pass of the loop of the 32-bit divisor at scale iScale, with
      remainder rem: it either ends the division (done, with its outcome
      at scale iScale') or scales the quotient and remainder up to scale
      iScale', the remainder becoming rem'. */
  method Pass32(quo: array<u32>, rem: u32, den: u32, iScale: int, unscale: bool,
                ghost n: nat, ghost s0: int)
      returns (done: bool, ok: bool, iScale': int, rem': u32, unscale': bool)
    requires quo.Length == 4 && den > 0
    requires LoopInv(n, den, s0, iScale, W3(quo[..], 0), rem, unscale)
    modifies quo
    ensures done ==> LoopOutcome(n, den, s0, ok, iScale', W3(quo[..], 0), unscale')
    ensures !done ==> iScale < iScale' && LoopInv(n, den, s0, iScale', W3(quo[..], 0), rem', unscale')
  {
    ghost var q := W3(quo[..], 0);
    unscale' := unscale;
    var k: int;
    if rem == 0 {
      if iScale < 0 {
        k := Min(Scaling.Power10Max32, -iScale);
      } else {
        ExactStop(n, den, s0, iScale, q, unscale);
        return true, true, iScale, 0, unscale;
      }
    } else {
      Remainder(n, den, s0, iScale, q, rem, unscale);
      unscale' := true;
      k := SearchScale64(quo[..], iScale);
      if k == 0 {
        ok, iScale' := Round32(quo, rem, den, iScale, n, s0);
        return true, ok, iScale', rem, true;
      }
      if k == -1 {
        MinusOne(n, den, s0, iScale, q, rem);
        return true, false, iScale, rem, true;
      }
      FitsBelow(q, Min(k, Scaling.Power10Max32), k);
      k := Min(k, Scaling.Power10Max32);
    }
    var pwr := Power32(k);
    var over, carry;
    ghost var qk;
    over, carry, rem', qk := Scale32(quo, rem, den, pwr);
    if over != 0 {
      ScaleOverflow(n, den, s0, iScale, q, rem, k);
      return true, false, iScale + k, rem', unscale';
    }
    done, ok, iScale' := Advance(quo, iScale, k, pwr, carry, qk, rem', unscale', n, den, s0, q, rem);
  }

  /** The loop of the 32-bit divisor: quo holds the quotient, rem the
      remainder, of the dividend n at the current scale by den. */
  method DivideBy32(quo: array<u32>, rem0: u32, den: u32, s0: int, ghost n: nat)
      returns (ok: bool, scale: int, unscale: bool)
    requires quo.Length == 4 && den > 0
    requires LoopInv(n, den, s0, s0, W3(quo[..], 0), rem0, false)
    modifies quo
    ensures LoopOutcome(n, den, s0, ok, scale, W3(quo[..], 0), unscale)
  {
    var iScale := s0;
    var rem: u32 := rem0;
    unscale := false;
    while true
      invariant LoopInv(n, den, s0, iScale, W3(quo[..], 0), rem, unscale)
      decreases MaxScale - iScale
    {
      var done;
      done, ok, scale, rem, unscale := Pass32(quo, rem, den, iScale, unscale, n, s0);
      if done {
        return;
      }
      iScale := scale;
    }
  }

  /** SearchScale64 gave -1: the quotient at scale 0 overflows. */
  lemma MinusOne(n: nat, d: nat, s0: int, i: int, q: nat, r: nat)
    requires Progress(n, d, s0, i, q, r)
    requires i < 0 && q * Pow10(Min(SearchMaxScale, -i)) >= B96
    ensures Overflows(n, d, s0)
  {
    var m := Min(SearchMaxScale, -i);
    ScaledAtLeast(n, d, s0, i, q, r, m);
    MulLe(B96, q * Pow10(m), d);
    OverflowAt(n, d, s0, i + m);
  }

  /** IncreaseScale overflowed: only possible for an exact quotient below
      scale 0, which then overflows at scale 0. */
  lemma ScaleOverflow(n: nat, d: nat, s0: int, i: int, q: nat, r: nat, k: nat)
    requires Progress(n, d, s0, i, q, r) && q * Pow10(k) >= B96
    requires r == 0 && i < 0 && i + k <= 0
    ensures Overflows(n, d, s0)
  {
    ScaledAtLeast(n, d, s0, i, q, r, k);
    MulLe(B96, q * Pow10(k), d);
    OverflowAt(n, d, s0, i + k);
  }

  // ------------------------------------------------------------------
  // The 64-bit divisor

  /** The high two words of a three-word number below den * 2^32 are
      below den. */
  lemma TopBelow(w0: nat, top: nat, total: nat, den: nat)
    requires total == w0 + B32 * top && total < den * B32
    ensures top < den
  {
    if top >= den {
      MulLe(den, top, B32);
    }
  }

  lemma ProductBelow32(r: nat, den: nat, pwr: nat)
    requires r < den && pwr < B32
    ensures r * pwr < den * B32
  {
    MulLe(r, den, pwr);
    MulLe(pwr + 1, B32, den);
  }

  /** The 64-bit remainder scaled by pwr into three words of rem (a
      single 64 x 32 bit multiply) and divided by the divisor: the digit;
      the new remainder is left in the low two words. */
  method ScaleRemainder64(rem: array<u32>, den: u64, pwr: u32) returns (q: u32)
    requires rem.Length >= 3 && Join64(rem[1], rem[0]) < den
    modifies rem
    ensures old(Join64(rem[1], rem[0])) * pwr == q * den + Join64(rem[1], rem[0])
    ensures Join64(rem[1], rem[0]) < den
    ensures old(Join64(rem[1], rem[0])) == 0 ==> q == 0 && Join64(rem[1], rem[0]) == 0
  {
    ghost var r := Join64(rem[1], rem[0]);
    var (lo, hi) := Mul64By32(Join64(rem[1], rem[0]), pwr);
    rem[0], rem[1], rem[2] := Lo32(lo), Hi32(lo), hi;
    assert W3(rem[..], 0) == r * pwr == rem[0] + B32 * Join64(rem[2], rem[1]);
    ProductBelow32(r, den, pwr);
    TopBelow(rem[0], Join64(rem[2], rem[1]), r * pwr, den);
    q := Div96By64(rem, den);
    if r == 0 {
      ZeroSplit(q, den, Join64(rem[1], rem[0]));
    }
  }

  /** HaveScale64: scales the quotient by pwr (an overflow ends the
      division), then the remainder, adding the quotient digit qk. */
  method Scale64(quo: array<u32>, rem: array<u32>, den: u64, pwr: u32)
      returns (over: u32, carry: Carry, ghost qk: nat)
    requires quo.Length >= 3 && rem.Length >= 3 && quo != rem
    requires Join64(rem[1], rem[0]) < den
    modifies quo, rem
    ensures over != 0 ==> old(W3(quo[..], 0)) * pwr >= B96
    ensures over == 0 ==> old(W3(quo[..], 0)) * pwr < B96 && qk < B32
    ensures over == 0 ==> W3(quo[..], 0) + B96 * carry == old(W3(quo[..], 0)) * pwr + qk
    ensures over == 0 ==> old(Join64(rem[1], rem[0])) * pwr == qk * den + Join64(rem[1], rem[0])
    ensures Join64(rem[1], rem[0]) < den
    ensures over == 0 && old(Join64(rem[1], rem[0])) == 0 ==>
              qk == 0 && Join64(rem[1], rem[0]) == 0 && carry == 0
  {
    over := IncreaseScale96By32(quo, pwr);
    if over != 0 {
      return over, 0, 0;
    }
    var q := ScaleRemainder64(rem, den, pwr);
    carry := Add96By32(quo, q);
    qk := q;
  }

  /** The 64-bit rounding test: a remainder of 2^63 or more is past half
      the divisor (whose top bit is set); otherwise it is doubled and
      compared. */
  lemma RoundTest64(q: nat, rem: u64, den: u64, low: u32)
    requires rem < den && q % 2 == low % 2
    ensures var tmp := (2 * rem) % B64;
            (rem >= 0x8000_0000_0000_0000 || tmp > den || (tmp == den && low % 2 == 1))
            <==> RemainderRoundsUp(q, rem, den)
  {
  }

  /** No more scaling for the 64-bit divisor: the quotient is rounded. */
  method Round64(quo: array<u32>, rem: u64, den: u64, iScale: int, ghost n: nat, ghost s0: int)
      returns (ok: bool, scale: int)
    requires quo.Length >= 3 && LoopInv(n, den, s0, iScale, W3(quo[..], 0), rem, true)
    requires iScale >= 0 && rem != 0
    requires iScale == MaxScale || W3(quo[..], 0) * 10 >= B96
    modifies quo
    ensures LoopOutcome(n, den, s0, ok, scale, W3(quo[..], 0), true)
  {
    ghost var q := W3(quo[..], 0);
    W3Parity(quo[..], 0);
    RoundTest64(q, rem, den, quo[0]);
    var tmp := (2 * rem) % B64;
    if rem >= 0x8000_0000_0000_0000 || tmp > den || (tmp == den && quo[0] % 2 == 1) {
      ok, scale := RoundUp(quo, iScale, n, den, s0, rem);
    } else {
      RoundExit(n, den, s0, iScale, q, rem);
      ok, scale := true, iScale;
    }
    InexactStop(n, den, s0, ok, scale, W3(quo[..], 0), iScale, q, rem);
  }

  /** One pass of the loop of the 64-bit divisor at scale iScale: it
      either ends the division (done, with its outcome at scale iScale')
      or scales the quotient and remainder up to scale iScale'. */
  method Pass64(quo: array<u32>, rem: array<u32>, den: u64, iScale: int, unscale: bool,
                ghost n: nat, ghost s0: int)
      returns (done: bool, ok: bool, iScale': int, unscale': bool)
    requires quo.Length == 4 && rem.Length == 6 && quo != rem && den > 0
    requires LoopInv(n, den, s0, iScale, W3(quo[..], 0), Join64(rem[1], rem[0]), unscale)
    modifies quo, rem
    ensures done ==> LoopOutcome(n, den, s0, ok, iScale', W3(quo[..], 0), unscale')
    ensures !done ==>
              iScale < iScale' && LoopInv(n, den, s0, iScale', W3(quo[..], 0), Join64(rem[1], rem[0]), unscale')
  {
    ghost var q := W3(quo[..], 0);
    var r := Join64(rem[1], rem[0]);
    unscale' := unscale;
    var k: int;
    if r == 0 {
      if iScale < 0 {
        k := Min(Scaling.Power10Max64, -iScale);
      } else {
        ExactStop(n, den, s0, iScale, q, unscale);
        return true, true, iScale, unscale;
      }
    } else {
      Remainder(n, den, s0, iScale, q, r, unscale);
      unscale' := true;
      k := SearchScale64(quo[..], iScale);
      if k == 0 {
        ok, iScale' := Round64(quo, r, den, iScale, n, s0);
        return true, ok, iScale', true;
      }
      if k == -1 {
        MinusOne(n, den, s0, iScale, q, r);
        return true, false, iScale, true;
      }
      FitsBelow(q, Min(k, Scaling.Power10Max32), k);
    }
    k := Min(k, Scaling.Power10Max32);
    var pwr := Power32(k);
    var over, carry, qk := Scale64(quo, rem, den, pwr);
    if over != 0 {
      ScaleOverflow(n, den, s0, iScale, q, r, k);
      return true, false, iScale + k, unscale';
    }
    done, ok, iScale' := Advance(quo, iScale, k, pwr, carry, qk, Join64(rem[1], rem[0]), unscale',
                                 n, den, s0, q, r);
  }

  /** The loop of the 64-bit divisor: quo holds the quotient, the low two
      words of rem the remainder, of the shifted dividend n at the current
      scale by the shifted divisor den. */
  method DivideBy64(quo: array<u32>, rem: array<u32>, den: u64, s0: int, ghost n: nat)
      returns (ok: bool, scale: int, unscale: bool)
    requires quo.Length == 4 && rem.Length == 6 && quo != rem && den > 0
    requires LoopInv(n, den, s0, s0, W3(quo[..], 0), Join64(rem[1], rem[0]), false)
    modifies quo, rem
    ensures LoopOutcome(n, den, s0, ok, scale, W3(quo[..], 0), unscale)
  {
    var iScale := s0;
    unscale := false;
    while true
      invariant LoopInv(n, den, s0, iScale, W3(quo[..], 0), Join64(rem[1], rem[0]), unscale)
      decreases MaxScale - iScale
    {
      var done;
      done, ok, scale, unscale := Pass64(quo, rem, den, iScale, unscale, n, s0);
      if done {
        return;
      }
      iScale := scale;
    }
  }

  // ------------------------------------------------------------------
  // The 96-bit divisor

  /** The word carried out of a 96-bit number times pwr is below pwr. */
  lemma HighBelow(w: nat, hi: nat, r: nat, pwr: nat)
    requires w + B96 * hi == r * pwr && r < B96 && pwr > 0
    ensures hi < pwr
  {
    MulLe(r + 1, B96, pwr);
    if hi >= pwr {
      MulLe(pwr, hi, B96);
    }
  }

  /** The 96-bit remainder scaled by pwr into four words of rem and
      divided by the divisor: the digit; the new remainder is left in the
      low three words. The division's guard holds because the word carried
      out is below pwr <= 10^9 < 2^31, which the normalised divisor's top
      word is not. */
  method ScaleRemainder96(rem: array<u32>, den: array<u32>, pwr: u32) returns (q: u32)
    requires rem.Length >= 4 && den.Length >= 3 && rem != den
    requires den[2] >= 0x8000_0000 && W3(rem[..], 0) < W3(den[..], 0)
    requires 0 < pwr <= 1_000_000_000
    modifies rem
    ensures old(W3(rem[..], 0)) * pwr == q * W3(den[..], 0) + W3(rem[..], 0)
    ensures W3(rem[..], 0) < W3(den[..], 0)
    ensures old(W3(rem[..], 0)) == 0 ==> q == 0 && W3(rem[..], 0) == 0
  {
    ghost var r := W3(rem[..], 0);
    W3Bound(rem[..], 0);
    var hi := IncreaseScale96By32(rem, pwr);
    rem[3] := hi;
    assert W4(rem[..], 0) == r * pwr;
    HighBelow(W3(rem[..], 0), hi, r, pwr);
    q := Div128By96(rem, 0, den);
    if r == 0 {
      ZeroSplit(q, W3(den[..], 0), W3(rem[..], 0));
    }
  }

  /** HaveScale96 with 10^9 steps: scales the quotient by pwr (an overflow
      ends the division), then the remainder, adding the quotient digit
      qk. */
  method Scale96(quo: array<u32>, rem: array<u32>, den: array<u32>, pwr: u32,
                 ghost q: nat, ghost r: nat, ghost d: nat)
      returns (over: u32, carry: Carry, ghost qk: nat)
    requires quo.Length >= 3 && rem.Length >= 4 && den.Length >= 3
    requires quo != rem && quo != den && rem != den
    requires q == W3(quo[..], 0) && r == W3(rem[..], 0) && d == W3(den[..], 0)
    requires den[2] >= 0x8000_0000 && r < d && 0 < pwr <= 1_000_000_000
    modifies quo, rem
    ensures over != 0 ==> q * pwr >= B96
    ensures over == 0 ==> q * pwr < B96 && qk < B32
    ensures over == 0 ==> W3(quo[..], 0) + B96 * carry == q * pwr + qk
    ensures over == 0 ==> r * pwr == qk * d + W3(rem[..], 0)
    ensures W3(rem[..], 0) < d
    ensures over == 0 && r == 0 ==> qk == 0 && W3(rem[..], 0) == 0 && carry == 0
  {
    over := IncreaseScale96By32(quo, pwr);
    if over != 0 {
      return over, 0, 0;
    }
    var q := ScaleRemainder96(rem, den, pwr);
    carry := DivWords.Add96By64(quo, q);
    qk := q;
  }

  /** Comparing two-word numbers word by word, the top word first. */
  lemma Lexicographic(t0: nat, t2: nat, d0: nat, d2: nat)
    requires t0 < B64 && d0 < B64
    ensures (t2 > d2 || (t2 == d2 && t0 > d0)) <==> t0 + B64 * t2 > d0 + B64 * d2
    ensures (t2 == d2 && t0 == d0) <==> t0 + B64 * t2 == d0 + B64 * d2
  {
    if t2 > d2 {
      MulLe(d2 + 1, t2, B64);
    } else if t2 < d2 {
      MulLe(t2 + 1, d2, B64);
    }
  }

  /** The zero test of the 96-bit remainder, on its low 64 bits and its
      top word. */
  lemma ZeroWords(s: seq<u32>)
    requires |s| >= 3
    ensures (Join64(s[1], s[0]) == 0 && s[2] == 0) <==> W3(s, 0) == 0
  {
  }

  /** The 96-bit rounding test: a top remainder word of 2^31 or more puts
      the remainder past half the divisor; otherwise the remainder doubled
      (the low two words with AddCarry64, the top word with AddCarry32) is
      compared with the divisor word by word. */
  lemma RoundTest96(q: nat, r0: u64, r2: u32, d0: u64, d2: u32, low: u32,
                    c: Carry, lo: u64, c2: Carry, top: u32)
    requires r0 + B64 * r2 < d0 + B64 * d2 && q % 2 == low % 2
    requires r2 < 0x8000_0000 ==> lo + B64 * c == 2 * r0 && top + B32 * c2 == c + 2 * r2
    ensures r2 >= 0x8000_0000 ==> RemainderRoundsUp(q, r0 + B64 * r2, d0 + B64 * d2)
    ensures r2 < 0x8000_0000 ==>
              ((top > d2 || (top == d2 && (lo > d0 || (lo == d0 && low % 2 == 1))))
               <==> RemainderRoundsUp(q, r0 + B64 * r2, d0 + B64 * d2))
  {
    if r2 < 0x8000_0000 {
      assert c2 == 0;
      Lexicographic(lo, top, d0, d2);
    }
  }

  /** No more scaling for the 96-bit divisor: the quotient is rounded. */
  method Round96(quo: array<u32>, rem: array<u32>, den: array<u32>, iScale: int,
                 ghost n: nat, ghost s0: int)
      returns (ok: bool, scale: int)
    requires quo.Length >= 3 && rem.Length >= 3 && den.Length >= 3 && quo != rem && quo != den
    requires LoopInv(n, W3(den[..], 0), s0, iScale, W3(quo[..], 0), W3(rem[..], 0), true)
    requires iScale >= 0 && W3(rem[..], 0) != 0
    requires iScale == MaxScale || W3(quo[..], 0) * 10 >= B96
    modifies quo
    ensures LoopOutcome(n, W3(den[..], 0), s0, ok, scale, W3(quo[..], 0), true)
  {
    ghost var q, r, d := W3(quo[..], 0), W3(rem[..], 0), W3(den[..], 0);
    W3Parity(quo[..], 0);
    var remLo, denLo := Join64(rem[1], rem[0]), Join64(den[1], den[0]);
    var (c, lo) := AddCarry64(0, remLo, remLo);
    var (c2, top) := AddCarry32(c, rem[2], rem[2]);
    RoundTest96(q, remLo, rem[2], denLo, den[2], quo[0], c, lo, c2, top);
    var up := rem[2] >= 0x8000_0000
              || top > den[2] || (top == den[2] && (lo > denLo || (lo == denLo && quo[0] % 2 == 1)));
    if up {
      ok, scale := RoundUp(quo, iScale, n, d, s0, r);
    } else {
      RoundExit(n, d, s0, iScale, q, r);
      ok, scale := true, iScale;
    }
    InexactStop(n, d, s0, ok, scale, W3(quo[..], 0), iScale, q, r);
  }

  /** One pass of the loop of the 96-bit divisor at scale iScale: it
      either ends the division (done, with its outcome at scale iScale')
      or scales the quotient and remainder up to scale iScale'. The
      scaling steps are those by at most 10^9 (see Findings for the 10^19
      steps of the code as written). */
  method Pass96(quo: array<u32>, rem: array<u32>, den: array<u32>, iScale: int, unscale: bool,
                ghost n: nat, ghost s0: int, ghost d: nat)
      returns (done: bool, ok: bool, iScale': int, unscale': bool)
    requires quo.Length == 4 && rem.Length == 6 && den.Length == 4
    requires quo != rem && quo != den && rem != den && den[2] >= 0x8000_0000
    requires d == W3(den[..], 0) && LoopInv(n, d, s0, iScale, W3(quo[..], 0), W3(rem[..], 0), unscale)
    modifies quo, rem
    ensures done ==> LoopOutcome(n, d, s0, ok, iScale', W3(quo[..], 0), unscale')
    ensures !done ==> iScale < iScale' && LoopInv(n, d, s0, iScale', W3(quo[..], 0), W3(rem[..], 0), unscale')
  {
    ghost var q, r := W3(quo[..], 0), W3(rem[..], 0);
    ZeroWords(rem[..]);
    unscale' := unscale;
    var k: int;
    if Join64(rem[1], rem[0]) == 0 && rem[2] == 0 {
      if iScale < 0 {
        k := Min(Scaling.Power10Max64, -iScale);
      } else {
        ExactStop(n, d, s0, iScale, q, unscale);
        return true, true, iScale, unscale;
      }
    } else {
      Remainder(n, d, s0, iScale, q, r, unscale);
      unscale' := true;
      k := SearchScale64(quo[..], iScale);
      if k == 0 {
        ok, iScale' := Round96(quo, rem, den, iScale, n, s0);
        return true, ok, iScale', true;
      }
      if k == -1 {
        MinusOne(n, d, s0, iScale, q, r);
        return true, false, iScale, true;
      }
      FitsBelow(q, Min(k, Scaling.Power10Max32), k);
    }
    k := Min(k, Scaling.Power10Max32);
    var pwr := Power32(k);
    var over, carry, qk := Scale96(quo, rem, den, pwr, q, r, d);
    if over != 0 {
      ScaleOverflow(n, d, s0, iScale, q, r, k);
      return true, false, iScale + k, unscale';
    }
    done, ok, iScale' := Advance(quo, iScale, k, pwr, carry, qk, W3(rem[..], 0), unscale', n, d, s0, q, r);
  }

  /** The loop of the 96-bit divisor: quo holds the quotient, the low three
      words of rem the remainder, of the shifted dividend n at the current
      scale by the normalised divisor in den. */
  method DivideBy96(quo: array<u32>, rem: array<u32>, den: array<u32>, s0: int, ghost n: nat)
      returns (ok: bool, scale: int, unscale: bool)
    requires quo.Length == 4 && rem.Length == 6 && den.Length == 4
    requires quo != rem && quo != den && rem != den && den[2] >= 0x8000_0000
    requires LoopInv(n, W3(den[..], 0), s0, s0, W3(quo[..], 0), W3(rem[..], 0), false)
    modifies quo, rem
    ensures LoopOutcome(n, W3(den[..], 0), s0, ok, scale, W3(quo[..], 0), unscale)
  {
    ghost var d := W3(den[..], 0);
    var iScale := s0;
    unscale := false;
    while true
      invariant LoopInv(n, d, s0, iScale, W3(quo[..], 0), W3(rem[..], 0), unscale)
      decreases MaxScale - iScale
    {
      var done;
      done, ok, scale, unscale := Pass96(quo, rem, den, iScale, unscale, n, s0, d);
      if done {
        return;
      }
      iScale := scale;
    }
  }

  // ------------------------------------------------------------------
  // Unscale

  /** The low-bits filter: 10^j has the factor b (a power of two dividing
      2^32), so a multiple of 10^j has its low word divisible by b. */
  lemma FilterSound(w: nat, low: u32, hp: nat, b: nat, p: nat)
    requires b > 0 && p > 0 && p % b == 0 && B32 % b == 0 && w == low + B32 * hp && w % p == 0
    ensures low % b == 0
  {
    var x := (p / b) * (w / p);
    var y := (B32 / b) * hp;
    assert w == b * x by {
      assert w == p * (w / p);
      assert p == b * (p / b);
      Associate(b, p / b, w / p, x);
    }
    assert B32 * hp == b * y by {
      assert B32 == b * (B32 / b);
      Associate(b, B32 / b, hp, y);
    }
    assert low == b * (x - y);
    assert low % b == 0 by {
      DivModUnique(low, b, x - y, 0);
    }
  }

  /** A quotient whose low word fails the filter is not a multiple of
      10^j. */
  lemma LowFilter(s: seq<u32>, j: nat, b: nat)
    requires |s| >= 3 && b > 0 && Pow10(j) % b == 0 && B32 % b == 0 && s[0] % b != 0
    ensures W3(s, 0) % Pow10(j) != 0
  {
    if W3(s, 0) % Pow10(j) == 0 {
      FilterSound(W3(s, 0), s[0], s[1] + B32 * s[2], b, Pow10(j));
    }
  }

  /** One division of the quotient by 10^j, kept only when it leaves no
      remainder (the quotient is divided in a copy, save, and copied
      back). */
  method DivideOut(quo: array<u32>, save: array<u32>, scale: int, j: nat) returns (scale': int)
    requires quo.Length >= 3 && save.Length >= 3 && quo != save && 1 <= j <= 8
    modifies quo, save
    ensures scale' == scale - j ==> W3(quo[..], 0) * Pow10(j) == old(W3(quo[..], 0))
    ensures scale' != scale - j ==>
              scale' == scale && W3(quo[..], 0) == old(W3(quo[..], 0))
              && old(W3(quo[..], 0)) % Pow10(j) != 0
  {
    save[0], save[1], save[2] := quo[0], quo[1], quo[2];
    var pwr := Power32(j);
    var rem := Div96By32(save, pwr);
    if rem == 0 {
      quo[0], quo[1], quo[2] := save[0], save[1], save[2];
      return scale - j;
    }
    DivModUnique(W3(quo[..], 0), pwr, W3(save[..], 0), rem);
    return scale;
  }

  /** What the unscale step keeps: the scale only decreases, and the
      quotient times the powers of ten divided out is the value it
      started from. */
  predicate Kept(w: nat, s: int, w0: nat, s0: int)
  {
    0 <= s <= s0 && s0 - s >= 0 && w * Pow10(s0 - s) == w0
  }

  lemma KeptStep(w': nat, w: nat, s: int, j: nat, w0: nat, s0: int)
    requires Kept(w, s, w0, s0) && s >= j && w' * Pow10(j) == w
    ensures Kept(w', s - j, w0, s0)
  {
    Pow10Add(j, s0 - s);
    Associate(w', Pow10(j), Pow10(s0 - s), Pow10(s0 - (s - j)));
  }

  /** A division by 10^j after the divisions by 10^(2j) were exhausted
      leaves no factor 10^j behind. */
  lemma StepClears(w': nat, w: nat, s': int, s: int, j: nat)
    requires s < 2 * j || w % Pow10(2 * j) != 0
    requires (s' == s - j && w' * Pow10(j) == w) || (s' == s && w' == w && (s < j || w % Pow10(j) != 0))
    ensures s' < j || w' % Pow10(j) != 0
  {
    if s' == s - j && w' * Pow10(j) == w && s >= 2 * j && w' % Pow10(j) == 0 {
      var m := w' / Pow10(j);
      assert w' == m * Pow10(j);
      Pow10Add(j, j);
      Associate(m, Pow10(j), Pow10(j), Pow10(2 * j));
      DivModUnique(w, Pow10(2 * j), m, 0);
    }
  }

  /** One of the single tries of the unscale step, by 10^j when the low
      word has b low zero bits and the scale allows it. */
  method UnscaleBy(quo: array<u32>, save: array<u32>, scale: int, j: nat, b: nat,
                   ghost w0: nat, ghost s0: int)
      returns (scale': int)
    requires quo.Length >= 3 && save.Length >= 3 && quo != save && 1 <= j <= 4
    requires b > 0 && Pow10(j) % b == 0 && B32 % b == 0
    requires Kept(W3(quo[..], 0), scale, w0, s0)
    requires scale < 2 * j || W3(quo[..], 0) % Pow10(2 * j) != 0
    modifies quo, save
    ensures Kept(W3(quo[..], 0), scale', w0, s0)
    ensures scale' < j || W3(quo[..], 0) % Pow10(j) != 0
  {
    ghost var w := W3(quo[..], 0);
    if quo[0] % b == 0 && scale >= j {
      scale' := DivideOut(quo, save, scale, j);
      if scale' == scale - j {
        KeptStep(W3(quo[..], 0), w, scale, j, w0, s0);
      }
    } else {
      if scale >= j {
        LowFilter(quo[..], j, b);
      }
      scale' := scale;
    }
    StepClears(W3(quo[..], 0), w, scale', scale, j);
  }

  /** The unscale step: 10^8 is divided out while the low byte is zero and
      the division is exact, then 10^4, 10^2 and 10 are tried once each.
      The quotient keeps its value and loses every trailing zero the scale
      allows. */
  method Unscale(quo: array<u32>, scale: int) returns (scale': int)
    requires quo.Length >= 3 && 0 <= scale <= MaxScale
    modifies quo
    ensures 0 <= scale' <= scale
    ensures W3(quo[..], 0) * Pow10(scale - scale') == old(W3(quo[..], 0))
    ensures scale' == 0 || W3(quo[..], 0) % 10 != 0
  {
    var save := new u32[4];
    ghost var w0 := W3(quo[..], 0);
    Pow10Values();
    scale' := scale;
    while quo[0] % 256 == 0 && scale' >= 8
      invariant Kept(W3(quo[..], 0), scale', w0, scale)
      decreases scale'
    {
      ghost var w := W3(quo[..], 0);
      var s := DivideOut(quo, save, scale', 8);
      if s != scale' - 8 {
        break;
      }
      KeptStep(W3(quo[..], 0), w, scale', 8, w0, scale);
      scale' := s;
    }
    if scale' >= 8 && quo[0] % 256 != 0 {
      LowFilter(quo[..], 8, 256);
    }
    scale' := UnscaleBy(quo, save, scale', 4, 16, w0, scale);
    scale' := UnscaleBy(quo, save, scale', 2, 4, w0, scale);
    scale' := UnscaleBy(quo, save, scale', 1, 2, w0, scale);
  }

  // ------------------------------------------------------------------
  // Normalisation and the first quotient

  /** The two 64-bit words of a value shifted left: the low word shifted
      in 64 bits and the word ShiftLeft128 computes. */
  lemma Normalise(lo: u64, hi: nat, c: nat, lowWord: nat, highWord: nat)
    requires c > 0 && (hi * B64 + lo) * c < B128
    requires lowWord == (lo * c) % B64 && highWord == ((hi * B64 + lo) * c / B64) % B64
    ensures lowWord + B64 * highWord == (hi * B64 + lo) * c
  {
    var x := (hi * B64 + lo) * c;
    Distribute(hi, lo, c);
    var t := hi * c + (lo * c) / B64;
    assert x == t * B64 + (lo * c) % B64;
    DivUnique64(x, t, (lo * c) % B64);
    QuotientBelow(x, B64, B64);
  }

  /** Bounds on a word split off a 64-bit word pair. */
  lemma WordBounds(lw: nat, hw: nat, v: nat, a: nat, b: nat)
    requires lw < B64 && v == lw + B64 * hw && B64 * a <= v < B64 * b
    ensures a <= hw < b
  {
    if hw >= b {
      MulLe(b, hw, B64);
    }
    if hw < a {
      MulLe(hw + 1, a, B64);
    }
  }

  /** The normalising shift: 31 minus the index of the top bit of the
      divisor's top word moves that bit to bit 31. */
  lemma ShiftBounds(top: nat, msb: nat, sh: nat, c: nat)
    requires msb < 32 && Pow2(msb) <= top < Pow2(msb + 1) && sh == 31 - msb && c == Pow2(sh)
    ensures 0x8000_0000 <= top * c && top * c + c <= B32 && 1 <= c <= 0x8000_0000
  {
    var low, high := Pow2(msb), Pow2(msb + 1);
    Pow2Values();
    assert Pow2(32) == 2 * Pow2(31);
    assert msb + sh == 31 && (msb + 1) + sh == 32;
    Pow2Add(msb, sh);
    Pow2Add(msb + 1, sh);
    assert low * c == 0x8000_0000 && high * c == B32;
    MulLe(low, top, c);
    MulLe(top + 1, high, c);
    assert (top + 1) * c == top * c + c;
    Pow2Monotone(sh, 31);
  }

  /** The shifted divisor has its top bit at bit 31 of its top word. */
  lemma DivisorBounds(top: nat, rest: nat, bx: nat, c: nat, m: nat)
    requires m == top * bx + rest && rest < bx
    requires 0x8000_0000 <= top * c && top * c + c <= B32 && c >= 1
    ensures 0x8000_0000 * bx <= m * c < B32 * bx
  {
    assert m * c == (top * c) * bx + rest * c;
    MulLe(rest + 1, bx, c);
    MulLe(top * c + c, B32, bx);
    MulLe(0x8000_0000, top * c, bx);
  }

  /** The shifted dividend stays below 2^96 times the shift. */
  lemma DividendBounds(ml: nat, c: nat)
    requires ml < B96 && 1 <= c <= 0x8000_0000
    ensures ml * c < B96 * c <= B96 * 0x8000_0000 && B96 * c == B64 * (B32 * c)
  {
    MulLe(ml + 1, B96, c);
    MulLe(c, 0x8000_0000, B96);
  }

  /** The first division of the shifted operands: the quotient of the
      mantissas, and below 2^95 when a remainder is left (the divisor is
      then at least 2). */
  lemma FirstInv(ml: nat, mr: nat, c: nat, s0: int, q: nat, r: nat)
    requires ml < B96 && mr > 0 && c > 0 && q < B96 && s0 <= MaxScale
    requires ml * c == q * (mr * c) + r && r < mr * c
    ensures LoopInv(ml * c, mr * c, s0, s0, q, r, false)
  {
    assert Scaled(ml * c, s0, s0) == ml * c;
    DivModUnique(ml * c, mr * c, q, r);
    if r != 0 {
      if mr == 1 {
        assert r == (ml - q) * c;
        if ml - q >= 1 {
          MulLe(1, ml - q, c);
        } else {
          MulLe(ml - q, 0, c);
        }
      }
      assert q * mr * c <= ml * c;
      MulCompare(q * mr, ml + 1, c);
      MulLe(2, mr, q);
    }
  }

  // ------------------------------------------------------------------
  // DecimalDiv

  /** The 32-bit divisor: the dividend's words are divided directly. */
  method Quotient32(l: Decimal, r: Decimal, s0: int, quo: array<u32>)
      returns (ok: bool, scale: int, unscale: bool)
    requires quo.Length == 4 && r.hi == 0 && Hi32(r.lo) == 0 && Lo32(r.lo) != 0 && s0 <= MaxScale
    modifies quo
    ensures LoopOutcome(Mantissa(l) * 1, Mantissa(r) * 1, s0, ok, scale, W3(quo[..], 0), unscale)
  {
    var den := Lo32(r.lo);
    assert den == Mantissa(r);
    quo[0], quo[1], quo[2] := Lo32(l.lo), Hi32(l.lo), l.hi;
    assert W3(quo[..], 0) == Mantissa(l);
    var rem := Div96By32(quo, den);
    W3Bound(quo[..], 0);
    FirstInv(Mantissa(l), den, 1, s0, W3(quo[..], 0), rem);
    ok, scale, unscale := DivideBy32(quo, rem, den, s0, Mantissa(l) * 1);
  }

  /** The dividend shifted left by sh bits into four words; its top 64
      bits stay below 2^(32 + sh). */
  method ShiftDividend(l: Decimal, sh: nat) returns (rem: array<u32>)
    requires sh <= 31
    ensures fresh(rem) && rem.Length == 6
    ensures W4(rem[..], 0) == Mantissa(l) * Pow2(sh)
    ensures Join64(rem[1], rem[0]) + B64 * Join64(rem[3], rem[2]) == Mantissa(l) * Pow2(sh)
    ensures Join64(rem[3], rem[2]) < B32 * Pow2(sh) <= 0x8000_0000_0000_0000 && rem[3] < Pow2(sh)
  {
    var c := Pow2(sh);
    Pow2Monotone(sh, 31);
    Pow2Values();
    assert Pow2(32) == 2 * Pow2(31);
    DividendBounds(Mantissa(l), c);
    var remLo := (l.lo * c) % B64;
    var remHi := ShiftLeft128(l.lo, l.hi, sh);
    Normalise(l.lo, l.hi, c, remLo, remHi);
    WordBounds(remLo, remHi, Mantissa(l) * c, 0, B32 * c);
    MulLe(c, 0x8000_0000, B32);
    QuotientBelow(remHi, B32, c);
    rem := new u32[6];
    rem[0], rem[1], rem[2], rem[3] := Lo32(remLo), Hi32(remLo), Lo32(remHi), Hi32(remHi);
  }

  /** The 64-bit divisor: shifted so its top bit is set, it divides the
      shifted dividend's 128 bits, the quotient filling quo[0..1]. */
  method Quotient64(l: Decimal, r: Decimal, s0: int, quo: array<u32>, msb: nat)
      returns (ok: bool, scale: int, unscale: bool, ghost c: nat)
    requires quo.Length == 4 && s0 <= MaxScale && r.hi == 0 && msb < 32
    requires Pow2(msb) <= Hi32(r.lo) < Pow2(msb + 1)
    modifies quo
    ensures c > 0 && LoopOutcome(Mantissa(l) * c, Mantissa(r) * c, s0, ok, scale, W3(quo[..], 0), unscale)
  {
    var sh := 31 - msb;
    c := Pow2(sh);
    ShiftBounds(Hi32(r.lo), msb, sh, c);
    DivisorBounds(Hi32(r.lo), Lo32(r.lo), B32, c, r.lo);
    var rem := ShiftDividend(l, sh);
    var den := (r.lo * Pow2(sh)) % B64;
    assert den == Mantissa(r) * c;
    quo[2] := 0;
    var q := Div128By64(rem, den);
    quo[0], quo[1] := Lo32(q), Hi32(q);
    assert W3(quo[..], 0) == q;
    FirstInv(Mantissa(l), Mantissa(r), c, s0, q, Join64(rem[1], rem[0]));
    ok, scale, unscale := DivideBy64(quo, rem, den, s0, Mantissa(l) * c);
  }

  /** The 96-bit divisor shifted left by 31 - msb bits so that its top bit
      is bit 31 of its third word; the fourth word is zero. */
  method ShiftDivisor(r: Decimal, msb: nat) returns (den: array<u32>)
    requires msb < 32 && Pow2(msb) <= r.hi < Pow2(msb + 1)
    ensures fresh(den) && den.Length == 4
    ensures W3(den[..], 0) == Mantissa(r) * Pow2(31 - msb) && den[2] >= 0x8000_0000
  {
    var sh := 31 - msb;
    var c := Pow2(sh);
    ShiftBounds(r.hi, msb, sh, c);
    DivisorBounds(r.hi, r.lo, B64, c, Mantissa(r));
    var denLo := (r.lo * c) % B64;
    var denHi := ShiftLeft128(r.lo, r.hi, sh);
    Normalise(r.lo, r.hi, c, denLo, denHi);
    WordBounds(denLo, denHi, Mantissa(r) * c, 0x8000_0000, B32);
    ghost var ws := [Lo32(denLo), Hi32(denLo), Lo32(denHi), Hi32(denHi)];
    DivisorWords(denLo, denHi, Mantissa(r) * c, ws);
    den := new u32[4];
    den[0], den[1], den[2], den[3] := Lo32(denLo), Hi32(denLo), Lo32(denHi), Hi32(denHi);
    assert den[..] == ws;
  }

  /** Two 64-bit words, the high one below 2^32, as four 32-bit words. */
  lemma DivisorWords(lw: u64, hw: u64, v: nat, ws: seq<u32>)
    requires hw < B32 && v == lw + B64 * hw
    requires ws == [Lo32(lw), Hi32(lw), Lo32(hw), Hi32(hw)]
    ensures W3(ws, 0) == v && ws[2] == hw
  {
    assert Lo32(lw) + B32 * Hi32(lw) == lw;
  }

  /** The 96-bit divisor: normalised, it divides the shifted dividend's
      128 bits, the quotient filling quo[0]. */
  method Quotient96(l: Decimal, r: Decimal, s0: int, quo: array<u32>, msb: nat)
      returns (ok: bool, scale: int, unscale: bool, ghost c: nat)
    requires quo.Length == 4 && s0 <= MaxScale && msb < 32
    requires Pow2(msb) <= r.hi < Pow2(msb + 1)
    modifies quo
    ensures c > 0 && LoopOutcome(Mantissa(l) * c, Mantissa(r) * c, s0, ok, scale, W3(quo[..], 0), unscale)
  {
    var sh := 31 - msb;
    c := Pow2(sh);
    var rem := ShiftDividend(l, sh);
    var den := ShiftDivisor(r, msb);
    quo[2] := 0;
    var q := Div128By96(rem, 0, den);
    quo[0], quo[1] := q, 0;
    FirstInv(Mantissa(l), Mantissa(r), c, s0, q, W3(rem[..], 0));
    ok, scale, unscale := DivideBy96(quo, rem, den, s0, Mantissa(l) * c);
  }

  /** A settled quotient does not overflow. */
  lemma SettledFits(n: nat, d: nat, s0: int, s: int, m: nat)
    requires d > 0 && Settled(n, d, s0, s, m)
    ensures !Overflows(n, d, s0)
  {
    if s0 <= 0 {
      var a, b := Scaled(n, s0, 0), Scaled(n, s0, s);
      FitsIff(b, d);
      ScaledStep(n, s0, 0, s);
      assert b == a * Pow10(s);
      MulLe(1, Pow10(s), a);
      assert 2 * a <= 2 * b;
    }
  }

  /** A settled quotient of the shifted operands, with its extra powers of
      ten divided out into d, is what a successful division promises. */
  lemma Conclude(l: Decimal, r: Decimal, c: nat, s: int, m: nat, unscale: bool, d: Decimal)
    requires Mantissa(r) > 0 && c > 0
    requires LoopOutcome(Mantissa(l) * c, Mantissa(r) * c, l.scale - r.scale, true, s, m, unscale)
    requires d.neg == (l.neg != r.neg) && d.scale <= s && Mantissa(d) * Pow10(s - d.scale) == m
    requires !unscale ==> d.scale == s
    requires unscale ==> d.scale == 0 || Mantissa(d) % 10 != 0
    ensures QuotientResult(l, r, Success(d))
  {
    var ml, mr, s0 := Mantissa(l), Mantissa(r), l.scale - r.scale;
    SettledQuotient(ml, mr, c, s0, s, m, d);
    ScaleInvariant(ml, mr, c);
    SettledFits(ml * c, mr * c, s0, s, m);
    OverflowsFactor(ml, mr, c, s0);
    assert 0 <= s <= MaxScale && RoundedQuotient(ml, mr, s0, s, d);
  }

  /** DecimalDiv: the quotient of two decimals, rounded half to even to
      the largest scale (at most 28) at which it fits 96 bits, its trailing
      zeros removed when it is inexact; a zero divisor and a quotient too
      large at scale 0 are errors. */
  method DecimalDiv(l: Decimal, r: Decimal) returns (res: Result)
    ensures QuotientResult(l, r, res)
  {
    var s0 := l.scale - r.scale;
    var quo := new u32[4];
    var ok, scale, unscale;
    ghost var c: nat;
    if r.hi == 0 && Hi32(r.lo) == 0 {
      if Lo32(r.lo) == 0 {
        return Failure(DivideByZero);
      }
      ok, scale, unscale := Quotient32(l, r, s0, quo);
      c := 1;
    } else {
      var top := if r.hi == 0 then Hi32(r.lo) else r.hi;
      var (found, msb) := BitScanMsb32(top);
      if r.hi == 0 {
        ok, scale, unscale, c := Quotient64(l, r, s0, quo, msb);
      } else {
        ok, scale, unscale, c := Quotient96(l, r, s0, quo, msb);
      }
    }
    if !ok {
      OverflowsFactor(Mantissa(l), Mantissa(r), c, s0);
      return Failure(Overflow);
    }
    ghost var m := W3(quo[..], 0);
    var unscaled := scale;
    if unscale {
      unscaled := Unscale(quo, scale);
    }
    var d := Decimal(l.neg != r.neg, unscaled, quo[2], Join64(quo[1], quo[0]));
    assert Mantissa(d) == W3(quo[..], 0);
    Conclude(l, r, c, scale, m, unscale, d);
    return Success(d);
  }

  // ------------------------------------------------------------------
  // The code as written, where it departs from the intended division

  /** The portable ShiftLeft128 with a zero shift, as the normalisation
      uses it when the divisor's top word already has its top bit set:
      the dividend 1 becomes 2^64 + 1, where the corrected shift leaves
      it 1. */
  lemma ShiftZeroCorrupts()
    ensures var l := Decimal(false, 0, 0, 1);
            var r := Decimal(false, 0, 0x8000_0000, 0);
            BitScanMsb32(r.hi) == (true, 31)
            && ShiftLeft128(l.lo, l.hi, 31 - 31) == 0
            && ShiftLeft128AsWritten(l.lo, l.hi, 31 - 31) == 1
            && l.lo + B64 * ShiftLeft128AsWritten(l.lo, l.hi, 31 - 31) == Mantissa(l) + B64
  {
    var r := Decimal(false, 0, 0x8000_0000, 0);
    Pow2Values();
    assert Pow2(31) == 0x8000_0000 by { Pow2Add(31, 1); }
    var b := BitScanMsb32(r.hi);
    assert b.1 == 31 by {
      if b.1 < 31 {
        Pow2Monotone(b.1 + 1, 31);
      }
    }
  }

  /** One scaling step of the 32-bit and 64-bit loops as written: the
      quotient scaled by pwr plus the next quotient digit, with the carry
      out of 96 bits that Add96By32 reports ignored, so the quotient wraps
      modulo 2^96; the new remainder. */
  function StepAsWritten(q: nat, rem: nat, den: nat, pwr: nat): (r: (nat, nat))
    requires den > 0
    ensures r.0 < B96 && r.1 < den
  {
    ((q * pwr + rem * pwr / den) % B96, (rem * pwr) % den)
  }

  /** 71305346262837903834189555303 / 9: the first quotient allows one
      more digit (q * 10 fits 96 bits, so SearchScale64 picks 10^1 and
      IncreaseScale96By32 reports no overflow), but adding that digit
      carries out of 96 bits and the quotient as written becomes 0. */
  lemma DroppedCarry()
    ensures var l := Decimal(false, 0, 3865470566, 7378697629483820647);
            var q := 7922816251426433759354395033;
            Mantissa(l) == q * 9 + 6
            && Largest(q, ScaleBound(0), 1)
            && q * 10 + 6 * 10 / 9 == B96
            && StepAsWritten(q, 6, 9, 10) == (0, 6)
  {
    Pow10Values();
  }

  /** 55459713759985036315480765235 / 0.7: the natural scale is -1, so the
      first quotient is scaled by 10^1 and reaches 2^96 - 1 at scale 0 with
      remainder 5 of 7; no more scaling is possible, the RoundUp test fires,
      and the carry out of Add96By32 is ignored, so the code returns 0 at
      scale 0 where the quotient does not fit at all. */
  lemma RoundUpWraps()
    ensures var l := Decimal(false, 0, 3006477107, 3689348814741910323);
            var r := Decimal(false, 1, 0, 7);
            var q := 7922816251426433759354395033;
            Mantissa(l) == q * 7 + 4
            && Largest(q, ScaleBound(-1), 1)
            && StepAsWritten(q, 4, 7, 10) == (B96 - 1, 5)
            && Largest(B96 - 1, ScaleBound(0), 0)
            && RemainderRoundsUp(B96 - 1, 5, 7)
            && (B96 - 1 + 1) % B96 == 0
            && QuotientResult(l, r, Failure(Overflow))
  {
    Pow10Values();
  }

  /** 10266262969489344502 / 11951503075530455101886346296 with the
      10^19 scaling step of the HAS_DIVMOD128BY64 arm: after
      normalisation (a shift by 2) the first quotient is 0, SearchScale64
      picks 10^19, and the remainder scaled by it is a 160-bit dividend
      whose first partial remainder has its top word equal to the
      divisor's, so the second Div128By96 is handed a dividend it cannot
      divide (DivMod64By32 requires hi < den). */
  lemma Div160GuardFails()
    ensures var d: seq<u32> := [1268437216, 3399301009, 2591569119, 0];
            var s: seq<u32> := [1941962752, 2561984319, 2503634720, 888170943, 1, 0];
            var n := 10266262969489344502 * 4;
            var rem := 41065051877957378008;
            W3(d, 0) == 11951503075530455101886346296 * 4 && d[2] >= 0x8000_0000
            && n / W3(d, 0) == 0 && n % W3(d, 0) == rem
            && Largest(0, ScaleBound(0), 19)
            && W5(s, 0) == rem * Pow10(19)
            && !Div160Guard(s, d)
  {
    Scaling.Power10Table(19);
  }
}
