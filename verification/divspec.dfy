/** What a decimal quotient is. The exact quotient of l by r is
    ml / mr * 10^-(s0), with ml and mr the mantissas and s0 the difference
    of the scales; at a scale s it has the mantissa Scaled(ml, s0, s) / mr,
    which is correctly rounded. The division settles on the first scale
    (from max(0, s0) up) at which the quotient is exact, or else on the
    largest scale, up to 28, whose rounded mantissa fits in 96 bits. */
module DivisionSpec {
  import opened Primitives
  import opened Rounding
  import opened Decimals

  /** The numerator n, given at scale s0, carried to scale s. */
  function Scaled(n: nat, s0: int, s: int): nat
    requires s >= s0
  {
    n * Pow10(s - s0)
  }

  /** d is the quotient ml / mr at scale s0 correctly rounded at scale s,
      possibly with trailing zeros removed (d.scale <= s); s is a legal
      scale, and either the quotient is exact there or s is the largest
      legal scale at which the rounded quotient fits. */
  predicate RoundedQuotient(ml: nat, mr: nat, s0: int, s: int, d: Decimal)
    requires mr > 0
  {
    Max(0, s0) <= s <= MaxScale && d.scale <= s
    && Mantissa(d) * Pow10(s - d.scale) == RoundHalfEven(Scaled(ml, s0, s), mr)
    && (Scaled(ml, s0, s) % mr == 0 || s == MaxScale || !Fits(Scaled(ml, s0, s + 1), mr))
  }

  /** The quotient does not fit in 96 bits even at scale 0 (only possible
      when s0 <= 0: at a non-negative s0 the quotient is at most ml). */
  predicate Overflows(ml: nat, mr: nat, s0: int)
  {
    s0 <= 0 && !Fits(Scaled(ml, s0, 0), mr)
  }

  /** The outcome DecimalDiv promises for l / r: division by a zero
      mantissa fails, an overflow is reported exactly when the quotient
      cannot be held, and otherwise the result carries the product of the
      signs and a rounded quotient. An exact quotient keeps the natural
      scale max(0, s0); an inexact one has its trailing zeros removed. */
  predicate QuotientResult(l: Decimal, r: Decimal, res: Result)
  {
    var ml, mr, s0 := Mantissa(l), Mantissa(r), l.scale - r.scale;
    if mr == 0 then res == Failure(DivideByZero)
    else
      (res.Failure? <==> Overflows(ml, mr, s0))
      && (res.Failure? ==> res.error == Overflow)
      && (res.Success? ==>
            res.value.neg == (l.neg != r.neg)
            && (exists s | 0 <= s <= MaxScale :: RoundedQuotient(ml, mr, s0, s, res.value))
            && (ml % mr == 0 ==> res.value.scale == Max(0, s0))
            && (ml % mr != 0 ==> res.value.scale == 0 || Mantissa(res.value) % 10 != 0))
  }

  // ------------------------------------------------------------------
  // The state of the division loop. The dividend N and divisor D are the
  // mantissas shifted left by the same number of bits; Q and R are the
  // quotient and remainder of the dividend carried to the current scale.

  predicate Progress(n: nat, d: nat, s0: int, i: int, q: nat, r: nat)
  {
    d > 0 && s0 <= i <= MaxScale && q < B96 && r < d && Scaled(n, s0, i) == q * d + r
  }

  /** m is the correctly rounded quotient at the scale s where the loop
      stops: exact there, or at the scale cap, or the next scale no
      longer fits. */
  predicate Settled(n: nat, d: nat, s0: int, s: int, m: nat)
    requires d > 0
  {
    Max(0, s0) <= s <= MaxScale && m < B96 && m == RoundHalfEven(Scaled(n, s0, s), d)
    && (Scaled(n, s0, s) % d == 0 || s == MaxScale || !Fits(Scaled(n, s0, s + 1), d))
  }

  /** The rounding test of the division: the doubled remainder exceeds the
      divisor, or equals it and the quotient is odd. */
  predicate RemainderRoundsUp(q: nat, r: nat, d: nat)
  {
    2 * r > d || (2 * r == d && q % 2 == 1)
  }

  /** A quotient t divided by ten and rounded on its last digit, the
      sticky bit telling whether anything was dropped before that digit. */
  function TenthRounded(t: nat, sticky: bool): nat
  {
    var q, digit := t / 10, t % 10;
    if digit > 5 || (digit == 5 && (sticky || q % 2 == 1)) then q + 1 else q
  }

  // ------------------------------------------------------------------
  // Arithmetic facts

  lemma ScaledStep(n: nat, s0: int, i: int, k: nat)
    requires i >= s0
    ensures Scaled(n, s0, i + k) == Scaled(n, s0, i) * Pow10(k)
  {
    var a, b := Pow10(i - s0), Pow10(k);
    Pow10Add(i - s0, k);
    assert i + k - s0 == (i - s0) + k;
    assert Scaled(n, s0, i + k) == n * (a * b);
    Associate(n, a, b, a * b);
  }

  /** Rounding the quotient q * d + r over d. */
  lemma RoundOf(q: nat, r: nat, d: nat)
    requires r < d
    ensures RoundHalfEven(q * d + r, d) == if RemainderRoundsUp(q, r, d) then q + 1 else q
    ensures (q * d + r) % d == r
  {
    DivModUnique(q * d + r, d, q, r);
  }

  lemma MulCompare(x: int, y: int, c: int)
    requires c > 0
    ensures x * c < y * c <==> x < y
    ensures x * c == y * c <==> x == y
  {
    if x < y {
      MulLe(x + 1, y, c);
    } else if y < x {
      MulLe(y + 1, x, c);
    }
  }

  /** Rounding, fitting and exactness do not change when numerator and
      divisor are multiplied by the same positive c. */
  lemma ScaleInvariant(a: nat, b: nat, c: nat)
    requires b > 0 && c > 0
    ensures RoundHalfEven(a * c, b * c) == RoundHalfEven(a, b)
    ensures Fits(a * c, b * c) <==> Fits(a, b)
    ensures (a * c) % (b * c) == 0 <==> a % b == 0
  {
    var q, r := a / b, a % b;
    assert a * c == q * (b * c) + r * c by {
      assert a == q * b + r;
      Distribute2(q * b, r, c);
      assert q * b * c == q * (b * c);
    }
    MulCompare(r, b, c);
    DivModUnique(a * c, b * c, q, r * c);
    MulCompare(2 * r, b, c);
    assert (2 * r) * c == 2 * (r * c);
    MulCompare(r, 0, c);
    MulCompare(2 * a, (2 * B96 - 1) * b, c);
    assert (2 * a) * c == 2 * (a * c);
    assert ((2 * B96 - 1) * b) * c == (2 * B96 - 1) * (b * c);
  }

  lemma Distribute2(x: int, y: int, c: int)
    ensures (x + y) * c == x * c + y * c
  {
  }

  /** OverflowUnscale rounds correctly: the quotient v / d with the sticky
      bit v % d != 0, divided by ten and rounded on its last digit, is v
      rounded at one scale less. */
  lemma TenthRound(v: nat, d: nat)
    requires d > 0
    ensures RoundHalfEven(v, d * 10) == TenthRounded(v / d, v % d != 0)
  {
    StickyRound(v, d, 10);
  }

  /** A numerator of at least 2^96 divisors does not fit. */
  lemma BigNoFit(n: nat, d: nat)
    requires d > 0 && n >= B96 * d
    ensures !Fits(n, d)
  {
    assert (2 * B96 - 1) * d == 2 * (B96 * d) - d;
  }

  /** The numerator at a larger scale j + m is at least q * 10^m divisors. */
  lemma ScaledAtLeast(n: nat, d: nat, s0: int, i: int, q: nat, r: nat, m: nat)
    requires Progress(n, d, s0, i, q, r)
    ensures Scaled(n, s0, i + m) >= (q * Pow10(m)) * d
  {
    ScaledStep(n, s0, i, m);
    var p := Pow10(m);
    MulLe(q * d, Scaled(n, s0, i), p);
    SwapLast(q, d, p);
  }

  lemma SwapLast(x: int, y: int, z: int)
    ensures (x * y) * z == (x * z) * y
  {
  }

  // ------------------------------------------------------------------
  // The exits of the division loop

  /** A scaling step: the remainder times 10^k divided by D gives the next
      digits q and remainder r. */
  lemma StepProgress(n: nat, d: nat, s0: int, i: int, q: nat, r: nat,
                     k: nat, p: nat, qk: nat, rk: nat)
    requires Progress(n, d, s0, i, q, r) && p == Pow10(k)
    requires r * p == qk * d + rk
    ensures Scaled(n, s0, i + k) == (q * p + qk) * d + rk
  {
    ScaledStep(n, s0, i, k);
    assert Scaled(n, s0, i) * p == (q * d) * p + r * p by {
      Distribute2(q * d, r, p);
    }
    SwapLast(q, d, p);
    Distribute2(q * p, qk, d);
  }

  /** Overflow below scale 0: once the numerator at some scale j <= 0 is
      2^96 divisors or more, it is so at scale 0 too. */
  lemma OverflowAt(n: nat, d: nat, s0: int, j: int)
    requires d > 0 && s0 <= j <= 0 && Scaled(n, s0, j) >= B96 * d
    ensures Overflows(n, d, s0)
  {
    ScaledStep(n, s0, j, -j);
    MulLe(1, Pow10(-j), Scaled(n, s0, j));
    BigNoFit(Scaled(n, s0, 0), d);
  }

  /** The remainder is zero: the quotient is exact. */
  lemma ExactExit(n: nat, d: nat, s0: int, i: int, q: nat)
    requires Progress(n, d, s0, i, q, 0) && i >= 0
    ensures Settled(n, d, s0, i, q)
  {
    RoundOf(q, 0, d);
  }

  /** The next scale overflows: the numerator there is ten times this one. */
  lemma NextNoFit(n: nat, d: nat, s0: int, i: int, q: nat, r: nat)
    requires Progress(n, d, s0, i, q, r) && q * 10 >= B96
    ensures !Fits(Scaled(n, s0, i + 1), d)
  {
    ScaledAtLeast(n, d, s0, i, q, r, 1);
    assert Pow10(1) == 10;
    MulLe(B96, q * 10, d);
    BigNoFit(Scaled(n, s0, i + 1), d);
  }

  /** The search allows no more scaling: the quotient is rounded here. */
  lemma RoundExit(n: nat, d: nat, s0: int, i: int, q: nat, r: nat)
    requires Progress(n, d, s0, i, q, r) && i >= 0
    requires i == MaxScale || q * 10 >= B96
    requires q + 1 < B96 || !RemainderRoundsUp(q, r, d)
    ensures Settled(n, d, s0, i, if RemainderRoundsUp(q, r, d) then q + 1 else q)
  {
    RoundOf(q, r, d);
    if i < MaxScale {
      NextNoFit(n, d, s0, i, q, r);
    }
  }

  /** The quotient at scale j is t (2^96 or more) and remainder rk: one
      scale less, the rounded quotient is t / 10 rounded on its digit with
      the remainder as sticky bit; at scale 0 or below it overflows. */
  lemma CarryExit(n: nat, d: nat, s0: int, j: int, t: nat, rk: nat)
    requires d > 0 && s0 < j <= MaxScale && B96 <= t < B96 + B64 && rk < d
    requires Scaled(n, s0, j) == t * d + rk
    ensures j >= 1 ==> Settled(n, d, s0, j - 1, TenthRounded(t, rk != 0))
    ensures j <= 0 ==> Overflows(n, d, s0)
  {
    MulLe(B96, t, d);
    if j <= 0 {
      OverflowAt(n, d, s0, j);
    } else {
      DivModUnique(t * d + rk, d, t, rk);
      BigNoFit(Scaled(n, s0, j), d);
      TenthBelow(n, d, s0, j);
    }
  }

  /** One scale below j, the correctly rounded quotient is the rounding of
      the quotient at j on its last digit. */
  lemma TenthBelow(n: nat, d: nat, s0: int, j: int)
    requires d > 0 && s0 < j
    ensures RoundHalfEven(Scaled(n, s0, j - 1), d)
         == TenthRounded(Scaled(n, s0, j) / d, Scaled(n, s0, j) % d != 0)
  {
    ScaledStep(n, s0, j - 1, 1);
    assert Pow10(1) == 10;
    var x := Scaled(n, s0, j - 1);
    ScaleInvariant(x, d, 10);
    TenthRound(x * 10, d);
  }

  /** Rounding up the largest 96-bit quotient carries out: the rounded
      quotient is 2^96, so this scale does not fit, and one scale less the
      rounded quotient is that of 2^96 with a sticky bit. */
  lemma RoundCarryExit(n: nat, d: nat, s0: int, i: int, q: nat, r: nat)
    requires Progress(n, d, s0, i, q, r) && i >= 0 && r != 0
    requires i == s0 ==> 2 * q < B96
    requires RemainderRoundsUp(q, r, d) && q + 1 == B96
    ensures i >= 1 ==> Settled(n, d, s0, i - 1, TenthRounded(B96, true))
    ensures i == 0 ==> Overflows(n, d, s0)
  {
    RoundOf(q, r, d);
    FitsIff(Scaled(n, s0, i), d);
    if i >= 1 {
      TenthBelow(n, d, s0, i);
      DivModUnique(q * d + r, d, q, r);
      assert TenthRounded(B96 - 1, true) == TenthRounded(B96, true);
    }
  }

  /** The division's result for the shifted operands is that of the
      mantissas: shifting both by the same factor c changes nothing. */
  lemma SettledQuotient(ml: nat, mr: nat, c: nat, s0: int, s: int, m: nat, d: Decimal)
    requires mr > 0 && c > 0
    requires Settled(ml * c, mr * c, s0, s, m)
    requires d.scale <= s && Mantissa(d) * Pow10(s - d.scale) == m
    ensures RoundedQuotient(ml, mr, s0, s, d)
  {
    ScaledFactor(ml, c, s0, s);
    ScaleInvariant(Scaled(ml, s0, s), mr, c);
    if s < MaxScale {
      ScaledFactor(ml, c, s0, s + 1);
      ScaleInvariant(Scaled(ml, s0, s + 1), mr, c);
    }
  }

  lemma OverflowsFactor(ml: nat, mr: nat, c: nat, s0: int)
    requires mr > 0 && c > 0
    ensures Overflows(ml * c, mr * c, s0) <==> Overflows(ml, mr, s0)
  {
    if s0 <= 0 {
      ScaledFactor(ml, c, s0, 0);
      ScaleInvariant(Scaled(ml, s0, 0), mr, c);
    }
  }

  lemma ScaledFactor(n: nat, c: nat, s0: int, s: int)
    requires s >= s0
    ensures Scaled(n * c, s0, s) == Scaled(n, s0, s) * c
  {
    assert (n * c) * Pow10(s - s0) == (n * Pow10(s - s0)) * c;
  }
}
