/** NumberToDecimal: a number already split into its significant digits
    and a decimal exponent becomes a decimal. The mantissa is built digit
    by digit (times ten plus the digit) while another digit fits 96 bits
    and the scale stays within 28; the first digit left over rounds it,
    halfway cases to even; the exponent left over gives the scale. */
module Parse {
  import opened Primitives
  import opened Rounding
  import opened Decimals
  import opened Limbs

  datatype Option<T> = None | Some(value: T)

  /** DECIMAL_PRECISION: the decimal digits a 96-bit mantissa can hold. */
  const DecimalPrecision: int := 29

  /** floor((2^96 - 1) / 10): the largest mantissa that still takes
      another digit, and at that value only a digit up to 5. */
  const Threshold: nat := 0x1999_9999_9999_9999_9999_9999

  /** What a mantissa that carried out of 96 bits when rounded up becomes,
      with the exponent raised by one: 2^96 / 10 rounded. */
  const Carried: nat := 0x1999_9999_9999_9999_9999_999A

  /** How many zeros after a dropped 5 are looked at to decide a tie. */
  const TieWindow: nat := 20

  /** A number as the formatting code hands it over: its significant
      digits (the terminating NUL not included), the decimal exponent
      (the value is 0.digits * 10^scale) and the sign. */
  datatype Number = Number(digits: seq<char>, scale: int, sign: bool)

  predicate IsDigit(c: char)
  {
    '0' <= c <= '9'
  }

  predicate AllDigits(s: seq<char>)
  {
    forall i :: 0 <= i < |s| ==> IsDigit(s[i])
  }

  /** The character at position i of the NUL-terminated digit string. */
  function At(s: seq<char>, i: nat): char
  {
    if i < |s| then s[i] else '\0'
  }

  function Digit(c: char): nat
    requires IsDigit(c)
  {
    c as int - '0' as int
  }

  /** The integer a digit string spells. */
  function DigitsValue(s: seq<char>): (v: nat)
    requires AllDigits(s)
    ensures v < Pow10(|s|)
  {
    if |s| == 0 then 0
    else
      var v := DigitsValue(s[..|s| - 1]);
      assert v * 10 + Digit(s[|s| - 1]) < Pow10(|s| - 1) * 10 by {
        MulLe(v + 1, Pow10(|s| - 1), 10);
      }
      v * 10 + Digit(s[|s| - 1])
  }

  // ------------------------------------------------------------------
  // The accumulation loop, step by step

  /** Digits consumed after j steps: every step takes the next digit
      while there is one, and appends a zero after that. */
  function Taken(n: Number, j: nat): (i: nat)
    ensures i <= |n.digits| && i <= j
  {
    if j < |n.digits| then j else |n.digits|
  }

  /** The mantissa after j steps: the digits consumed followed by the
      zeros appended. */
  function Mant(n: Number, j: nat): nat
    requires AllDigits(n.digits)
  {
    DigitsValue(n.digits[..Taken(n, j)]) * Pow10(j - Taken(n, j))
  }

  /** The loop condition on mantissa m, exponent e and next character c:
      scale is left to fill (e above 0 while digits or zeros are wanted,
      or above -28 while digits are left) and another digit fits. */
  predicate Continues(m: nat, e: int, c: char)
  {
    (e > 0 || (c != '\0' && e > -28))
    && (m < Threshold || (m == Threshold && c <= '5'))
  }

  predicate Guard(n: Number, j: nat)
    requires AllDigits(n.digits)
  {
    Continues(Mant(n, j), n.scale - j, At(n.digits, Taken(n, j)))
  }

  /** The number of steps the loop takes from step j on: the first step
      at which its condition fails. */
  function Steps(n: Number, j: nat): (k: nat)
    requires AllDigits(n.digits)
    ensures j <= k && !Guard(n, k)
    ensures forall i :: j <= i < k ==> Guard(n, i)
    decreases Max(0, n.scale + MaxScale - j)
  {
    if Guard(n, j) then Steps(n, j + 1) else j
  }

  /** The first dropped character decides the rounding: up when it is 5
      or more, except that a 5 after an even mantissa followed only by
      zeros, to the end of the digits or for TieWindow of them, is taken
      for a tie and left. */
  predicate DigitsRoundUp(s: seq<char>, i: nat, even: bool)
  {
    At(s, i) >= '5' && !(At(s, i) == '5' && even && ZerosUpTo(s, i + 1, i + 1 + TieWindow))
  }

  /** Every digit from position i up to (not including) j is a zero. */
  predicate ZerosUpTo(s: seq<char>, i: nat, j: nat)
  {
    forall k :: i <= k < j && k < |s| ==> s[k] == '0'
  }

  /** The exponent left over decides the result: above 0 it fails, at or
      below -DecimalPrecision the value is a zero at scale 28, otherwise
      the scale is its negation. */
  function Finish(m: nat, e: int, sign: bool): Option<Decimal>
    requires m < B96
  {
    if e > 0 then None
    else if e <= -DecimalPrecision then Some(Decimal(sign, MaxScale, 0, 0))
    else Some(Decimal(sign, -e, m / B64, m % B64))
  }

  /** What NumberToDecimal computes: None when it returns 0. */
  function Parse(n: Number): Option<Decimal>
    requires AllDigits(n.digits)
  {
    if |n.digits| == 0 then
      Finish(0, Min(n.scale, 0), n.sign)
    else if n.scale > DecimalPrecision then
      None
    else
      var j := Steps(n, 0);
      var m := Mant(n, j);
      MantFits(n, j);
      if DigitsRoundUp(n.digits, Taken(n, j), m % 2 == 0) then
        if m + 1 == B96 then Finish(Carried, n.scale - j + 1, n.sign)
        else Finish(m + 1, n.scale - j, n.sign)
      else
        Finish(m, n.scale - j, n.sign)
  }

  // ------------------------------------------------------------------
  // Lemmas on the steps

  /** A step multiplies by ten and adds the digit taken (or nothing when
      the digits are used up). */
  lemma MantStep(n: Number, j: nat)
    requires AllDigits(n.digits)
    ensures Mant(n, j + 1) == 10 * Mant(n, j) + (if j < |n.digits| then Digit(n.digits[j]) else 0)
  {
    var s := n.digits;
    if j < |s| {
      assert s[..j + 1][..j] == s[..j];
    } else {
      assert Pow10(j + 1 - |s|) == 10 * Pow10(j - |s|);
    }
  }

  /** The threshold is exact: a digit can be appended within 96 bits
      exactly when the mantissa is below the threshold, or at it and the
      digit is at most 5. */
  lemma ThresholdExact(m: nat, dg: nat)
    requires dg <= 9
    ensures (m < Threshold || (m == Threshold && dg <= 5)) <==> 10 * m + dg < B96
  {
  }

  /** Every mantissa the loop reaches fits 96 bits. */
  lemma {:induction false} MantFits(n: Number, j: nat)
    requires AllDigits(n.digits) && j <= Steps(n, 0)
    ensures Mant(n, j) < B96
  {
    if j > 0 {
      MantFits(n, j - 1);
      assert Guard(n, j - 1);
      MantStep(n, j - 1);
      ThresholdExact(Mant(n, j - 1), if j - 1 < |n.digits| then Digit(n.digits[j - 1]) else 0);
    }
  }

  /** The loop keeps the mantissa as long as fits: when it stopped with
      scale still to fill, one more digit (or zero) would overflow 96
      bits. */
  lemma Maximal(n: Number)
    requires AllDigits(n.digits) && |n.digits| > 0 && n.scale <= DecimalPrecision
    ensures var j := Steps(n, 0);
            var i := Taken(n, j);
            n.scale - j > 0 || (i < |n.digits| && n.scale - j > -28) ==>
              10 * Mant(n, j) + (if i < |n.digits| then Digit(n.digits[i]) else 0) >= B96
  {
    var j := Steps(n, 0);
    var i := Taken(n, j);
    ThresholdExact(Mant(n, j), if i < |n.digits| then Digit(n.digits[i]) else 0);
  }

  // ------------------------------------------------------------------
  // NumberToDecimal

  /** The loop condition compares the limbs with those of the threshold,
      top limb first; that is the comparison of the mantissa. */
  lemma BelowThreshold(lo: u32, mid: u32, hi: u32, c: char)
    ensures (hi < 0x1999_9999 || (hi == 0x1999_9999 && (mid < 0x9999_9999 || (mid == 0x9999_9999 &&
              (lo < 0x9999_9999 || (lo == 0x9999_9999 && c <= '5'))))))
            <==> (Words(lo, mid, hi) < Threshold || (Words(lo, mid, hi) == Threshold && c <= '5'))
  {
    var w := Words(lo, mid, hi);
    assert Threshold == Words(0x9999_9999, 0x9999_9999, 0x1999_9999);
    if hi < 0x1999_9999 {
      assert w < B64 * (hi + 1) <= Threshold;
    } else if hi > 0x1999_9999 {
      assert w >= B64 * hi >= B64 * 0x1999_999A > Threshold;
    } else if mid < 0x9999_9999 {
      assert w < B64 * hi + B32 * (mid + 1) <= Threshold;
    } else if mid > 0x9999_9999 {
      assert w >= B64 * hi + B32 * mid > Threshold;
    }
  }

  /** One pass of the accumulation loop: the mantissa times ten plus the
      next digit, if any; the exponent one lower. */
  method AccumulateStep(d: DecimalBuffer, n: Number, p: nat, e: int, ghost j: nat) returns (p': nat, e': int)
    requires AllDigits(n.digits) && Guard(n, j) && j + 1 <= Steps(n, 0)
    requires p == Taken(n, j) && e == n.scale - j && d.Value() == Mant(n, j)
    modifies d
    ensures p' == Taken(n, j + 1) && e' == n.scale - (j + 1) && d.Value() == Mant(n, j + 1)
  {
    MantFits(n, j + 1);
    MantStep(n, j);
    ghost var v := d.Value();
    ghost var dg := if j < |n.digits| then Digit(n.digits[j]) else 0;
    assert 10 * v + dg < B96;
    d.Mul10();
    SmallMod(10 * v);
    p' := p;
    if At(n.digits, p) != '\0' {
      d.AddInt32(Digit(n.digits[p]));
      SmallMod(10 * v + dg);
      p' := p + 1;
    }
    e' := e - 1;
  }

  /** The accumulation loop of NumberToDecimal (decimal.cpp lines
      315-322): it runs for Steps(n, 0) passes. */
  method Accumulate(d: DecimalBuffer, n: Number) returns (p: nat, e: int)
    requires AllDigits(n.digits) && d.Value() == 0
    modifies d
    ensures p == Taken(n, Steps(n, 0)) && e == n.scale - Steps(n, 0)
    ensures d.Value() == Mant(n, Steps(n, 0))
  {
    var s := n.digits;
    p, e := 0, n.scale;
    ghost var j: nat := 0;
    while (e > 0 || (At(s, p) != '\0' && e > -28))
      && (d.hi < 0x1999_9999 || (d.hi == 0x1999_9999 && (d.mid < 0x9999_9999 || (d.mid == 0x9999_9999 &&
           (d.lo < 0x9999_9999 || (d.lo == 0x9999_9999 && At(s, p) <= '5'))))))
      invariant p == Taken(n, j) && e == n.scale - j
      invariant d.Value() == Mant(n, j)
      invariant Steps(n, j) == Steps(n, 0)
      decreases e + 28
    {
      BelowThreshold(d.lo, d.mid, d.hi, At(s, p));
      assert Guard(n, j);
      p, e := AccumulateStep(d, n, p, e, j);
      j := j + 1;
    }
    BelowThreshold(d.lo, d.mid, d.hi, At(s, p));
  }

  /** The tie test after a dropped 5 (decimal.cpp lines 328-333): it
      skips up to TieWindow zeros and finds a tie when the digits end
      there or the window is used up. */
  method TieTest(s: seq<char>, p: nat) returns (tie: bool)
    requires AllDigits(s)
    ensures tie == ZerosUpTo(s, p + 1, p + 1 + TieWindow)
  {
    var q := p + 1;
    var count: nat := TieWindow;
    while At(s, q) == '0' && count != 0
      invariant count <= TieWindow && q == p + 1 + (TieWindow - count)
      invariant forall k :: p + 1 <= k < q ==> At(s, k) == '0'
      decreases count
    {
      q := q + 1;
      count := count - 1;
    }
    tie := At(s, q) == '\0' || count == 0;
    if !tie {
      assert q < |s| && s[q] != '0' && q < p + 1 + TieWindow;
    } else {
      forall k | p + 1 <= k < p + 1 + TieWindow && k < |s|
        ensures s[k] == '0'
      {
        assert k < q;
        assert At(s, k) == '0';
      }
    }
  }

  /** The rounding of NumberToDecimal (decimal.cpp lines 323-345) on the
      first dropped character, at position p: up when it is 5 or more,
      except for a tie after an even mantissa; a carry out of 96 bits
      leaves Carried and raises the exponent. The mantissa's parity is
      read from its low limb. */
  method RoundLast(d: DecimalBuffer, s: seq<char>, p: nat, e: int) returns (e': int)
    requires AllDigits(s)
    modifies d
    ensures var m := old(d.Value());
            if DigitsRoundUp(s, p, m % 2 == 0) then
              if m + 1 == B96 then d.Value() == Carried && e' == e + 1
              else d.Value() == m + 1 && e' == e
            else d.Value() == m && e' == e
  {
    ghost var m := d.Value();
    var c := At(s, p);
    e' := e;
    var round := false;
    if c >= '5' {
      round := true;
      if c == '5' && d.lo % 2 == 0 {
        var tie := TieTest(s, p);
        round := !tie;
      }
    }
    LowParity(d.lo, d.mid, d.hi);
    assert round == DigitsRoundUp(s, p, m % 2 == 0);
    if round {
      d.AddInt32(1);
      Bump(m, d.Value());
      ZeroLimbs(d.lo, d.mid, d.hi);
      if d.hi == 0 && d.mid == 0 && d.lo == 0 {
        d.hi, d.mid, d.lo := 0x1999_9999, 0x9999_9999, 0x9999_999A;
        e' := e' + 1;
      }
    }
  }

  lemma LowParity(lo: u32, mid: u32, hi: u32)
    ensures Words(lo, mid, hi) % 2 == lo % 2
  {
    assert Words(lo, mid, hi) == lo + 2 * (mid * (B32 / 2) + hi * (B64 / 2));
  }

  lemma ZeroLimbs(lo: u32, mid: u32, hi: u32)
    ensures Words(lo, mid, hi) == 0 <==> lo == 0 && mid == 0 && hi == 0
  {
  }

  /** Adding one modulo 2^96 gives zero only from 2^96 - 1. */
  lemma Bump(m: nat, v: nat)
    requires m < B96 && v == (m + 1) % B96
    ensures m + 1 == B96 ==> v == 0
    ensures m + 1 != B96 ==> v == m + 1
  {
  }

  /** NumberToDecimal: the digits accumulated and rounded, the exponent
      checked and turned into the scale; None where it returns 0. */
  method NumberToDecimal(n: Number) returns (res: Option<Decimal>)
    requires AllDigits(n.digits)
    ensures res == Parse(n)
  {
    var d := new DecimalBuffer(0, 0, 0);
    var e := n.scale;
    if |n.digits| == 0 {
      if e > 0 {
        e := 0;
      }
      assert Parse(n) == Finish(d.Value(), e, n.sign);
    } else {
      if e > DecimalPrecision {
        return None;
      }
      var p;
      p, e := Accumulate(d, n);
      ParseUnfold(n);
      e := RoundLast(d, n.digits, p, e);
      assert d.Value() < B96 && Parse(n) == Finish(d.Value(), e, n.sign);
    }
    if e > 0 {
      return None;
    }
    if e <= -DecimalPrecision {
      res := Some(Decimal(n.sign, MaxScale, 0, 0));
    } else {
      res := Some(Decimal(n.sign, -e, d.hi, d.mid * B32 + d.lo));
      assert d.Value() / B64 == d.hi && d.Value() % B64 == d.mid * B32 + d.lo;
    }
  }

  // ------------------------------------------------------------------
  // The result is the number rounded half to even

  lemma {:induction false} DigitsSplit(s: seq<char>, i: nat)
    requires AllDigits(s) && i <= |s|
    ensures DigitsValue(s) == DigitsValue(s[..i]) * Pow10(|s| - i) + DigitsValue(s[i..])
    decreases |s|
  {
    if i == |s| {
      assert s[..i] == s;
      assert s[i..] == [];
    } else {
      var s' := s[..|s| - 1];
      DigitsSplit(s', i);
      assert s'[..i] == s[..i];
      assert s[i..][..|s| - i - 1] == s'[i..];
      calc {
        DigitsValue(s);
        DigitsValue(s') * 10 + Digit(s[|s| - 1]);
        (DigitsValue(s[..i]) * Pow10(|s| - 1 - i) + DigitsValue(s'[i..])) * 10 + Digit(s[|s| - 1]);
        { Associate(DigitsValue(s[..i]), Pow10(|s| - 1 - i), 10, Pow10(|s| - i)); }
        DigitsValue(s[..i]) * Pow10(|s| - i) + (DigitsValue(s'[i..]) * 10 + Digit(s[|s| - 1]));
        DigitsValue(s[..i]) * Pow10(|s| - i) + DigitsValue(s[i..]);
      }
    }
  }

  /** The leading digit and the rest. */
  lemma DigitsHead(s: seq<char>)
    requires AllDigits(s) && |s| >= 1
    ensures DigitsValue(s) == Digit(s[0]) * Pow10(|s| - 1) + DigitsValue(s[1..])
  {
    DigitsSplit(s, 1);
    var h := s[..1];
    assert h[..|h| - 1] == [];
    assert DigitsValue(h) == Digit(s[0]);
  }

  /** With the window reaching the last digit, the tie test finds a tie
      exactly when the digits from i on are all zero. */
  lemma {:induction false} ZerosTest(s: seq<char>, i: nat, j: nat)
    requires AllDigits(s) && i <= |s| <= j
    ensures ZerosUpTo(s, i, j) <==> DigitsValue(s[i..]) == 0
    decreases |s| - i
  {
    if i == |s| {
      assert s[i..] == [];
    } else {
      DigitsHead(s[i..]);
      assert s[i..][1..] == s[i + 1..];
      ZerosTest(s, i + 1, j);
      if s[i] != '0' {
        assert Digit(s[i]) * Pow10(|s| - i - 1) >= 1 by {
          MulLe(1, Digit(s[i]), Pow10(|s| - i - 1));
        }
      }
    }
  }

  /** Rounding q * 10u + dg * u + rest (rest below u) to a multiple of
      10u: up when the digit dg is above 5, or is 5 with something after
      it or with q odd. */
  lemma HalfCases(q: nat, dg: nat, u: nat, rest: nat, n: nat)
    requires dg <= 9 && rest < u && n == q * (10 * u) + dg * u + rest
    ensures RoundHalfEven(n, 10 * u) == if dg > 5 || (dg == 5 && (rest > 0 || q % 2 == 1)) then q + 1 else q
  {
    var p := 10 * u;
    var r := dg * u + rest;
    assert r < p by { MulLe(dg, 9, u); }
    DivModUnique(n, p, q, r);
    if dg >= 6 {
      MulLe(6, dg, u);
      assert 2 * r > p;
    } else if dg <= 4 {
      MulLe(dg, 4, u);
      assert 2 * r < p;
    } else {
      assert 2 * r == p + 2 * rest;
    }
  }

  /** The rounding decision on the first dropped digit, at position i, is
      round-half-to-even of the whole digit string to its first i digits,
      provided the tie window reaches the last digit. */
  lemma DecideRound(s: seq<char>, i: nat)
    requires AllDigits(s) && i <= |s| && |s| - i <= TieWindow + 1
    ensures var q := DigitsValue(s[..i]);
            RoundHalfEven(DigitsValue(s), Pow10(|s| - i)) == if DigitsRoundUp(s, i, q % 2 == 0) then q + 1 else q
  {
    var q := DigitsValue(s[..i]);
    var t := |s| - i;
    if t == 0 {
      assert s[..i] == s;
    } else {
      var u := Pow10(t - 1);
      var dg := Digit(s[i]);
      var rest := DigitsValue(s[i + 1..]);
      TailSplit(s, i, q, u);
      HalfCases(q, dg, u, rest, DigitsValue(s));
      ZerosTest(s, i + 1, i + 1 + TieWindow);
      DigitOrder(s[i]);
      assert At(s, i) == s[i];
    }
  }

  lemma DigitOrder(c: char)
    requires IsDigit(c)
    ensures (c >= '5' <==> Digit(c) >= 5) && (c == '5' <==> Digit(c) == 5)
  {
  }

  /** The digit string as its first i digits q, the digit at i and the
      rest. */
  lemma TailSplit(s: seq<char>, i: nat, q: nat, u: nat)
    requires AllDigits(s) && i < |s| && q == DigitsValue(s[..i]) && u == Pow10(|s| - i - 1)
    ensures Pow10(|s| - i) == 10 * u
    ensures DigitsValue(s) == q * (10 * u) + Digit(s[i]) * u + DigitsValue(s[i + 1..])
  {
    DigitsSplit(s, i);
    var tail := s[i..];
    DigitsHead(tail);
    assert tail[1..] == s[i + 1..];
  }

  /** The replacement for a carry out of 96 bits is 2^96 / 10 rounded. */
  lemma CarriedRounds()
    ensures Carried == RoundHalfEven(B96, 10)
  {
  }

  /** NumberToDecimal's result is the number rounded half to even at the
      scale the accumulation reached: with j passes of which i took
      digits, the mantissa is the digit string followed by j - i zeros,
      divided by 10 to the number of digits dropped and rounded; when
      that rounds to 2^96 the mantissa is Carried at one scale less. This
      holds whenever the tie window reaches the last digit. */
  lemma ParseRounded(n: Number)
    requires AllDigits(n.digits) && |n.digits| > 0 && n.scale <= DecimalPrecision
    requires |n.digits| - Taken(n, Steps(n, 0)) <= TieWindow + 1
    ensures RoundedOutcome(Parse(n), n.scale, Steps(n, 0), n.sign, RoundedDigits(n))
  {
    var j := Steps(n, 0);
    RoundedAt(n, j, Taken(n, j), RoundedDigits(n));
  }

  /** The digit string scaled to the exponent the accumulation reaches,
      j passes of which i took digits, and rounded half to even: the
      digits followed by j - i zeros over 10 to the digits dropped. */
  ghost function RoundedDigits(n: Number): nat
    requires AllDigits(n.digits)
  {
    var j := Steps(n, 0);
    var i := Taken(n, j);
    RoundHalfEven(DigitsValue(n.digits) * Pow10(j - i), Pow10(|n.digits| - i))
  }

  /** ParseRounded with the number of passes j, the digits taken i and
      the rounded mantissa r named. */
  lemma RoundedAt(n: Number, j: nat, i: nat, r: nat)
    requires AllDigits(n.digits) && |n.digits| > 0 && n.scale <= DecimalPrecision
    requires j == Steps(n, 0) && i == Taken(n, j) && i <= j && i <= |n.digits|
    requires |n.digits| - i <= TieWindow + 1
    requires r == RoundHalfEven(DigitsValue(n.digits) * Pow10(j - i), Pow10(|n.digits| - i))
    ensures RoundedOutcome(Parse(n), n.scale, j, n.sign, r)
  {
    var m := Mant(n, j);
    RoundedMant(n, j);
    ParseUnfold(n);
    RoundedResult(Parse(n), n.scale, j, n.sign, m, r, DigitsRoundUp(n.digits, i, m % 2 == 0));
  }

  /** A rounded mantissa r of at most 2^96 and the result p it gives at
      the exponent scale - j: below 2^96 it is the mantissa at scale
      j - scale; at 2^96 it is Carried at one scale less. */
  ghost predicate RoundedOutcome(p: Option<Decimal>, scale: int, j: nat, sign: bool, r: nat)
  {
    r <= B96
    && (r < B96 && -DecimalPrecision < scale - j <= 0 ==>
          p == Some(Decimal(sign, j - scale, r / B64, r % B64)))
    && (r == B96 && -DecimalPrecision < scale - j + 1 <= 0 ==>
          p == Some(Decimal(sign, j - scale - 1, Carried / B64, Carried % B64)))
  }

  /** The outcome of the rounding: a mantissa m rounded up or not to r,
      turned into a result at the exponent scale - j, or at one more when
      rounding up reached 2^96. */
  lemma RoundedResult(p: Option<Decimal>, scale: int, j: nat, sign: bool, m: nat, r: nat, up: bool)
    requires m < B96 && r == (if up then m + 1 else m)
    requires p == if up then
               (if m + 1 == B96 then Finish(Carried, scale - j + 1, sign) else Finish(m + 1, scale - j, sign))
             else Finish(m, scale - j, sign)
    ensures RoundedOutcome(p, scale, j, sign, r)
  {
    if r < B96 {
      assert p == Finish(r, scale - j, sign);
      if -DecimalPrecision < scale - j <= 0 {
        FinishInRange(r, scale - j, sign);
      }
    } else {
      assert p == Finish(Carried, scale - j + 1, sign);
      if -DecimalPrecision < scale - j + 1 <= 0 {
        FinishInRange(Carried, scale - j + 1, sign);
      }
    }
  }

  /** An exponent within the scale range becomes the scale. */
  lemma FinishInRange(m: nat, e: int, sign: bool)
    requires m < B96 && -DecimalPrecision < e <= 0
    ensures Finish(m, e, sign) == Some(Decimal(sign, -e, m / B64, m % B64))
  {
  }

  /** Parse on a non-empty digit string within the precision: the
      accumulated mantissa, rounded on the first dropped digit. */
  lemma ParseUnfold(n: Number)
    requires AllDigits(n.digits) && |n.digits| > 0 && n.scale <= DecimalPrecision
    ensures var j := Steps(n, 0);
            var m := Mant(n, j);
            m < B96
            && Parse(n) == if DigitsRoundUp(n.digits, Taken(n, j), m % 2 == 0) then
                 (if m + 1 == B96 then Finish(Carried, n.scale - j + 1, n.sign) else Finish(m + 1, n.scale - j, n.sign))
               else Finish(m, n.scale - j, n.sign)
  {
    MantFits(n, Steps(n, 0));
  }

  /** The mantissa after j passes, rounded on the first dropped digit, is
      the digit string with its zeros rounded half to even. */
  lemma RoundedMant(n: Number, j: nat)
    requires AllDigits(n.digits) && |n.digits| - Taken(n, j) <= TieWindow + 1
    ensures var i := Taken(n, j);
            var m := Mant(n, j);
            RoundHalfEven(DigitsValue(n.digits) * Pow10(j - i), Pow10(|n.digits| - i))
              == if DigitsRoundUp(n.digits, i, m % 2 == 0) then m + 1 else m
  {
    var s := n.digits;
    var i := Taken(n, j);
    var m := Mant(n, j);
    if i < |s| {
      assert j == i && Pow10(j - i) == 1;
      assert m == DigitsValue(s[..i]);
      assert DigitsValue(s) * Pow10(j - i) == DigitsValue(s);
      DecideRound(s, i);
    } else {
      assert s[..i] == s;
      assert Pow10(|s| - i) == 1;
      assert !DigitsRoundUp(s, i, m % 2 == 0);
      assert DigitsValue(s) * Pow10(j - i) == m;
      OneRound(m);
    }
  }

  lemma OneRound(m: nat)
    ensures RoundHalfEven(m, 1) == m
  {
  }

  // ------------------------------------------------------------------
  // The parity read before the first digit

  /** The rounding decision as written: the parity of the previous digit
      is read from the character before the dropped one, which is the
      character before the digit string (here: before) when no digit was
      taken. */
  predicate DigitsRoundUpAsWritten(s: seq<char>, i: nat, before: char)
  {
    var prev := if 1 <= i <= |s| then s[i - 1] else before;
    DigitsRoundUp(s, i, prev as int % 2 == 0)
  }

  /** Once a digit was taken, the character before the dropped one is the
      mantissa's last digit, and the code as written decides as the
      mantissa's parity does. */
  lemma AsWrittenAgrees(n: Number, j: nat, before: char)
    requires AllDigits(n.digits) && Taken(n, j) >= 1
    ensures DigitsRoundUpAsWritten(n.digits, Taken(n, j), before) == DigitsRoundUp(n.digits, Taken(n, j), Mant(n, j) % 2 == 0)
  {
    var s := n.digits;
    var i := Taken(n, j);
    if i < |s| {
      assert s[..i][..i - 1] == s[..i - 1];
      assert Mant(n, j) == DigitsValue(s[..i - 1]) * 10 + Digit(s[i - 1]);
      assert Mant(n, j) % 2 == Digit(s[i - 1]) % 2;
    }
  }

  /** The digits "5" at exponent -28, that is 5 * 10^-29: no digit fits
      the scale, the dropped 5 is an exact half of 10^-28 and rounds to
      the even 0; the code as written reads the character before the
      digits instead of the mantissa's parity and, when that character is
      odd, returns 10^-28. */
  lemma ReadBeforeDigits()
    ensures var n := Number("5", -28, false);
            Steps(n, 0) == 0 && Taken(n, 0) == 0
            && RoundHalfEven(DigitsValue(n.digits), 10) == 0
            && Parse(n) == Some(Decimal(false, 28, 0, 0))
            && !DigitsRoundUp(n.digits, 0, Mant(n, 0) % 2 == 0)
            && DigitsRoundUpAsWritten(n.digits, 0, '1')
  {
    var n := Number("5", -28, false);
    assert !Guard(n, 0);
    assert DigitsValue(n.digits) == 5 by {
      assert n.digits[..0] == [];
    }
  }
}
