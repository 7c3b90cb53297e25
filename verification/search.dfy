/** SearchScale64: how far the division may scale its quotient up. Given
    the 96-bit quotient so far and its scale, it finds the largest power of
    ten, at most 10^19 and not past scale 28, by which the quotient can be
    multiplied without leaving 96 bits; it reports -1 when even that cannot
    bring a negative scale up to zero. */
module QuotientScale {
  import opened Primitives
  import opened Rounding
  import opened DivWords

  /** PowerOvfl: for k from 0 to 19, the largest 96-bit number that can be
      multiplied by 10^k and stay within 96 bits, as its high 64 bits and
      its low 32 bits. */
  const PowerOvfl: seq<(u64, u32)> := [
    (0xFFFF_FFFF_FFFF_FFFF, 0xFFFF_FFFF),
    (1844674407370955161, 2576980377),
    (184467440737095516, 687194767),
    (18446744073709551, 2645699854),
    (1844674407370955, 694066715),
    (184467440737095, 2216890319),
    (18446744073709, 2369172679),
    (1844674407370, 4102387834),
    (184467440737, 410238783),
    (18446744073, 3047500985),
    (1844674407, 1593240287),
    (184467440, 3165801135),
    (18446744, 316580113),
    (1844674, 1749644929),
    (184467, 1892951411),
    (18446, 3195772248),
    (1844, 2896557602),
    (184, 2007642678),
    (18, 1918751186),
    (1, 3627848955)]

  /** OVFL_MAX32_1_HI: a top word above this makes even a factor of ten
      overflow 96 bits. */
  const OvflMax32Hi: u32 := 429496729

  /** The largest power of ten the search may return. */
  const SearchMaxScale: nat := 19

  function Ovfl(k: nat): nat
    requires k < |PowerOvfl|
  {
    PowerOvfl[k].0 * B32 + PowerOvfl[k].1
  }

  /** Each entry is the quotient of 2^96 - 1 by 10^k. */
  lemma OvflValue(k: nat)
    requires k < |PowerOvfl|
    ensures Ovfl(k) == (B96 - 1) / Pow10(k)
  {
    if k < 10 {
      OvflValueLow(k);
    } else {
      OvflValueHigh(k);
    }
  }

  lemma OvflValueLow(k: nat)
    requires k < 10
    ensures Ovfl(k) == (B96 - 1) / Pow10(k)
  {
    Pow10Values();
    if k == 0 {
    } else if k == 1 {
      assert Ovfl(1) == (B96 - 1) / 10;
    } else if k == 2 {
      assert Ovfl(2) == (B96 - 1) / 100;
    } else if k == 3 {
      assert Ovfl(3) == (B96 - 1) / 1000;
    } else if k == 4 {
      assert Ovfl(4) == (B96 - 1) / 10000;
    } else if k == 5 {
      assert Ovfl(5) == (B96 - 1) / 100000;
    } else if k == 6 {
      assert Ovfl(6) == (B96 - 1) / 1000000;
    } else if k == 7 {
      assert Ovfl(7) == (B96 - 1) / 10000000;
    } else if k == 8 {
      assert Ovfl(8) == (B96 - 1) / 100000000;
    } else {
      assert Ovfl(9) == (B96 - 1) / 1000000000;
    }
  }

  lemma OvflValueHigh(k: nat)
    requires 10 <= k < |PowerOvfl|
    ensures Ovfl(k) == (B96 - 1) / Pow10(k)
  {
    Pow10Values();
    if k == 10 {
      assert Ovfl(10) == (B96 - 1) / 10000000000;
    } else if k == 11 {
      assert Ovfl(11) == (B96 - 1) / 100000000000;
    } else if k == 12 {
      assert Ovfl(12) == (B96 - 1) / 1000000000000;
    } else if k == 13 {
      assert Ovfl(13) == (B96 - 1) / 10000000000000;
    } else if k == 14 {
      assert Ovfl(14) == (B96 - 1) / 100000000000000;
    } else if k == 15 {
      assert Ovfl(15) == (B96 - 1) / 1000000000000000;
    } else if k == 16 {
      assert Ovfl(16) == (B96 - 1) / 10000000000000000;
    } else if k == 17 {
      assert Ovfl(17) == (B96 - 1) / 100000000000000000;
    } else if k == 18 {
      assert Ovfl(18) == (B96 - 1) / 1000000000000000000;
    } else {
      assert Ovfl(19) == (B96 - 1) / 10000000000000000000;
    }
  }

  lemma FloorIff(q: nat, n: nat, p: nat)
    requires p > 0
    ensures q <= n / p <==> q * p <= n
  {
    if q <= n / p {
      MulLe(q, n / p, p);
    } else {
      MulLe(n / p + 1, q, p);
    }
  }

  /** A quotient can be scaled by 10^k within 96 bits exactly when it is
      at most PowerOvfl[k]. */
  lemma OvflIff(q: nat, k: nat)
    requires k < |PowerOvfl|
    ensures q <= Ovfl(k) <==> q * Pow10(k) < B96
  {
    OvflValue(k);
    FloorIff(q, B96 - 1, Pow10(k));
  }

  lemma OvflPositive(k: nat)
    requires k < |PowerOvfl|
    ensures PowerOvfl[k].0 >= 1
  {
  }

  /** A quotient whose high 64 bits equal those of PowerOvfl[k] is at most
      PowerOvfl[k - 1]. */
  lemma UpperEqFits(q: nat, k: nat)
    requires 1 <= k < |PowerOvfl| && q < (PowerOvfl[k].0 + 1) * B32
    ensures q <= Ovfl(k - 1)
  {
    OvflValue(k);
    OvflValue(k - 1);
    OvflPositive(k);
    DivDiv(B96 - 1, Pow10(k - 1), 10);
    assert Pow10(k) == Pow10(k - 1) * 10;
    assert Ovfl(k) == Ovfl(k - 1) / 10;
  }

  /** Comparing the top 64 bits and then the low word with PowerOvfl[k]
      compares the whole quotient. */
  lemma CompareOvfl(q: nat, resHi: u64, low: u32, k: nat)
    requires k < |PowerOvfl| && q == resHi * B32 + low
    ensures q <= Ovfl(k) <==> resHi < PowerOvfl[k].0 || (resHi == PowerOvfl[k].0 && low <= PowerOvfl[k].1)
  {
  }

  // ------------------------------------------------------------------
  // The bit-count estimate

  lemma Pow2BelowPow10(m: nat)
    requires 1 <= m <= 19
    ensures Pow2((256 * m + 76) / 77) <= Pow10(m + 1)
  {
    Pow2Points();
    Pow10Values();
    if m == 1 { assert (256 * m + 76) / 77 == 4; }
    else if m == 2 { assert (256 * m + 76) / 77 == 7; }
    else if m == 3 { assert (256 * m + 76) / 77 == 10; }
    else if m == 4 { assert (256 * m + 76) / 77 == 14; }
    else if m == 5 { assert (256 * m + 76) / 77 == 17; }
    else if m == 6 { assert (256 * m + 76) / 77 == 20; }
    else if m == 7 { assert (256 * m + 76) / 77 == 24; }
    else if m == 8 { assert (256 * m + 76) / 77 == 27; }
    else if m == 9 { assert (256 * m + 76) / 77 == 30; }
    else if m == 10 { assert (256 * m + 76) / 77 == 34; }
    else if m == 11 { assert (256 * m + 76) / 77 == 37; }
    else if m == 12 { assert (256 * m + 76) / 77 == 40; }
    else if m == 13 { assert (256 * m + 76) / 77 == 44; }
    else if m == 14 { assert (256 * m + 76) / 77 == 47; }
    else if m == 15 { assert (256 * m + 76) / 77 == 50; }
    else if m == 16 { assert (256 * m + 76) / 77 == 54; }
    else if m == 17 { assert (256 * m + 76) / 77 == 57; }
    else if m == 18 { assert (256 * m + 76) / 77 == 60; }
    else { assert (256 * m + 76) / 77 == 64; }
  }

  /** With n free bits above the top set bit, e = (77 n) >> 8 brackets
      the power of ten: 10^e <= 2^n and 2^(n + 1) <= 10^(e + 2). */
  lemma EstimateRange(n: nat)
    requires n <= 63
    ensures Pow10((n * 77) / 256) <= Pow2(n)
    ensures Pow2(n + 1) <= Pow10((n * 77) / 256 + 2)
    ensures (n * 77) / 256 <= 18
  {
    LogEstimate(n);
    var e := (n * 77) / 256;
    var top := (256 * (e + 1) + 76) / 77;
    Pow2BelowPow10(e + 1);
    assert n + 1 <= top;
    Pow2Monotone(n + 1, top);
  }

  lemma ScaledBelow(q: nat, x: nat, p: nat, y: nat)
    requires q < x && p <= y
    ensures q * p < x * y || p == 0
  {
    if p > 0 {
      MulLe(q, x - 1, p);
      MulLe(p, y, x);
    }
  }

  lemma Pow2Sums(msb: nat)
    requires msb < 64
    ensures Pow2(msb + 33) * Pow2(63 - msb) == B96
    ensures Pow2(msb + 32) * Pow2(64 - msb) == B96
    ensures Pow2(msb + 33) == Pow2(msb + 1) * B32 && Pow2(msb + 32) == Pow2(msb) * B32
  {
    Pow2At96();
    Pow2Values();
    Pow2Add(msb + 1, 32);
    Pow2Add(msb, 32);
    Pow2Add(msb + 33, 63 - msb);
    Pow2Add(msb + 32, 64 - msb);
  }

  lemma Pow2At96()
    ensures Pow2(96) == B96
  {
    Pow2Points();
  }

  lemma TopBounds(q: nat, resHi: u64, low: u32, msb: nat)
    requires q == resHi * B32 + low && msb < 64
    requires Pow2(msb) <= resHi < Pow2(msb + 1)
    ensures Pow2(msb) * B32 <= q < Pow2(msb + 1) * B32
  {
    MulLe(resHi + 1, Pow2(msb + 1), B32);
    MulLe(Pow2(msb), resHi, B32);
  }

  /** The quotient whose top 64 bits have their highest set bit at msb
      fits 96 bits after scaling by 10^e but not by 10^(e + 2). */
  lemma EstimateBracket(q: nat, resHi: u64, low: u32, msb: nat)
    requires q == resHi * B32 + low && msb < 64
    requires Pow2(msb) <= resHi < Pow2(msb + 1)
    ensures 1 <= ScaleEstimate(msb) <= SearchMaxScale
    ensures q * Pow10(ScaleEstimate(msb) - 1) < B96 && q * Pow10(ScaleEstimate(msb) + 1) >= B96
  {
    BracketAt(q, resHi, low, msb);
    var e := ((63 - msb) * 77) / 256;
    assert ScaleEstimate(msb) - 1 == e && ScaleEstimate(msb) + 1 == e + 2;
  }

  /** The estimate 77/256 of a bit count is just under log10(2). */
  function ScaleEstimate(msb: nat): int
    requires msb < 64
  {
    ((63 - msb) * 77) / 256 + 1
  }

  lemma BracketAt(q: nat, resHi: u64, low: u32, msb: nat)
    requires q == resHi * B32 + low && msb < 64
    requires Pow2(msb) <= resHi < Pow2(msb + 1)
    ensures var e := ((63 - msb) * 77) / 256;
            e <= 18 && q * Pow10(e) < B96 && q * Pow10(e + 2) >= B96
  {
    var n := 63 - msb;
    EstimateRange(n);
    TopBounds(q, resHi, low, msb);
    Pow2Sums(msb);
    BracketBelow(q, msb, n, (n * 77) / 256);
    BracketAbove(q, msb, n, (n * 77) / 256);
  }

  lemma BracketBelow(q: nat, msb: nat, n: nat, e: nat)
    requires msb < 64 && n == 63 - msb
    requires q < Pow2(msb + 1) * B32 && Pow10(e) <= Pow2(n)
    requires Pow2(msb + 33) == Pow2(msb + 1) * B32 && Pow2(msb + 33) * Pow2(n) == B96
    ensures q * Pow10(e) < B96
  {
    ScaledBelow(q, Pow2(msb + 33), Pow10(e), Pow2(n));
  }

  lemma BracketAbove(q: nat, msb: nat, n: nat, e: nat)
    requires msb < 64 && n == 63 - msb
    requires Pow2(msb) * B32 <= q && Pow2(n + 1) <= Pow10(e + 2)
    requires Pow2(msb + 32) == Pow2(msb) * B32 && Pow2(msb + 32) * Pow2(64 - msb) == B96
    ensures q * Pow10(e + 2) >= B96
  {
    var bottom := Pow2(msb + 32);
    var up := Pow2(64 - msb);
    assert up == Pow2(n + 1);
    var p := Pow10(e + 2);
    MulLe(bottom, q, p);
    MulLe(up, p, bottom);
  }

  // ------------------------------------------------------------------
  // The search

  /** The scale bound: at most 10^19, and the scale may not pass 28. */
  function ScaleBound(iScale: int): int
  {
    Min(SearchMaxScale, MaxScale - iScale)
  }

  /** k is the largest power of ten, up to bound, by which q can be scaled
      within 96 bits. */
  predicate Largest(q: nat, bound: int, k: int)
  {
    0 <= k <= bound && q * Pow10(k) < B96 && (k < bound ==> q * Pow10(k + 1) >= B96)
  }

  /** Fitting is downward closed. */
  lemma FitsBelow(q: nat, j: nat, k: nat)
    requires j <= k && q * Pow10(k) < B96
    ensures q * Pow10(j) < B96
  {
    Pow10Monotone(j, k);
    MulLe(Pow10(j), Pow10(k), q);
  }

  /** The largest scale of the search: the part of SearchScale64 before
      its HaveScale label. */
  function LargestScale(quo: seq<u32>, iScale: int): (k: int)
    requires |quo| >= 3 && iScale <= MaxScale
    ensures Largest(W3(quo, 0), ScaleBound(iScale), k)
  {
    var q := W3(quo, 0);
    var resHi := Join64(quo[2], quo[1]);
    if iScale >= MaxScale || quo[2] > OvflMax32Hi then
      QuickZero(q, quo[2], iScale);
      0
    else if iScale > MaxScale - SearchMaxScale && resHi <= PowerOvfl[MaxScale - iScale].0 then
      CappedScale(quo, iScale)
    else if resHi != 0 then
      EstimatedScale(quo, iScale)
    else
      SmallFits(q);
      SearchMaxScale
  }

  /** Above scale 9 the search first tries the scale that reaches 28: the
      quotient fits there unless its top 64 bits equal those of the
      PowerOvfl entry and its low word exceeds the entry's, in which case
      one power less fits (the UpperEq label). */
  function CappedScale(quo: seq<u32>, iScale: int): (k: int)
    requires |quo| >= 3 && MaxScale - SearchMaxScale < iScale < MaxScale
    requires Join64(quo[2], quo[1]) <= PowerOvfl[MaxScale - iScale].0
    ensures Largest(W3(quo, 0), ScaleBound(iScale), k)
  {
    var q := W3(quo, 0);
    var resHi := Join64(quo[2], quo[1]);
    var c := MaxScale - iScale;
    CompareOvfl(q, resHi, quo[0], c);
    OvflIff(q, c);
    if resHi < PowerOvfl[c].0 || quo[0] <= PowerOvfl[c].1 then
      c
    else
      UpperEqFits(q, c);
      OvflIff(q, c - 1);
      c - 1
  }

  /** Otherwise the scale is estimated from the top set bit of the high
      64 bits, and lowered by one when the quotient exceeds the PowerOvfl
      entry of the estimate. */
  function EstimatedScale(quo: seq<u32>, iScale: int): (k: int)
    requires |quo| >= 3 && iScale < MaxScale
    requires Join64(quo[2], quo[1]) != 0
    requires iScale > MaxScale - SearchMaxScale ==> Join64(quo[2], quo[1]) > PowerOvfl[MaxScale - iScale].0
    ensures Largest(W3(quo, 0), ScaleBound(iScale), k)
  {
    var q := W3(quo, 0);
    var resHi := Join64(quo[2], quo[1]);
    var (_, msb) := BitScanMsb64(resHi);
    var est := ScaleEstimate(msb);
    EstimateBracket(q, resHi, quo[0], msb);
    AboveCap(q, resHi, quo[0], iScale);
    EstimateChoice(q, resHi, quo[0], iScale, est);
    if resHi > PowerOvfl[est].0 || (resHi == PowerOvfl[est].0 && quo[0] > PowerOvfl[est].1) then
      est - 1
    else
      est
  }

  /** The comparison with PowerOvfl[est] picks the largest scale. */
  lemma EstimateChoice(q: nat, resHi: u64, low: u32, iScale: int, est: nat)
    requires q == resHi * B32 + low && 1 <= est <= SearchMaxScale && iScale <= MaxScale
    requires q * Pow10(est - 1) < B96 && q * Pow10(est + 1) >= B96
    requires iScale > MaxScale - SearchMaxScale ==> q * Pow10(MaxScale - iScale) >= B96
    ensures resHi > PowerOvfl[est].0 || (resHi == PowerOvfl[est].0 && low > PowerOvfl[est].1) ==>
      Largest(q, ScaleBound(iScale), est - 1)
    ensures resHi < PowerOvfl[est].0 || (resHi == PowerOvfl[est].0 && low <= PowerOvfl[est].1) ==>
      Largest(q, ScaleBound(iScale), est)
  {
    CompareOvfl(q, resHi, low, est);
    OvflIff(q, est);
    EstimateLargest(q, iScale, est);
  }

  lemma AboveCap(q: nat, resHi: u64, low: u32, iScale: int)
    requires q == resHi * B32 + low && iScale < MaxScale
    requires iScale > MaxScale - SearchMaxScale ==> resHi > PowerOvfl[MaxScale - iScale].0
    ensures iScale > MaxScale - SearchMaxScale ==> q * Pow10(MaxScale - iScale) >= B96
  {
    if iScale > MaxScale - SearchMaxScale {
      CompareOvfl(q, resHi, low, MaxScale - iScale);
      OvflIff(q, MaxScale - iScale);
    }
  }

  lemma QuickZero(q: nat, hi: u32, iScale: int)
    requires q < B96 && q >= hi * B64 && iScale <= MaxScale
    requires iScale >= MaxScale || hi > OvflMax32Hi
    ensures Largest(q, ScaleBound(iScale), 0)
  {
    assert Pow10(1) == 10;
  }

  lemma SmallFits(q: nat)
    requires q < B32
    ensures q * Pow10(SearchMaxScale) < B96
  {
    Pow10Values();
  }

  /** After the estimate est, one of est - 1 and est is the largest scale,
      and the comparison with PowerOvfl[est] tells which. */
  lemma EstimateLargest(q: nat, iScale: int, est: nat)
    requires 1 <= est <= SearchMaxScale && iScale <= MaxScale
    requires q * Pow10(est - 1) < B96 && q * Pow10(est + 1) >= B96
    requires iScale > MaxScale - SearchMaxScale ==> q * Pow10(MaxScale - iScale) >= B96
    ensures q * Pow10(est) < B96 ==> Largest(q, ScaleBound(iScale), est)
    ensures q * Pow10(est) >= B96 ==> Largest(q, ScaleBound(iScale), est - 1)
  {
    if iScale > MaxScale - SearchMaxScale {
      if q * Pow10(est) < B96 && est >= MaxScale - iScale {
        FitsBelow(q, MaxScale - iScale, est);
      }
      if est - 1 >= MaxScale - iScale {
        FitsBelow(q, MaxScale - iScale, est - 1);
      }
    }
  }

  /** SearchScale64: the largest scale, or -1 when even that leaves the
      scale negative, that is when the quotient scaled to scale 0 (or by
      the full 10^19) no longer fits 96 bits. */
  function SearchScale64(quo: seq<u32>, iScale: int): (r: int)
    requires |quo| >= 3 && iScale <= MaxScale
    ensures r == -1 <==> iScale < 0 && W3(quo, 0) * Pow10(Min(SearchMaxScale, -iScale)) >= B96
    ensures r != -1 ==> Largest(W3(quo, 0), ScaleBound(iScale), r)
  {
    var k := LargestScale(quo, iScale);
    MinusOneRule(W3(quo, 0), iScale, k);
    if k + iScale < 0 && k != SearchMaxScale then -1 else k
  }

  /** The largest scale leaves the scale negative, short of the cap 19,
      exactly when scaling to 0 (or by 10^19) overflows. */
  lemma MinusOneRule(q: nat, iScale: int, k: int)
    requires iScale <= MaxScale && Largest(q, ScaleBound(iScale), k)
    ensures k + iScale < 0 && k != SearchMaxScale <==>
            iScale < 0 && q * Pow10(Min(SearchMaxScale, -iScale)) >= B96
  {
    if iScale < 0 {
      ShortOfScale(q, k, Min(SearchMaxScale, -iScale));
    }
  }

  /** With the cap 19, the largest scale k is short of m exactly when
      scaling by 10^m overflows. */
  lemma ShortOfScale(q: nat, k: int, m: nat)
    requires 1 <= m <= SearchMaxScale && Largest(q, SearchMaxScale, k)
    ensures k < m <==> q * Pow10(m) >= B96
  {
    if k < m {
      OverflowsAbove(q, k + 1, m);
    } else {
      FitsBelow(q, m, k);
    }
  }

  /** Overflowing is upward closed. */
  lemma OverflowsAbove(q: nat, j: nat, k: nat)
    requires j <= k && q * Pow10(j) >= B96
    ensures q * Pow10(k) >= B96
  {
    Pow10Monotone(j, k);
    MulLe(Pow10(j), Pow10(k), q);
  }
}
