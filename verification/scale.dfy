/** Multi-word mantissas held in arrays of 64-bit words, least significant
    first, and the helpers that rescale them by powers of ten: the power
    table, the 96-bit increment, ReduceScale and ScaleResult. */
module Scaling {
  import opened Primitives
  import opened Rounding
  import opened Decimals

  // ------------------------------------------------------------------
  // Multi-word values

  /** The value of a little-endian sequence of 64-bit words. */
  function Val64(s: seq<u64>): nat
  {
    if |s| == 0 then 0 else s[0] + B64 * Val64(s[1..])
  }

  lemma Val64Cons(s: seq<u64>, i: int)
    requires 0 <= i < |s|
    ensures Val64(s[i..]) == s[i] + B64 * Val64(s[i + 1..])
  {
    assert s[i..][1..] == s[i + 1..];
  }

  lemma {:induction false} Val64Zeros(s: seq<u64>)
    requires forall i :: 0 <= i < |s| ==> s[i] == 0
    ensures Val64(s) == 0
  {
    if |s| > 0 {
      Val64Zeros(s[1..]);
    }
  }

  /** The two- and three-word values spelled out. */
  lemma Val64Small(s: seq<u64>)
    requires 2 <= |s| <= 3
    ensures Val64(s) == s[0] + B64 * s[1] + (if |s| == 3 then B128 * s[2] else 0)
  {
    Val64Cons(s, 0);
    Val64Cons(s, 1);
    if |s| == 3 {
      Val64Cons(s, 2);
      assert s[3..] == [];
    } else {
      assert s[2..] == [];
    }
  }

  /** The weight of word i: 2^(64 i). */
  function Place(i: nat): (r: nat)
    ensures r >= 1
  {
    if i == 0 then 1 else B64 * Place(i - 1)
  }

  /** Appending a word adds it at its place. */
  lemma {:induction false} Val64Snoc(s: seq<u64>, i: nat)
    requires i < |s|
    ensures Val64(s[..i + 1]) == Val64(s[..i]) + Place(i) * s[i]
  {
    if i > 0 {
      Val64Snoc(s[1..], i - 1);
      assert s[..i + 1][1..] == s[1..][..i];
      assert s[..i][1..] == s[1..][..i - 1];
      assert B64 * (Place(i - 1) * s[i]) == Place(i) * s[i];
    }
  }

  /** A value is its low i words plus the rest at place i. */
  lemma {:induction false} Val64Split(s: seq<u64>, i: nat)
    requires i <= |s|
    ensures Val64(s) == Val64(s[..i]) + Place(i) * Val64(s[i..])
  {
    if i > 0 {
      Val64Split(s[1..], i - 1);
      assert s[..i][1..] == s[1..][..i - 1];
      assert s[1..][i - 1..] == s[i..];
      assert B64 * (Place(i - 1) * Val64(s[i..])) == Place(i) * Val64(s[i..]);
    } else {
      assert s[..0] == [] && s[0..] == s;
    }
  }

  // ------------------------------------------------------------------
  // Powers of ten

  /** rgulPower10_64: 10^i for i from 0 to 19. */
  const Power10: seq<u64> := [
    1, 10, 100, 1000, 10000, 100000, 1000000, 10000000, 100000000,
    1000000000, 10000000000, 100000000000, 1000000000000,
    10000000000000, 100000000000000, 1000000000000000,
    10000000000000000, 100000000000000000, 1000000000000000000,
    10000000000000000000]

  /** The largest powers of ten that fit 64 and 32 bits. */
  const Power10Max64: nat := 19
  const Power10Max32: nat := 9

  lemma Power10Table(i: nat)
    requires i < |Power10|
    ensures Power10[i] == Pow10(i)
  {
    Pow10Values();
  }

  // ------------------------------------------------------------------
  // Facts used by ScaleResult

  /** The value is below 2^96 exactly when nothing is set above the low
      half of the second word, and it is then read from the first word and
      that half. */
  lemma Below96(s: seq<u64>)
    requires 2 <= |s| <= 3
    ensures Val64(s) < B96 <==> Hi32(s[1]) == 0 && (|s| == 3 ==> s[2] == 0)
    ensures Val64(s) < B96 ==> Val64(s) == s[0] + B64 * Lo32(s[1])
  {
    Val64Small(s);
    assert s[1] == Hi32(s[1]) * B32 + Lo32(s[1]);
  }

  /** The parity of the value is the parity of its lowest 32 bits. */
  lemma ParityLow(s: seq<u64>)
    requires |s| >= 1
    ensures Val64(s) % 2 == Lo32(s[0]) % 2
  {
    var t := Val64(s[1..]);
    assert Val64(s) == s[0] + 2 * ((B64 / 2) * t);
    assert s[0] == 2 * ((B32 / 2) * Hi32(s[0])) + Lo32(s[0]);
  }

  /** A digit between two powers of two, placed above k low bits. */
  lemma PlacedBounds(low: nat, k: nat, x: nat, msb: nat)
    requires low < Pow2(k) && Pow2(msb) <= x < Pow2(msb + 1)
    ensures Pow2(k + msb) <= low + Pow2(k) * x < Pow2(k + msb + 1)
  {
    Pow2Add(k, msb);
    Pow2Add(k, msb + 1);
    MulLe(Pow2(msb), x, Pow2(k));
    MulLe(x + 1, Pow2(msb + 1), Pow2(k));
  }

  /** The bit position found in the top non-zero word bounds the whole
      value between two powers of two. */
  lemma MsbBounds(s: seq<u64>, h: int, msb: nat)
    requires 2 <= |s| <= 3 && 0 <= h < |s|
    requires forall i :: h < i < |s| ==> s[i] == 0
    requires Pow2(msb) <= s[h] < Pow2(msb + 1)
    ensures Pow2(64 * h + msb) <= Val64(s) < Pow2(64 * h + msb + 1)
  {
    Val64Small(s);
    if h == 0 {
      PlacedBounds(0, 0, s[0], msb);
    } else if h == 1 {
      SecondWordBounds(s[0], s[1], msb);
    } else {
      ThirdWordBounds(s[0] + B64 * s[1], s[2], msb);
    }
  }

  lemma SecondWordBounds(low: u64, x: nat, msb: nat)
    requires Pow2(msb) <= x < Pow2(msb + 1)
    ensures Pow2(64 + msb) <= low + B64 * x < Pow2(64 + msb + 1)
  {
    Pow2Values();
    PlacedBounds(low, 64, x, msb);
  }

  lemma ThirdWordBounds(low: nat, x: nat, msb: nat)
    requires low < B128 && Pow2(msb) <= x < Pow2(msb + 1)
    ensures Pow2(128 + msb) <= low + B128 * x < Pow2(128 + msb + 1)
  {
    Pow2Values();
    Pow2Add(64, 64);
    PlacedBounds(low, 128, x, msb);
  }

  lemma DivLower(v: nat, p: nat, m: nat)
    requires p > 0 && v >= m * p
    ensures v / p >= m
  {
    if v / p < m {
      MulLe(v / p + 1, m, p);
      assert false;
    }
  }

  /** The scale estimate of ScaleResult: a value of at least 2^(96+e)
      still does not fit after dividing by 10^(77e/256). */
  lemma EstimateNoFit(v: nat, e: nat)
    requires e <= 95 && v >= Pow2(96 + e)
    ensures !Fits(v, Pow10((e * 77) / 256))
  {
    var k := (e * 77) / 256;
    Pow2Points();
    Pow2Add(96, e);
    LogEstimate(e);
    MulLe(Pow10(k), Pow2(e), B96);
    DivLower(v, Pow10(k), B96);
    NoFitFloor(v, Pow10(k));
  }

  /** What the bit position of the top word tells ScaleResult: with e
      the number of bits above 96, a value with e >= 0 does not fit after
      dividing by 10^(77e/256), and one with e < 0 fits as it is. */
  lemma ScaleEstimate(s: seq<u64>, h: int, msb: nat)
    requires 2 <= |s| <= 3 && 0 <= h < |s| && msb < 64
    requires forall i :: h < i < |s| ==> s[i] == 0
    requires Pow2(msb) <= s[h] < Pow2(msb + 1)
    ensures var e := 64 * h + msb - 96;
            (e >= 0 ==> !Fits(Val64(s), Pow10((e * 77) / 256)))
            && (e < 0 ==> Val64(s) < B96)
  {
    MsbBounds(s, h, msb);
    var e := 64 * h + msb - 96;
    if e >= 0 {
      Pow2Add(96, e);
      EstimateNoFit(Val64(s), e);
    } else {
      Pow2Monotone(64 * h + msb + 1, 96);
      Pow2Points();
    }
  }

  /** One truncating division step of the scaling loop: the quotient is
      the value divided by the combined power, and something was dropped
      in total exactly when this step or an earlier one dropped something. */
  lemma TruncStep(v: nat, p: nat, den: nat, valOld: nat, valNew: nat, rem: nat)
    requires p > 0 && den > 0 && valOld == v / p
    requires valOld == valNew * den + rem && rem < den
    ensures valNew == v / p / den && rem == (v / p) % den
    ensures valNew == v / (p * den)
    ensures v % (p * den) != 0 <==> rem != 0 || v % p != 0
  {
    DivModUnique(valOld, den, valNew, rem);
    DivDiv(v, p, den);
  }

  /** A division by at least ten leaves at most a tenth. */
  lemma Shrink(valOld: nat, valNew: nat, den: nat, rem: nat)
    requires den >= 10 && valOld == valNew * den + rem
    ensures valOld >= 10 * valNew
  {
    MulLe(10, den, valNew);
  }

  /** When rounding to some power of ten gives exactly 2^96, rounding to
      the next power gives 2^96 / 10 rounded up. */
  lemma CarryRound(v: nat, d: nat)
    requires d > 0 && RoundHalfEven(v, d) == B96
    ensures RoundHalfEven(v, 10 * d) == B96 / 10 + 1
  {
    RoundIsNearest(v, d);
    var r := B96 / 10 + 1;
    assert (2 * r - 1) * (10 * d) == (2 * B96 - 2) * d;
    assert (2 * r + 1) * (10 * d) == (2 * B96 + 18) * d;
    RoundUnique(v, 10 * d, r);
  }

  // ------------------------------------------------------------------
  // 96-bit increment on a word array

  /** Add96By32 on a word array: adds a 32-bit value to the 96 bits held
      in the first word and the low half of the second; the high half of
      the second word and any word above are left alone. */
  method Add96By32(a: array<u64>, value: u32) returns (carry: Carry)
    requires a.Length >= 2
    modifies a
    ensures a[0] + B64 * Lo32(a[1]) + B96 * carry == old(a[0] + B64 * Lo32(a[1])) + value
    ensures Hi32(a[1]) == old(Hi32(a[1]))
    ensures forall i :: 2 <= i < a.Length ==> a[i] == old(a[i])
  {
    var (c, lo) := AddCarry64(0, a[0], value);
    a[0] := lo;
    var (c', mid) := AddCarry32(c, Lo32(a[1]), 0);
    a[1] := Join64(Hi32(a[1]), mid);
    carry := c';
  }

  // ------------------------------------------------------------------
  // ReduceScale

  /** One word of a long division by den: the remainder carried in, the
      two 32-bit halves divided in turn. */
  lemma LimbDivStep(limb: u64, rem: nat, den: nat, qh: nat, ql: nat, r1: nat, r0: nat,
                    oldTail: nat, newTail: nat)
    requires oldTail == newTail * den + rem
    requires qh * den + r1 == rem * B32 + Hi32(limb)
    requires ql * den + r0 == r1 * B32 + Lo32(limb)
    ensures limb + B64 * oldTail == (qh * B32 + ql + B64 * newTail) * den + r0
  {
    assert limb == Hi32(limb) * B32 + Lo32(limb);
    assert (qh * B32 + ql + B64 * newTail) * den
        == (qh * den) * B32 + ql * den + B64 * (newTail * den);
  }

  /** DivideWord applied to word i of a sequence whose words above i are
      already divided: the division now covers words i and up. */
  lemma DivideWord(oldA: seq<u64>, pre: seq<u64>, i: int, den: nat, rem: nat,
                   qh: u32, ql: u32, r1: nat, r0: nat)
    requires 0 <= i < |oldA| == |pre| && oldA[i] == pre[i]
    requires Val64(oldA[i + 1..]) == Val64(pre[i + 1..]) * den + rem
    requires qh * den + r1 == rem * B32 + Hi32(oldA[i])
    requires ql * den + r0 == r1 * B32 + Lo32(oldA[i])
    ensures Val64(oldA[i..]) == Val64(pre[i := Join64(qh, ql)][i..]) * den + r0
  {
    var post := pre[i := Join64(qh, ql)];
    assert post[i + 1..] == pre[i + 1..];
    Val64Cons(oldA, i);
    Val64Cons(post, i);
    LimbDivStep(oldA[i], rem, den, qh, ql, r1, r0, Val64(oldA[i + 1..]), Val64(pre[i + 1..]));
  }

  lemma WholeDivided(oldA: seq<u64>, fin: seq<u64>, i: int, den: nat, rem: nat)
    requires i == -1 && |oldA| == |fin|
    requires Val64(oldA[i + 1..]) == Val64(fin[i + 1..]) * den + rem
    ensures Val64(oldA) == Val64(fin) * den + rem
  {
    assert oldA[i + 1..] == oldA;
    assert fin[i + 1..] == fin;
  }

  /** The word loop of ReduceScale: divides words iCur down to 0 in place,
      each 32-bit half in turn, carrying the remainder downwards. On entry
      the words above iCur are already divided and rem is what they left. */
  method DivideWords(a: array<u64>, ghost oldA: seq<u64>, iCur0: int, rem0: u32, den: u32)
      returns (rem: u32)
    requires |oldA| == a.Length && -1 <= iCur0 < a.Length
    requires forall i :: 0 <= i <= iCur0 ==> a[i] == oldA[i]
    requires Val64(oldA[iCur0 + 1..]) == Val64(a[iCur0 + 1..]) * den + rem0 && rem0 < den
    modifies a
    ensures Val64(oldA) == Val64(a[..]) * den + rem && rem < den
    ensures forall i :: iCur0 < i < a.Length ==> a[i] == old(a[i])
    ensures iCur0 >= 0 && rem0 == 0 && Hi32(old(a[iCur0])) >= den ==> a[iCur0] != 0
  {
    var iCur := iCur0;
    rem := rem0;
    while iCur >= 0
      invariant -1 <= iCur <= iCur0
      invariant forall i :: 0 <= i <= iCur ==> a[i] == oldA[i]
      invariant forall i :: iCur0 < i < a.Length ==> a[i] == old(a[i])
      invariant Val64(oldA[iCur + 1..]) == Val64(a[iCur + 1..]) * den + rem
      invariant rem < den
      invariant iCur < iCur0 && rem0 == 0 && Hi32(old(a[iCur0])) >= den ==> a[iCur0] != 0
      invariant iCur == iCur0 ==> rem == rem0
    {
      var limb := a[iCur];
      var (qh, r1) := DivMod64By32InPlace(Hi32(limb), rem, den);
      var (ql, r0) := DivMod64By32InPlace(Lo32(limb), r1, den);
      ghost var pre := a[..];
      DivideWord(oldA, pre, iCur, den, rem, qh, ql, r1, r0);
      a[iCur] := Join64(qh, ql);
      assert a[..] == pre[iCur := Join64(qh, ql)];
      rem := r0;
      iCur := iCur - 1;
    }
    ghost var fin := a[..];
    WholeDivided(oldA, fin, iCur, den, rem);
    assert Val64(oldA) == Val64(fin) * den + rem;
  }

  /** The divisor of one ReduceScale step: 10^newScale, at most 10^9. */
  function StepDivisor(newScale: nat): (den: u32)
    ensures den == Pow10(Min(newScale, Power10Max32 as int))
    ensures 10 <= den || newScale == 0
    ensures den % 2 == 0 || newScale == 0
  {
    Power10Table(Power10Max32);
    Power10Table(Min(newScale, Power10Max32 as int));
    if newScale < Power10Max32 then Power10[newScale] else Power10[Power10Max32]
  }

  /** The first division of ReduceScale, on the top word when its high half
      is below the divisor: a top word below the divisor is all remainder
      and leaves the word empty. */
  function DivideTop(top: u64, den: u32): (r: (u64, u32, bool))
    requires 0 < den && Hi32(top) < den
    ensures r.0 * den + r.1 == top && r.1 < den
    ensures r.2 <==> r.0 == 0
  {
    if Hi32(top) == 0 && Lo32(top) < den then
      (Join64(Hi32(top), 0), Lo32(top), true)
    else
      var (q, rem) := DivMod64By32InPlace(Lo32(top), Hi32(top), den);
      (Join64(0, q), rem, false)
  }

  /** Divides the words 0..hiRes in place by 10^min(newScale, 9). The
      value drops to its quotient and the remainder is returned; hiRes
      moves down by one when the top word becomes zero. */
  method ReduceScale(a: array<u64>, hiRes: int, newScale: int)
      returns (rem: u32, hiRes': int, den: u32, newScale': int)
    requires 1 <= a.Length <= 3
    requires 0 <= hiRes < a.Length
    requires forall i :: hiRes < i < a.Length ==> a[i] == 0
    requires newScale > 0
    modifies a
    ensures den == Pow10(Min(newScale, Power10Max32 as int)) && den >= 10 && den % 2 == 0
    ensures newScale' == newScale - Power10Max32
    ensures Val64(old(a[..])) == Val64(a[..]) * den + rem && rem < den
    ensures 0 <= hiRes' && (hiRes' == hiRes || (hiRes' == hiRes - 1 && a[hiRes] == 0))
    ensures forall i :: hiRes' < i < a.Length ==> a[i] == 0
    ensures hiRes' == hiRes && hiRes > 0 ==> a[hiRes] != 0
  {
    ghost var oldA := a[..];
    var iCur := hiRes;
    hiRes' := hiRes;
    rem := 0;
    den := StepDivisor(newScale);
    newScale' := newScale - Power10Max32;

    Val64Zeros(oldA[hiRes + 1..]);
    var top := a[iCur];
    if Hi32(top) < den {
      var (w, r, emptied) := DivideTop(top, den);
      rem := r;
      a[iCur] := w;
      if emptied && hiRes' > 0 {
        hiRes' := hiRes' - 1;
      }
      Val64Cons(oldA, iCur);
      Val64Cons(a[..], iCur);
      Val64Zeros(a[iCur + 1..]);
      iCur := iCur - 1;
    } else {
      Val64Zeros(a[iCur + 1..]);
    }

    rem := DivideWords(a, oldA, iCur, rem, den);
  }

  // ------------------------------------------------------------------
  // ScaleResult

  /** The conclusions ScaleResult draws when it returns: a rounded value
      below 2^96 at a scale past which nothing fits is the best fit, and a
      negative scale past which nothing fits means no scale fits. */
  lemma ConcludeFit(v: nat, scale: nat, k: int, m: nat)
    requires 0 <= k <= MaxScale && k <= scale
    requires m == RoundHalfEven(v, Pow10(scale - k)) && m < B96
    requires k < Min(scale, MaxScale) ==> !Fits(v, Pow10(scale - k - 1))
    ensures BestFit(v, scale, k, m) && !NoFit(v, scale)
  {
    FitsIff(v, Pow10(scale - k));
    Pow10Monotone(scale - k, scale);
    FitsMonotone(v, Pow10(scale - k), Pow10(scale));
  }

  lemma ConcludeNoFit(v: nat, scale: nat, k: int)
    requires k < 0 && !Fits(v, Pow10(scale - k - 1))
    ensures NoFit(v, scale)
  {
    Pow10Monotone(scale, scale - k - 1);
    if Fits(v, Pow10(scale)) {
      FitsMonotone(v, Pow10(scale), Pow10(scale - k - 1));
    }
  }

  lemma RoundByOne(v: nat)
    ensures RoundHalfEven(v, Pow10(0)) == v
  {
  }

  /** The rounding decision of ScaleResult: round the quotient q up when
      the remainder of its division by pwr is above half, or exactly half
      with q odd or something dropped earlier. */
  predicate PowerRoundsUp(q: nat, rem: nat, pwr: nat, sticky: bool)
  {
    rem > pwr / 2 || (rem == pwr / 2 && (q % 2 == 1 || sticky))
  }

  /** The state at the head of ScaleResult's loop, for the value v given at
      scale `scale`. done powers of ten have been divided out and newScale
      more are planned, leaving scale iScale. Before a carry (carried
      false) val is v truncated by 10^done and sticky or rem records
      whether the truncation dropped anything; after a carry val is 2^96,
      which is v correctly rounded by 10^done. No scale between iScale and
      min(scale, 28) fits. */
  predicate ScaleInv(v: nat, scale: int, iScale: int, done: nat, newScale: int,
                     val: nat, sticky: bool, rem: nat, carried: bool)
  {
    newScale >= 1 && done + newScale == scale - iScale
    && iScale <= MaxScale && iScale < scale
    && (iScale < Min(scale, MaxScale) ==> !Fits(v, Pow10(scale - iScale - 1)))
    && (!carried ==> val == v / Pow10(done) && ((sticky || rem != 0) <==> v % Pow10(done) != 0))
    && (carried ==> val == B96 && RoundHalfEven(v, Pow10(done)) == B96
                    && rem == 0 && !sticky && newScale == 1)
  }

  /** The state after the last planned division: the correctly rounded
      result at scale iScale is val, or val + 1 when PowerRoundsUp. */
  predicate Settled(v: nat, scale: int, iScale: int, done: nat,
                    val: nat, sticky: bool, rem: nat, pwr: nat, carried: bool)
  {
    done == scale - iScale && iScale <= MaxScale && iScale < scale
    && pwr >= 10 && pwr % 2 == 0
    && (iScale < Min(scale, MaxScale) ==> !Fits(v, Pow10(done - 1)))
    && RoundHalfEven(v, Pow10(done)) == (if PowerRoundsUp(val, rem, pwr, sticky) then val + 1 else val)
    && (carried ==> val + 1 < B96 && PowerRoundsUp(val, rem, pwr, sticky))
    && (!carried ==> val == v / Pow10(done) && ((sticky || rem != 0) <==> v % Pow10(done) != 0))
  }

  /** The loop state on entry, from the scale estimate. */
  lemma ScaleInvEntry(v: nat, scale: int, newScale: int)
    requires 1 <= newScale <= scale && scale - MaxScale <= newScale
    requires newScale > scale - MaxScale ==> !Fits(v, Pow10(newScale - 1))
    ensures ScaleInv(v, scale, scale - newScale, 0, newScale, v, false, 0, false)
  {
  }

  /** One ReduceScale step from the loop head: the value is divided by
      10^min(newScale, 9); the loop goes on while divisions are planned and
      is settled otherwise. The value shrinks at least tenfold. */
  lemma ScaleStep(v: nat, scale: int, iScale: int, done: nat, newScale: int,
                  valOld: nat, stickyOld: bool, remOld: nat, carried: bool,
                  val: nat, rem: nat, pwr: nat)
    requires ScaleInv(v, scale, iScale, done, newScale, valOld, stickyOld, remOld, carried)
    requires valOld == val * pwr + rem && rem < pwr
    requires pwr == Pow10(Min(newScale, Power10Max32 as int)) && pwr >= 10 && pwr % 2 == 0
    ensures var sticky := stickyOld || remOld != 0;
            var d := done + Min(newScale, Power10Max32 as int);
            (newScale - Power10Max32 > 0 ==>
               !carried && ScaleInv(v, scale, iScale, d, newScale - Power10Max32, val, sticky, rem, false))
            && (newScale - Power10Max32 <= 0 ==> Settled(v, scale, iScale, d, val, sticky, rem, pwr, carried))
    ensures valOld >= 10 * val
  {
    var sticky := stickyOld || remOld != 0;
    var m := Min(newScale, Power10Max32 as int);
    var p := Pow10(done);
    Pow10Add(done, m);
    Shrink(valOld, val, pwr, rem);
    if carried {
      assert pwr == 10;
      CarryRound(v, p);
    } else {
      TruncStep(v, p, pwr, valOld, val, rem);
      StickyRound(v, p, pwr);
    }
  }

  /** The settled value still needs 97 bits or more: divide by ten more. */
  lemma ExtraStep(v: nat, scale: int, iScale: int, done: nat,
                  val: nat, sticky: bool, rem: nat, pwr: nat, carried: bool)
    requires Settled(v, scale, iScale, done, val, sticky, rem, pwr, carried)
    requires val >= B96
    ensures !carried && ScaleInv(v, scale, iScale - 1, done, 1, val, sticky, rem, false)
  {
    NoFitFloor(v, Pow10(done));
  }

  /** Rounding up carried out of 96 bits: the result is 2^96, one more
      division by ten is due. */
  lemma CarryStep(v: nat, scale: int, iScale: int, done: nat,
                  val: nat, sticky: bool, rem: nat, pwr: nat, carried: bool)
    requires Settled(v, scale, iScale, done, val, sticky, rem, pwr, carried)
    requires PowerRoundsUp(val, rem, pwr, sticky) && val == B96 - 1
    ensures !carried && ScaleInv(v, scale, iScale - 1, done, 1, B96, false, 0, true)
  {
    FitsIff(v, Pow10(done));
  }

  /** The settled and rounded value is the result, unless the scale went
      negative, in which case no scale fits. */
  lemma SettledResult(v: nat, scale: int, iScale: int, done: nat,
                      val: nat, sticky: bool, rem: nat, pwr: nat, carried: bool, m: nat)
    requires 0 <= scale
    requires Settled(v, scale, iScale, done, val, sticky, rem, pwr, carried)
    requires m == (if PowerRoundsUp(val, rem, pwr, sticky) then val + 1 else val) && m < B96
    ensures iScale >= 0 ==> BestFit(v, scale, iScale, m) && !NoFit(v, scale)
    ensures iScale < 0 ==> NoFit(v, scale)
  {
    if iScale >= 0 {
      ConcludeFit(v, scale, iScale, m);
    } else {
      ConcludeNoFit(v, scale, iScale);
    }
  }

  /** The rounding step at the end of ScaleResult's loop: adds one to the
      96-bit quotient when PowerRoundsUp. A carry out of 96 bits leaves exactly
      2^96 behind, with the 1 in the second word's high half. */
  method RoundUp(a: array<u64>, rem: u32, pwr: u32, sticky: bool) returns (carry: bool)
    requires 2 <= a.Length <= 3
    requires Hi32(a[1]) == 0 && (a.Length == 3 ==> a[2] == 0)
    modifies a
    ensures var q := Val64(old(a[..]));
            var up := PowerRoundsUp(q, rem, pwr, sticky);
            (carry <==> up && q == B96 - 1)
            && Val64(a[..]) == (if up then q + 1 else q)
            && (carry || (Hi32(a[1]) == 0 && (a.Length == 3 ==> a[2] == 0)))
            && (carry ==> a[0] == 0 && a[1] == B32 && (a.Length == 3 ==> a[2] == 0))
  {
    ghost var q := Val64(a[..]);
    Below96(a[..]);
    ParityLow(a[..]);
    carry := false;
    var half := pwr / 2;
    if rem > half || (rem == half && (Lo32(a[0]) % 2 == 1 || sticky)) {
      var c := Add96By32(a, 1);
      Val64Small(a[..]);
      if c != 0 {
        a[1] := Join64(1, Lo32(a[1]));
        Val64Small(a[..]);
        carry := true;
      } else {
        Below96(a[..]);
      }
    }
  }

  /** The division of a pass of ScaleResult's loop: ReduceScale, with what it
      means for the rounding state. */
  method DividePass(a: array<u64>, hiRes: int, newScale: int,
                    ghost v: nat, ghost scale: int, ghost iScale: int, ghost done: nat,
                    ghost sticky: bool, ghost remOld: nat, ghost carried: bool, ghost sticky': bool)
      returns (rem: u32, hiRes': int, pwr: u32, newScale': int, ghost done': nat)
    requires 2 <= a.Length <= 3 && 0 <= hiRes < a.Length
    requires hiRes < 1 ==> a[1] == 0
    requires hiRes < 2 && a.Length == 3 ==> a[2] == 0
    requires ScaleInv(v, scale, iScale, done, newScale, Val64(a[..]), sticky, remOld, carried)
    requires sticky' == (sticky || remOld != 0)
    modifies a
    ensures done' == done + Min(newScale, Power10Max32 as int)
    ensures 0 <= hiRes' < a.Length
    ensures hiRes' < 1 ==> a[1] == 0
    ensures hiRes' < 2 && a.Length == 3 ==> a[2] == 0
    ensures hiRes' == 2 ==> a[2] != 0
    ensures newScale' == newScale - Power10Max32 && newScale' < newScale
    ensures Val64(a[..]) <= Val64(old(a[..])) / 10
    ensures newScale' > 0 ==>
              !carried && ScaleInv(v, scale, iScale, done', newScale', Val64(a[..]), sticky', rem, false)
    ensures newScale' <= 0 ==> Settled(v, scale, iScale, done', Val64(a[..]), sticky', rem, pwr, carried)
  {
    done' := done + Min(newScale, Power10Max32 as int);
    ghost var valOld := Val64(a[..]);
    rem, hiRes', pwr, newScale' := ReduceScale(a, hiRes, newScale);
    ScaleStep(v, scale, iScale, done, newScale, valOld, sticky, remOld, carried,
              Val64(a[..]), rem, pwr);
  }

  /** How one pass of ScaleResult's loop ends once no planned division is left. */
  datatype PassEnd = TooWide | CarriedOut | Rounded

  /** The end of a pass of ScaleResult's loop: a quotient that still needs
      97 bits or more asks for one more division by ten; otherwise it is
      rounded, and a carry out of 96 bits asks for one more division too. */
  method SettlePass(a: array<u64>, hiRes: int, rem: u32, pwr: u32, sticky: bool,
                    ghost v: nat, ghost scale: int, ghost iScale: int, ghost done: nat,
                    ghost carried: bool)
    returns (e: PassEnd)
    requires 2 <= a.Length <= 3 && 0 <= hiRes < a.Length
    requires hiRes < 1 ==> a[1] == 0
    requires hiRes < 2 && a.Length == 3 ==> a[2] == 0
    requires hiRes == 2 ==> a[2] != 0
    requires 0 <= scale
    requires Settled(v, scale, iScale, done, Val64(a[..]), sticky, rem, pwr, carried)
    modifies a
    ensures e == TooWide ==>
              a[..] == old(a[..]) && hiRes > 0 && Val64(a[..]) >= B96
              && ScaleInv(v, scale, iScale - 1, done, 1, Val64(a[..]), sticky, rem, false)
    ensures e == CarriedOut ==>
              hiRes == 1 && Val64(old(a[..])) == B96 - 1 && Val64(a[..]) == B96 && a[0] == 0 && a[1] == B32 && (a.Length == 3 ==> a[2] == 0)
              && ScaleInv(v, scale, iScale - 1, done, 1, B96, false, 0, true)
    ensures e == Rounded ==>
              Hi32(a[1]) == 0 && (a.Length == 3 ==> a[2] == 0)
              && (iScale >= 0 ==> BestFit(v, scale, iScale, Val64(a[..])) && !NoFit(v, scale))
              && (iScale < 0 ==> NoFit(v, scale))
  {
    Below96(a[..]);
    if hiRes > 1 || Hi32(a[1]) != 0 {
      ExtraStep(v, scale, iScale, done, Val64(a[..]), sticky, rem, pwr, carried);
      return TooWide;
    }
    ghost var q := Val64(a[..]);
    var carry := RoundUp(a, rem, pwr, sticky);
    if carry {
      CarryStep(v, scale, iScale, done, q, sticky, rem, pwr, carried);
      Val64Small(a[..]);
      return CarriedOut;
    }
    SettledResult(v, scale, iScale, done, q, sticky, rem, pwr, carried, Val64(a[..]));
    return Rounded;
  }

  /** The loop of ScaleResult: divides by the planned powers of ten, and by
      ten more while the quotient needs more than 96 bits or rounding
      carried out of them, then rounds half to even. */
  method ScaleDown(a: array<u64>, hiRes0: int, ghost scale: int, iScale0: int, newScale0: int)
      returns (r: int)
    requires 2 <= a.Length <= 3 && 0 <= hiRes0 < a.Length
    requires hiRes0 < 1 ==> a[1] == 0
    requires hiRes0 < 2 && a.Length == 3 ==> a[2] == 0
    requires 0 <= scale
    requires ScaleInv(Val64(a[..]), scale, iScale0, 0, newScale0, Val64(a[..]), false, 0, false)
    modifies a
    ensures r == -1 <==> NoFit(Val64(old(a[..])), scale)
    ensures r != -1 ==> BestFit(Val64(old(a[..])), scale, r, Val64(a[..]))
    ensures r != -1 ==> Hi32(a[1]) == 0 && (a.Length == 3 ==> a[2] == 0)
  {
    ghost var v := Val64(a[..]);
    var hiRes := hiRes0;
    var iScale := iScale0;
    var newScale := newScale0;
    var sticky := false;
    var rem: u32 := 0;
    ghost var done: nat := 0;
    ghost var carried := false;
    while true
      invariant 0 <= hiRes < a.Length
      invariant hiRes < 1 ==> a[1] == 0
      invariant hiRes < 2 && a.Length == 3 ==> a[2] == 0
      invariant carried ==> hiRes == 1
      invariant ScaleInv(v, scale, iScale, done, newScale, Val64(a[..]), sticky, rem, carried)
      decreases Val64(a[..]), newScale
    {
      ghost var valOld := Val64(a[..]);
      ghost var nsOld := newScale;
      ghost var stickyOld := sticky;
      ghost var remOld := rem;
      sticky := sticky || rem != 0;
      var pwr: u32;
      rem, hiRes, pwr, newScale, done := DividePass(a, hiRes, newScale, v, scale, iScale, done,
                                                    stickyOld, remOld, carried, sticky);
      if newScale > 0 {
        continue;
      }
      ghost var q := Val64(a[..]);
      var e := SettlePass(a, hiRes, rem, pwr, sticky, v, scale, iScale, done, carried);
      if e == TooWide {
        newScale := 1;
        iScale := iScale - 1;
        carried := false;
        assert Val64(a[..]) == q < valOld;
        continue;
      } else if e == CarriedOut {
        sticky := false;
        rem := 0;
        newScale := 1;
        iScale := iScale - 1;
        carried := true;
        assert B96 < valOld;
        continue;
      }
      if iScale < 0 {
        return -1;
      }
      return iScale;
    }
  }

  /** Brings a product or sum of up to 192 bits, at a scale of up to 56,
      back into a DECIMAL: divides by the fewest powers of ten that make it
      fit 96 bits at a scale of at most 28, rounding half to even. Returns
      the new scale, with the rounded mantissa in the low 96 bits of a, or
      -1 when even scale 0 cannot hold the value. */
  method ScaleResult(a: array<u64>, hiRes: int, scale: int) returns (r: int)
    requires 2 <= a.Length <= 3
    requires 0 <= hiRes < a.Length && a[hiRes] != 0
    requires forall i :: hiRes < i < a.Length ==> a[i] == 0
    requires 0 <= scale <= 2 * MaxScale
    modifies a
    ensures r == -1 <==> NoFit(Val64(old(a[..])), scale)
    ensures r != -1 ==> BestFit(Val64(old(a[..])), scale, r, Val64(a[..]))
    ensures r != -1 ==> Hi32(a[1]) == 0 && (a.Length == 3 ==> a[2] == 0)
  {
    ghost var v := Val64(a[..]);
    var (found, msb) := BitScanMsb64(a[hiRes]);
    ScaleEstimate(a[..], hiRes, msb);
    var newScale := hiRes * 64 + msb - 96;
    if newScale >= 0 {
      newScale := (newScale * 77) / 256 + 1;
      if newScale > scale {
        ConcludeNoFit(v, scale, scale - newScale);
        return -1;
      }
    } else {
      newScale := 0;
    }
    if newScale < scale - MaxScale {
      newScale := scale - MaxScale;
    }
    if newScale != 0 {
      ScaleInvEntry(v, scale, newScale);
      r := ScaleDown(a, hiRes, scale, scale - newScale, newScale);
      return;
    }
    Below96(a[..]);
    RoundByOne(v);
    ConcludeFit(v, scale, scale, v);
    return scale;
  }

  /** The DECIMAL ScaleResult leaves behind: its low 96 bits with the
      returned scale, or an overflow when it returned -1. */
  method WordsResult(a: array<u64>, k: int, neg: bool, ghost v: nat, ghost s: nat)
      returns (res: Result)
    requires 2 <= a.Length <= 3
    requires k == -1 <==> NoFit(v, s)
    requires k != -1 ==> BestFit(v, s, k, Val64(a[..]))
    requires k != -1 ==> Hi32(a[1]) == 0 && (a.Length == 3 ==> a[2] == 0)
    ensures RoundedTo(v, s, neg, res)
    ensures res.Success? ==> res.value.neg == neg
    ensures res.Success? && Mantissa(res.value) == 0 ==> res.value.scale == Min(s, MaxScale)
  {
    if k == -1 {
      OverflowResult(v, s, neg);
      return Failure(Overflow);
    }
    Val64Small(a[..]);
    res := Success(Decimal(neg, k, Lo32(a[1]), a[0]));
    FitResult(v, s, neg, res.value);
    if Mantissa(res.value) == 0 {
      ZeroBestFit(v, s, k);
    }
  }
}
