/** What a correctly rounded decimal result is. A result mantissa is the
    exact value divided by a power of ten and rounded to the nearest
    integer, ties to even; it must fit in 96 bits; and among the scales
    0..28 the largest one whose rounded mantissa fits is chosen. */
module Rounding {
  import opened Primitives

  const MaxScale: nat := 28

  function Min(a: int, b: int): int { if a <= b then a else b }

  function Max(a: int, b: int): int { if a >= b then a else b }

  /** n / d rounded to the nearest integer, halfway cases to the even
      neighbour. */
  function RoundHalfEven(n: nat, d: nat): nat
    requires d > 0
  {
    var q := n / d;
    var rem := n % d;
    if 2 * rem > d || (2 * rem == d && q % 2 == 1) then q + 1 else q
  }

  /** Associativity of a triple product, with the inner product named. */
  lemma Associate(x: int, y: int, z: int, yz: int)
    requires yz == y * z
    ensures x * y * z == x * yz
  {
  }

  lemma MulLe(a: int, b: int, c: int)
    requires a <= b && c >= 0
    ensures a * c <= b * c
  {
  }

  /** RoundHalfEven is the integer nearest to n / d, and on a tie it is
      even. */
  lemma RoundIsNearest(n: nat, d: nat)
    requires d > 0
    ensures var r := RoundHalfEven(n, d);
            (2 * r - 1) * d <= 2 * n <= (2 * r + 1) * d
            && (2 * n == (2 * r - 1) * d || 2 * n == (2 * r + 1) * d ==> r % 2 == 0)
  {
    var q := n / d;
    var rem := n % d;
    assert n == q * d + rem;
    assert (2 * q - 1) * d == 2 * (q * d) - d;
    assert (2 * q + 1) * d == 2 * (q * d) + d;
    assert (2 * q + 3) * d == 2 * (q * d) + 3 * d;
  }

  /** Any integer nearest to n / d that is even on a tie is
      RoundHalfEven(n, d). */
  lemma RoundUnique(n: nat, d: nat, r: int)
    requires d > 0
    requires (2 * r - 1) * d <= 2 * n <= (2 * r + 1) * d
    requires 2 * n == (2 * r - 1) * d || 2 * n == (2 * r + 1) * d ==> r % 2 == 0
    ensures r == RoundHalfEven(n, d)
  {
    var q := n / d;
    var rem := n % d;
    var qd := q * d;
    var rd := r * d;
    assert n == qd + rem;
    assert (2 * r - 1) * d == 2 * rd - d;
    assert (2 * r + 1) * d == 2 * rd + d;
    assert (q - 1) * d == qd - d;
    assert (q + 2) * d == qd + 2 * d;
    if r <= q - 1 {
      MulLe(r, q - 1, d);
      assert false;
    } else if r >= q + 2 {
      MulLe(q + 2, r, d);
      assert false;
    } else if r == q + 1 {
      assert rd == qd + d;
    } else {
      assert rd == qd;
    }
  }

  /** v / p1 / p2 == v / (p1 * p2). */
  lemma DivDiv(v: nat, p1: nat, p2: nat)
    requires p1 > 0 && p2 > 0
    ensures v / p1 / p2 == v / (p1 * p2)
    ensures v % (p1 * p2) == ((v / p1) % p2) * p1 + v % p1
  {
    var a := v / p1;
    var b := a / p2;
    var ra := v % p1;
    var rb := a % p2;
    assert v == b * (p1 * p2) + (rb * p1 + ra) by {
      assert v == a * p1 + ra;
      assert a == b * p2 + rb;
      assert a * p1 == b * (p1 * p2) + rb * p1;
    }
    MulLe(rb, p2 - 1, p1);
    DivModUnique(v, p1 * p2, b, rb * p1 + ra);
  }

  lemma DivModUnique(n: int, d: int, q: int, r: int)
    requires d > 0 && n == q * d + r && 0 <= r < d
    ensures n / d == q && n % d == r
  {
    var q' := n / d;
    var r' := n % d;
    assert (q - q') * d == r' - r;
    if q > q' {
      MulLe(1, q - q', d);
    } else if q < q' {
      MulLe(1, q' - q, d);
    }
  }

  /** Rounding done in two stages, as the scaling loops do it: first a
      truncating division by p1 that only remembers whether it dropped
      anything (the sticky bit), then a division by the even p2 whose
      remainder is compared with p2 / 2. The outcome is the correctly
      rounded v / (p1 * p2). */
  lemma StickyRound(v: nat, p1: nat, p2: nat)
    requires p1 > 0 && p2 > 0 && p2 % 2 == 0
    ensures var q := v / p1 / p2;
            var rem := (v / p1) % p2;
            var sticky := v % p1 != 0;
            RoundHalfEven(v, p1 * p2)
              == if rem > p2 / 2 || (rem == p2 / 2 && (q % 2 == 1 || sticky)) then q + 1 else q
  {
    DivDiv(v, p1, p2);
    var rem := (v / p1) % p2;
    var low := v % p1;
    var h := p2 / 2;
    assert p1 * p2 == 2 * (h * p1);
    if rem > h {
      MulLe(h + 1, rem, p1);
    } else if rem < h {
      MulLe(rem, h - 1, p1);
    }
  }

  // ------------------------------------------------------------------
  // Fitting in 96 bits

  /** The correctly rounded n / d fits in 96 bits. */
  predicate Fits(n: nat, d: nat)
  {
    2 * n < (2 * B96 - 1) * d
  }

  lemma FitsIff(n: nat, d: nat)
    requires d > 0
    ensures RoundHalfEven(n, d) < B96 <==> Fits(n, d)
  {
    var q := n / d;
    var rem := n % d;
    assert n == q * d + rem;
    if q >= B96 {
      MulLe(B96, q, d);
    } else if q <= B96 - 2 {
      MulLe(q, B96 - 2, d);
    } else {
      assert q * d == B96 * d - d;
    }
  }

  /** A larger divisor never makes the rounded result stop fitting. */
  lemma FitsMonotone(n: nat, d1: nat, d2: nat)
    requires 0 < d1 <= d2 && Fits(n, d1)
    ensures Fits(n, d2)
  {
  }

  lemma NoFitFloor(n: nat, d: nat)
    requires d > 0 && n / d >= B96
    ensures !Fits(n, d)
  {
    FitsIff(n, d);
  }

  /** k is the scale chosen for the exact value v given at scale s, and m
      its mantissa: k is at most min(s, 28), m is v correctly rounded to
      scale k and fits in 96 bits, and no larger allowed scale fits. */
  predicate BestFit(v: nat, s: nat, k: int, m: nat)
  {
    0 <= k <= Min(s, MaxScale)
    && m == RoundHalfEven(v, Pow10(s - k))
    && Fits(v, Pow10(s - k))
    && (k < Min(s, MaxScale) ==> !Fits(v, Pow10(s - k - 1)))
  }

  /** The value v at scale s cannot be represented: it does not fit even at
      scale 0, where it is divided by the largest power of ten. */
  predicate NoFit(v: nat, s: nat)
  {
    !Fits(v, Pow10(s))
  }

  // ------------------------------------------------------------------
  // Powers

  lemma {:induction false} Pow10Add(a: nat, b: nat)
    ensures Pow10(a + b) == Pow10(a) * Pow10(b)
  {
    if b > 0 {
      Pow10Add(a, b - 1);
      assert Pow10(a + b) == 10 * Pow10(a + b - 1);
    }
  }

  lemma {:induction false} Pow10Monotone(a: nat, b: nat)
    requires a <= b
    ensures Pow10(a) <= Pow10(b)
  {
    if a < b {
      Pow10Monotone(a, b - 1);
    }
  }

  lemma Pow10Even(n: nat)
    requires n > 0
    ensures Pow10(n) % 2 == 0
  {
    assert Pow10(n) == 2 * (5 * Pow10(n - 1));
  }

  /** A fit at scale k implies a fit at every smaller scale, and a missing
      fit at scale k means no larger scale fits either. */
  lemma {:induction false} FitsDown(v: nat, s: nat, j: nat, k: nat)
    requires j <= k <= s
    ensures Fits(v, Pow10(s - k)) ==> Fits(v, Pow10(s - j))
  {
    Pow10Monotone(s - k, s - j);
    if Fits(v, Pow10(s - k)) {
      FitsMonotone(v, Pow10(s - k), Pow10(s - j));
    }
  }

  /** A value that rounds to zero is a zero at the finest allowed scale:
      one scale finer, its quotient is at most five, which fits. */
  lemma ZeroBestFit(v: nat, s: nat, k: int)
    requires BestFit(v, s, k, 0)
    ensures k == Min(s, MaxScale)
  {
    if k < Min(s, MaxScale) {
      TenthFits(v, Pow10(s - k - 1));
    }
  }

  /** A value that rounds to zero against ten times d fits against d. */
  lemma TenthFits(v: nat, d: nat)
    requires d > 0 && RoundHalfEven(v, 10 * d) == 0
    ensures Fits(v, d)
  {
    assert 2 * v <= 10 * d;
  }

  /** There is at most one best fit. */
  lemma BestFitUnique(v: nat, s: nat, k1: int, m1: nat, k2: int, m2: nat)
    requires BestFit(v, s, k1, m1) && BestFit(v, s, k2, m2)
    ensures k1 == k2 && m1 == m2
  {
    if k1 < k2 {
      FitsDown(v, s, k1 + 1, k2);
    } else if k2 < k1 {
      FitsDown(v, s, k2 + 1, k1);
    }
  }

  /** NoFit means that no allowed scale gives a mantissa below 2^96. */
  lemma NoFitMeansNone(v: nat, s: nat, k: nat)
    requires k <= Min(s, MaxScale)
    ensures NoFit(v, s) ==> RoundHalfEven(v, Pow10(s - k)) >= B96
  {
    FitsDown(v, s, 0, k);
    FitsIff(v, Pow10(s - k));
  }

  lemma Pow2Points()
    ensures Pow2(0) == 1
       && Pow2(4) == 16
       && Pow2(7) == 128
       && Pow2(10) == 1024
       && Pow2(14) == 16384
       && Pow2(17) == 131072
       && Pow2(20) == 1048576
       && Pow2(24) == 16777216
       && Pow2(27) == 134217728
       && Pow2(30) == 1073741824
       && Pow2(34) == 17179869184
       && Pow2(37) == 137438953472
       && Pow2(40) == 1099511627776
       && Pow2(44) == 17592186044416
       && Pow2(47) == 140737488355328
       && Pow2(50) == 1125899906842624
       && Pow2(54) == 18014398509481984
       && Pow2(57) == 144115188075855872
       && Pow2(60) == 1152921504606846976
       && Pow2(64) == 18446744073709551616
       && Pow2(67) == 147573952589676412928
       && Pow2(70) == 1180591620717411303424
       && Pow2(74) == 18889465931478580854784
       && Pow2(77) == 151115727451828646838272
       && Pow2(80) == 1208925819614629174706176
       && Pow2(84) == 19342813113834066795298816
       && Pow2(87) == 154742504910672534362390528
       && Pow2(90) == 1237940039285380274899124224
       && Pow2(94) == 19807040628566084398385987584
    ensures Pow2(96) == B96
  {
    assert Pow2(1) == 2;
    assert Pow2(2) == 4;
    assert Pow2(3) == 8;
    assert Pow2(4) == 16;
    assert Pow2(5) == 32;
    assert Pow2(6) == 64;
    assert Pow2(7) == 128;
    assert Pow2(8) == 256;
    assert Pow2(9) == 512;
    assert Pow2(10) == 1024;
    assert Pow2(11) == 2048;
    assert Pow2(12) == 4096;
    assert Pow2(13) == 8192;
    assert Pow2(14) == 16384;
    assert Pow2(15) == 32768;
    assert Pow2(16) == 65536;
    assert Pow2(17) == 131072;
    assert Pow2(18) == 262144;
    assert Pow2(19) == 524288;
    assert Pow2(20) == 1048576;
    assert Pow2(21) == 2097152;
    assert Pow2(22) == 4194304;
    assert Pow2(23) == 8388608;
    assert Pow2(24) == 16777216;
    assert Pow2(25) == 33554432;
    assert Pow2(26) == 67108864;
    assert Pow2(27) == 134217728;
    assert Pow2(28) == 268435456;
    assert Pow2(29) == 536870912;
    assert Pow2(30) == 1073741824;
    assert Pow2(31) == 2147483648;
    assert Pow2(32) == 4294967296;
    assert Pow2(33) == 8589934592;
    assert Pow2(34) == 17179869184;
    assert Pow2(35) == 34359738368;
    assert Pow2(36) == 68719476736;
    assert Pow2(37) == 137438953472;
    assert Pow2(38) == 274877906944;
    assert Pow2(39) == 549755813888;
    assert Pow2(40) == 1099511627776;
    assert Pow2(41) == 2199023255552;
    assert Pow2(42) == 4398046511104;
    assert Pow2(43) == 8796093022208;
    assert Pow2(44) == 17592186044416;
    assert Pow2(45) == 35184372088832;
    assert Pow2(46) == 70368744177664;
    assert Pow2(47) == 140737488355328;
    assert Pow2(48) == 281474976710656;
    assert Pow2(49) == 562949953421312;
    assert Pow2(50) == 1125899906842624;
    assert Pow2(51) == 2251799813685248;
    assert Pow2(52) == 4503599627370496;
    assert Pow2(53) == 9007199254740992;
    assert Pow2(54) == 18014398509481984;
    assert Pow2(55) == 36028797018963968;
    assert Pow2(56) == 72057594037927936;
    assert Pow2(57) == 144115188075855872;
    assert Pow2(58) == 288230376151711744;
    assert Pow2(59) == 576460752303423488;
    assert Pow2(60) == 1152921504606846976;
    assert Pow2(61) == 2305843009213693952;
    assert Pow2(62) == 4611686018427387904;
    assert Pow2(63) == 9223372036854775808;
    assert Pow2(64) == 18446744073709551616;
    assert Pow2(65) == 36893488147419103232;
    assert Pow2(66) == 73786976294838206464;
    assert Pow2(67) == 147573952589676412928;
    assert Pow2(68) == 295147905179352825856;
    assert Pow2(69) == 590295810358705651712;
    assert Pow2(70) == 1180591620717411303424;
    assert Pow2(71) == 2361183241434822606848;
    assert Pow2(72) == 4722366482869645213696;
    assert Pow2(73) == 9444732965739290427392;
    assert Pow2(74) == 18889465931478580854784;
    assert Pow2(75) == 37778931862957161709568;
    assert Pow2(76) == 75557863725914323419136;
    assert Pow2(77) == 151115727451828646838272;
    assert Pow2(78) == 302231454903657293676544;
    assert Pow2(79) == 604462909807314587353088;
    assert Pow2(80) == 1208925819614629174706176;
    assert Pow2(81) == 2417851639229258349412352;
    assert Pow2(82) == 4835703278458516698824704;
    assert Pow2(83) == 9671406556917033397649408;
    assert Pow2(84) == 19342813113834066795298816;
    assert Pow2(85) == 38685626227668133590597632;
    assert Pow2(86) == 77371252455336267181195264;
    assert Pow2(87) == 154742504910672534362390528;
    assert Pow2(88) == 309485009821345068724781056;
    assert Pow2(89) == 618970019642690137449562112;
    assert Pow2(90) == 1237940039285380274899124224;
    assert Pow2(91) == 2475880078570760549798248448;
    assert Pow2(92) == 4951760157141521099596496896;
    assert Pow2(93) == 9903520314283042199192993792;
    assert Pow2(94) == 19807040628566084398385987584;
    assert Pow2(95) == 39614081257132168796771975168;
    assert Pow2(96) == 79228162514264337593543950336;
  }

  lemma Pow10Values()
    ensures Pow10(0) == 1
       && Pow10(1) == 10
       && Pow10(2) == 100
       && Pow10(3) == 1000
       && Pow10(4) == 10000
       && Pow10(5) == 100000
       && Pow10(6) == 1000000
       && Pow10(7) == 10000000
       && Pow10(8) == 100000000
       && Pow10(9) == 1000000000
       && Pow10(10) == 10000000000
       && Pow10(11) == 100000000000
       && Pow10(12) == 1000000000000
       && Pow10(13) == 10000000000000
       && Pow10(14) == 100000000000000
       && Pow10(15) == 1000000000000000
       && Pow10(16) == 10000000000000000
       && Pow10(17) == 100000000000000000
       && Pow10(18) == 1000000000000000000
       && Pow10(19) == 10000000000000000000
       && Pow10(20) == 100000000000000000000
       && Pow10(21) == 1000000000000000000000
       && Pow10(22) == 10000000000000000000000
       && Pow10(23) == 100000000000000000000000
       && Pow10(24) == 1000000000000000000000000
       && Pow10(25) == 10000000000000000000000000
       && Pow10(26) == 100000000000000000000000000
       && Pow10(27) == 1000000000000000000000000000
       && Pow10(28) == 10000000000000000000000000000
  {
    assert Pow10(1) == 10;
    assert Pow10(2) == 100;
    assert Pow10(3) == 1000;
    assert Pow10(4) == 10000;
    assert Pow10(5) == 100000;
    assert Pow10(6) == 1000000;
    assert Pow10(7) == 10000000;
    assert Pow10(8) == 100000000;
    assert Pow10(9) == 1000000000;
    assert Pow10(10) == 10000000000;
    assert Pow10(11) == 100000000000;
    assert Pow10(12) == 1000000000000;
    assert Pow10(13) == 10000000000000;
    assert Pow10(14) == 100000000000000;
    assert Pow10(15) == 1000000000000000;
    assert Pow10(16) == 10000000000000000;
    assert Pow10(17) == 100000000000000000;
    assert Pow10(18) == 1000000000000000000;
    assert Pow10(19) == 10000000000000000000;
    assert Pow10(20) == 100000000000000000000;
    assert Pow10(21) == 1000000000000000000000;
    assert Pow10(22) == 10000000000000000000000;
    assert Pow10(23) == 100000000000000000000000;
    assert Pow10(24) == 1000000000000000000000000;
    assert Pow10(25) == 10000000000000000000000000;
    assert Pow10(26) == 100000000000000000000000000;
    assert Pow10(27) == 1000000000000000000000000000;
    assert Pow10(28) == 10000000000000000000000000000;
  }

  lemma Pow10BelowPow2(k: nat)
    requires k <= 28
    ensures Pow10(k) <= Pow2((256 * k + 76) / 77)
  {
    Pow2Points();
    Pow10Values();
    if k == 0 { assert (256 * k + 76) / 77 == 0; }
    else if k == 1 { assert (256 * k + 76) / 77 == 4; }
    else if k == 2 { assert (256 * k + 76) / 77 == 7; }
    else if k == 3 { assert (256 * k + 76) / 77 == 10; }
    else if k == 4 { assert (256 * k + 76) / 77 == 14; }
    else if k == 5 { assert (256 * k + 76) / 77 == 17; }
    else if k == 6 { assert (256 * k + 76) / 77 == 20; }
    else if k == 7 { assert (256 * k + 76) / 77 == 24; }
    else if k == 8 { assert (256 * k + 76) / 77 == 27; }
    else if k == 9 { assert (256 * k + 76) / 77 == 30; }
    else if k == 10 { assert (256 * k + 76) / 77 == 34; }
    else if k == 11 { assert (256 * k + 76) / 77 == 37; }
    else if k == 12 { assert (256 * k + 76) / 77 == 40; }
    else if k == 13 { assert (256 * k + 76) / 77 == 44; }
    else if k == 14 { assert (256 * k + 76) / 77 == 47; }
    else if k == 15 { assert (256 * k + 76) / 77 == 50; }
    else if k == 16 { assert (256 * k + 76) / 77 == 54; }
    else if k == 17 { assert (256 * k + 76) / 77 == 57; }
    else if k == 18 { assert (256 * k + 76) / 77 == 60; }
    else if k == 19 { assert (256 * k + 76) / 77 == 64; }
    else if k == 20 { assert (256 * k + 76) / 77 == 67; }
    else if k == 21 { assert (256 * k + 76) / 77 == 70; }
    else if k == 22 { assert (256 * k + 76) / 77 == 74; }
    else if k == 23 { assert (256 * k + 76) / 77 == 77; }
    else if k == 24 { assert (256 * k + 76) / 77 == 80; }
    else if k == 25 { assert (256 * k + 76) / 77 == 84; }
    else if k == 26 { assert (256 * k + 76) / 77 == 87; }
    else if k == 27 { assert (256 * k + 76) / 77 == 90; }
    else { assert (256 * k + 76) / 77 == 94; }
  }

  /** The scale estimate of the scaling code: multiplying a bit count e
      below 96 by 77/256 (just under log10 2) never overshoots, that is
      10^(77e/256) <= 2^e. */
  lemma LogEstimate(e: nat)
    requires e <= 95
    ensures Pow10((e * 77) / 256) <= Pow2(e)
  {
    var k := (e * 77) / 256;
    Pow10BelowPow2(k);
    Pow2Monotone((256 * k + 76) / 77, e);
  }
}
