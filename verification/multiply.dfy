/** DecimalMul: the product of two DECIMALs, exact when it fits and
    otherwise brought back to 96 bits by ScaleResult. */
module Multiply {
  import opened Primitives
  import opened Rounding
  import opened Decimals
  import opened Scaling

  /** A product of two-word numbers, multiplied out. */
  lemma Expand(h1: int, l1: int, h2: int, l2: int, b: int)
    ensures (h1 * b + l1) * (h2 * b + l2) == l1 * l2 + b * (l1 * h2 + l2 * h1) + b * b * (h1 * h2)
  {
  }

  /** The additions of the partial products, with their carries made
      explicit: the sum is the full product plus 2^192 times the carries
      dropped out of the top word. */
  lemma CarryChain(lowProd: int, cross1: int, cross2: int, highProd: int,
                   p0: u64, sum: u64, lo: u64, hi1: u32, lo2: u64, hi2: u32,
                   sum1: u64, c1: Carry, p2a: u64, d1: Carry,
                   sum2: u64, c2: Carry, p2b: u64, d2: Carry)
    requires p0 + B64 * sum == lowProd
    requires lo + B64 * hi1 == cross1 && lo2 + B64 * hi2 == cross2
    requires sum1 + B64 * c1 == lo + sum && p2a + B64 * d1 == c1 + hi1 + highProd
    requires sum2 + B64 * c2 == lo2 + sum1 && p2b + B64 * d2 == c2 + hi2 + p2a
    ensures lowProd + B64 * (cross1 + cross2) + B128 * highProd
            == p0 + B64 * sum2 + B128 * p2b + B128 * B64 * (d1 + d2)
  {
  }

  /** The 192-bit identity behind the partial products; the product is
      below 2^192, so the carries dropped out of the top word are zero. */
  lemma ProductWords(lLo: u64, lHi: u32, rLo: u64, rHi: u32,
                     p0: u64, sum: u64, p2: u64, lo: u64, hi1: u32, lo2: u64, hi2: u32,
                     sum1: u64, c1: Carry, p2a: u64, d1: Carry,
                     sum2: u64, c2: Carry, p2b: u64, d2: Carry)
    requires p0 + B64 * sum == lLo * rLo && p2 == lHi * rHi
    requires lo + B64 * hi1 == lLo * rHi && lo2 + B64 * hi2 == rLo * lHi
    requires sum1 + B64 * c1 == lo + sum && p2a + B64 * d1 == c1 + hi1 + p2
    requires sum2 + B64 * c2 == lo2 + sum1 && p2b + B64 * d2 == c2 + hi2 + p2a
    ensures d1 == 0 && d2 == 0
    ensures p0 + B64 * sum2 + B128 * p2b == (lHi * B64 + lLo) * (rHi * B64 + rLo)
  {
    var l := lHi * B64 + lLo;
    var r := rHi * B64 + rLo;
    Expand(lHi, lLo, rHi, rLo, B64);
    CarryChain(lLo * rLo, lLo * rHi, rLo * lHi, p2, p0, sum, lo, hi1, lo2, hi2,
               sum1, c1, p2a, d1, sum2, c2, p2b, d2);
    MulBounds(l, r, B96 - 1, B96 - 1);
  }

  /** The nine partial products of a product with an operand above 64
      bits, accumulated into three 64-bit words: the low words multiplied,
      the high words multiplied, and the two crosswise products added in
      the middle with their carries propagated to the top word. */
  function PartialProducts(lLo: u64, lHi: u32, rLo: u64, rHi: u32): (r: (u64, u64, u64))
    ensures r.0 + B64 * r.1 + B128 * r.2 == (lHi * B64 + lLo) * (rHi * B64 + rLo)
  {
    var (p0, sum) := Mul64By64(lLo, rLo);
    var p2 := Mul32By32(lHi, rHi);
    var (lo, hi1) := Mul64By32(lLo, rHi);
    var (c1, sum1) := AddCarry64(0, lo, sum);
    var (d1, p2a) := AddCarry64(c1, hi1, p2);
    var (lo2, hi2) := Mul64By32(rLo, lHi);
    var (c2, sum2) := AddCarry64(0, lo2, sum1);
    var (d2, p2b) := AddCarry64(c2, hi2, p2a);
    ProductWords(lLo, lHi, rLo, rHi, p0, sum, p2, lo, hi1, lo2, hi2,
                 sum1, c1, p2a, d1, sum2, c2, p2b, d2);
    (p0, sum2, p2b)
  }

  /** One division by an even power of ten, rounded half to even. */
  lemma RoundOnce(v: nat, pwr: nat, q: nat, rem: nat)
    requires pwr > 0 && pwr % 2 == 0
    requires v == q * pwr + rem && rem < pwr
    ensures RoundHalfEven(v, pwr)
            == if rem > pwr / 2 || (rem == pwr / 2 && q % 2 == 1) then q + 1 else q
  {
    DivModUnique(v, pwr, q, rem);
  }

  /** The rounding of the 64-bit fast path: one division by 10^k with
      k = scale - 28 at most 19, rounded half to even, gives the best fit
      at scale 28. */
  lemma FastRound(v: nat, s: nat, pwr: nat, q: nat, rem: nat, m: nat)
    requires MaxScale < s && s - MaxScale <= Power10Max64
    requires v < B64 && pwr == Pow10(s - MaxScale)
    requires v == q * pwr + rem && rem < pwr
    requires m == if rem > pwr / 2 || (rem == pwr / 2 && q % 2 == 1) then q + 1 else q
    ensures BestFit(v, s, MaxScale, m) && !NoFit(v, s) && m < B64
  {
    FastQuotient(v, s - MaxScale, pwr, q, rem, m);
    FitsIff(v, pwr);
    FitsDown(v, s, 0, MaxScale);
  }

  /** The rounded quotient by 10^k, k >= 1, of a 64-bit value is at most
      a tenth of it. */
  lemma FastQuotient(v: nat, k: nat, pwr: nat, q: nat, rem: nat, m: nat)
    requires 1 <= k && v < B64 && pwr == Pow10(k)
    requires v == q * pwr + rem && rem < pwr
    requires m == if rem > pwr / 2 || (rem == pwr / 2 && q % 2 == 1) then q + 1 else q
    ensures m == RoundHalfEven(v, pwr) && m < B64
  {
    Pow10Even(k);
    RoundOnce(v, pwr, q, rem);
    Pow10Monotone(1, k);
    assert q * 10 <= q * pwr by {
      MulLe(10, pwr, q);
    }
  }

  /** Dividing a 64-bit value by 10^20 or more rounds it to zero. */
  lemma TinyRound(v: nat, s: nat)
    requires MaxScale + Power10Max64 < s && v < B64
    ensures BestFit(v, s, MaxScale, 0) && !NoFit(v, s)
  {
    Pow10Values();
    Pow10Monotone(20, s - MaxScale);
    var d := Pow10(s - MaxScale);
    DivModUnique(v, d, 0, v);
    FitsDown(v, s, 0, MaxScale);
  }

  /** A zero product rounds to zero at every scale. */
  lemma ZeroRound(s: nat)
    ensures BestFit(0, s, Min(s, MaxScale), 0) && !NoFit(0, s)
  {
    DivModUnique(0, Pow10(s - Min(s, MaxScale)), 0, 0);
    DivModUnique(0, Pow10(s), 0, 0);
  }

  /** The sign and scale DecimalMul stores besides the mantissa: on the
      ReturnZero path a positive zero at scale 0 (DECIMAL_SETZERO);
      otherwise the exclusive or of the signs, and a zero mantissa at the
      finest scale allowed, min(s, 28). */
  predicate MulShape(res: Result, neg: bool, s: nat, returnsZero: bool)
  {
    res.Success? ==>
      if returnsZero then res.value == Zero
      else res.value.neg == neg && (Mantissa(res.value) == 0 ==> res.value.scale == Min(s, MaxScale))
  }

  /** When DecimalMul takes the ReturnZero path: a fast-path product
      below 2^64 whose scale sum is more than 19 above 28, or a zero
      three-word product. */
  predicate ReturnsZero(l: Decimal, r: Decimal)
  {
    if l.hi == 0 && r.hi == 0 then
      Mantissa(l) * Mantissa(r) < B64 && l.scale + r.scale > MaxScale + Power10Max64
    else
      Mantissa(l) * Mantissa(r) == 0
  }

  /** The product of two operands below 2^64 whose product is below 2^64
      too: exact at a scale up to 28; above, divided once by 10^(scale-28)
      and rounded half to even, or zero when that power exceeds 10^19. */
  function Mul64Result(lo: u64, iScale: nat, neg: bool): (res: Result)
    requires iScale <= 2 * MaxScale
    ensures RoundedTo(lo, iScale, neg, res)
    ensures MulShape(res, neg, iScale, iScale > MaxScale + Power10Max64)
  {
    if iScale > MaxScale then
      var k := iScale - MaxScale;
      if k > Power10Max64 then
        TinyRound(lo, iScale);
        ZeroResult(lo, iScale, neg);
        Success(Zero)
      else
        var pwr := Power10[k];
        Power10Table(k);
        var (q, rem) := DivMod64By64(lo, pwr);
        var m := if rem > pwr / 2 || (rem == pwr / 2 && q % 2 == 1) then q + 1 else q;
        FastRound(lo, iScale, pwr, q, rem, m);
        var d := Decimal(neg, MaxScale, 0, m);
        FitResult(lo, iScale, neg, d);
        Success(d)
    else
      ExactFit(lo, iScale);
      var d := Decimal(neg, iScale, 0, lo);
      FitResult(lo, iScale, neg, d);
      Success(d)
  }

  /** A product of up to 192 bits in three words: zero when all words are
      zero, otherwise ScaleResult from the highest non-zero word. */
  method MulWide(p0: u64, p1: u64, p2: u64, iScale: nat, neg: bool, ghost v: nat) returns (res: Result)
    requires iScale <= 2 * MaxScale && v == p0 + B64 * p1 + B128 * p2
    ensures RoundedTo(v, iScale, neg, res)
    ensures MulShape(res, neg, iScale, v == 0)
  {
    var prod := new u64[3];
    prod[0], prod[1], prod[2] := p0, p1, p2;
    Val64Small(prod[..]);
    var hiProd := 2;
    while prod[hiProd] == 0
      invariant 0 <= hiProd <= 2
      invariant prod[..] == [p0, p1, p2]
      invariant forall i :: hiProd < i < 3 ==> prod[i] == 0
      decreases hiProd
    {
      hiProd := hiProd - 1;
      if hiProd < 0 {
        ZeroRound(iScale);
        ZeroResult(v, iScale, neg);
        return Success(Zero);
      }
    }
    var k := ScaleResult(prod, hiProd, iScale);
    res := WordsResult(prod, k, neg, v, iScale);
  }

  /** DecimalMul: multiplies the mantissas and adds the scales. When both
      operands fit 64 bits the product is formed by one 64-by-64
      multiplication, otherwise by the partial products; a product that
      does not fit 96 bits or a scale above 28 goes through ScaleResult,
      whose failure is an overflow. */
  method DecimalMul(l: Decimal, r: Decimal) returns (res: Result)
    ensures RoundedTo(Mantissa(l) * Mantissa(r), l.scale + r.scale, l.neg != r.neg, res)
    ensures MulShape(res, l.neg != r.neg, l.scale + r.scale, ReturnsZero(l, r))
  {
    if l.hi == 0 && r.hi == 0 {
      res := MulSmall(l, r);
    } else {
      res := MulLarge(l, r);
    }
  }

  /** Both operands below 2^64: the fast path when the product fits 64
      bits, ScaleResult on two words otherwise. */
  method MulSmall(l: Decimal, r: Decimal) returns (res: Result)
    requires l.hi == 0 && r.hi == 0
    ensures RoundedTo(Mantissa(l) * Mantissa(r), l.scale + r.scale, l.neg != r.neg, res)
    ensures MulShape(res, l.neg != r.neg, l.scale + r.scale,
                     Mantissa(l) * Mantissa(r) < B64 && l.scale + r.scale > MaxScale + Power10Max64)
  {
    var neg := l.neg != r.neg;
    var iScale := l.scale + r.scale;
    var (lo, hi) := Mul64By64(l.lo, r.lo);
    Product64(l, r, lo, hi);
    if hi == 0 {
      res := Mul64Result(lo, iScale, neg);
      SameValue(Mantissa(l) * Mantissa(r), lo, iScale, neg, res);
    } else {
      res := Mul128(lo, hi, iScale, neg, Mantissa(l) * Mantissa(r));
    }
  }

  /** An operand above 64 bits: the three-word product through ScaleResult. */
  method MulLarge(l: Decimal, r: Decimal) returns (res: Result)
    ensures RoundedTo(Mantissa(l) * Mantissa(r), l.scale + r.scale, l.neg != r.neg, res)
    ensures MulShape(res, l.neg != r.neg, l.scale + r.scale, Mantissa(l) * Mantissa(r) == 0)
  {
    var (p0, p1, p2) := PartialProducts(l.lo, l.hi, r.lo, r.hi);
    ProductWide(l, r, p0, p1, p2);
    ghost var w := p0 + B64 * p1 + B128 * p2;
    res := MulWide(p0, p1, p2, l.scale + r.scale, l.neg != r.neg, w);
    SameValue(Mantissa(l) * Mantissa(r), w, l.scale + r.scale, l.neg != r.neg, res);
  }

  /** A result rounded from one value is rounded from any value equal to it. */
  lemma SameValue(v: nat, w: nat, s: nat, neg: bool, res: Result)
    requires v == w && RoundedTo(w, s, neg, res)
    ensures RoundedTo(v, s, neg, res)
  {
  }

  lemma ProductWide(l: Decimal, r: Decimal, p0: u64, p1: u64, p2: u64)
    requires p0 + B64 * p1 + B128 * p2 == (l.hi * B64 + l.lo) * (r.hi * B64 + r.lo)
    ensures p0 + B64 * p1 + B128 * p2 == Mantissa(l) * Mantissa(r)
  {
  }

  lemma Product64(l: Decimal, r: Decimal, lo: u64, hi: u64)
    requires l.hi == 0 && r.hi == 0 && lo + B64 * hi == l.lo * r.lo
    ensures Mantissa(l) * Mantissa(r) == lo + B64 * hi
  {
  }

  /** A product of two operands below 2^64 that needs more than 64 bits:
      ScaleResult on its two words. */
  method Mul128(lo: u64, hi: u64, iScale: nat, neg: bool, ghost v: nat) returns (res: Result)
    requires hi != 0 && iScale <= 2 * MaxScale && v == lo + B64 * hi
    ensures RoundedTo(v, iScale, neg, res)
    ensures MulShape(res, neg, iScale, false)
  {
    var tmp := new u64[2];
    tmp[0] := lo;
    tmp[1] := hi;
    Val64Small(tmp[..]);
    var k := ScaleResult(tmp, 1, iScale);
    res := WordsResult(tmp, k, neg, v, iScale);
  }
}
