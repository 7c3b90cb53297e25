/** DecimalAddSub: the sum or difference of two DECIMALs. The operand with
    the smaller scale is multiplied by a power of ten so that both have the
    larger scale; the aligned mantissas are added or subtracted; a result
    wider than 96 bits is brought back by ScaleResult. */
module AddSub {
  import opened Primitives
  import opened Rounding
  import opened Decimals
  import opened Scaling

  function Abs(x: int): nat { if x < 0 then -x else x }

  /** A magnitude with a sign attached. */
  function Signed(neg: bool, m: int): int { if neg then -m else m }

  /** The exact l + r, or l - r when negate is set, as a numerator over
      10^max(l.scale, r.scale). */
  function ExactSum(l: Decimal, r: Decimal, negate: bool): int
  {
    var s := Max(l.scale, r.scale);
    SignedMantissa(l) * Pow10(s - l.scale)
      + (if negate then -SignedMantissa(r) else SignedMantissa(r)) * Pow10(s - r.scale)
  }

  /** The numerator once the operands are aligned: the aligned left
      mantissa plus, or minus when sub, the right one, under the sign the
      result starts with. */
  function Combined(neg: bool, lv: nat, rv: nat, sub: bool): int
  {
    Signed(neg, if sub then lv - rv else lv + rv)
  }

  /** What add and subtract promise for the exact numerator S over 10^s:
      the correctly rounded value, and a zero keeps the scale s. */
  predicate SumResult(S: int, s: nat, res: Result)
  {
    RoundedTo(Abs(S), s, S < 0, res)
    && (res.Success? && Mantissa(res.value) == 0 ==> res.value.scale == s)
  }

  /** The operand negated, as subtraction sees it. */
  function Negate(d: Decimal): (r: Decimal)
    ensures SignedMantissa(r) == -SignedMantissa(d) && r.scale == d.scale
  {
    d.(neg := !d.neg)
  }

  // ------------------------------------------------------------------
  // Facts about the specification

  /** Addition does not depend on the order of the operands. */
  lemma SumCommutes(l: Decimal, r: Decimal)
    ensures ExactSum(l, r, false) == ExactSum(r, l, false)
  {
  }

  /** Subtraction is addition of the negated right operand. */
  lemma SubIsAddNegated(l: Decimal, r: Decimal)
    ensures ExactSum(l, r, true) == ExactSum(l, Negate(r), false)
  {
  }

  /** Two results that both meet SumResult for the same numerator and
      scale hold the same number: the same mantissa and scale, and the same
      sign unless they are zero. */
  lemma SumResultUnique(S: int, s: nat, r1: Result, r2: Result)
    requires SumResult(S, s, r1) && SumResult(S, s, r2)
    ensures r1.Success? <==> r2.Success?
    ensures r1.Success? ==> Mantissa(r1.value) == Mantissa(r2.value)
                            && r1.value.scale == r2.value.scale
    ensures r1.Success? && Mantissa(r1.value) != 0 ==> r1.value.neg == r2.value.neg
  {
    if r1.Success? && r2.Success? {
      var m1, m2 := Mantissa(r1.value), Mantissa(r2.value);
      if m1 != 0 && m2 != 0 {
        BestFitUnique(Abs(S), s, r1.value.scale, m1, r2.value.scale, m2);
      } else if m1 != 0 {
        BestFitUnique(Abs(S), s, r1.value.scale, m1, Min(s, MaxScale), 0);
      } else if m2 != 0 {
        BestFitUnique(Abs(S), s, Min(s, MaxScale), 0, r2.value.scale, m2);
      }
    }
  }

  // ------------------------------------------------------------------
  // Results of the aligned add

  /** A rounded magnitude with its sign attached meets SumResult. */
  lemma SignedRounded(v: nat, s: nat, neg: bool, res: Result)
    requires RoundedTo(v, s, neg, res)
    requires res.Success? && Mantissa(res.value) == 0 ==> res.value.scale == s
    ensures SumResult(Signed(neg, v), s, res)
  {
  }

  /** An exact magnitude below 2^96 is its own result. */
  lemma ExactResult(v: nat, s: Scale, neg: bool, d: Decimal)
    requires Mantissa(d) == v && d.scale == s && d.neg == neg
    ensures SumResult(Signed(neg, v), s, Success(d))
  {
    ExactFit(v, s);
    FitResult(v, s, neg, d);
    SignedRounded(v, s, neg, Success(d));
  }

  /** SignFlip: a subtraction that borrowed out of 96 bits left the
      two's complement of the magnitude; negating it mod 2^96 and flipping
      the sign gives the difference. */
  function SignFlip(d: Decimal): (r: Decimal)
    requires Mantissa(d) != 0
    ensures Mantissa(r) == B96 - Mantissa(d)
    ensures r.neg == !d.neg && r.scale == d.scale
  {
    var lo: u64 := (B64 - d.lo) % B64;
    var hi: u32 := B32 - 1 - d.hi;
    if lo == 0 then Decimal(!d.neg, d.scale, (hi + 1) % B32, lo)
    else Decimal(!d.neg, d.scale, hi, lo)
  }

  /** The words of a mantissa are determined by its value. */
  lemma MantissaWords(a: Decimal, b: Decimal)
    requires Mantissa(a) == Mantissa(b)
    ensures a.hi == b.hi && a.lo == b.lo
  {
  }

  /** Flipping twice gives back the operand. */
  lemma SignFlipTwice(d: Decimal)
    requires Mantissa(d) != 0
    ensures SignFlip(SignFlip(d)) == d
  {
    MantissaWords(SignFlip(SignFlip(d)), d);
  }

  lemma FlipResult(lv: nat, rv: nat, neg: bool, d: Decimal)
    requires lv < rv < B96 && Mantissa(d) == lv - rv + B96 && d.neg == neg
    ensures SumResult(Combined(neg, lv, rv, true), d.scale, Success(SignFlip(d)))
  {
    ExactResult(rv - lv, d.scale, !neg, SignFlip(d));
  }

  /** The carried-out sum 2^96 + m divided by ten, one 32-bit word at a
      time from the top, and rounded half to even; the result is one scale
      lower. */
  function CarryDown(d: Decimal): (r: Decimal)
    ensures Mantissa(r) == RoundHalfEven(B96 + Mantissa(d), 10)
    ensures r.neg == d.neg && r.scale == d.scale
  {
    var (q, r0, q0) := CarryTenth(d);
    var roundUp := r0 >= 5 && (r0 > 5 || q0 % 2 == 1);
    var r := if roundUp then Increment(q) else q;
    SumTenthRounded(B96 + Mantissa(d), Mantissa(q), r0, roundUp, Mantissa(r));
    r
  }

  /** The three word divisions of CarryDown: the quotient of 2^96 + m by
      ten, the remainder, and the quotient's low word. */
  function CarryTenth(d: Decimal): (t: (Decimal, nat, u32))
    ensures B96 + Mantissa(d) == Mantissa(t.0) * 10 + t.1 && t.1 < 10
    ensures Mantissa(t.0) % 2 == t.2 % 2 && Mantissa(t.0) + 1 < B96
    ensures t.0.neg == d.neg && t.0.scale == d.scale
  {
    var (q2, r2) := DivMod64By32InPlace(d.hi, 1, 10);
    var (q1, r1) := DivMod64By32InPlace(Hi32(d.lo), r2, 10);
    var (q0, r0) := DivMod64By32InPlace(Lo32(d.lo), r1, 10);
    var q := Decimal(d.neg, d.scale, q2, Join64(q1, q0));
    SumTenthWords(d, q2, r2, q1, r1, q0, r0, Mantissa(q));
    (q, r0, q0)
  }

  lemma SumTenthWords(d: Decimal, q2: u32, r2: nat, q1: u32, r1: nat, q0: u32, r0: nat, q: nat)
    requires q2 * 10 + r2 == B32 + d.hi
    requires q1 * 10 + r1 == r2 * B32 + Hi32(d.lo)
    requires q0 * 10 + r0 == r1 * B32 + Lo32(d.lo) && r0 < 10
    requires q == q2 * B64 + Join64(q1, q0)
    ensures B96 + Mantissa(d) == q * 10 + r0
    ensures q % 2 == q0 % 2 && q + 1 < B96
  {
    var hi, lo := Hi32(d.lo), Lo32(d.lo);
    assert d.lo == hi * B32 + lo;
    TenthSum(d.hi, hi, lo, q2, r2, q1, r1, q0, r0);
    var k := q2 * 0x8000_0000_0000_0000 + q1 * 0x8000_0000;
    assert q == 2 * k + q0;
    Parity(k, q0);
    assert q2 < 0x4000_0000;
  }

  lemma Parity(k: nat, q0: nat)
    ensures (2 * k + q0) % 2 == q0 % 2
  {
  }

  /** The long division by ten of three 32-bit digits, put back together. */
  lemma TenthSum(top: int, mid: int, low: int, q2: int, r2: int, q1: int, r1: int,
                 q0: int, r0: int)
    requires q2 * 10 + r2 == B32 + top
    requires q1 * 10 + r1 == r2 * B32 + mid
    requires q0 * 10 + r0 == r1 * B32 + low
    ensures (q2 * B64 + q1 * B32 + q0) * 10 + r0 == B96 + top * B64 + mid * B32 + low
  {
  }

  /** Add96By64 of one to a mantissa that cannot carry. */
  function Increment(q: Decimal): (r: Decimal)
    requires Mantissa(q) + 1 < B96
    ensures Mantissa(r) == Mantissa(q) + 1 && r.neg == q.neg && r.scale == q.scale
  {
    Add96By64(q, 1).1
  }

  lemma SumTenthRounded(n: nat, q: nat, r0: nat, roundUp: bool, m: nat)
    requires n == q * 10 + r0 && r0 < 10
    requires roundUp <==> r0 >= 5 && (r0 > 5 || q % 2 == 1)
    requires m == if roundUp then q + 1 else q
    ensures m == RoundHalfEven(n, 10)
  {
    DivModUnique(n, 10, q, r0);
  }

  /** A sum that carried out of 96 bits fits one scale lower, and only
      there; at scale 0 it overflows. */
  lemma CarryResult(v: nat, low: nat, s: Scale, neg: bool, d: Decimal)
    requires v == B96 + low && low < B96 && 1 <= s
    requires Mantissa(d) == RoundHalfEven(B96 + low, 10) && d.scale == s - 1 && d.neg == neg
    ensures SumResult(Signed(neg, v), s, Success(d))
  {
    assert Pow10(1) == 10 && Pow10(0) == 1;
    Pow10Monotone(1, s);
    FitsMonotone(v, 10, Pow10(s));
    FitResult(v, s, neg, d);
    SignedRounded(v, s, neg, Success(d));
  }

  lemma CarryOverflow(v: nat, neg: bool)
    requires B96 <= v
    ensures SumResult(Signed(neg, v), 0, Failure(Overflow))
  {
    assert Pow10(0) == 1;
    OverflowResult(v, 0, neg);
    SignedRounded(v, 0, neg, Failure(Overflow));
  }

  /** The add or subtract of two mantissas at the same scale (the
      AlignedAdd block): a borrow out of 96 bits flips the sign, a carry
      out of 96 bits divides by ten and lowers the scale, or overflows at
      scale 0. */
  function AlignedAdd(lHi: u32, lLo: u64, rHi: u32, rLo: u64, neg: bool, scale: Scale, sub: bool)
      : (res: Result)
    ensures SumResult(Combined(neg, lHi * B64 + lLo, rHi * B64 + rLo, sub), scale, res)
  {
    if sub then AlignedSub(lHi, lLo, rHi, rLo, neg, scale)
    else AlignedSum(lHi, lLo, rHi, rLo, neg, scale)
  }

  /** Signs differ: subtract, and flip the sign on a borrow. */
  function AlignedSub(lHi: u32, lLo: u64, rHi: u32, rLo: u64, neg: bool, scale: Scale)
      : (res: Result)
    ensures SumResult(Combined(neg, lHi * B64 + lLo, rHi * B64 + rLo, true), scale, res)
  {
    var (b, lo) := SubBorrow64(0, lLo, rLo);
    var (b', hi) := SubBorrow32(b, lHi, rHi);
    var d := Decimal(neg, scale, hi, lo);
    if b' != 0 then
      FlipResult(lHi * B64 + lLo, rHi * B64 + rLo, neg, d);
      Success(SignFlip(d))
    else
      ExactResult(lHi * B64 + lLo - (rHi * B64 + rLo), scale, neg, d);
      Success(d)
  }

  /** Signs agree: add, and divide by ten on a carry out of 96 bits. */
  function AlignedSum(lHi: u32, lLo: u64, rHi: u32, rLo: u64, neg: bool, scale: Scale)
      : (res: Result)
    ensures SumResult(Combined(neg, lHi * B64 + lLo, rHi * B64 + rLo, false), scale, res)
  {
    var v := lHi * B64 + lLo + (rHi * B64 + rLo);
    assert Combined(neg, lHi * B64 + lLo, rHi * B64 + rLo, false) == Signed(neg, v);
    var (c, lo) := AddCarry64(0, lLo, rLo);
    var (c', hi) := AddCarry32(c, lHi, rHi);
    assert hi * B64 + lo + B96 * c' == v;
    if c' == 0 then
      var d := Decimal(neg, scale, hi, lo);
      ExactResult(v, scale, neg, d);
      Success(d)
    else
      Carried(hi, lo, neg, scale, v)
  }

  /** The sum carried out of 96 bits: an overflow at scale 0, otherwise
      divided by ten at one scale lower. */
  function Carried(hi: u32, lo: u64, neg: bool, scale: Scale, ghost v: nat): (res: Result)
    requires v == B96 + hi * B64 + lo
    ensures SumResult(Signed(neg, v), scale, res)
  {
    if scale == 0 then
      CarryOverflow(v, neg);
      Failure(Overflow)
    else
      var low := Decimal(neg, scale - 1, hi, lo);
      var d := CarryDown(low);
      CarryResult(v, Mantissa(low), scale, neg, d);
      Success(d)
  }

  // ------------------------------------------------------------------
  // Aligning the scales

  /** POWER10_MAX_VALUE64: 10^19. */
  const Power10MaxValue64: u64 := 10000000000000000000

  lemma HighWord(x: u64, y: u64, lo: u64, hi: u64)
    requires lo + B64 * hi == x * y
    ensures hi <= B64 - 2
  {
    MulBounds(x, y, B64 - 1, B64 - 1);
    if hi >= B64 - 1 {
      MulLe(B64 - 1, hi, B64);
    }
  }

  /** A mantissa of at most 96 bits times a power of ten of at most 64
      bits, in three words; the last carry is always zero. */
  function ScaleSmall(hi: u32, lo: u64, pwr: u64): (r: (u64, u64, u64))
    ensures r.0 + B64 * r.1 + B128 * r.2 == (hi * B64 + lo) * pwr
  {
    var (n0, h) := Mul64By64(lo, pwr);
    var (n1, n2) := Mul64By64(hi, pwr);
    var (c, n1') := AddCarry64(0, n1, h);
    var (_, n2') := AddCarry64(c, n2, 0);
    Distribute(hi, lo, pwr);
    MulBounds(hi, pwr, B32 - 1, B64 - 1);
    SmallWords(hi * pwr, lo * pwr, n0, h, n1, n2, c, n1');
    (n0, n1', n2 + c)
  }

  lemma Distribute(hi: nat, lo: nat, pwr: nat)
    ensures (hi * B64 + lo) * pwr == B64 * (hi * pwr) + lo * pwr
  {
  }

  lemma SmallWords(hp: nat, lp: nat, n0: nat, h: nat, n1: nat, n2: nat, c: nat, n1': nat)
    requires hp < B96 && n0 + B64 * h == lp && n1 + B64 * n2 == hp
    requires n1' + B64 * c == n1 + h && n1 < B64 && c <= 1
    ensures n2 + c < B64
    ensures n0 + B64 * n1' + B128 * (n2 + c) == B64 * hp + lp
  {
  }

  /** One pass of the scaling loop: every word up to hiProd multiplied by
      pwr with the high halves carried upward, and a new top word when the
      carry is not zero. */
  method MulWords(num: array<u64>, hiProd0: int, pwr: u64) returns (hiProd: int)
    requires num.Length == 3 && 0 <= hiProd0 <= 2
    requires forall i :: hiProd0 < i < 3 ==> num[i] == 0
    requires hiProd0 == 2 ==> num[2] != 0
    requires 0 < pwr && Val64(num[..]) * pwr < Place(3)
    modifies num
    ensures Val64(num[..]) == Val64(old(num[..])) * pwr
    ensures hiProd0 <= hiProd <= 2
    ensures forall i :: hiProd < i < 3 ==> num[i] == 0
    ensures hiProd == 2 ==> num[2] != 0
  {
    ghost var orig := num[..];
    var (p, mulCarry) := Mul64By64(pwr, num[0]);
    num[0] := p;
    HighWord(pwr, orig[0], p, mulCarry);
    FirstWord(orig, num[..], pwr, p, mulCarry);
    var addCarry: Carry;
    mulCarry, addCarry := MulUpper(num, hiProd0, pwr, mulCarry, orig);
    ZeroTail(orig, hiProd0 + 1);
    hiProd := PlaceCarry(num, hiProd0, mulCarry, addCarry, Val64(orig) * pwr);
    if hiProd == 2 && hiProd0 == 2 {
      TopStays(orig, num[..], pwr);
    }
  }

  /** The carry left after the last word multiplied: a new top word when
      it is not zero, which the bound on the product keeps below word 3. */
  method PlaceCarry(num: array<u64>, hiProd0: int, mulCarry: u64, addCarry: Carry, ghost total: int)
      returns (hiProd: int)
    requires num.Length == 3 && 0 <= hiProd0 <= 2 && mulCarry <= B64 - 2
    requires forall i :: hiProd0 < i < 3 ==> num[i] == 0
    requires Val64(num[..hiProd0 + 1]) + Place(hiProd0 + 1) * (mulCarry + addCarry) == total
    requires total < Place(3)
    modifies num
    ensures Val64(num[..]) == total
    ensures hiProd0 <= hiProd <= 2
    ensures hiProd == hiProd0 || (hiProd == hiProd0 + 1 && num[hiProd] != 0)
    ensures forall i :: hiProd < i < 3 ==> num[i] == 0
  {
    ghost var prefix := num[..hiProd0 + 1];
    ghost var P := mulCarry + addCarry;
    NoRoom(Val64(prefix), P, hiProd0, total);
    hiProd := hiProd0;
    if mulCarry + addCarry != 0 {
      var (c, w) := AddCarry64(addCarry, mulCarry, 0);
      NoCarryOut(w, c, P);
      hiProd := hiProd + 1;
      num[hiProd] := w;
      AppendCarry(prefix, num[..], hiProd0 + 1, P);
    } else {
      ZeroTail(num[..], hiProd0 + 1);
      assert num[..][..hiProd0 + 1] == prefix;
    }
  }

  /** The carry out of the last word becomes a new top word. */
  lemma AppendCarry(prefix: seq<u64>, fin: seq<u64>, k: nat, P: nat)
    requires k < |fin| && fin[..k] == prefix && fin[k] == P
    requires forall i :: k < i < |fin| ==> fin[i] == 0
    ensures Val64(fin) == Val64(prefix) + Place(k) * P
  {
    Val64Snoc(fin, k);
    ZeroTail(fin, k + 1);
  }

  /** The words above the first, multiplied in turn with the high half of
      each product carried into the next word. */
  method MulUpper(num: array<u64>, hiProd0: int, pwr: u64, mulCarry0: u64, ghost orig: seq<u64>)
      returns (mulCarry: u64, addCarry: Carry)
    requires num.Length == |orig| == 3 && 0 <= hiProd0 <= 2
    requires num[1..] == orig[1..] && mulCarry0 <= B64 - 2
    requires Val64(num[..1]) + Place(1) * mulCarry0 == Val64(orig[..1]) * pwr
    modifies num
    ensures forall i :: hiProd0 < i < 3 ==> num[i] == orig[i]
    ensures mulCarry <= B64 - 2
    ensures Val64(num[..hiProd0 + 1]) + Place(hiProd0 + 1) * (mulCarry + addCarry)
            == Val64(orig[..hiProd0 + 1]) * pwr
  {
    mulCarry, addCarry := mulCarry0, 0;
    var iCur := 1;
    while iCur <= hiProd0
      invariant 1 <= iCur <= hiProd0 + 1
      invariant num[iCur..] == orig[iCur..]
      invariant mulCarry <= B64 - 2
      invariant Val64(num[..iCur]) + Place(iCur) * (mulCarry + addCarry) == Val64(orig[..iCur]) * pwr
    {
      ghost var before := num[..];
      var tmp := mulCarry;
      var (product, mc) := Mul64By64(pwr, num[iCur]);
      var (ac, w) := AddCarry64(addCarry, tmp, product);
      HighWord(pwr, num[iCur], product, mc);
      num[iCur] := w;
      WordStep(before, num[..], orig, iCur, pwr, tmp, addCarry, product, mc, w, ac);
      mulCarry, addCarry := mc, ac;
      iCur := iCur + 1;
    }
    assert forall i :: hiProd0 < i < 3 ==> num[i] == num[iCur..][i - iCur];
  }

  lemma FirstWord(orig: seq<u64>, after: seq<u64>, pwr: nat, p: u64, mc: nat)
    requires |orig| == 3 && after == orig[0 := p] && p + B64 * mc == pwr * orig[0]
    ensures after[1..] == orig[1..]
    ensures Val64(after[..1]) + Place(1) * mc == Val64(orig[..1]) * pwr
  {
    Val64One(after);
    Val64One(orig);
    assert Place(1) == B64;
  }

  /** One step of the inner loop: word i replaced by the low half of its
      product plus the pending carries. */
  lemma WordStep(before: seq<u64>, after: seq<u64>, orig: seq<u64>, i: nat, pwr: nat,
                 mc: nat, ac: nat, product: nat, mc': nat, w: u64, ac': nat)
    requires |before| == |orig| && 0 < i < |orig| && after == before[i := w]
    requires before[i..] == orig[i..]
    requires Val64(before[..i]) + Place(i) * (mc + ac) == Val64(orig[..i]) * pwr
    requires product + B64 * mc' == pwr * orig[i]
    requires w + B64 * ac' == ac + mc + product
    ensures after[i + 1..] == orig[i + 1..]
    ensures Val64(after[..i + 1]) + Place(i + 1) * (mc' + ac') == Val64(orig[..i + 1]) * pwr
  {
    assert after[..i] == before[..i];
    assert before[i] == orig[i];
    Val64Snoc(after, i);
    Val64Snoc(orig, i);
    MulStep(Val64(before[..i]), Val64(orig[..i]), Place(i), Place(i + 1), mc, ac, orig[i], pwr,
            product, mc', w, ac');
  }

  /** A carry out of the top word is impossible: the product is below
      2^192. */
  lemma NoRoom(low: nat, P: nat, h: nat, total: int)
    requires h <= 2 && low + Place(h + 1) * P == total && total < Place(3)
    ensures h == 2 ==> P == 0
  {
  }

  /** A sum below 2^64 leaves no carry out of the word. */
  lemma NoCarryOut(w: u64, c: Carry, P: nat)
    requires P < B64 && w + B64 * c == P
    ensures w == P
  {
  }

  /** Words that are zero add nothing to the value. */
  lemma ZeroTail(s: seq<u64>, k: nat)
    requires k <= |s| && forall i :: k <= i < |s| ==> s[i] == 0
    ensures Val64(s) == Val64(s[..k])
  {
    Val64Split(s, k);
    Val64Zeros(s[k..]);
  }

  /** A three-word value with a non-zero top word keeps it when multiplied
      by a positive factor that does not overflow. */
  lemma TopStays(before: seq<u64>, after: seq<u64>, pwr: nat)
    requires |before| == |after| == 3 && before[2] != 0 && pwr > 0
    requires Val64(after) == Val64(before) * pwr
    ensures after[2] != 0
  {
    Val64Small(before);
    Val64Small(after);
    MulLe(1, pwr, Val64(before));
    assert Val64(after) >= Val64(before) >= B128;
  }

  lemma Val64One(s: seq<u64>)
    requires |s| >= 1
    ensures Val64(s[..1]) == s[0]
  {
    assert s[..1][1..] == [];
  }

  /** The invariant of the inner loop of MulWords, advanced by one word. */
  lemma MulStep(low: nat, lowOld: nat, place: nat, place': nat, mc: nat, ac: nat, x: nat, pwr: nat,
                product: nat, mc': nat, w: nat, ac': nat)
    requires place' == B64 * place
    requires low + place * (mc + ac) == lowOld * pwr
    requires product + B64 * mc' == pwr * x
    requires w + B64 * ac' == ac + mc + product
    ensures low + place * w + place' * (mc' + ac') == (lowOld + place * x) * pwr
  {
    calc {
      (lowOld + place * x) * pwr;
      lowOld * pwr + place * (pwr * x);
      low + place * (mc + ac) + place * (product + B64 * mc');
      low + place * (mc + ac + product) + place * B64 * mc';
      low + place * (w + B64 * ac') + place * B64 * mc';
      low + place * w + place * B64 * (mc' + ac');
    }
  }

  /** The scaling loop for a scale difference above 19: the words are
      multiplied by 10^19 and then by the remaining power, hiProd following
      the highest non-zero word. The product stays below 2^190. */
  method ScaleUp(num: array<u64>, hiProd0: int, iScale0: int) returns (hiProd: int)
    requires num.Length == 3 && 0 <= hiProd0 <= 1
    requires forall i :: hiProd0 < i < 3 ==> num[i] == 0
    requires Power10Max64 < iScale0 <= MaxScale
    requires 0 < Val64(num[..]) < B96
    modifies num
    ensures Val64(num[..]) == Val64(old(num[..])) * Pow10(iScale0)
    ensures 1 <= hiProd <= 2
    ensures forall i :: hiProd < i < 3 ==> num[i] == 0
    ensures hiProd == 2 ==> num[2] != 0
  {
    ghost var v0 := Val64(num[..]);
    hiProd := hiProd0;
    var iScale := iScale0;
    ghost var done: nat := 0;
    while iScale > 0
      invariant 0 <= hiProd <= 2
      invariant forall i :: hiProd < i < 3 ==> num[i] == 0
      invariant hiProd == 2 ==> num[2] != 0
      invariant iScale > 0 ==> done + iScale == iScale0
      invariant iScale <= 0 ==> done == iScale0
      invariant Val64(num[..]) == v0 * Pow10(done)
      decreases iScale
    {
      var pwr: u64;
      if iScale >= Power10Max64 {
        pwr := Power10MaxValue64;
      } else {
        pwr := Power10[iScale];
      }
      ghost var step := Min(iScale, Power10Max64);
      Power10Table(step);
      hiProd := ScaleStep(num, hiProd, pwr, v0, done, step);
      done := done + step;
      iScale := iScale - Power10Max64;
    }
    Val64Small(num[..]);
    AboveOneWord(v0, iScale0, num[0], num[1], num[2]);
  }

  /** A non-zero value times 10^20 or more does not fit one word. */
  lemma AboveOneWord(v0: nat, k: nat, n0: u64, n1: u64, n2: u64)
    requires 0 < v0 && Power10Max64 < k && n0 + B64 * n1 + B128 * n2 == v0 * Pow10(k)
    ensures n1 != 0 || n2 != 0
  {
    Pow10Top();
    MulLe(1, v0, Pow10(k));
    Pow10Monotone(20, k);
  }

  lemma Pow10Top()
    ensures Pow10(MaxScale) == 10000000000000000000000000000
    ensures Pow10(Power10Max64 + 1) == 100000000000000000000
  {
    Pow10Values();
  }

  /** One pass of the scaling loop: the words multiplied by 10^step. */
  method ScaleStep(num: array<u64>, hiProd0: int, pwr: u64, ghost v0: nat, ghost done: nat,
                   ghost step: nat) returns (hiProd: int)
    requires num.Length == 3 && 0 <= hiProd0 <= 2
    requires forall i :: hiProd0 < i < 3 ==> num[i] == 0
    requires hiProd0 == 2 ==> num[2] != 0
    requires v0 < B96 && done + step <= MaxScale && pwr == Pow10(step) && 0 < pwr
    requires Val64(num[..]) == v0 * Pow10(done)
    modifies num
    ensures Val64(num[..]) == v0 * Pow10(done + step)
    ensures hiProd0 <= hiProd <= 2
    ensures forall i :: hiProd < i < 3 ==> num[i] == 0
    ensures hiProd == 2 ==> num[2] != 0
  {
    ScaleUpBound(v0, done, step);
    ghost var before := Val64(num[..]);
    MulCongruent(before, pwr, v0 * Pow10(done), Pow10(step));
    hiProd := MulWords(num, hiProd0, pwr);
  }

  /** The running product of the scaling loop stays below 2^192. */
  lemma ScaleUpBound(v0: nat, done: nat, step: nat)
    requires v0 < B96 && done + step <= MaxScale
    ensures v0 * Pow10(done) * Pow10(step) == v0 * Pow10(done + step)
    ensures v0 * Pow10(done + step) < Place(3)
  {
    Pow10Add(done, step);
    Associate(v0, Pow10(done), Pow10(step), Pow10(done + step));
    Below192(v0, Pow10(done + step), done + step);
  }

  lemma Below192(v0: nat, p: nat, k: nat)
    requires v0 < B96 && k <= MaxScale && p == Pow10(k)
    ensures v0 * p < Place(3)
  {
    Pow10Monotone(k, MaxScale);
    Pow10Top();
    MulBounds(v0, p, B96, 10000000000000000000000000000);
    PlaceThree();
  }

  lemma PlaceThree()
    ensures Place(3) == 0x1_0000_0000_0000_0000_0000_0000_0000_0000_0000_0000_0000_0000
  {
    assert Place(1) == B64;
    assert Place(2) == B128;
  }

  // ------------------------------------------------------------------
  // The add or subtract on the scaled words

  /** A result from a value of more than 96 bits is never zero. */
  lemma WideNotZero(v: nat, s: nat, neg: bool, res: Result)
    requires B96 <= v && s <= MaxScale && RoundedTo(v, s, neg, res)
    ensures res.Success? ==> Mantissa(res.value) != 0
  {
    RoundByOne(v);
  }

  /** The end of DecimalAddSub for scaled operands: a value wider than 96
      bits goes through ScaleResult, a value that fits is taken as it is. */
  method Finish(num: array<u64>, lo: u64, hiProd: int, neg: bool, scale: Scale, ghost v: nat)
      returns (res: Result)
    requires num.Length == 3 && 1 <= hiProd <= 2
    requires hiProd < 2 ==> num[2] == 0
    requires hiProd == 2 ==> num[2] != 0
    requires v == lo + B64 * num[1] + B128 * num[2]
    modifies num
    ensures SumResult(Signed(neg, v), scale, res)
  {
    if hiProd > 1 || (hiProd == 1 && num[1] >= B32) {
      num[0] := lo;
      Val64Small(num[..]);
      assert v >= B96;
      var k := ScaleResult(num, hiProd, scale);
      res := WordsResult(num, k, neg, v, scale);
      WideNotZero(v, scale, neg, res);
      SignedRounded(v, scale, neg, res);
    } else {
      var d := Decimal(neg, scale, num[1], lo);
      ExactResult(v, scale, neg, d);
      res := Success(d);
    }
  }

  /** The low word of a subtraction that borrowed out of the second word
      when the scaled operand had only two words. */
  lemma BorrowWords(n0: u64, n1: u64, rLo: u64, rHi: u32, lo: u64, b: Carry, w1: u64)
    requires n0 + B64 * n1 < B96
    requires lo - B64 * b == n0 - rLo && w1 - B64 == n1 - rHi - b
    ensures n0 + B64 * n1 < rHi * B64 + rLo
    ensures lo + B64 * Lo32(w1) == n0 + B64 * n1 - (rHi * B64 + rLo) + B96
  {
    DivModUnique(w1, B32, B32 - 1, w1 - (B64 - B32));
  }

  /** Adds or subtracts the right mantissa into the scaled left one held in
      three words. */
  method WideAddSub(num: array<u64>, hiProd: int, rHi: u32, rLo: u64, neg: bool, scale: Scale,
                    sub: bool, ghost lv: nat, ghost rv: nat) returns (res: Result)
    requires num.Length == 3 && 1 <= hiProd <= 2
    requires hiProd < 2 ==> num[2] == 0
    requires hiProd == 2 ==> num[2] != 0
    requires lv == num[0] + B64 * num[1] + B128 * num[2] && num[2] < B64 - 1
    requires rv == rHi * B64 + rLo
    modifies num
    ensures SumResult(Combined(neg, lv, rv, sub), scale, res)
  {
    if sub {
      res := WideSub(num, hiProd, rHi, rLo, neg, scale, lv, rv);
    } else {
      res := WideAdd(num, hiProd, rHi, rLo, neg, scale, lv, rv);
    }
  }

  /** The subtraction. A borrow with nothing above the second word means
      the right operand was the larger: the sign is flipped as for aligned
      operands. Otherwise the borrow comes out of the top word. */
  method WideSub(num: array<u64>, hiProd: int, rHi: u32, rLo: u64, neg: bool, scale: Scale,
                 ghost lv: nat, ghost rv: nat) returns (res: Result)
    requires num.Length == 3 && 1 <= hiProd <= 2
    requires hiProd < 2 ==> num[2] == 0
    requires hiProd == 2 ==> num[2] != 0
    requires lv == num[0] + B64 * num[1] + B128 * num[2] && rv == rHi * B64 + rLo
    modifies num
    ensures SumResult(Combined(neg, lv, rv, true), scale, res)
  {
    var (b, lo) := SubBorrow64(0, num[0], rLo);
    var (b', w1) := SubBorrow64(b, num[1], rHi);
    num[1] := w1;
    var hi := hiProd;
    if b' != 0 {
      if hi <= 1 {
        var d := Decimal(neg, scale, Lo32(num[1]), lo);
        BorrowWords(old(num[0]), old(num[1]), rLo, rHi, lo, b, w1);
        FlipResult(lv, rv, neg, d);
        return Success(SignFlip(d));
      }
      num[2] := num[2] - 1;
      if num[2] == 0 {
        hi := 1;
      }
    }
    assert lo + B64 * num[1] + B128 * num[2] == lv - rv;
    res := Finish(num, lo, hi, neg, scale, lv - rv);
  }

  /** The addition: a carry out of the second word goes to the top word,
      which has room for it. */
  method WideAdd(num: array<u64>, hiProd: int, rHi: u32, rLo: u64, neg: bool, scale: Scale,
                 ghost lv: nat, ghost rv: nat) returns (res: Result)
    requires num.Length == 3 && 1 <= hiProd <= 2
    requires hiProd < 2 ==> num[2] == 0
    requires hiProd == 2 ==> num[2] != 0
    requires lv == num[0] + B64 * num[1] + B128 * num[2] && num[2] < B64 - 1
    requires rv == rHi * B64 + rLo
    modifies num
    ensures SumResult(Combined(neg, lv, rv, false), scale, res)
  {
    var (c, lo) := AddCarry64(0, num[0], rLo);
    var (c', w1) := AddCarry64(c, num[1], rHi);
    num[1] := w1;
    var hi := hiProd;
    if c' != 0 {
      if hi < 2 {
        num[2] := 1;
        hi := 2;
      } else {
        num[2] := num[2] + 1;
      }
    }
    assert lo + B64 * num[1] + B128 * num[2] == lv + rv;
    res := Finish(num, lo, hi, neg, scale, lv + rv);
  }

  // ------------------------------------------------------------------
  // DecimalAddSub

  /** An aligned operand stays below 2^96 * 10^28, so its top word has
      room for a carry. */
  lemma AlignedBound(m: nat, k: nat, n0: u64, n1: u64, n2: u64)
    requires m < B96 && k <= MaxScale
    requires n0 + B64 * n1 + B128 * n2 == m * Pow10(k)
    ensures n2 < B64 - 1
  {
    Pow10Monotone(k, MaxScale);
    Pow10Top();
    MulBounds(m, Pow10(k), B96, 10000000000000000000000000000);
  }

  /** The left operand zero: the result is the right operand, with the
      sign the subtraction gives it. */
  lemma LeftZero(neg: bool, m: nat, k: nat, R: Decimal, sub: bool)
    requires m == 0
    ensures SumResult(Combined(neg, m * Pow10(k), Mantissa(R), sub), R.scale,
                      Success(Decimal(neg != sub, R.scale, R.hi, R.lo)))
  {
    ExactResult(Mantissa(R), R.scale, neg != sub, Decimal(neg != sub, R.scale, R.hi, R.lo));
  }

  /** The scale difference is applied to the left operand, then the
      operands are combined: by AlignedAdd when the scaled operand still
      fits 96 bits, by WideAddSub otherwise. */
  method ScaledAddSub(left: Decimal, right: Decimal, iScale: int, neg: bool, sub: bool)
      returns (res: Result)
    requires 1 <= iScale <= MaxScale
    ensures SumResult(Combined(neg, Mantissa(left) * Pow10(iScale), Mantissa(right), sub),
                      right.scale, res)
  {
    if iScale <= Power10Max64 {
      res := ScaledSmall(left, right, iScale, neg, sub, Mantissa(left) * Pow10(iScale));
    } else {
      res := ScaledLarge(left, right, iScale, neg, sub, Mantissa(left) * Pow10(iScale));
    }
  }

  /** A scale difference of at most 19: one multiplication by 10^iScale. */
  method ScaledSmall(left: Decimal, right: Decimal, iScale: int, neg: bool, sub: bool,
                     ghost lv: nat) returns (res: Result)
    requires 1 <= iScale <= Power10Max64 && lv == Mantissa(left) * Pow10(iScale)
    ensures SumResult(Combined(neg, lv, Mantissa(right), sub), right.scale, res)
  {
    var (n0, n1, n2) := ScaleWords(left, iScale, lv);
    if n2 == 0 && n1 < B32 {
      res := AlignedAdd(n1, n0, right.hi, right.lo, neg, right.scale, sub);
      SameOperands(neg, n1 * B64 + n0, lv, right.hi * B64 + right.lo, Mantissa(right), sub,
                   right.scale, res);
      return;
    }
    res := WideScaled(n0, n1, n2, right, neg, sub, lv);
  }

  /** The scaled left mantissa does not fit 64 + 32 bits: it is placed in
      a three-word buffer for the wide addition. */
  method WideScaled(n0: u64, n1: u64, n2: u64, right: Decimal, neg: bool, sub: bool,
                    ghost lv: nat) returns (res: Result)
    requires lv == n0 + B64 * n1 + B128 * n2 && n2 < B64 - 1
    ensures SumResult(Combined(neg, lv, Mantissa(right), sub), right.scale, res)
  {
    var num := new u64[3];
    num[0], num[1], num[2] := n0, n1, n2;
    var hiProd := if n2 != 0 then 2 else 1;
    res := WideAddSub(num, hiProd, right.hi, right.lo, neg, right.scale, sub, lv, Mantissa(right));
  }

  /** The left mantissa times 10^iScale in three words, the top one with
      room for a carry. */
  function ScaleWords(left: Decimal, iScale: int, ghost lv: nat): (r: (u64, u64, u64))
    requires 1 <= iScale <= Power10Max64 && lv == Mantissa(left) * Pow10(iScale)
    ensures r.0 + B64 * r.1 + B128 * r.2 == lv && r.2 < B64 - 1
  {
    var pwr := Power10[iScale];
    Power10Table(iScale);
    var (n0, n1, n2) := ScaleSmall(left.hi, left.lo, pwr);
    MulCongruent(left.hi * B64 + left.lo, pwr, Mantissa(left), Pow10(iScale));
    AlignedBound(Mantissa(left), iScale, n0, n1, n2);
    (n0, n1, n2)
  }

  lemma MulCongruent(a: int, b: int, c: int, d: int)
    requires a == c && b == d
    ensures a * b == c * d
  {
  }

  lemma SameOperands(neg: bool, a: nat, b: nat, r: nat, r': nat, sub: bool, s: nat, res: Result)
    requires a == b && r == r' && SumResult(Combined(neg, a, r, sub), s, res)
    ensures SumResult(Combined(neg, b, r', sub), s, res)
  {
  }

  /** A scale difference above 19: the left operand, unless it is zero,
      is multiplied up word by word. */
  method ScaledLarge(left: Decimal, right: Decimal, iScale: int, neg: bool, sub: bool,
                     ghost lv: nat) returns (res: Result)
    requires Power10Max64 < iScale <= MaxScale && lv == Mantissa(left) * Pow10(iScale)
    ensures SumResult(Combined(neg, lv, Mantissa(right), sub), right.scale, res)
  {
    if left.hi == 0 && left.lo == 0 {
      LeftZero(neg, Mantissa(left), iScale, right, sub);
      return Success(Decimal(neg != sub, right.scale, right.hi, right.lo));
    }
    var num, hiProd := ScaleLeft(left, iScale, lv);
    res := WideAddSub(num, hiProd, right.hi, right.lo, neg, right.scale, sub, lv, Mantissa(right));
  }

  /** A non-zero left mantissa in a fresh array of three words, its top
      word index found, multiplied up by ScaleUp. */
  method ScaleLeft(left: Decimal, iScale: int, ghost lv: nat) returns (num: array<u64>, hiProd: int)
    requires Power10Max64 < iScale <= MaxScale && lv == Mantissa(left) * Pow10(iScale)
    requires Mantissa(left) != 0
    ensures fresh(num) && num.Length == 3 && 1 <= hiProd <= 2
    ensures hiProd < 2 ==> num[2] == 0
    ensures hiProd == 2 ==> num[2] != 0
    ensures lv == num[0] + B64 * num[1] + B128 * num[2] && num[2] < B64 - 1
  {
    num := new u64[3];
    num[0], num[1], num[2] := left.lo, left.hi, 0;
    hiProd := if left.hi == 0 then 0 else 1;
    Val64Small(num[..]);
    hiProd := ScaleUp(num, hiProd, iScale);
    Val64Small(num[..]);
    AlignedBound(Mantissa(left), iScale, num[0], num[1], num[2]);
  }

  /** Equal scales: the exact sum is the aligned add of the mantissas
      under the sign of the left operand. */
  lemma EqualScales(l: Decimal, r: Decimal, negate: bool)
    requires l.scale == r.scale
    ensures ExactSum(l, r, negate)
            == Combined(l.neg, l.hi * B64 + l.lo, r.hi * B64 + r.lo, negate != (l.neg != r.neg))
    ensures Max(l.scale, r.scale) == l.scale
  {
    assert Pow10(0) == 1;
  }

  /** The left operand has the smaller scale and is multiplied up. */
  lemma AlignLeft(l: Decimal, r: Decimal, negate: bool, p: nat)
    requires l.scale < r.scale && p == Pow10(r.scale - l.scale)
    ensures ExactSum(l, r, negate)
            == Combined(l.neg, Mantissa(l) * p, Mantissa(r), negate != (l.neg != r.neg))
  {
    assert Pow10(0) == 1;
    var a := Mantissa(l) * p;
    assert SignedMantissa(l) * p == Signed(l.neg, a);
  }

  /** The right operand has the smaller scale: the operands swap, and the
      result starts with the sign of the right operand as the subtraction
      sees it. */
  lemma AlignRight(l: Decimal, r: Decimal, negate: bool, p: nat)
    requires r.scale < l.scale && p == Pow10(l.scale - r.scale)
    ensures var sub := negate != (l.neg != r.neg);
            ExactSum(l, r, negate) == Combined(l.neg != sub, Mantissa(r) * p, Mantissa(l), sub)
  {
    assert Pow10(0) == 1;
    var a := Mantissa(r) * p;
    assert SignedMantissa(r) * p == Signed(r.neg, a);
    assert (-SignedMantissa(r)) * p == Signed(!r.neg, a);
  }

  /** Unequal scales: the operand with the smaller scale is the one
      multiplied up. */
  lemma Align(l: Decimal, r: Decimal, negate: bool, left: Decimal, right: Decimal,
              neg: bool, iScale: int)
    requires l.scale < r.scale ==>
               left == l && right == r && neg == l.neg && iScale == r.scale - l.scale
    requires r.scale < l.scale ==>
               left == r && right == l && neg == (l.neg != (negate != (l.neg != r.neg)))
               && iScale == l.scale - r.scale
    requires l.scale != r.scale
    ensures 1 <= iScale <= MaxScale && Max(l.scale, r.scale) == right.scale
    ensures ExactSum(l, r, negate)
            == Combined(neg, Mantissa(left) * Pow10(iScale), Mantissa(right),
                        negate != (l.neg != r.neg))
  {
    if l.scale < r.scale {
      AlignLeft(l, r, negate, Pow10(iScale));
    } else {
      AlignRight(l, r, negate, Pow10(iScale));
    }
  }

  /** DecimalAddSub: l + r, or l - r when negate is set. The result has the
      larger of the two scales unless it had to be rounded. */
  method DecimalAddSub(l: Decimal, r: Decimal, negate: bool) returns (res: Result)
    ensures SumResult(ExactSum(l, r, negate), Max(l.scale, r.scale), res)
  {
    var sub := negate != (l.neg != r.neg);
    if l.scale == r.scale {
      res := AlignedAdd(l.hi, l.lo, r.hi, r.lo, l.neg, l.scale, sub);
      EqualScales(l, r, negate);
      return;
    }
    var left, right, neg, iScale := l, r, l.neg, r.scale - l.scale;
    if iScale < 0 {
      iScale := -iScale;
      neg := neg != sub;
      left, right := r, l;
    }
    Align(l, r, negate, left, right, neg, iScale);
    res := ScaledAddSub(left, right, iScale, neg, sub);
  }

  /** DecimalAdd: DecimalAddSub without negation. */
  method DecimalAdd(l: Decimal, r: Decimal) returns (res: Result)
    ensures SumResult(ExactSum(l, r, false), Max(l.scale, r.scale), res)
  {
    res := DecimalAddSub(l, r, false);
  }

  /** DecimalSub: DecimalAddSub with the right operand negated. */
  method DecimalSub(l: Decimal, r: Decimal) returns (res: Result)
    ensures SumResult(ExactSum(l, r, true), Max(l.scale, r.scale), res)
  {
    res := DecimalAddSub(l, r, true);
  }
}
