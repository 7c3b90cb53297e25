/** The DECIMAL value type: a sign, a power-of-ten scale between 0 and 28
    and a 96-bit unsigned mantissa kept as a high 32-bit word and a low
    64-bit word. Its value is (-1)^sign * mantissa / 10^scale. */
module Decimals {
  import opened Primitives
  import opened Rounding

  type Scale = s: int | 0 <= s <= 28

  datatype Decimal = Decimal(neg: bool, scale: Scale, hi: u32, lo: u64)

  /** The 96-bit mantissa. */
  function Mantissa(d: Decimal): nat
  {
    d.hi * B64 + d.lo
  }

  /** The value as a fraction numerator / 10^scale, with its sign. */
  function SignedMantissa(d: Decimal): int
  {
    if d.neg then -(Mantissa(d) as int) else Mantissa(d)
  }

  /** The status codes the arithmetic entry points return besides success. */
  datatype Error = Overflow | DivideByZero

  datatype Result = Success(value: Decimal) | Failure(error: Error)

  /** What an arithmetic operator promises for an exact result
      (-1)^neg * v / 10^s: it overflows exactly when v cannot be held at
      any scale, and otherwise returns the best fit of v, with the sign of
      the exact result when the mantissa is not zero. A zero mantissa means
      v rounds to zero even at the finest allowed scale. */
  predicate RoundedTo(v: nat, s: nat, neg: bool, res: Result)
  {
    (res.Failure? <==> NoFit(v, s))
    && (res.Failure? ==> res.error == Overflow)
    && (res.Success? && Mantissa(res.value) != 0 ==>
          BestFit(v, s, res.value.scale, Mantissa(res.value)) && res.value.neg == neg)
    && (res.Success? && Mantissa(res.value) == 0 ==> BestFit(v, s, Min(s, MaxScale), 0))
  }

  /** The three ways an operator meets RoundedTo: a best fit, a zero, an
      overflow. */
  lemma FitResult(v: nat, s: nat, neg: bool, d: Decimal)
    requires BestFit(v, s, d.scale, Mantissa(d)) && !NoFit(v, s)
    requires Mantissa(d) != 0 ==> d.neg == neg
    ensures RoundedTo(v, s, neg, Success(d))
  {
  }

  lemma ZeroResult(v: nat, s: nat, neg: bool)
    requires BestFit(v, s, Min(s, MaxScale), 0) && !NoFit(v, s)
    ensures RoundedTo(v, s, neg, Success(Zero))
  {
  }

  lemma OverflowResult(v: nat, s: nat, neg: bool)
    requires NoFit(v, s)
    ensures RoundedTo(v, s, neg, Failure(Overflow))
  {
  }

  /** A value that needs no rounding is its own best fit. */
  lemma ExactFit(v: nat, s: nat)
    requires v < B96 && s <= MaxScale
    ensures BestFit(v, s, s, v) && !NoFit(v, s)
  {
    assert Pow10(0) == 1;
    Pow10Monotone(0, s);
  }

  /** DECIMAL_SETZERO: positive zero at scale 0. */
  const Zero: Decimal := Decimal(false, 0, 0, 0)

  /** Adds a 64-bit value to the mantissa (Add96By64 on a DECIMAL); the
      carry out of 96 bits is returned, the sign and scale are kept. */
  function Add96By64(d: Decimal, value: u64): (r: (Carry, Decimal))
    ensures Mantissa(r.1) + B96 * r.0 == Mantissa(d) + value
    ensures r.1.neg == d.neg && r.1.scale == d.scale
  {
    var (c, lo) := AddCarry64(0, d.lo, value);
    var (c', hi) := AddCarry32(c, d.hi, 0);
    (c', d.(hi := hi, lo := lo))
  }
}
