# Verified model of the coreclr DECIMAL arithmetic core

This project models, in Dafny, the 96-bit decimal arithmetic at the heart of
the runtime's `System.Decimal` support. It covers `decimal_calc.inl`,
`decimal_calc.cpp` and the parsing routine `NumberToDecimal` with its limb
helpers in `decimal.cpp`. It also proves what those routines promise.

A DECIMAL is a sign, a scale from 0 to 28 and an unsigned 96-bit mantissa.
Its value is (-1)^sign * mantissa / 10^scale. The model holds the mantissa
as the source's `low64` and `hi32` words (`Decimals.Decimal`).

The three operators are DecimalMul, DecimalAddSub (through DecimalAdd and
DecimalSub) and DecimalDiv. Each is specified against the exact rational
result. An operator either reports an error or returns the exact result
rounded half to even. A product or a sum is rounded at the largest scale
at which the rounded mantissa fits in 96 bits, going neither above 28 nor
above its natural scale. For a product the natural scale is the sum of the
scales; for a sum it is the larger scale. A quotient is scaled beyond its
natural scale only while it is inexact, and its trailing zeros are then
dropped. The errors are:
- `DISP_E_OVERFLOW` when the exact result cannot be held even at scale 0;
- `DISP_E_DIVBYZERO` for a zero divisor.

`Rounding` states this once, as `RoundHalfEven`, `Fits`, `BestFit` and
`NoFit`. `Decimals.RoundedTo` turns it into the promise of the multiply and
add/subtract operators. `DivisionSpec.QuotientResult` is the promise of the
division: an exact quotient keeps its natural scale, max(0, l.scale -
r.scale), and an inexact quotient is left with no trailing zero above
scale 0.

The model is for the 64-bit target with `HAS_DIVMOD128BY64` defined. It uses
the portable forms of the primitives in `decimal_calc.inl`. Machine words are
the subset types `u32` and `u64` over `int`. Every wrap-around, truncation and
carry of the C++ code is written out with `%`, `/` and explicit carry words.

Routines that work in place on word arrays are methods over Dafny arrays:
- `ScaleResult` and `ReduceScale` on `uint64_t[]`;
- the division helpers and the loops of `DecimalDiv` on `uint32_t[]`.

Each method's `ensures` ties the new array contents to the old ones through
the value functions `Val64`, `W3`, `W4` and `W5`. `COMDecimal`'s limb helpers
(`DecMul10`, `DecAddInt32`, ...) become methods of the class
`Limbs.DecimalBuffer`, whose three `uint32_t` fields they update.

Modules, in dependency order:
- `Primitives`: the word primitives of `decimal_calc.inl`.
- `Rounding`: round-half-to-even, fitting and best fit.
- `Decimals`: the DECIMAL type and the operator contract.
- `Scaling`: `ReduceScale`, `ScaleResult` and the power-of-ten table.
- `Multiply`: `DecimalMul`.
- `AddSub`: `DecimalAddSub`, `DecimalAdd` and `DecimalSub`.
- `DivWords`: the `IncreaseScale96By*`, `Add96By*` and `Div*_x64` helpers.
- `QuotientScale`: `PowerOvfl` and `SearchScale64`.
- `DivisionSpec`: what a division loop must reach.
- `Division`: `DecimalDiv`.
- `Limbs`: the `Dec*` limb helpers.
- `Parse`: `NumberToDecimal`.

On a rounding carry out of 96 bits, `NumberToDecimal` stores
0x19999999_99999999_9999999A, which is 2^96 / 10 rounded, and raises the
exponent (decimal.cpp:338-343; `Parse.CarriedRounds`).

## Model

| member | source | states |
|---|---|---|
| Primitives.AddCarry32 | src/classlibnative/bcltype/decimal_calc.inl:87-98 | the stored word plus 2^32 times the carry out is exactly carry + lhs + rhs |
| Primitives.SubBorrow32 | src/classlibnative/bcltype/decimal_calc.inl:100-111 | the stored word minus 2^32 times the borrow out is exactly lhs - rhs - borrow (the 64-bit wrap-around written out) |
| Primitives.AddCarry64 | src/classlibnative/bcltype/decimal_calc.inl:121-135 | the 64-bit add with carry built from two chained 32-bit halves: word plus 2^64 times carry is the exact sum |
| Primitives.SubBorrow64 | src/classlibnative/bcltype/decimal_calc.inl:137-151 | the 64-bit subtract with borrow from two chained halves: word minus 2^64 times borrow is the exact difference |
| Primitives.Mul32By32 | src/classlibnative/bcltype/decimal_calc.inl:158 | the exact product, never above 0xFFFFFFFE00000001 |
| Primitives.Mul64By32 | src/classlibnative/bcltype/decimal_calc.inl:161-183 | the portable 64 x 32 multiply: low 64 bits plus 2^64 times the high 32 bits is the exact product |
| Primitives.MulAccumulate | src/classlibnative/bcltype/decimal_calc.inl:198-222 | the carry chain of the portable 64 x 64 multiply adds the partial products into two words exactly; the carries it drops out of the top word are zero |
| Primitives.Mul64By64 | src/classlibnative/bcltype/decimal_calc.inl:189-224 | low 64 bits plus 2^64 times the high 64 bits is the exact 128-bit product, including the short cut when both high halves are zero |
| Primitives.DivMod32By32 | src/classlibnative/bcltype/decimal_calc.inl:231-238 | quotient times divisor plus remainder is the dividend, remainder below the divisor |
| Primitives.DivMod64By64 | src/classlibnative/bcltype/decimal_calc.inl:243-250 | quotient times divisor plus remainder is the dividend, remainder below the divisor |
| Primitives.DivMod64By32Impl | src/classlibnative/bcltype/decimal_calc.inl:295-316 | with hi below the divisor (the assert the code makes) the packed result holds the quotient in its low half and the remainder in its high half, both branches |
| Primitives.DivMod64By32 | src/classlibnative/bcltype/decimal_calc.inl:318-323 | hi:lo = quotient * den + remainder, remainder below den, when hi < den |
| Primitives.DivMod64By32InPlace | src/classlibnative/bcltype/decimal_calc.inl:325-330 | the new low word and the returned remainder satisfy hi:low = q * den + r, r < den |
| Primitives.DivMod128By64 | src/classlibnative/bcltype/decimal_calc.inl:337-348 | the 128 / 64 hardware divide: with hi below the divisor the quotient fits 64 bits and hi:lo = q * den + r, r < den |
| Primitives.BitScanMsb64 | src/classlibnative/bcltype/decimal_calc.inl:376-392 | found exactly when the mask is not zero; then the index is below 64 and 2^index <= mask < 2^(index+1) |
| Primitives.BitScanMsb32 | src/classlibnative/bcltype/decimal_calc.inl:371-373 | found exactly when the mask is not zero; then 2^index <= mask < 2^(index+1), index below 32 |
| Primitives.ShiftLeft128 | src/classlibnative/bcltype/decimal_calc.inl:395-398 | the high 64 bits of the 128-bit value hi:lo shifted left by shift (the corrected form; see Findings) |
| Rounding.RoundIsNearest | src/classlibnative/bcltype/decimal_calc.cpp:256-260 | the round-half-to-even reference is within half a unit of n / d, and a result exactly half-way is even |
| Rounding.RoundUnique | src/classlibnative/bcltype/decimal_calc.cpp:256-260 | any integer within half a unit of n / d that is even on a tie is the round-half-to-even result |
| Rounding.StickyRound | src/classlibnative/bcltype/decimal_calc.cpp:235-260 | dividing by p1 and then by an even p2, rounding on the remainder of the last division with a sticky bit for everything dropped before, is rounding by p1 * p2 in one step |
| Rounding.FitsIff | src/classlibnative/bcltype/decimal_calc.cpp:185-186 | the correctly rounded n / d is below 2^96 exactly when Fits(n, d), the closed form every overflow test is proved against |
| Rounding.FitsMonotone | src/classlibnative/bcltype/decimal_calc.cpp:225-229 | dividing by a larger power never makes a fitting result stop fitting |
| Rounding.ZeroBestFit | src/classlibnative/bcltype/decimal_calc.cpp:185-190 | a value whose best fit is 0 has it at the finest allowed scale, min(s, 28): one scale finer its quotient is at most 5 and still fits |
| Rounding.BestFitUnique | src/classlibnative/bcltype/decimal_calc.cpp:185-190 | the best-fit scale and mantissa of a value are unique |
| Rounding.NoFitMeansNone | src/classlibnative/bcltype/decimal_calc.cpp:213-214 | a value that does not fit at scale 0 fits at no allowed scale |
| Rounding.LogEstimate | src/classlibnative/bcltype/decimal_calc.cpp:197-207 | the estimate (e * 77) >> 8 never exceeds log10(2^e): 10^((77e)/256) <= 2^e for every e up to 95 |
| Rounding.Pow10BelowPow2 | src/classlibnative/bcltype/decimal_calc.cpp:203-205 | the other side of the 77/256 estimate: 10^k <= 2^ceil(256k/77) for k up to 28 |
| Decimals.Add96By64 | src/classlibnative/bcltype/decimal_calc.cpp:75-79 | the 96-bit mantissa plus the value is the new mantissa plus 2^96 times the carry; sign and scale unchanged |
| Decimals.ExactFit | src/classlibnative/bcltype/decimal_calc.cpp:339-340 | a value below 2^96 at a scale up to 28 is its own best fit and never overflows |
| Decimals.FitResult | src/classlibnative/bcltype/decimal_calc.cpp:288 | a best fit with the sign of the exact result is a correct operator result |
| Decimals.OverflowResult | src/classlibnative/bcltype/decimal_calc.cpp:213-214 | a value that fits at no scale makes DISP_E_OVERFLOW the correct operator result |
| Scaling.Power10Table | src/classlibnative/bcltype/decimal_calc.cpp:45-66 | entry i of rgulPower10_64 is 10^i |
| Scaling.Below96 | src/classlibnative/bcltype/decimal_calc.cpp:244-250 | a word array is below 2^96 exactly when the high half of word 1 and word 2 are zero, and its value is then word 0 plus the low half of word 1 |
| Scaling.ParityLow | src/classlibnative/bcltype/decimal_calc.cpp:260 | the parity of the multi-word value is the parity of (uint32_t)rgullRes[0] |
| Scaling.MsbBounds | src/classlibnative/bcltype/decimal_calc.cpp:192-194 | the top bit found in the highest non-zero word brackets the whole value between 2^(64h+msb) and 2^(64h+msb+1) |
| Scaling.EstimateNoFit | src/classlibnative/bcltype/decimal_calc.cpp:197-209 | a value of at least 2^(96+e) does not fit when divided by 10^((77e)>>8), so one more power of ten is needed |
| Scaling.ScaleEstimate | src/classlibnative/bcltype/decimal_calc.cpp:192-217 | with e = 64 iHiRes + msb - 96: when e >= 0 the value does not fit at 10^((77e)>>8), so iNewScale is a lower bound on the scaling; when e < 0 the value already fits |
| Scaling.TruncStep | src/classlibnative/bcltype/decimal_calc.cpp:237-239 | one truncating division step: the quotients compose, and the sticky bit plus the new remainder record exactly whether anything was dropped |
| Scaling.CarryRound | src/classlibnative/bcltype/decimal_calc.cpp:266-278 | when rounding by some divisor gives exactly 2^96, rounding by ten times that divisor gives 2^96 / 10 + 1, which is why the loop may restart from 2^96 with remainder and sticky bit cleared |
| Scaling.Add96By32 | src/classlibnative/bcltype/decimal_calc.cpp:81-85 | the 96 bits in word 0 and the low half of word 1 grow by value, the carry out of bit 96 is returned; the high half of word 1 and the words above are untouched |
| Scaling.DivideWords | src/classlibnative/bcltype/decimal_calc.cpp:143-149 | the word loop of ReduceScale is a long division: old value = new value * den + remainder, remainder below den |
| Scaling.StepDivisor | src/classlibnative/bcltype/decimal_calc.cpp:114-121 | the divisor of one step is 10^min(iNewScale, 9), even and at least 10 |
| Scaling.DivideTop | src/classlibnative/bcltype/decimal_calc.cpp:123-141 | the first division on the top word: quotient * den + remainder = top, and the top word becomes zero exactly when the quotient is zero |
| Scaling.ReduceScale | src/classlibnative/bcltype/decimal_calc.cpp:108-152 | divides words 0..iHiRes in place by ulDen = 10^min(iNewScale, 9): old value = new value * ulDen + remainder, iNewScale lowered by 9, iHiRes lowered only past a top word that became zero |
| Scaling.ScaleInvEntry | src/classlibnative/bcltype/decimal_calc.cpp:219-233 | the scale estimate, raised so the scale is at most 28, sets up the loop invariant |
| Scaling.ScaleStep | src/classlibnative/bcltype/decimal_calc.cpp:235-242 | one ReduceScale step from the loop head keeps the invariant: the words hold the value truncated by the powers divided so far and the sticky bit records what was dropped |
| Scaling.ExtraStep | src/classlibnative/bcltype/decimal_calc.cpp:250-254 | a settled quotient still 97 bits or more wide is divided by ten once more at one scale lower |
| Scaling.CarryStep | src/classlibnative/bcltype/decimal_calc.cpp:262-279 | rounding up from 2^96 - 1 carries out: the loop restarts from 2^96 with remainder and sticky cleared, one scale lower |
| Scaling.SettledResult | src/classlibnative/bcltype/decimal_calc.cpp:282-288 | the settled and rounded quotient is the best fit when the scale is not negative, and the value fits nowhere when it is |
| Scaling.ConcludeFit | src/classlibnative/bcltype/decimal_calc.cpp:282-288 | a correctly rounded mantissa below 2^96 at a scale where the next finer scale does not fit is the best fit |
| Scaling.RoundUp | src/classlibnative/bcltype/decimal_calc.cpp:256-280 | rounds the settled quotient half to even with the sticky bit: the value becomes q + 1 exactly when the remainder is past half, or half with q odd or sticky; a carry out happens exactly when q was 2^96 - 1 |
| Scaling.DividePass | src/classlibnative/bcltype/decimal_calc.cpp:237-242 | one pass of the loop: records the sticky bit, calls ReduceScale and advances the invariant |
| Scaling.SettlePass | src/classlibnative/bcltype/decimal_calc.cpp:244-288 | the end of a pass: too wide (divide by ten more), carried out (restart from 2^96), or rounded and settled |
| Scaling.ScaleDown | src/classlibnative/bcltype/decimal_calc.cpp:225-290 | the loop returns -1 exactly when the value fits at no scale, and otherwise the best-fit scale with the correctly rounded mantissa in the low 96 bits |
| Scaling.ScaleResult | src/classlibnative/bcltype/decimal_calc.cpp:172-292 | returns -1 exactly when the up-to-192-bit value at scale iScale (up to 56) cannot be held at any scale from 0 to 28; otherwise the largest scale at which the value rounded half to even fits 96 bits, with that mantissa left in the words |
| Scaling.WordsResult | src/classlibnative/bcltype/decimal_calc.cpp:347-353 | the scale ScaleResult returned and its words make a correct operator result, DISP_E_OVERFLOW for -1, with the given sign, and a zero at scale min(s, 28) |
| Multiply.PartialProducts | src/classlibnative/bcltype/decimal_calc.cpp:387-401 | the partial products accumulated into three words are the exact 192-bit product of the mantissas; the carries the code ignores are zero |
| Multiply.RoundOnce | src/classlibnative/bcltype/decimal_calc.cpp:327-334 | one division by an even power of ten with the test ullRem > ullPwr/2 or equal and lo odd is rounding half to even |
| Multiply.FastRound | src/classlibnative/bcltype/decimal_calc.cpp:316-336 | for a product below 2^64 at scale s in 29..47, one rounded division by 10^(s - 28) gives the best fit at scale 28 |
| Multiply.FastQuotient | src/classlibnative/bcltype/decimal_calc.cpp:328-334 | that rounded quotient stays within 64 bits, so lo++ cannot wrap |
| Multiply.TinyRound | src/classlibnative/bcltype/decimal_calc.cpp:318-326 | a 64-bit product at a scale more than 19 above 28 has the best fit 0 at scale 28, so ReturnZero's +0 is a correct result |
| Multiply.ZeroRound | src/classlibnative/bcltype/decimal_calc.cpp:405-408 | a zero product is the zero result at every scale |
| Multiply.Mul64Result | src/classlibnative/bcltype/decimal_calc.cpp:313-341 | a product below 2^64: exact up to scale 28, rounded once above it, or +0 at scale 0 when the scale is more than 19 above 28; the result meets RoundedTo, and otherwise carries the given sign, a zero at scale min(s, 28) |
| Multiply.MulWide | src/classlibnative/bcltype/decimal_calc.cpp:403-417 | a three-word product: +0 at scale 0 exactly when all words are zero, otherwise ScaleResult from the top non-zero word with the given sign, a zero at scale min(s, 28); the result meets RoundedTo |
| Multiply.Mul128 | src/classlibnative/bcltype/decimal_calc.cpp:342-354 | a product of two 64-bit operands that needs two words goes through ScaleResult; the result meets RoundedTo, carries the given sign and is a zero only at scale min(s, 28) |
| Multiply.MulSmall | src/classlibnative/bcltype/decimal_calc.cpp:310-355 | both high words zero: the result meets RoundedTo for the product at the summed scale; it is +0 at scale 0 when the product is below 2^64 and the scale sum above 47, and otherwise has the XOR of the signs, a zero at scale min(s, 28) |
| Multiply.MulLarge | src/classlibnative/bcltype/decimal_calc.cpp:356-418 | a high word set: the result meets RoundedTo for the product at the summed scale; it is +0 at scale 0 when the product is zero, and otherwise has the XOR of the signs, a zero at scale min(s, 28) |
| Multiply.DecimalMul | src/classlibnative/bcltype/decimal_calc.cpp:300-423 | DISP_E_OVERFLOW exactly when the product fits at no scale; otherwise the product of the mantissas rounded half to even to the largest scale up to 28 (and up to the summed scale) where it fits. On the ReturnZero path (a fast-path product below 2^64 with a scale sum above 47, or a zero wide product) the result is +0 at scale 0; every other result has the XOR of the signs, and a zero is at scale min(s, 28) |
| AddSub.Negate | src/classlibnative/bcltype/decimal_calc.h:37-40 | the operand as subtraction sees it: the value negated, the scale kept |
| AddSub.SumCommutes | src/classlibnative/bcltype/decimal_calc.h:33-36 | the exact sum does not depend on the order of the operands |
| AddSub.SubIsAddNegated | src/classlibnative/bcltype/decimal_calc.h:37-40 | l - r is l + (-r), the DECIMAL_NEG flag passed to DecimalAddSub |
| AddSub.SumResultUnique | src/classlibnative/bcltype/decimal_calc.cpp:430-692 | two results that both meet the add/subtract contract for the same exact sum hold the same number |
| AddSub.SignFlip | src/classlibnative/bcltype/decimal_calc.cpp:455-460 | the SignFlip block: the 96-bit two's complement of the mantissa with the sign flipped; the mantissa becomes 2^96 minus it |
| AddSub.SignFlipTwice | src/classlibnative/bcltype/decimal_calc.cpp:455-460 | flipping a non-zero result twice gives it back |
| AddSub.FlipResult | src/classlibnative/bcltype/decimal_calc.cpp:452-461 | a subtraction that borrowed out of 96 bits, after SignFlip, is the exact difference |
| AddSub.CarryDown | src/classlibnative/bcltype/decimal_calc.cpp:474-488 | the carried-out sum 2^96 + m divided by ten a 32-bit word at a time from the top and rounded half to even on the remainder with the low word's parity |
| AddSub.CarryTenth | src/classlibnative/bcltype/decimal_calc.cpp:479-481 | dividing 2^96 + m by ten a word at a time from the top with the carried 1 gives the exact quotient and a remainder below ten; the quotient's parity is its low word's and it stays below 2^96 - 1, so the round-up cannot overflow |
| AddSub.Increment | src/classlibnative/bcltype/decimal_calc.cpp:487 | Add96By64 of one to a mantissa that cannot carry adds one |
| AddSub.CarryResult | src/classlibnative/bcltype/decimal_calc.cpp:470-489 | a sum that carried out of 96 bits is correctly rounded one scale lower, and overflows at scale 0 |
| AddSub.AlignedAdd | src/classlibnative/bcltype/decimal_calc.cpp:443-490 | the AlignedAdd block: the result meets the add/subtract contract for the signed sum of the two mantissas at their common scale |
| AddSub.AlignedSub | src/classlibnative/bcltype/decimal_calc.cpp:444-462 | signs differ: the difference, with the sign flipped on a borrow, meets the contract |
| AddSub.AlignedSum | src/classlibnative/bcltype/decimal_calc.cpp:463-490 | signs agree: the sum, divided by ten on a carry out (overflow at scale 0), meets the contract |
| AddSub.Carried | src/classlibnative/bcltype/decimal_calc.cpp:470-489 | the carried-out sum: overflow at scale 0, otherwise CarryDown one scale lower |
| AddSub.ScaleSmall | src/classlibnative/bcltype/decimal_calc.cpp:531-537 | the left mantissa times 10^iScale (iScale <= 19) in three 64-bit words is exact; the last AddCarry64 never carries |
| AddSub.MulWords | src/classlibnative/bcltype/decimal_calc.cpp:596-611 | one pass of the scaling loop multiplies the multi-word value by ullPwr exactly, iHiProd following the top non-zero word |
| AddSub.MulUpper | src/classlibnative/bcltype/decimal_calc.cpp:600-604 | the inner loop carries the high half of each product and the add carry into the next word exactly |
| AddSub.PlaceCarry | src/classlibnative/bcltype/decimal_calc.cpp:606-610 | the carry left after the last word becomes a new non-zero top word when it is not zero, never beyond the third word, and the value stays exact |
| AddSub.NoRoom | src/classlibnative/bcltype/decimal_calc.cpp:610-611 | the carry out of the top word at iHiProd == 2 is zero, as the aligned product is below 2^192 |
| AddSub.ScaleUp | src/classlibnative/bcltype/decimal_calc.cpp:589-612 | the loop for a scale difference above 19 multiplies the value by 10^iScale exactly in chunks of 10^19, iHiProd following the top non-zero word |
| AddSub.ScaleStep | src/classlibnative/bcltype/decimal_calc.cpp:589-612 | each chunk keeps the running product equal to the operand times the powers applied so far |
| AddSub.ScaleUpBound | src/classlibnative/bcltype/decimal_calc.cpp:615-617 | the running product stays below 2^192 (iHiProd <= 2) |
| AddSub.AboveOneWord | src/classlibnative/bcltype/decimal_calc.cpp:564-584 | a non-zero operand scaled by 10^20 or more never fits one word |
| AddSub.Finish | src/classlibnative/bcltype/decimal_calc.cpp:675-687 | a result wider than 96 bits goes through ScaleResult (overflow when it returns -1), one that fits is taken as it is; both meet the contract |
| AddSub.WideAddSub | src/classlibnative/bcltype/decimal_calc.cpp:622-687 | the right mantissa added to or subtracted from the scaled left one held in up to three words: the result meets the contract |
| AddSub.WideSub | src/classlibnative/bcltype/decimal_calc.cpp:622-647 | the subtraction: a borrow with nothing above word 1 flips the sign, otherwise it comes out of the top word |
| AddSub.WideAdd | src/classlibnative/bcltype/decimal_calc.cpp:648-670 | the addition: a carry out of word 1 becomes or increments the top word, which always has room |
| AddSub.AlignedBound | src/classlibnative/bcltype/decimal_calc.cpp:662-668 | the aligned left operand is below 2^96 * 10^28, so the top word has room for the carry |
| AddSub.LeftZero | src/classlibnative/bcltype/decimal_calc.cpp:574-583 | a zero left operand returns the right operand with the sign the subtraction gives it |
| AddSub.ScaledAddSub | src/classlibnative/bcltype/decimal_calc.cpp:521-617 | the scale difference is applied to the left operand and the two are combined; the result meets the contract for the aligned values |
| AddSub.ScaledSmall | src/classlibnative/bcltype/decimal_calc.cpp:522-562 | a difference up to 19: one multiplication by 10^iScale, then AlignedAdd when the product fits 96 bits, the wide path otherwise |
| AddSub.ScaleWords | src/classlibnative/bcltype/decimal_calc.cpp:531-537 | the left mantissa times 10^iScale in three words, exactly, with room in the top word |
| AddSub.ScaledLarge | src/classlibnative/bcltype/decimal_calc.cpp:564-617 | a difference above 19: the left operand multiplied up word by word, a zero left operand short-cut |
| AddSub.ScaleLeft | src/classlibnative/bcltype/decimal_calc.cpp:568-612 | the left mantissa in three words multiplied by 10^iScale exactly, iHiProd the top non-zero word |
| AddSub.EqualScales | src/classlibnative/bcltype/decimal_calc.cpp:438-442 | equal scales: the exact sum is the aligned combination of the mantissas under the left operand's sign |
| AddSub.AlignLeft | src/classlibnative/bcltype/decimal_calc.cpp:502-504 | the left operand with the smaller scale is multiplied by 10^(difference) and the result takes the larger scale |
| AddSub.AlignRight | src/classlibnative/bcltype/decimal_calc.cpp:506-513 | the right operand with the smaller scale: the operands swap and the result starts with the right operand's sign as the subtraction sees it |
| AddSub.Align | src/classlibnative/bcltype/decimal_calc.cpp:492-513 | unequal scales: the operand with the smaller scale is the one multiplied up, by 10^iScale with iScale in 1..28, and the aligned combination is the exact sum at the larger scale |
| AddSub.DecimalAddSub | src/classlibnative/bcltype/decimal_calc.cpp:430-692 | l + r, or l - r when bSign is set: DISP_E_OVERFLOW exactly when the exact result fits at no scale; otherwise it rounded half to even at the largest scale up to max(l.scale, r.scale) where it fits, with the sign of the exact result; an exact zero keeps the larger scale |
| AddSub.DecimalAdd | src/classlibnative/bcltype/decimal_calc.h:33-36 | DecimalAddSub with bSign 0: the correctly rounded l + r |
| AddSub.DecimalSub | src/classlibnative/bcltype/decimal_calc.h:37-40 | DecimalAddSub with DECIMAL_NEG: the correctly rounded l - r |
| DivWords.IncreaseScale96By32 | src/classlibnative/bcltype/decimal_calc.cpp:798-809 | the 96-bit number times ulPwr: the low 96 bits replace it and 2^96 times the returned word completes the exact product |
| DivWords.IncreaseScale96By64 | src/classlibnative/bcltype/decimal_calc.cpp:771-794 | the 96-bit number times a 64-bit power: low 96 bits in place, the returned top 64 bits complete the exact product |
| DivWords.Add96By32 | src/classlibnative/bcltype/decimal_calc.cpp:740-745 | a 32-bit value added to the three words; the carry out of bit 96 returned |
| DivWords.Add96By64 | src/classlibnative/bcltype/decimal_calc.cpp:729-738 | a 64-bit value added to the three words with one 64-bit add and a carry into the top word |
| DivWords.DivideTop | src/classlibnative/bcltype/decimal_calc.cpp:941-957 | the top two words of Div96By32: each branch keeps top:mid = q * den + r with r < den |
| DivWords.Div96By32 | src/classlibnative/bcltype/decimal_calc.cpp:926-961 | the quotient by a 32-bit divisor replaces the 96-bit number and the remainder below the divisor is returned: old = new * den + rem |
| DivWords.AddBack | src/classlibnative/bcltype/decimal_calc.cpp:1023-1047 | the add-back loop of Div128By96: the remainder of the estimate, negative and held modulo 2^96, gets the divisor added back and the quotient lowered until the addition carries out of 96 bits; it ends with quotient * divisor + remainder equal to the dividend and the remainder below the divisor |
| DivWords.EstimateBounds | src/classlibnative/bcltype/decimal_calc.cpp:1013-1019 | the remainder of the estimated quotient is above -2^96 and below 2^64 times the top divisor word |
| DivWords.Div128By96 | src/classlibnative/bcltype/decimal_calc.cpp:993-1051 | with the top dividend word below the top divisor word: old 128 bits = quo * divisor + remainder, remainder (in the low three words) below the divisor |
| DivWords.Div160By96 | src/classlibnative/bcltype/decimal_calc.cpp:1073-1087 | the two Div128By96 calls make one 160 / 96 division when their guard holds: old 160 bits = quo * divisor + remainder, remainder below the divisor |
| DivWords.Combine160 | src/classlibnative/bcltype/decimal_calc.cpp:1080-1087 | the two partial quotients combine as quo1 * 2^32 + quo0 |
| DivWords.NegRem | src/classlibnative/bcltype/decimal_calc.cpp:1217-1226 | the add-back loop of Div96By64, including the estimate 2^32 held as 0 and wrapping on the first decrement, ends with the true quotient and a remainder below the divisor |
| DivWords.QuotientRemainder | src/classlibnative/bcltype/decimal_calc.cpp:1211-1216 | the estimate from the top words and the divisor's high word leaves a remainder above -2^64 and below the divisor |
| DivWords.Div96By64 | src/classlibnative/bcltype/decimal_calc.cpp:1182-1230 | with the top 64 bits below the divisor: old 96 bits = quo * den + remainder, the remainder below den left in the low two words |
| DivWords.Div128By64 | src/classlibnative/bcltype/decimal_calc.cpp:1252-1298 | with the top 64 bits below the divisor: old 128 bits = quo * den + remainder in the low two words, remainder below den; a dividend below den gives 0 |
| QuotientScale.OvflValue | src/classlibnative/bcltype/decimal_calc.cpp:704-725 | each PowerOvfl entry, Hi * 2^32 + Lo, is (2^96 - 1) / 10^k |
| QuotientScale.OvflIff | src/classlibnative/bcltype/decimal_calc.cpp:704-725 | a quotient can be scaled by 10^k within 96 bits exactly when it is at most PowerOvfl[k] |
| QuotientScale.CompareOvfl | src/classlibnative/bcltype/decimal_calc.cpp:881-888 | comparing the top 64 bits and then the low word with PowerOvfl[k] compares the whole quotient |
| QuotientScale.UpperEqFits | src/classlibnative/bcltype/decimal_calc.cpp:883-888 | a quotient whose top 64 bits equal PowerOvfl[k].Hi is at most PowerOvfl[k - 1] |
| QuotientScale.EstimateRange | src/classlibnative/bcltype/decimal_calc.cpp:876-879 | with n free bits above the top bit, (77n) >> 8 satisfies 10^e <= 2^n and 2^(n+1) <= 10^(e+2) |
| QuotientScale.EstimateBracket | src/classlibnative/bcltype/decimal_calc.cpp:874-879 | the estimated scale e lies in 1..19, the quotient fits after 10^(e-1) and overflows after 10^(e+1) |
| QuotientScale.EstimateLargest | src/classlibnative/bcltype/decimal_calc.cpp:881-888 | after the estimate, the comparison with PowerOvfl[e] picks the largest scale, e or e - 1 |
| QuotientScale.QuickZero | src/classlibnative/bcltype/decimal_calc.cpp:846-849 | at scale 28, or with the top word above 429496729, no power of ten can be applied |
| QuotientScale.SmallFits | src/classlibnative/bcltype/decimal_calc.cpp:890-893 | a quotient below 2^32 can be scaled by the full 10^19 |
| QuotientScale.LargestScale | src/classlibnative/bcltype/decimal_calc.cpp:846-893 | before HaveScale the search finds the largest k up to min(19, 28 - iScale) with quotient * 10^k below 2^96 |
| QuotientScale.CappedScale | src/classlibnative/bcltype/decimal_calc.cpp:852-862 | above scale 9 the capped scale 28 - iScale is taken when the top 64 bits are below the entry, checked on the low word when equal |
| QuotientScale.EstimatedScale | src/classlibnative/bcltype/decimal_calc.cpp:874-889 | otherwise the scale estimated from the top bit, lowered by one when the quotient exceeds the PowerOvfl entry, is the largest |
| QuotientScale.SearchScale64 | src/classlibnative/bcltype/decimal_calc.cpp:831-907 | returns -1 exactly when iScale is negative and the quotient scaled by 10^min(19, -iScale) overflows 96 bits; otherwise the largest power up to min(19, 28 - iScale) by which the quotient can be scaled within 96 bits |
| QuotientScale.MinusOneRule | src/classlibnative/bcltype/decimal_calc.cpp:895-904 | the largest scale leaves the scale negative, short of 19, exactly when scaling to scale 0 (or by 10^19) overflows |
| QuotientScale.ShortOfScale | src/classlibnative/bcltype/decimal_calc.cpp:895-904 | with the cap 19, the largest scale is below m exactly when scaling by 10^m overflows |
| DivisionSpec.RoundOf | src/classlibnative/bcltype/decimal_calc.cpp:1378-1380 | rounding q * d + r over d is q + 1 exactly when the doubled remainder passes the divisor or equals it with q odd |
| DivisionSpec.ScaleInvariant | src/classlibnative/bcltype/decimal_calc.cpp:1418-1427 | multiplying numerator and divisor by the same normalising factor changes neither the rounding nor fitting nor exactness |
| DivisionSpec.TenthRound | src/classlibnative/bcltype/decimal_calc.cpp:1381-1383 | a quotient with a sticky bit, divided by ten and rounded on its last digit, is the value rounded one scale lower |
| DivisionSpec.StepProgress | src/classlibnative/bcltype/decimal_calc.cpp:1392-1402 | a scaling step: the remainder times 10^k divided by the divisor gives the next digits and remainder of the dividend at the higher scale |
| DivisionSpec.OverflowAt | src/classlibnative/bcltype/decimal_calc.cpp:1387-1388 | a numerator of 2^96 divisors or more at a scale at or below 0 overflows at scale 0 |
| DivisionSpec.ExactExit | src/classlibnative/bcltype/decimal_calc.cpp:1346-1352 | a zero remainder at a scale of 0 or more: the quotient is exact |
| DivisionSpec.NextNoFit | src/classlibnative/bcltype/decimal_calc.cpp:1373-1374 | when the quotient times ten reaches 2^96 the next scale does not fit |
| DivisionSpec.RoundExit | src/classlibnative/bcltype/decimal_calc.cpp:1374-1385 | no more scaling allowed: the rounded quotient is settled there |
| DivisionSpec.CarryExit | src/classlibnative/bcltype/decimal_calc.cpp:1400-1402 | a quotient that reached 2^96 is the rounded tenth one scale lower, or an overflow at scale 0 |
| DivisionSpec.RoundCarryExit | src/classlibnative/bcltype/decimal_calc.cpp:1381-1383 | rounding 2^96 - 1 up carries out: one scale lower the result is 2^96 / 10 rounded with a sticky bit, or an overflow at scale 0 |
| DivisionSpec.SettledQuotient | src/classlibnative/bcltype/decimal_calc.cpp:1418-1427 | a settled quotient of the shifted operands is a correctly rounded quotient of the mantissas |
| DivisionSpec.OverflowsFactor | src/classlibnative/bcltype/decimal_calc.cpp:1418-1427 | the normalising shift does not change whether the quotient overflows |
| Division.ExactStop | src/classlibnative/bcltype/decimal_calc.cpp:1346-1352 | no remainder at a scale of 0 or more ends the loop with the exact quotient |
| Division.StepInv | src/classlibnative/bcltype/decimal_calc.cpp:1391-1402 | a scaling step that stays within 96 bits keeps the loop invariant |
| Division.Power32 | src/classlibnative/bcltype/decimal_calc.cpp:1392 | (uint32_t)rgulPower10_64[k] is 10^k, at most 10^9 |
| Division.OverflowUnscale | src/classlibnative/bcltype/decimal_calc.cpp:1381-1383 | the corrected handling of a quotient that carried out of 96 bits: 2^96 + quo divided by ten, rounded with the sticky bit, one scale lower, failing at scale 0 (see Findings) |
| Division.Carried | src/classlibnative/bcltype/decimal_calc.cpp:1402 | a digit step that carried out of 96 bits: OverflowUnscale gives the settled quotient, or an overflow |
| Division.CarryOut | src/classlibnative/bcltype/decimal_calc.cpp:1402 | the loop ends correctly after a scaling step that carried out of 96 bits |
| Division.Advance | src/classlibnative/bcltype/decimal_calc.cpp:1391-1402 | the end of a scaling step: a carry out ends the loop through OverflowUnscale, otherwise the loop goes on at scale i + k with the new quotient and remainder |
| Division.RoundUp | src/classlibnative/bcltype/decimal_calc.cpp:1381-1383 | the RoundUp label adds one; a carry out of 96 bits is handled as in OverflowUnscale; the result is settled or an overflow |
| Division.ScaleRemainder32 | src/classlibnative/bcltype/decimal_calc.cpp:1400-1401 | the remainder scaled by the power and divided again in one 64 / 32 division gives the next digit and remainder |
| Division.Scale32 | src/classlibnative/bcltype/decimal_calc.cpp:1391-1402 | HaveScale32: a non-zero IncreaseScale96By32 result means the scaled quotient needs more than 96 bits; otherwise the quotient times the power plus the digit, and the new remainder |
| Division.RoundTest32 | src/classlibnative/bcltype/decimal_calc.cpp:1378-1380 | the 32-bit doubled-remainder test, a wrap meaning past the divisor, is the rounding test |
| Division.Round32 | src/classlibnative/bcltype/decimal_calc.cpp:1374-1385 | no more scaling for the 32-bit divisor: the quotient rounded half to even ends the loop correctly |
| Division.Pass32 | src/classlibnative/bcltype/decimal_calc.cpp:1346-1402 | one pass of the 32-bit loop ends the division with its outcome or scales quotient and remainder up while keeping the invariant |
| Division.DivideBy32 | src/classlibnative/bcltype/decimal_calc.cpp:1345-1403 | the loop of the 32-bit divisor ends with a settled quotient, the exact one at the natural scale, or an overflow |
| Division.MinusOne | src/classlibnative/bcltype/decimal_calc.cpp:1387-1388 | SearchScale64 returning -1 means the quotient overflows at scale 0 |
| Division.ScaleOverflow | src/classlibnative/bcltype/decimal_calc.cpp:1395-1396 | IncreaseScale96By32 overflowing is possible only for an exact quotient below scale 0, which then overflows at scale 0 |
| Division.ScaleRemainder64 | src/classlibnative/bcltype/decimal_calc.cpp:1477-1478 | the 64-bit remainder times the power (one 64 x 32 multiply) divided by Div96By64 gives the next digit and remainder |
| Division.Scale64 | src/classlibnative/bcltype/decimal_calc.cpp:1467-1479 | HaveScale64: overflow of the scaled quotient, or the quotient times the power plus the digit with the new remainder |
| Division.RoundTest64 | src/classlibnative/bcltype/decimal_calc.cpp:1457-1460 | the 64-bit rounding test: a remainder of 2^63 or more is past half the normalised divisor; otherwise doubled and compared |
| Division.Round64 | src/classlibnative/bcltype/decimal_calc.cpp:1453-1462 | no more scaling for the 64-bit divisor: the quotient rounded half to even ends the loop correctly |
| Division.Pass64 | src/classlibnative/bcltype/decimal_calc.cpp:1438-1479 | one pass of the 64-bit loop ends the division or scales up while keeping the invariant |
| Division.DivideBy64 | src/classlibnative/bcltype/decimal_calc.cpp:1437-1480 | the loop of the 64-bit divisor ends with a settled quotient, the exact one at the natural scale, or an overflow |
| Division.ScaleRemainder96 | src/classlibnative/bcltype/decimal_calc.cpp:1544-1545 | the 96-bit remainder times a power up to 10^9 divided by Div128By96 (whose guard holds) gives the next digit and remainder |
| Division.Scale96 | src/classlibnative/bcltype/decimal_calc.cpp:1536-1545 | HaveScale96 in 10^9 steps: overflow of the scaled quotient, or quotient times power plus digit with the new remainder |
| Division.ZeroWords | src/classlibnative/bcltype/decimal_calc.cpp:1497 | the zero test on the low 64 bits and the top word is the test for a zero remainder |
| Division.RoundTest96 | src/classlibnative/bcltype/decimal_calc.cpp:1516-1527 | the 96-bit rounding test: a top remainder word of 2^31 or more is past half; otherwise the doubled remainder compared word by word is the rounding test |
| Division.Round96 | src/classlibnative/bcltype/decimal_calc.cpp:1512-1529 | no more scaling for the 96-bit divisor: the quotient rounded half to even ends the loop correctly |
| Division.Pass96 | src/classlibnative/bcltype/decimal_calc.cpp:1497-1557 | one pass of the 96-bit loop ends the division or scales up in 10^9 steps while keeping the invariant |
| Division.DivideBy96 | src/classlibnative/bcltype/decimal_calc.cpp:1496-1558 | the loop of the 96-bit divisor ends with a settled quotient, the exact one at the natural scale, or an overflow |
| Division.LowFilter | src/classlibnative/bcltype/decimal_calc.cpp:1575-1610 | a quotient whose low bits fail the & 0xFF, & 0xF, & 3 or & 1 filter is not a multiple of the power of ten tried |
| Division.DivideOut | src/classlibnative/bcltype/decimal_calc.cpp:1575-1586 | one division by 10^j in a copy, kept only when exact: either the quotient times 10^j is the old one, or nothing changed and it was not a multiple |
| Division.UnscaleBy | src/classlibnative/bcltype/decimal_calc.cpp:1588-1619 | a single try by 10^4, 10^2 or 10 keeps the value and leaves no such factor behind when the scale allows one |
| Division.Unscale | src/classlibnative/bcltype/decimal_calc.cpp:1563-1620 | the unscale step keeps the quotient's value (quotient * 10^(removed) is the old one) and removes every trailing zero the scale allows |
| Division.Normalise | src/classlibnative/bcltype/decimal_calc.cpp:1425-1427 | the low word shifted in 64 bits and the ShiftLeft128 word together are the 128-bit value times 2^shift |
| Division.ShiftBounds | src/classlibnative/bcltype/decimal_calc.cpp:1418-1421 | shifting by 31 minus the index of the divisor's top bit moves that bit to bit 31 |
| Division.FirstInv | src/classlibnative/bcltype/decimal_calc.cpp:1435 | the first division of the shifted operands is the quotient of the mantissas, below 2^95 when a remainder is left |
| Division.Quotient32 | src/classlibnative/bcltype/decimal_calc.cpp:1332-1404 | the 32-bit divisor path ends with the loop outcome for the mantissas |
| Division.ShiftDividend | src/classlibnative/bcltype/decimal_calc.cpp:1425-1426 | the dividend shifted left into four words is the mantissa times 2^shift, its top 64 bits below 2^(32+shift) |
| Division.Quotient64 | src/classlibnative/bcltype/decimal_calc.cpp:1429-1481 | the 64-bit divisor path, on operands shifted by the same factor, ends with the loop outcome |
| Division.ShiftDivisor | src/classlibnative/bcltype/decimal_calc.cpp:1487-1488 | the 96-bit divisor shifted so its top bit is bit 31 of its third word; the value is the mantissa times 2^shift |
| Division.Quotient96 | src/classlibnative/bcltype/decimal_calc.cpp:1482-1559 | the 96-bit divisor path, on operands shifted by the same factor, ends with the loop outcome |
| Division.SettledFits | src/classlibnative/bcltype/decimal_calc.cpp:1622-1626 | a settled quotient never overflows |
| Division.Conclude | src/classlibnative/bcltype/decimal_calc.cpp:1622-1626 | a settled quotient with its trailing powers of ten removed, with the XOR of the signs, is a correct division result |
| Division.DecimalDiv | src/classlibnative/bcltype/decimal_calc.cpp:1305-1627 | DISP_E_DIVBYZERO exactly for a zero divisor; DISP_E_OVERFLOW exactly when the quotient does not fit 96 bits at scale 0; otherwise the quotient rounded half to even at the largest scale up to 28 where it fits (exact quotients at the natural scale), trailing zeros removed when inexact, with the XOR of the signs |
| Division.ShiftZeroCorrupts | src/classlibnative/bcltype/decimal_calc.inl:395-398 | as written, a zero shift (divisor top word with bit 31 already set) turns the dividend 1 into 2^64 + 1 |
| Division.StepAsWritten | src/classlibnative/bcltype/decimal_calc.cpp:1400-1402 | the scaling step as written: the quotient wraps modulo 2^96 because the Add96By32 carry is ignored |
| Division.DroppedCarry | src/classlibnative/bcltype/decimal_calc.cpp:1373-1402 | 71305346262837903834189555303 / 9: SearchScale64 allows one more digit, but adding it carries out and the quotient as written becomes 0 |
| Division.RoundUpWraps | src/classlibnative/bcltype/decimal_calc.cpp:1373-1383 | 55459713759985036315480765235 / 0.7: one scaling step reaches 2^96 - 1 at scale 0 with remainder 5 of 7, no further scaling is possible, the RoundUp test fires and the ignored carry leaves 0 at scale 0, while the promised outcome for these operands is an overflow |
| Division.Div160GuardFails | src/classlibnative/bcltype/decimal_calc.cpp:1547-1555 | 10266262969489344502 / 11951503075530455101886346296: the 10^19 step yields a 160-bit dividend for which the second Div128By96 call's guard fails |
| Limbs.D32AddCarry | src/classlibnative/bcltype/decimal.cpp:467-476 | the stored 32-bit sum plus 2^32 times the reported carry is v + i: the test sum < v or sum < i is exactly the wrap |
| Limbs.D32DivMod1E9 | src/classlibnative/bcltype/decimal.cpp:436-444 | the remainder is below 10^9; with hi32 below 10^9 the quotient is not truncated and quotient * 10^9 + remainder = hi32:lo32 |
| Limbs.DecimalBuffer.ShiftLeft | src/classlibnative/bcltype/decimal.cpp:455-465 | DecShiftLeft doubles the 96-bit mantissa modulo 2^96, each limb taking the top bit of the limb below |
| Limbs.DecimalBuffer.Add | src/classlibnative/bcltype/decimal.cpp:478-492 | DecAdd adds the other mantissa modulo 2^96, the carries rippled upward |
| Limbs.DecimalBuffer.Mul10 | src/classlibnative/bcltype/decimal.cpp:494-504 | DecMul10 multiplies the mantissa by ten modulo 2^96 |
| Limbs.DecimalBuffer.AddInt32 | src/classlibnative/bcltype/decimal.cpp:506-516 | DecAddInt32 adds i modulo 2^96 |
| Limbs.DecimalBuffer.DivMod1E9 | src/classlibnative/bcltype/decimal.cpp:446-453 | DecDivMod1E9 divides the mantissa in place by 10^9: old = new * 10^9 + remainder, remainder below 10^9 |
| Limbs.DoubleWords | src/classlibnative/bcltype/decimal.cpp:460-464 | the shifted limbs with the carried bits are twice the value modulo 2^96 |
| Limbs.RippleLow | src/classlibnative/bcltype/decimal.cpp:511-515 | adding to the low limb with the carry rippled up: the new limbs plus 2^96 times the dropped carry are the old value plus i, so the limbs hold the sum modulo 2^96 |
| Limbs.RippleMid | src/classlibnative/bcltype/decimal.cpp:488-490 | adding to the middle limb with its carry into the top limb leaves the low limb and adds 2^32 m, up to 2^96 times the dropped carry |
| Limbs.AddWords | src/classlibnative/bcltype/decimal.cpp:483-491 | the three limb additions of DecAdd: the new limbs plus 2^96 times the dropped carries are the sum of the two mantissas |
| Limbs.LongDivide1E9 | src/classlibnative/bcltype/decimal.cpp:451-452 | the three chained divisions make one long division of the mantissa by 10^9 |
| Parse.DigitsValue | src/classlibnative/bcltype/decimal.cpp:315-322 | the integer a digit string spells is below 10^(number of digits) |
| Parse.Steps | src/classlibnative/bcltype/decimal.cpp:315-322 | the number of passes of the accumulation loop: the first step at which the loop condition fails |
| Parse.MantStep | src/classlibnative/bcltype/decimal.cpp:319-321 | a pass multiplies the mantissa by ten and adds the next digit, or nothing once the digits are used up |
| Parse.ThresholdExact | src/classlibnative/bcltype/decimal.cpp:316-318 | the threshold test (mantissa below 0x19999999_99999999_99999999, or equal and the next character at most 5) holds exactly when ten times the mantissa plus the digit fits 96 bits |
| Parse.MantFits | src/classlibnative/bcltype/decimal.cpp:315-322 | every mantissa the loop reaches fits 96 bits, so DecMul10 and DecAddInt32 never wrap |
| Parse.Maximal | src/classlibnative/bcltype/decimal.cpp:315-322 | the loop keeps as many digits as fit: when it stops with scale still to fill, one more digit would overflow 96 bits |
| Parse.BelowThreshold | src/classlibnative/bcltype/decimal.cpp:316-318 | the limb-by-limb comparison, top limb first, is the comparison of the mantissa with the threshold |
| Parse.AccumulateStep | src/classlibnative/bcltype/decimal.cpp:319-321 | one pass: the buffer holds the next mantissa, the digit pointer and the exponent advance |
| Parse.Accumulate | src/classlibnative/bcltype/decimal.cpp:315-322 | the loop runs Steps passes and leaves the mantissa of the digits taken followed by zeros, with the exponent lowered by the number of passes |
| Parse.TieTest | src/classlibnative/bcltype/decimal.cpp:327-333 | the zero scan finds a tie exactly when the digits after the 5 are zeros up to the end of the string or for 20 of them |
| Parse.RoundLast | src/classlibnative/bcltype/decimal.cpp:323-345 | rounds on the first dropped character: up when it is 5 or more except for a tie after an even mantissa; a carry out of 96 bits leaves 0x19999999_99999999_9999999A and raises the exponent |
| Parse.Bump | src/classlibnative/bcltype/decimal.cpp:337-338 | adding one modulo 2^96 gives zero exactly from 2^96 - 1, the test the code makes |
| Parse.NumberToDecimal | src/classlibnative/bcltype/decimal.cpp:292-365 | the result equals Parse: failure (0) for an exponent above 29 or one left above 0, a zero at scale 28 for one at or below -29, otherwise the accumulated and rounded mantissa at scale -exponent with the sign |
| Parse.DigitsSplit | src/classlibnative/bcltype/decimal.cpp:315-323 | a digit string is its first i digits times 10^(rest) plus the rest |
| Parse.ZerosTest | src/classlibnative/bcltype/decimal.cpp:327-333 | with the window reaching the last digit, the tie test finds a tie exactly when the digits after the 5 are all zero |
| Parse.HalfCases | src/classlibnative/bcltype/decimal.cpp:323-334 | rounding on a digit: up when it is above 5, or 5 with something after it or an odd quotient, is round-half-to-even |
| Parse.DecideRound | src/classlibnative/bcltype/decimal.cpp:323-334 | the rounding decision on the first dropped digit is round-half-to-even of the whole digit string to its first i digits, when the tie window reaches the last digit |
| Parse.CarriedRounds | src/classlibnative/bcltype/decimal.cpp:339-342 | the replacement 0x19999999_99999999_9999999A is 2^96 / 10 rounded half to even |
| Parse.ParseRounded | src/classlibnative/bcltype/decimal.cpp:292-365 | when no more than 21 digits are dropped, the result is the digit value scaled to the reached exponent and rounded half to even; when that rounds to 2^96 it is the rounded 2^96 / 10 at one scale less |
| Parse.RoundedMant | src/classlibnative/bcltype/decimal.cpp:323-345 | the accumulated mantissa rounded on the first dropped digit is the digit string with its zeros rounded half to even |
| Parse.AsWrittenAgrees | src/classlibnative/bcltype/decimal.cpp:325 | once a digit was taken, reading the character before the dropped one decides as the mantissa's parity does |
| Parse.ReadBeforeDigits | src/classlibnative/bcltype/decimal.cpp:325 | "5" at exponent -28: the exact half rounds to the even 0, while the code as written reads the character before the digit string and rounds up when it is odd |

## Left out

- The FCIMPL entry points, the x86 inline assembly, the WIN32-only branches, the 32-bit build paths and the compiler intrinsics are not part of this model. The portable C++ forms of the same primitives are modelled instead.
- The 32-bit arm of SearchScale64 and the `#if 0` blocks are not modelled. Neither is the experimental Div160By96 body that the source marks as non-working. None of them is compiled on the 64-bit target.
- Reinterpreting a DECIMAL or a `uint32_t[]` as `uint64_t` words (byte punning) is modelled as value functions over the words (`Val64`, `W3`, `W4`, `W5`, `Mantissa`), not as aliased memory.
- Primitives.DivMod128By64: the hardware 128 / 64 divide is given a mathematical body. Its `hi < den` requirement is the condition under which the instruction does not fault.
- Primitives.DivMod64By32Impl: the source's `assert(hi < ulDen)` becomes a requires. What the code computes when the assert fails is not modelled.
- Primitives.ShiftLeft128: models the evidently intended shift. The as-written form, `ShiftLeft128AsWritten`, is kept for the finding below. The division uses the corrected form (Division.ShiftDividend and Division.ShiftDivisor).
- DivWords.Div128By64: its requires excludes a dividend whose top 64 bits reach the divisor. DecimalDiv never passes one.
- DivWords.Div160By96: proved only under the guard both of its Div128By96 calls need. That guard can fail; see the findings.
- Division.Pass96: scales by at most 10^9 per step, the `#ifndef HAS_DIVMOD128BY64` arm (decimal_calc.cpp:1536-1545). The 10^19 arm of the modelled configuration is not used by the model, because its guard can fail (see the findings).
- Division.Round96: doubles the remainder in local values rather than in `rgulRem`. The outcome of the comparison is the same.
- Division.DecimalDiv: the divisor's fourth word and the upper words of `rgulRem` (indices 4 and 5) are modelled only as zero padding of the arrays.
- Division.OverflowUnscale: the code has no handling for a quotient that carries out of 96 bits. The model adds the corrected handling, so the model's DecimalDiv departs from the code exactly on the inputs of the second and third findings.
- Limbs.D32DivMod1E9: the quotient equation is promised only when hi32 is below 10^9, as every caller passes. Above that, the cast to 32 bits truncates the quotient.
- Limbs.DecimalBuffer: the sign and scale bytes of the buffer are not modelled. The limb helpers never touch them.
- Parse.NumberToDecimal: the NUMBER struct becomes a datatype. Its digits are a character sequence without the terminating NUL; reading past the end yields NUL, as the code finds it. Its `precision` field, which NumberToDecimal does not read, is left out.
- Parse.NumberToDecimal: its ensures follows the code's rounding, including the tie window of 20 zeros and the parity taken from the mantissa (the corrected form of decimal.cpp:325; see the findings).
- Parse.ParseRounded: the statement that the result is the correctly rounded digit string is proved only when at most 21 digits are dropped. With more, the code's 20-digit tie window can take a number just above the half-way point for a tie, and the model keeps that behaviour.
- The formatting side of decimal.cpp (DecimalToNumber and the conversion routines) is outside this core and not modelled.

## Findings

| source | as written | input that shows it | evidently intended | confidence | as-written member | corrected member |
|---|---|---|---|---|---|---|
| src/classlibnative/bcltype/decimal_calc.inl:395-398 | ShiftLeft128 returns `(high << shift) \| (low >> (64 - shift))`. For a zero shift, `low >> 64` is undefined; on x64 the count is masked to 0, so the result is `high \| low`. | 1 / a divisor whose top word is 0x80000000 (a shift of 0): the normalised dividend becomes 2^64 + 1 instead of 1. | For a shift of 0, return `high` unchanged. | not executed | Division.ShiftZeroCorrupts | Primitives.ShiftLeft128 |
| src/classlibnative/bcltype/decimal_calc.cpp:1373-1402 | The carry out of `Add96By32(rgulQuo, ...)` after a scaling step is ignored. SearchScale64 only guarantees that the quotient times 10^k fits, not the quotient times 10^k plus the new digit. | 71305346262837903834189555303 / 9, both at scale 0: the quotient 7922816251426433759354395033 is scaled by 10 and the digit 6 is added; the sum is exactly 2^96 and wraps to 0. | Divide 2^96 plus the wrapped quotient by ten, rounding half to even with the remainder as sticky bit, one scale lower. At scale 0 this is an overflow. | not executed | Division.DroppedCarry | Division.OverflowUnscale |
| src/classlibnative/bcltype/decimal_calc.cpp:1381-1383 | The carry out of `Add96By32(rgulQuo, 1)` at the RoundUp label is ignored, so rounding up the quotient 2^96 - 1 leaves 0. | 55459713759985036315480765235 at scale 0 divided by 0.7 (7 at scale 1): one scaling step gives 2^96 - 1 at scale 0 with remainder 5 of 7; no further scaling fits, the round-up test fires and the quotient wraps to 0 at scale 0. | The same handling as after a scaling step: an overflow at scale 0, otherwise 2^96 divided by ten, rounded with the sticky bit, one scale lower. | not executed | Division.RoundUpWraps | Division.RoundUp |
| src/classlibnative/bcltype/decimal_calc.cpp:1547-1555 | With HAS_DIVMOD128BY64, the 96-bit divisor loop scales by 10^19 and calls Div160By96_x64. Its second Div128By96_x64 call can receive a dividend whose top word equals the divisor's top word, breaking DivMod64By32's `hi < den`. | 10266262969489344502 / 11951503075530455101886346296, both at scale 0: after a shift by 2 the first quotient is 0, SearchScale64 picks 10^19, and the first partial remainder has the divisor's top word. | Scale by at most 10^9 per step, as the other arm (decimal_calc.cpp:1536-1545) does, so that every Div128By96 call meets its guard. | not executed | Division.Div160GuardFails | Division.Pass96 |
| src/classlibnative/bcltype/decimal.cpp:325 | The tie test reads `*(p-2)` as the previous digit. When no digit was accumulated, that is the character before the digit string, not a digit of the mantissa. | The digits "5" at exponent -28 (5 * 10^-29): the exact half should round to the even 0, but when the character before the digits is odd the code rounds up to 10^-28. | Decide the tie by the parity of the accumulated mantissa (0 when no digit was taken). | not executed | Parse.ReadBeforeDigits | Parse.RoundLast |
