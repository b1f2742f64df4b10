# Verification of the BID128 decimal kernel

This Dafny project models the decimal floating-point kernel under `smilelib/decimal` and two pieces of the test
runner under `smilelibtests`, and proves what they compute. The kernel works on 128-bit encodings of decimal numbers
of 34 digits with binary-integer coefficients. The meaning everything is proved against is that of IEEE 754-2008: an
exact value rounded once (section 4.3), preferred exponents (5.2), arithmetic (5.4.1), comparison (5.11).

To verify: `dafny verify dfyconfig.toml` (Dafny 4.11).

## Layout

- `Encoding`, `Unpacking`, `Pack`, `Subnormal`: encodings, what they stand for, unpacking, packing, and the rounding
  below the smallest exponent.
- `Powers`, `Words`, `Tables`, `DigitCount`: powers of ten, two-word arithmetic, the constant tables row by row.
- `Rounding`, `RoundingMeaning`, `Arithmetic`: the specification of a rounded result, its agreement with the
  definition of the standard, and the specification of the sum.
- `Reciprocal`, `Positions`, `LastDigit`: rounding off digits with a reciprocal, the midpoint indicators, the second
  rounding.
- `AddCommon`, `AddFar`, `AddNear`, `AddOverlap`, `Add`: addition and subtraction, path by path.
- `DivTables`, `Estimate`, `Zeros`, `DivSteps`, `Div`: division. `Fmod`: the remainder loop.
- `Order`, `Compare`, `MinMax`: the order on values and the decision trees that must agree with it. `Directed`:
  delivered results in that order, overflow included.
- `PrintTables`, `Decimal`, `Print`: printing. `Scaling`: frexp and ldexp.
- `Wildcard`, `SlowTests`: the test runner's matcher and its list of slowest tests.

An encoding is one number below 2^128; its words are `Hi` and `Lo`, and a mask test is written as the division and
remainder that select the same bits. The status word is an object whose flags are only ever raised. Where the code
works step by step, so does the model: its methods are proved against specification functions, and the laws are
proved about those. Code that the original repeats for two word sizes with the same tests is written once.
Conversions to single precision appear as a nondeterministic choice of the binary exponent with the error such a
conversion can have; conversions to double precision are used by the code only where they are exact.

## Main results

- Addition: `Add.Add` is bit for bit, flags included, the specified sum in all five rounding modes, and
  `RoundingMeaning.FiniteSumMeaning` says what the specified sum is in terms of exact values alone. `Add.AddBothWays`:
  both orders agree. `Directed.FiniteSumInOrder`: where the result lies among all data, infinities included.
  `AddOverlap.CutAndCombine`: at most two passes. `LastDigit.SecondRoundingDescribes`: no double rounding.
  `Reciprocal.RoundOff`: the multiply-and-inspect rounding is exact for every row and coefficient.
- Division: `Div.Div` with `Div.IsQuotient`: the exact quotient rounded once, at every exponent and in every mode,
  with `Div.QuotientFraction` and `Div.QuotientInOrder`;
  `DivSteps.StripZeros` and `Zeros.ZerosFromFactors` for exact quotients. Below the smallest exponent:
  `Subnormal.HandleUnderflowRem` with `Subnormal.SubnormalMeaning`. `Fmod.Fmod` with `Fmod.RemainderMeaning`.
- Comparison: seven separately coded trees and twenty predicates all agree with one order on values
  (`Compare.GreaterTreeOrder` and the other `TreeOrder` lemmas, `Compare.NegationPairs`); `MinMax.MinMaxOrder` and
  `MinMax.MinMaxMagnitudeOrder`.
- Printing: `Print.ToString` writes the decimal text, and `Print.TextReadsBack` and `Print.TextInjective` say that it
  loses nothing.
- Scaling: `Scaling.FrexpThenLdexp` is a round trip; `Scaling.LdexpExactIff` is the exact condition.
- Test runner: `Wildcard.MatchesIsGlobIff` with `Wildcard.IsTestSuiteRequested`, and `SlowTests.RunHolds`.

## Where the code and its promise differ

- `bid128_ldexp` stops appending zeros when the high word alone has reached that of 10^33, so some representable
  results overflow. `Scaling.LdexpExactIff` gives the exact condition, `Scaling.LdexpOverflowsEarly` an input.
- The underflow routines raise Underflow for an exact result too when an earlier operation left Inexact raised.
  `Subnormal.UnderflowFlagIff` gives the exact condition, `Scaling.LdexpUnderflowsExactly` an input. More than 34
  places below the smallest exponent they do not look at the coefficient, so that a zero would be rounded like a small
  number there (`Subnormal.Counted`); division and ldexp never pass one.
- `WildcardMatch` steps over a character of the text for a repeated star too, and past the end of the text without a
  test. `Wildcard.MatchesIsGlobIff` gives exactly the patterns on which this does no harm: no second star in a run of
  wildcards that is followed by a literal, and no question mark after a second star in the run that ends the pattern.
- `bid128_minnum` and `bid128_maxnum` both return the first of two zeros, so two zeros with different encodings do not
  come back as a pair (`MinMax.MinAndMax`); their values do.
- Rows 118, 119, 121 and 122 of `bid_power10_index_binexp_128` are not the power of ten that the digit estimate
  names. `DivTables.EstimateRowIff` says that these are all. No coefficient of 34 digits reaches them;
  `DivTables.EstimateRow` covers the rows that are used.

## Model

| member | source | states |
|---|---|---|
| Encoding.DecodeEncode | smilelib/decimal/bid_internal.h:2718-2736 | Packing a datum of the format and decoding it gives the datum back, with its sign, exponent and coefficient in their fields |
| Encoding.CanonicalIff | smilelib/decimal/bid128_add.c:581-632 | A pattern that is no NaN is canonical exactly when it is an infinity without trailing bits, or has no steering bits and a coefficient below 10^34 |
| Encoding.DecodeInFormat | smilelib/decimal/bid128_add.c:581-632 | Every bit pattern decodes to a datum of the format: exponent at most 12287, coefficient below 10^34 |
| Encoding.FiniteLayout | smilelib/decimal/bid_internal.h:2718-2736 | The sign at bit 127, the biased exponent from bit 113, the coefficient below: what each such pattern stands for |
| Encoding.KnownPatterns | smilelib/decimal/bid_internal.h:739-741 | The patterns of 1, -1, the largest number, the infinities and the two NaNs |
| Encoding.NonCanonicalCoefficient | smilelib/decimal/bid128_add.c:581-632 | Every pattern with a coefficient field of 10^34 or more is a zero at its exponent |
| Encoding.SteeringPattern | smilelib/decimal/bid128_add.c:581-632 | So is every pattern with the steering bits, its exponent two bits lower |
| Encoding.SpecialRanges | smilelib/decimal/bid128_add.c:498-580 | The ranges of the infinities and of the two NaNs, whatever the bits below |
| Unpacking.Unpack | smilelib/decimal/bid_internal.h:1846-1904 | Unpacking yields sign, exponent and coefficient of the decoded value; a nonzero coefficient only from the canonical pattern |
| Unpacking.Quieted | smilelib/decimal/bid128_add.c:502-553 | A NaN operand comes back quiet, with its sign and its payload, or with none when the payload is not canonical |
| Unpacking.FirstNaN | smilelib/decimal/bid128_add.c:502-553 | Of two NaN operands the first one comes back |
| Unpacking.ClampExponent | smilelib/decimal/bid128_div.c:111-117 | The exponent of a zero is the nearest one of the format |
| Words.AddPair | smilelib/decimal/bid_internal.h:151-160 | The carry test after a wrapped low sum makes the pair sum exact modulo 2^128 |
| Words.SubPair | smilelib/decimal/bid128_add.c:1829-1832 | The borrow test after a wrapped low difference makes the pair difference exact modulo 2^128 |
| Words.NegatePair | smilelib/decimal/bid128_add.c:1847-1853 | Complement and increment with carry is two's complement negation of the pair |
| Words.IncrementPair | smilelib/decimal/bid128_add.c:2559-2562 | The carry into the high word when the low one became zero |
| Words.DecrementPair | smilelib/decimal/bid128_add.c:2579-2581 | The borrow from the high word when the low one wrapped |
| Words.AddFive | smilelib/decimal/bid128_add.c:1897-1902 | Adding 5 with the carry predicted from the low word |
| Words.TimesTen | smilelib/decimal/bid_internal.h:2123-2129 | Shift by three plus shift by one, with the bits and the carry that cross the words, is ten times the pair |
| Words.ShiftPairValue | smilelib/decimal/bid128_add.c:2172-2183 | Shifting two words right by fewer than 64 bits is dividing the value by the power of two |
| Words.ShiftRight | smilelib/decimal/bid_internal.h:62-73 | The long right shift, by fewer or more than 64 bits, is division of the value |
| Words.ShiftLeft | smilelib/decimal/bid_internal.h:75-86 | The long left shift keeps exactly the low bits, moved up; what leaves the pair is lost |
| Tables.ReciprocalRow | smilelib/decimal/bid128.c:759-864 | Each entry is 2^E / 10^k rounded up, the truncated entry one less, and the scale leaves room for coefficients below 3 * 10^34 |
| Tables.FractionRow | smilelib/decimal/bid128.c:867-988 | Shift counts, masks and halves select the fraction bits of the product |
| Tables.NrDigitsRow | smilelib/decimal/bid128.c:32-266 | Each row gives the digit count of all numbers of that bit length, or the power of ten at which it changes |
| Tables.Power10TableValue | smilelib/decimal/bid_decimal_data.c:996-1036 | Entry i is 10^i |
| Tables.Ten2k64Value | smilelib/decimal/bid128.c:513-535 | Entry i is 10^i |
| Tables.Ten2k128Value | smilelib/decimal/bid128.c:538-596 | Entry i is 10^(i + 20) |
| Tables.Midpoint64Value | smilelib/decimal/bid128.c:268-289 | Entry i is half of 10^(i + 1) |
| Tables.Midpoint128Value | smilelib/decimal/bid128.c:291-349 | Entry i is half of 10^(i + 20) |
| DigitCount.CountDigits | smilelib/decimal/bid128_add.c:797-850 | Bit length, table row and threshold test count the decimal digits exactly |
| Reciprocal.ProductSplit | smilelib/decimal/bid128_add.c:2142-2172 | For any k and E and the reciprocal of 10^k at scale 2^E rounded up, if the excess stays below the scale the shifted product is the exact quotient and the fraction carries the exact remainder |
| Reciprocal.FractionDecides | smilelib/decimal/bid128_add.c:2190-2327 | The fraction compared with the truncated reciprocal and with one half decides exact, tie, above or below, each exactly when the remainder says so |
| Reciprocal.RoundOff | smilelib/decimal/bid128_add.c:2125-2327 | Rounding off 1 to 33 digits by one multiplication: the nearest multiple, ties upwards, and on which side the number lies |
| RoundingMeaning.Round34Meaning | smilelib/decimal/bid_functions.h:136-140 | The specification Round34 refines the definition of section 4.3: no 34-digit number is nearer (or none lies between, in the directed modes), ties go to even or away, Inexact exactly when the value differs, overflow exactly when it lies beyond the largest number |
| RoundingMeaning.ExactKeepsPreferred | smilelib/decimal/bid128_add.c:657-660 | An exact result has the least exponent not below the preferred one that its digits allow (section 5.2) |
| RoundingMeaning.NoneBetween | smilelib/decimal/bid128_add.c:1908-1922 | No number of at most 34 digits lies strictly between neighbouring 34-digit multiples of a power of ten |
| RoundingMeaning.FiniteSumMeaning | smilelib/decimal/bid128_add.c:780-2857 | The specification of finite addition is the exact sum of the two values rounded once, with the preferred exponent and exact flags |
| Rounding.Round34At | smilelib/decimal/bid128_add.c:1908-1922 | Any split of a magnitude with a 34-digit quotient gives its rounded result |
| RoundingMeaning.IntegerIsRounding | smilelib/decimal/bid_internal.h:1549-1585 | At the smallest exponent the picked neighbour is the rounding in the sense of section 4.3 among all numbers of the format |
| Directed.DeliveredInOrder | smilelib/decimal/bid128_add.c:1941-1954 | In the order of all data, infinities included: downwards the greatest datum not above the exact value, upwards the least not below it, towards zero by the sign; to nearest an infinity exactly when the rounded value lies beyond the largest number |
| Directed.FiniteSumInOrder | smilelib/decimal/bid128_add.c:780-2857 | The same of the delivered sum of two finite data, in all five modes, with Overflow exactly when it lies beyond |
| Directed.PackedInOrder | smilelib/decimal/bid_internal.h:2098-2172 | The same of packing a rounded coefficient |
| Positions.DescribedRounding | smilelib/decimal/bid128_add.c:2537-2591 | A coefficient with its midpoint and inexactness indicators, corrected for the mode, is the exact value rounded once in that mode |
| Positions.CorrectCoefficient | smilelib/decimal/bid128_add.c:2537-2591 | The correction with its two steps across the decade boundaries |
| Positions.RoundedOperand | smilelib/decimal/bid128_add.c:2190-2327 | Rounding only the smaller operand, with its tie going to an even sum, describes the exact sum or difference; subtraction reverses the indicators |
| LastDigit.RoundExactSum | smilelib/decimal/bid128_add.c:1891-1980 | The exact 35-digit sum loses one digit through the 118-bit tenth; the indicators describe it |
| LastDigit.SecondRoundingDescribes | smilelib/decimal/bid128_add.c:2348-2471 | The double-rounding logic describes the exact sum, not the rounded one; a tie of the first rounding never meets a tie of the second |
| LastDigit.RoundRoundedSum | smilelib/decimal/bid128_add.c:2348-2471 | The second rounding as the code does it, including a sum that was rounded up to 10^34 |
| AddCommon.ScaleBy | smilelib/decimal/bid128_add.c:2105-2123 | C1 * 10^scale, by whichever of the multiplications fits |
| AddCommon.ScaleTo34 | smilelib/decimal/bid128_add.c:863-887 | Scaling to 34 digits, in two steps when 10^scale needs more than a word |
| AddCommon.RoundSmaller | smilelib/decimal/bid128_add.c:2125-2340 | Rounding the smaller operand keeps the description of the exact sum or difference |
| AddFar.UlpStepRounds | smilelib/decimal/bid128_add.c:957-1495 | delta == 34: the comparison with half an ulp and its three outcomes give the correctly rounded sum in all modes |
| AddFar.VeryFarRegular | smilelib/decimal/bid128_add.c:859-956 | delta >= 35: the larger operand moves by at most one ulp, in the directed modes only |
| AddFar.VeryFarDecade | smilelib/decimal/bid128_add.c:888-904 | delta >= 35 under a power of ten: where the ulp below is ten times smaller, nearest rounding can still move it |
| AddFar.FarDecade | smilelib/decimal/bid128_add.c:1496-1512 | The exact difference from a power of ten on the finer scale |
| AddFar.AddVeryFar | smilelib/decimal/bid128_add.c:859-956 | The path as a whole: encoding and flags are those of the exact sum rounded once |
| AddFar.AddOneUlpApart | smilelib/decimal/bid128_add.c:957-1495 | The same for delta == 34 |
| AddFar.AddUnderDecade | smilelib/decimal/bid128_add.c:1496-1791 | The same for delta == 34 under a power of ten, where y is rounded to one digit |
| AddNear.AddShort | smilelib/decimal/bid128_add.c:1794-1858 | 0 <= delta <= 33 - q2: the exact sum or difference, a zero with the smaller exponent and negative only when rounding down |
| AddNear.AddTouching | smilelib/decimal/bid128_add.c:1859-2088 | delta == 34 - q2: a sum of 35 digits is rounded once, with overflow as each mode demands |
| AddNear.AddBelow | smilelib/decimal/bid128_add.c:2615-2851 | delta < 0: the same at the exponent of y |
| AddNear.FinishPlaced | smilelib/decimal/bid128_add.c:2537-2607 | Correction, overflow of the directed modes and assembly deliver the placed outcome |
| AddNear.OverflowToNearest | smilelib/decimal/bid128_add.c:2472-2484 | Overflow when rounding to nearest is an infinity with both flags |
| AddOverlap.RoundC2 | smilelib/decimal/bid128_add.c:2102-2500 | One run of the block describes the exact magnitude, for the first cut and for the finer one |
| AddOverlap.CutAndCombine | smilelib/decimal/bid128_add.c:2101-2534 | The block runs at most twice, once for a sum; it ends with a 34-digit coefficient that describes the exact magnitude or an exact shorter one |
| AddOverlap.DifferenceBounds | smilelib/decimal/bid128_add.c:2485-2521 | An overlap difference is never zero, and after a second cut it is long enough unless no digit is cut any more |
| AddOverlap.FinishDifference | smilelib/decimal/bid128_add.c:2522-2613 | 10^34 after a second pass becomes 10^33; the delivered result is the exact difference rounded once |
| AddOverlap.FinishSum | smilelib/decimal/bid128_add.c:2341-2613 | The overlap sum of one sign, rounded once |
| AddOverlap.AddOverlapping | smilelib/decimal/bid128_add.c:2089-2614 | The overlap path as a whole, with its bound on the passes and a nonzero result |
| Add.AddToZero | smilelib/decimal/bid128_add.c:646-779 | 0 + y is y with its exponent moved towards that of the zero as far as 34 digits allow |
| Add.AddNonzero | smilelib/decimal/bid128_add.c:852-2852 | The case split on delta delivers the exact sum rounded once, in every mode |
| Add.AddFinite | smilelib/decimal/bid128_add.c:581-2852 | Zeros, non-canonical operands, the swap and the digit counts included |
| Add.Add | smilelib/decimal/bid128_add.c:494-2857 | bid128_add for any two encodings: bit for bit the encoding of the specified sum, and its flags; a NaN operand comes back quiet |
| Add.Sub | smilelib/decimal/bid128_add.c:2861-2905 | bid128_sub is the specified sum with the negated second operand |
| Add.AddBothWays | smilelib/decimal/bid128_add.c:783-796 | Both orders of the operands give the same bits and the same flags |
| Add.LargestTwice | smilelib/decimal/bid128_add.c:1941-1954 | The largest number of either sign added to itself: the bits and flags in each mode |
| Add.SpecialSums | smilelib/decimal/bid128_add.c:498-580 | Sums with a NaN or an infinity, operand by operand, with Invalid |
| Add.NegatedValue | smilelib/decimal/bid128_add.c:2887-2894 | The negated operand of a subtraction has the opposite value and the same exponent |
| Add.FlipSign | smilelib/decimal/bid128_add.c:2887-2894 | Flipping the sign bit negates the decoded datum |
| DivTables.EstimateRow | smilelib/decimal/bid_decimal_data.c:857-1325 | Rows up to 2^113: the estimate is the digit count of 2^b and the index entry is that power of ten |
| DivTables.EstimateRowIff | smilelib/decimal/bid_decimal_data.c:857-1325 | Of all 125 rows the index entry names the power of ten of its estimate exactly when the row is none of 118, 119, 121, 122 |
| DivTables.SubnormalRow | smilelib/decimal/bid_decimal_data.c:145-700 | Each rounding constant is half of 10^k or 10^k less one, and the reciprocal of that row is fine enough for 35-digit numbers |
| DivTables.StripRow | smilelib/decimal/bid_decimal_data.c:703-853 | Wide reciprocals of 10^k are 2^M / 10^k rounded up |
| DivTables.ShortStripRow | smilelib/decimal/bid_decimal_data.c:1128-1169 | 64-bit reciprocals of 10^k are 2^M / 10^k rounded up |
| Estimate.DigitsFromExponent | smilelib/decimal/bid128_div.c:192-205 | The estimate from a float exponent, corrected by one comparison, counts the digits exactly even when the conversion rounded up |
| Estimate.QuotientScaled | smilelib/decimal/bid128_div.c:152-172 | The table's power of ten brings CX within a factor of ten of CY, on either side |
| DivSteps.DivideSmaller | smilelib/decimal/bid128_div.c:149-178 | CX < CY: CX * 10^ed2 == CQ * CY + CA4 with a 34-digit CQ |
| DivSteps.ExtendQuotient | smilelib/decimal/bid128_div.c:180-214 | CX >= CY with a remainder: the same equation and 34 digits, from the integer quotient |
| DivSteps.RoundQuotient | smilelib/decimal/bid128_div.c:418-455 | The sign of 2 * CA4 - CY, the parity of CQ and the exchanged directed modes round the quotient correctly |
| DivSteps.SplitDigits | smilelib/decimal/bid128_div.c:251-258 | CQ splits exactly into its upper and its lower 17 digits |
| DivSteps.StripZeros | smilelib/decimal/bid128_div.c:231-379 | Zero removal keeps CQ * 10^nzeros and leaves no trailing zero, on the short path and on both long paths |
| Zeros.ZerosFromFactors | smilelib/decimal/bid128_div.c:232-241 | The minimum over 2 and 5 of ed2 - v(CY) + v(CX) is exactly the number of trailing zeros of an exact quotient |
| Zeros.MultiplicityOfProduct | smilelib/decimal/bid_convert_data.c:992-1000 | Multiplicities of 2 and of 5 add up |
| Zeros.LowDigits | smilelib/decimal/bid128_div.c:263-283 | Seven bits at a time from the conversion table give the two base-10^8 digits |
| Zeros.CountZeros | smilelib/decimal/bid128_div.c:263-307 | Sixteen, eight, four and the packed table count the trailing zeros exactly |
| Zeros.ExactReciprocal | smilelib/decimal/bid128_div.c:242-248 | A reciprocal rounded up divides a multiple of the power of ten exactly |
| Zeros.StripWide | smilelib/decimal/bid128_div.c:242-248 | The wide reciprocal and its shift remove the zeros |
| Zeros.StripShort | smilelib/decimal/bid128_div.c:309-316 | The 64-bit reciprocal and its shift remove the zeros |
| Div.InexactQuotient | smilelib/decimal/bid128_div.c:387-458 | The rounded quotient is the 34-digit rounding of the fraction, in the sense of section 4.3 |
| Div.ExactQuotient | smilelib/decimal/bid128_div.c:226-379 | An exact quotient has the preferred exponent or does not end in a zero |
| Div.NearestToPreferred | smilelib/decimal/bid128_div.c:183-190 | No other representation of a quotient without a trailing zero lies nearer to the preferred exponent |
| Div.StrippedScale | smilelib/decimal/bid128_div.c:231-379 | Zero removal never reaches the preferred exponent unless CY divides CX |
| Div.TinyQuotient | smilelib/decimal/bid128_div.c:466-471 | Below the smallest exponent, rounding the cut quotient with one digit for its remainder is rounding the exact fraction once |
| Div.StickyDigit | smilelib/decimal/bid_internal.h:1525-1536 | One further digit, set when a remainder is left, decides every mode like the remainder itself |
| Div.DivideFinite | smilelib/decimal/bid128_div.c:143-480 | The whole division of finite nonzero operands, at any exponent: rounded once, with the preferred exponent and exact flags; Underflow for an exact result only when Inexact was raised before |
| Div.QuotientFraction | smilelib/decimal/bid128_div.c:147 | The rounded fraction is the quotient of the operands' exact values, in units of the number one |
| Div.QuotientInOrder | smilelib/decimal/bid128_div.c:387-475 | The delivered quotient in the order of all data, in every mode |
| Div.DivideByOne | smilelib/decimal/bid128_div.c:143-480 | A nonzero number divided by 1 is its canonical encoding, without a flag |
| Div.SpecialQuotients | smilelib/decimal/bid128_div.c:53-142 | Quotients with a NaN, an infinity or a zero, operand by operand, with Invalid and ZeroDivide |
| Div.DivideSpecial | smilelib/decimal/bid128_div.c:53-142 | NaN, infinity and zero operands, with Invalid and ZeroDivide |
| Div.Div | smilelib/decimal/bid128_div.c:38-481 | bid128_div for any two encodings, in every mode: bits and flags of the specified quotient |
| Subnormal.SubnormalMeaning | smilelib/decimal/bid_internal.h:1503-1642 | The outcome is the exact number rounded once (section 4.3) at the smallest exponent, Underflow and Inexact exactly when it differs |
| Subnormal.UnderflowFlagIff | smilelib/decimal/bid_internal.h:1589-1590 | The flags are the promised ones unless the result is exact, Inexact was raised before and Underflow was not |
| Subnormal.FractionPlaces | smilelib/decimal/bid_internal.h:1579-1631 | For any reciprocal rounded up whose excess stays small, comparing the fraction with the reciprocal, from zero, from one half and from one, places the remainder exactly |
| Subnormal.ShiftedRounding | smilelib/decimal/bid_internal.h:1539-1585 | With the constant of the mode added, the quotient is the rounded one, but for a tie that made it odd; the remainder tells whether digits were lost |
| Subnormal.NothingLost | smilelib/decimal/bid_internal.h:1594-1632 | The three exactness tests, with the carry of the last one, are those comparisons of the fraction |
| Subnormal.RoundBelow | smilelib/decimal/bid_internal.h:1674-1770 | The rounding common to both routines, for every row, mode and 35-digit number |
| Subnormal.HandleUnderflow | smilelib/decimal/bid_internal.h:1647-1778 | handle_UF_128: bits and flags, the early exit included |
| Subnormal.HandleUnderflowRem | smilelib/decimal/bid_internal.h:1503-1642 | bid_handle_UF_128_rem: the same with a remainder below the coefficient |
| Pack.DeliveredMeaning | smilelib/decimal/bid_internal.h:2119-2164 | Overflow exactly when the value lies beyond the largest number; otherwise the packed datum has that value at the nearest exponent |
| Pack.PackResult | smilelib/decimal/bid_internal.h:2098-2172 | Packing at any exponent: 10^34 moves up, zeros are appended at too large an exponent while they fit, otherwise overflow by mode; below the smallest exponent the number is rounded there |
| Pack.AppendZeros | smilelib/decimal/bid_internal.h:2119-2133 | The loop keeps the value and stops at the largest exponent or at 34 digits |
| Fmod.RemainderMeaning | smilelib/decimal/bid128_fmod.c:135-207 | The remainder has the sign of x, is smaller than y in magnitude, and differs from x by a natural multiple of y |
| Fmod.ChooseScale | smilelib/decimal/bid128_fmod.c:176-195 | The scaled coefficient stays below 10^38 and so below 2^128 |
| Fmod.RemainderLoop | smilelib/decimal/bid128_fmod.c:168-207 | The loop ends (lexicographically in exponent difference and coefficient) with the exact remainder |
| Fmod.RemainderBelow | smilelib/decimal/bid128_fmod.c:137-167 | The branch for an exponent of x not above that of y |
| Fmod.FmodSpecial | smilelib/decimal/bid128_fmod.c:48-133 | NaN, infinity and zero operands |
| Fmod.SpecialRemainders | smilelib/decimal/bid128_fmod.c:50-134 | Remainders with a NaN, an infinity or a zero, operand by operand, with Invalid |
| Fmod.Fmod | smilelib/decimal/bid128_fmod.c:36-208 | bid128_fmod for any two encodings |
| Order.LessTransitive | smilelib/decimal/bid128_compare.c:33-4353 | The order on values is transitive and respects equal values |
| Order.InfiniteEnds | smilelib/decimal/bid128_compare.c:202-220 | The infinities are the ends of the order |
| Order.Trichotomy | smilelib/decimal/bid128_compare.c:33-4353 | Of two values exactly one of less, equal and greater holds |
| Order.MagnitudeTests | smilelib/decimal/bid128_compare.c:300-424 | Every test the trees make on significands and exponents, as a comparison of magnitudes |
| Compare.GreaterTreeOrder | smilelib/decimal/bid128_compare.c:194-424 | The greater tree decides the order on values |
| Compare.GreaterUnorderedTreeOrder | smilelib/decimal/bid128_compare.c:697-926 | So does the separately coded greater_unordered tree |
| Compare.GreaterEqualTreeOrder | smilelib/decimal/bid128_compare.c:446-675 | The greater_equal and not_less tree |
| Compare.LessTreeOrder | smilelib/decimal/bid128_compare.c:948-1176 | The less tree |
| Compare.LessEqualTreeOrder | smilelib/decimal/bid128_compare.c:1198-1429 | The less_equal and not_greater tree |
| Compare.EqualTreeOrder | smilelib/decimal/bid128_compare.c:55-171 | The equal and not_equal trees decide equality of values across cohorts, zeros and non-canonical encodings |
| Compare.QuietEqual | smilelib/decimal/bid128_compare.c:33-171 | The predicate on values, false or true on NaN as its name says; Invalid for a signaling NaN only |
| Compare.QuietGreater | smilelib/decimal/bid128_compare.c:173-424 | The predicate on values, false or true on NaN as its name says; Invalid for a signaling NaN only |
| Compare.QuietGreaterEqual | smilelib/decimal/bid128_compare.c:425-675 | The predicate on values, false or true on NaN as its name says; Invalid for a signaling NaN only |
| Compare.QuietGreaterUnordered | smilelib/decimal/bid128_compare.c:676-926 | The predicate on values, false or true on NaN as its name says; Invalid for a signaling NaN only |
| Compare.QuietLess | smilelib/decimal/bid128_compare.c:927-1176 | The predicate on values, false or true on NaN as its name says; Invalid for a signaling NaN only |
| Compare.QuietLessEqual | smilelib/decimal/bid128_compare.c:1177-1429 | The predicate on values, false or true on NaN as its name says; Invalid for a signaling NaN only |
| Compare.QuietLessUnordered | smilelib/decimal/bid128_compare.c:1430-1681 | The predicate on values, false or true on NaN as its name says; Invalid for a signaling NaN only |
| Compare.QuietNotEqual | smilelib/decimal/bid128_compare.c:1682-1822 | The predicate on values, false or true on NaN as its name says; Invalid for a signaling NaN only |
| Compare.QuietNotGreater | smilelib/decimal/bid128_compare.c:1823-2072 | The predicate on values, false or true on NaN as its name says; Invalid for a signaling NaN only |
| Compare.QuietNotLess | smilelib/decimal/bid128_compare.c:2073-2323 | The predicate on values, false or true on NaN as its name says; Invalid for a signaling NaN only |
| Compare.QuietOrdered | smilelib/decimal/bid128_compare.c:2324-2347 | The predicate on values, false or true on NaN as its name says; Invalid for a signaling NaN only |
| Compare.QuietUnordered | smilelib/decimal/bid128_compare.c:2348-2371 | The predicate on values, false or true on NaN as its name says; Invalid for a signaling NaN only |
| Compare.SignalingGreater | smilelib/decimal/bid128_compare.c:2372-2620 | The predicate on values, false or true on NaN as its name says; Invalid for any NaN |
| Compare.SignalingGreaterEqual | smilelib/decimal/bid128_compare.c:2621-2868 | The predicate on values, false or true on NaN as its name says; Invalid for any NaN |
| Compare.SignalingGreaterUnordered | smilelib/decimal/bid128_compare.c:2869-3114 | The predicate on values, false or true on NaN as its name says; Invalid for any NaN |
| Compare.SignalingLess | smilelib/decimal/bid128_compare.c:3115-3363 | The predicate on values, false or true on NaN as its name says; Invalid for any NaN |
| Compare.SignalingLessEqual | smilelib/decimal/bid128_compare.c:3364-3611 | The predicate on values, false or true on NaN as its name says; Invalid for any NaN |
| Compare.SignalingLessUnordered | smilelib/decimal/bid128_compare.c:3612-3859 | The predicate on values, false or true on NaN as its name says; Invalid for any NaN |
| Compare.SignalingNotGreater | smilelib/decimal/bid128_compare.c:3860-4106 | The predicate on values, false or true on NaN as its name says; Invalid for any NaN |
| Compare.SignalingNotLess | smilelib/decimal/bid128_compare.c:4107-4353 | The predicate on values, false or true on NaN as its name says; Invalid for any NaN |
| Compare.Unordered | smilelib/decimal/bid128_compare.c:185-187 | Two operands are unordered exactly when one of them decodes to a NaN |
| Compare.OrderLaws | smilelib/decimal/bid128_compare.c:33-4353 | Trichotomy and transitivity of the relations the predicates decide, with NaN outside |
| Compare.NegationPairs | smilelib/decimal/bid128_compare.c:33-4353 | All twenty predicates on the same operands: less, greater and equal are the order on the decoded values and unordered is a NaN; every pair of negations, the quiet and signaling forms agree; only the NaN flag differs |
| MinMax.Canonicalize | smilelib/decimal/bid128_minmax.c:50-80 | Canonicalisation keeps the value and gives its canonical encoding |
| MinMax.MinMaxOrder | smilelib/decimal/bid128_minmax.c:142-286 | minnum and maxnum bound both operands; they return one operand each unless both are zeros with different encodings |
| MinMax.MinMaxMagnitudeOrder | smilelib/decimal/bid128_minmax.c:396-549 | The magnitude forms order by magnitude, then by value, and always return one operand each |
| MinMax.MinNum | smilelib/decimal/bid128_minmax.c:37-286 | bid128_minnum; a quiet NaN gives way to a number |
| MinMax.MaxNum | smilelib/decimal/bid128_minmax.c:555-803 | bid128_maxnum |
| MinMax.MinNumMag | smilelib/decimal/bid128_minmax.c:292-549 | bid128_minnum_mag |
| MinMax.MaxNumMag | smilelib/decimal/bid128_minmax.c:809-1065 | bid128_maxnum_mag |
| MinMax.NaNChoices | smilelib/decimal/bid128_minmax.c:112-150 | A number wins over a quiet NaN; a signaling NaN, or else the first of two, comes back quiet |
| MinMax.TiesByExponent | smilelib/decimal/bid128_minmax.c:182-286 | Which encoding of one value comes back, by sign and exponent |
| MinMax.ZerosInOrder | smilelib/decimal/bid128_minmax.c:182-185 | Of two zeros minimum and maximum both give the first, the magnitude forms one each |
| MinMax.MinAndMax | smilelib/decimal/bid128_minmax.c:182-185 | The pair of results as a multiset: always the operands for the magnitude forms, and for min and max exactly when the operands are not two different zeros |
| Print.Normalize10To18 | smilelib/decimal/bid128_2_str_macros.h:30-36 | The carry test on bit 60 normalises a low part below 2 * 10^18 and conserves the value |
| PrintTables.Mod10EntryValue | smilelib/decimal/bid128_2_str_tables.c:143-648 | Every row entry is six bits at their weight, split at 10^18 |
| Print.SplitCoefficient | smilelib/decimal/bid128_string.c:179-208 | The coefficient splits into a high part and 18 low digits; the value is conserved at every step |
| Print.MillionReciprocal | smilelib/decimal/bid128_2_str_macros.h:60-66 | The reciprocal of 10^6 fits 32 bits and is low by at most one |
| Print.BillionReciprocal | smilelib/decimal/bid128_2_str_macros.h:78-83 | The reciprocal of 10^9 fits 64 bits and is low by at most one |
| Print.SplitMiDi2 | smilelib/decimal/bid128_2_str_macros.h:48-57 | Exact quotient and remainder by 1000 |
| Print.SplitMiDi3 | smilelib/decimal/bid128_2_str_macros.h:60-74 | Exact split into three groups |
| Print.SplitMiDi6 | smilelib/decimal/bid128_2_str_macros.h:76-87 | Six groups that fold back to the 18 digits |
| Print.SplitMiDi6Lead | smilelib/decimal/bid128_2_str_macros.h:89-125 | No leading zero group except for zero itself; the groups fold back to the number |
| Print.WriteMidis | smilelib/decimal/bid128_2_str_macros.h:128-155 | The text written is the decimal text of the folded groups |
| Print.CoefficientText | smilelib/decimal/bid128_string.c:161-226 | The coefficient's decimal text, without leading zeros |
| Print.ExponentText | smilelib/decimal/bid128_string.c:237-262 | The exponent's decimal text |
| Print.ToString | smilelib/decimal/bid128_string.c:46-268 | bid128_to_string for every encoding |
| Print.TextReadsBack | smilelib/decimal/bid128_string.c:145-262 | The text is a sign, digits, an E, a sign and digits, without leading zeros; read back they are the coefficient and the biased exponent |
| Print.OneText | smilelib/decimal/bid128_string.c:229-262 | The number 1 is printed as +1E+0 |
| Decimal.DigitsWritten | smilelib/decimal/bid128_2_str_macros.h:128-155 | The ten digits |
| Print.TextInjective | smilelib/decimal/bid128_string.c:46-268 | Two finite data with the same text are the same datum, exponent included |
| Decimal.TextUnique | smilelib/decimal/bid128_2_str_macros.h:128-155 | A digit string without leading zeros is the only one of its value |
| Scaling.Frexp | smilelib/decimal/bid128_frexp.c:34-129 | x == res * 10^exp with the magnitude of res in [1/10, 1) for nonzero finite x |
| Scaling.FractionOfOne | smilelib/decimal/bid128_frexp.c:122-127 | A fraction lies between a tenth of the number 1 and that number |
| Scaling.FrexpOfOne | smilelib/decimal/bid128_frexp.c:122-127 | 1 comes apart as 0.1 and the exponent 1 |
| Scaling.ClearSignaling | smilelib/decimal/bid128_frexp.c:51-60 | A signaling NaN loses just the bit that made it signal |
| Scaling.ScaleDown | smilelib/decimal/bid128_ldexp.c:71-88 | The loop keeps the value, keeps the coefficient below 10^34 and ends |
| Scaling.Ldexp | smilelib/decimal/bid128_ldexp.c:38-102 | bid128_ldexp for every encoding and every int: in-range results are exact, those below the smallest exponent are rounded there once |
| Scaling.LdexpExactIff | smilelib/decimal/bid128_ldexp.c:71-94 | The result is the exact or correctly overflowing one exactly when the coefficient, one zero short, is not between 0x314dc6448d93 * 2^64 and 10^33 |
| Scaling.LdexpOverflowsEarly | smilelib/decimal/bid128_ldexp.c:71-94 | The modelled ldexp applied to an input whose result is representable and overflows |
| Scaling.LdexpUnderflowsExactly | smilelib/decimal/bid_internal.h:1725-1726 | The modelled ldexp applied to an input whose result is exact and underflows because Inexact was raised before |
| Scaling.FrexpThenLdexp | smilelib/decimal/bid128_ldexp.c:38-70 | ldexp undoes frexp bit for bit up to canonicalisation, and raises no flag |
| Wildcard.WildcardMatch | smilelibtests/testlib.c:372-427 | The matcher terminates and decides the relation Matches, for every pattern and text; its next-literal skip loses no match |
| Wildcard.MatchStar | smilelibtests/testlib.c:385-415 | The arm for a star, with its skip loop and its recursion |
| Wildcard.WildBytes | smilelibtests/testlib.c:376-391 | The wildcards are the star and the question mark |
| Wildcard.MatchesOneIff | smilelibtests/testlib.c:353-359 | A literal takes its own byte and the other case of its ASCII letter, nothing else |
| Wildcard.GlobIgnoresCase | smilelibtests/testlib.c:353-359 | Changing the case of letters of the text does not change the glob relation |
| Wildcard.MatchesIgnoresCase | smilelibtests/testlib.c:372-427 | Nor what the matcher decides |
| Wildcard.BenignMatches | smilelibtests/testlib.c:372-427 | On a benign pattern that relation is the glob relation, for every text |
| Wildcard.MatchesIsGlobIff | smilelibtests/testlib.c:372-427 | The matcher agrees with the glob relation on all texts exactly for the benign patterns |
| Wildcard.IsTestSuiteRequested | smilelibtests/testlib.c:434-446 | The suites that run: with benign patterns exactly those whose name one of the patterns globs |
| Wildcard.WrongExamples | smilelibtests/testlib.c:388-400 | Two patterns with a doubled star that are judged wrongly |
| SlowTests.MergeSlowTests | smilelibtests/testlib.c:201-225 | The merge of both lists, every read inside their twenty entries |
| SlowTests.InsertInOrder | smilelibtests/testlib.c:177-194 | The in-place insertion |
| SlowTests.TestSuiteResults.AddTimingResult | smilelibtests/testlib.c:167-195 | Recording a time keeps the list the twenty slowest, in order |
| SlowTests.TestSuiteResults.Aggregate | smilelibtests/testlib.h:195-200 | Aggregating adds the counts and merges the lists |
| SlowTests.TestSuiteResults.CreateEmpty | smilelibtests/testlib.h:202-216 | An empty collection of results |
| SlowTests.WithResultPlace | smilelibtests/testlib.c:172-194 | A time as long as the twentieth still enters, below all that are at least as long |
| SlowTests.WithResultHolds | smilelibtests/testlib.c:167-195 | After an insertion the list holds exactly the slowest of everything recorded |
| SlowTests.MergedHolds | smilelibtests/testlib.c:201-225 | After a merge the list holds exactly the slowest of everything recorded in either |
| SlowTests.RunHolds | smilelibtests/testlib.c:167-225 | The same after any run of recordings and merges from empty lists |
| SlowTests.SlowestUnique | smilelibtests/testlib.c:197-200 | That property leaves no choice of durations |

## Left out

- SlowTests.MergeSlowTests: two different lists. Merging a list into itself, which the test runner never does, reads
  entries that were already overwritten.
- SlowTests.TestSuiteResults.Aggregate: two different collections, for the same reason.
- The quotients inside `bid_div_macros.h` are exact integer divisions here; their floating-point estimates and
  corrections are not modelled.
- `bid_convert_table`, `bid_factors`, `bid_packed_10000_zeros`, `bid_midi_tbl` and the two- and three-digit character
  tables are given by the formulas their comments state, not transcribed.
- `sprintf`, which prints the exponent of a zero, is decimal text by definition.
- The mixed-width wrappers of addition and the dd, dq and qd copies of division: they forward to or repeat the 128-bit
  code.
- The 192-bit and 256-bit rounding tables, the transcendental functions, and the remaining small functions of the
  directory.
- Byte-order swaps, the preprocessor variants for other rounding conventions, and the saving of binary status flags.
- `bid128_from_string`.
- The widths of the counters of successes and failures, and of durations: natural numbers here.
- The parts of the test runner that print, time and jump.
