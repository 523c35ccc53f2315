# Verified models of the printing, logging and bus layers

This project models the parts of the repository whose correctness is hardest to see from the code, and proves what they
are for. The repository bundles fmt 6.2.1 and spdlog 1.6.1 beside its own SystemC models of a bus bridge and memories.

- **Exact number printing** (`format-inl.h`). `Limbs`, `LimbArithmetic`, `LimbOrder`, `Convolution` and `Subtraction` are
  the theory of little-endian numbers in base 2^32; `BigintClass` is the `bigint` class and its friends as imperative code
  proved against the value of the bigits. `DigitLoop` is the Steele and White digit loop on naturals, `Fallback` is
  `fallback_format` on bigints, and `FallbackTheorems` and `FallbackText` say what its output promises and exactly where
  it falls short.
  `Grisu` is the fixed-precision digit generator with its rounding handler.
- **Format strings** (`format.h`, `compile.h`). `FormatSpecs` and `FormatString` are the parsers with both of their
  handlers, direct formatting, compilation into parts and their interpretation; `FormatText`, `SpecsText` and
  `SpecsInverse` say what the parsers read, as the inverse of writing it, `FormatMeaning` what a whole format string
  prints, and `FormatEquivalence` proves that compiled and direct formatting agree. `CountDigits` and `DigitGrouping` are
  digit counting and locale grouping; `Transcoding` and `Utf8ToUtf16` are the branchless UTF-8 decoder and the transcoder
  around it.
- **Asynchronous logging**. `CircularQueue` is the ring buffer; `AsyncQueue` the blocking queue as interleaved steps over a
  mutex and two condition variables; `AsyncShutdown` the thread pool's terminate-and-join protocol over whole runs;
  `AsyncDelivery` what becomes of each message posted, under either overflow policy.
- **Bus bridge and RAM**. `Wishbone` is each side advanced by one clock edge, `WishboneTransfer` their composition and its
  refinement to atomic accesses, `WishboneRoundTrip` what transfers leave in the memory.
- **Stateful files and memories**. `LogFiles` and `RotatingSink` are the rotating log sink over a directory, `SdramAddress`
  and `Sdram` the SDRAM's addressing and command decoder, `Flash` the quad-SPI flash.

`dafny verify dfyconfig.toml` checks everything.

Where the code does not meet what its comments or its interface promise, the models keep the code, and a lemma gives the
exact condition:

- `bigint` comparison at `format-inl.h:630` is exact if and only if neither operand carries explicit low zeros that the
  other has in its exponent, and neither is a zero with an exponent out of the way (`BigintClass.Compare`,
  `LimbOrder.PaddedExample`).
- the last borrow at `format-inl.h:538` is right if and only if it does not meet a zero bigit
  (`Subtraction.SubtractEnd`, `Subtraction.StuckExample`); the division of the digit loop never meets one
  (`Subtraction.NeverStuck`).
- the invariant at `format-inl.h:1010` holds, and the text printed reads back to the value, if and only if the exponent is
  negative or the predecessor is not closer, because line 987 shifts by 1 instead of by `shift`
  (`FallbackTheorems.SetupRepresents`, `FallbackText.TextReadsBackIff`). In the case left twice the value is printed, as
  for 2^81 (`FallbackTheorems.SetupDoubles`, `FallbackText.DoubledExample`), or, as for 2^807, characters that are no
  digits (`FallbackText.TextIsDigitsIff`, `FallbackText.NoDigitExample`).
- `fallback_format` prints the shortest decimal unless a tie with the lower end is lost in the comparison of line 1016
  (`FallbackTheorems.ShortestIff`, `FallbackTheorems.MissedTieExample`). What it prints is always the nearest of its
  length in the interval, and of two equally near ones the even one (`FallbackTheorems.PrintedIsNearest`,
  `FallbackTheorems.PrintedTieIsEven`).
- a width or precision taken from an argument is the argument's own number if and only if that fits an int; an argument
  of more than 64 bits may be taken modulo 2^64 instead of being refused (`FormatMeaning.DynamicSpecIff`,
  `FormatMeaning.WideWidthExample`).
- `mpmc_blocking_q.h:8` says that `enqueue_nowait` returns false when there is no room; the code overruns the oldest
  message, and so does the model (`AsyncDelivery.OverrunningNeverWaits`, `AsyncShutdown.ShutdownCompletes`).
- compiled formatting looks arguments up without the range check of direct formatting (`compile.h:159`, `compile.h:210`),
  and what guards against an argument that is not there is an assertion (`format.h:1894`). Where assertions are compiled
  out it prints nothing for such an argument, which is what the model does; where they are compiled in the program ends.
  The two paths agree if and only if every argument is there (`FormatEquivalence.CompiledIsDirect`,
  `FormatEquivalence.MissingExample`).
- SDRAM reads come back in order if and only if no read comes while another waits for its NOP, and none waits at the end
  (`Sdram.OrderedIff`); two reads before their NOPs come back swapped (`Sdram.UnpacedReadsSwap`).
- the SDRAM byte mask is followed if and only if its bits 1 to 3 are zero (`Sdram.FollowsMaskIff`, `Sdram.MaskExample`).
- the bridge steps a word address by the number of bytes in a beat, so a beat lands on its own word if and only if the
  two steps wrap around together; of four-byte beats only the first does (`WishboneRoundTrip.BeatLandsIff`,
  `WishboneRoundTrip.FourByteBeats`, `WishboneRoundTrip.SecondBeatElsewhere`). Writes and reads of the same shape agree on
  where beats are.
- a flash command other than the quad read is left if and only if the 32-bit edge counter wraps around and the next eight
  bits are the quad read (`Flash.OtherCommandsHang`, `Flash.HangEndsIff`).


## Model

| member | source | states |
|---|---|---|
| `BigintClass.Accumulator.Add` | `logging/spdlog/fmt/bundled/format-inl.h:488-491` | adding a 64-bit term to the portable accumulator gives the exact 128-bit sum when that fits |
| `BigintClass.Accumulator.ShiftRight32` | `logging/spdlog/fmt/bundled/format-inl.h:492-497` | the accumulator's shift is division of the 128-bit sum by 2^32 |
| `BigintClass.Bigint.constructor` | `logging/spdlog/fmt/bundled/format-inl.h:571-572` | the value is n, with exponent 0 |
| `BigintClass.Bigint.Assign` | `logging/spdlog/fmt/bundled/format-inl.h:585-593` | the number becomes n in normal form |
| `BigintClass.Bigint.AssignFrom` | `logging/spdlog/fmt/bundled/format-inl.h:578-583` | a copy, bigits and exponent, of another number |
| `BigintClass.Bigint.Multiply32` | `logging/spdlog/fmt/bundled/format-inl.h:542-551` | multiplying by a positive 32-bit factor multiplies the value exactly, for any length, every column within 64 bits |
| `BigintClass.Bigint.Multiply64` | `logging/spdlog/fmt/bundled/format-inl.h:553-568` | the same for a positive 64-bit factor taken in two halves, with a carry of up to two bigits |
| `BigintClass.Bigint.ShiftLeft` | `logging/spdlog/fmt/bundled/format-inl.h:597-610` | `<<=` multiplies the value by 2^shift exactly; whole bigits go to the exponent |
| `BigintClass.Bigint.RemoveLeadingZeros` | `logging/spdlog/fmt/bundled/format-inl.h:523-527` | normal form and the same value |
| `BigintClass.Bigint.Square` | `logging/spdlog/fmt/bundled/format-inl.h:678-706` | the two-phase convolution gives the exact square, the accumulator never overflowing its 128 bits |
| `BigintClass.Bigint.AssignPow5` | `logging/spdlog/fmt/bundled/format-inl.h:662-674` | square-and-multiply over the bits of n gives 5^n |
| `BigintClass.Bigint.AssignPow10` | `logging/spdlog/fmt/bundled/format-inl.h:659-676` | exactly 10^n, with exponent n / 32 |
| `BigintClass.TopBit` | `logging/spdlog/fmt/bundled/format-inl.h:663-665` | the highest power of two not above the exponent |
| `BigintClass.AddLowColumn` | `logging/spdlog/fmt/bundled/format-inl.h:688-691` | the inner loop of the lower half adds the whole column of cross products |
| `BigintClass.AddHighColumn` | `logging/spdlog/fmt/bundled/format-inl.h:698-699` | the inner loop of the upper half adds the whole column |
| `BigintClass.Bigint.TakeBigits` | `logging/spdlog/fmt/bundled/format-inl.h:534-537` | taking the subtrahend off bigit by bigit leaves exactly the difference plus a borrow due at the next place |
| `BigintClass.Bigint.SettleBorrow` | `logging/spdlog/fmt/bundled/format-inl.h:538` | what the loop with its fixed index leaves: the bigit less one, or a zero bigit decremented twice |
| `BigintClass.Bigint.SubtractAligned` | `logging/spdlog/fmt/bundled/format-inl.h:530-540` | the result is the difference if and only if no borrow is due at a zero bigit just above the subtrahend |
| `BigintClass.Bigint.Align` | `logging/spdlog/fmt/bundled/format-inl.h:715-723` | explicit low zeros replace the exponent difference without changing the value |
| `BigintClass.Bigint.SubtractRepeatedly` | `logging/spdlog/fmt/bundled/format-inl.h:724-729` | the subtraction loop of the division: the quotient is how often the divisor was taken off, the rest is below it |
| `BigintClass.Bigint.DivmodAssign` | `logging/spdlog/fmt/bundled/format-inl.h:710-730` | quotient and remainder: old = q * divisor + r with r < divisor, when the dividend has at most one bigit position more; the exact condition of the early return is stated with it |
| `BigintClass.Compare` | `logging/spdlog/fmt/bundled/format-inl.h:618-632` | the answer is the exact sign if and only if neither operand carries explicit low zeros the other has in its exponent (nor is a zero with an exponent out of the way) |
| `BigintClass.CompareAligned` | `logging/spdlog/fmt/bundled/format-inl.h:622-631` | the same for operands that end at the same position |
| `BigintClass.TopDifference` | `logging/spdlog/fmt/bundled/format-inl.h:622-629` | the loop stops at the topmost positions that differ or where one operand runs out |
| `BigintClass.AddCompare` | `logging/spdlog/fmt/bundled/format-inl.h:635-656` | despite its early exits the answer is the exact sign of lhs1 + lhs2 - rhs if and only if neither count test is misled by a zero with a large exponent, a condition on the bigits alone |
| `Convolution.ColumnsAreProduct` | `logging/spdlog/fmt/bundled/format-inl.h:683-702` | the columns of cross products, each at its place, add up to the product, for any two numbers |
| `Convolution.CarryBound` | `logging/spdlog/fmt/bundled/format-inl.h:683-702` | the running sum of a column and the carry stays below 2^128 |
| `Convolution.SquaredStep` | `logging/spdlog/fmt/bundled/format-inl.h:692-693` | storing the low bigit and carrying the rest keeps the partial square exact |
| `Convolution.SquaredEnd` | `logging/spdlog/fmt/bundled/format-inl.h:696-706` | after both halves the bigits are the square and no carry is left |
| `LimbOrder.CompareDecides` | `logging/spdlog/fmt/bundled/format-inl.h:618-632` | a negative answer against a nonzero right operand means smaller, or the right operand written longer: compare never contradicts the order |
| `LimbOrder.PaddedExample` | `logging/spdlog/fmt/bundled/format-inl.h:630` | 5 * 2^32 written in two ways: the values are equal and compare says greater |
| `LimbOrder.EqualIsPadded` | `logging/spdlog/fmt/bundled/format-inl.h:618-632` | equal values with different exponents differ by explicit low zeros only |
| `LimbOrder.SettledAt` | `logging/spdlog/fmt/bundled/format-inl.h:650-652` | each early exit of the descending loop is right: the part already seen decides the sum |
| `LimbOrder.SettledAtEnd` | `logging/spdlog/fmt/bundled/format-inl.h:645-655` | running through all positions, the borrow left gives the sign |
| `LimbOrder.SumTooShort` | `logging/spdlog/fmt/bundled/format-inl.h:639` | the first count test is right unless the right operand is zero |
| `LimbOrder.LargerIff` | `logging/spdlog/fmt/bundled/format-inl.h:618-632` | one number is larger than another if and only if the topmost bigits that differ say so |
| `LimbOrder.LowTest` | `logging/spdlog/fmt/bundled/format-inl.h:1016` | compare(numerator, lower) - even < 0 is the test against the lower end, but for a tie with a lower of larger exponent |
| `LimbOrder.HighTest` | `logging/spdlog/fmt/bundled/format-inl.h:1018` | add_compare(numerator, upper, denominator) + even > 0 is the exact test against the upper end |
| `LimbArithmetic.ScaledStep` | `logging/spdlog/fmt/bundled/format-inl.h:545-549` | one column of an in-place multiplication keeps prefix value plus carry equal to the product of the prefix |
| `LimbArithmetic.WideStep` | `logging/spdlog/fmt/bundled/format-inl.h:559-562` | the two half products of a 64-bit column and their carries are the exact column sum |
| `LimbArithmetic.ShiftBigit` | `logging/spdlog/fmt/bundled/format-inl.h:604-606` | shifting a bigit with a carry in never overflows and splits exactly |
| `LimbArithmetic.PowerLength` | `logging/spdlog/fmt/bundled/format-inl.h:679-681` | a power of five below 2^30 is short enough for the int column index of square |
| `Subtraction.TakenStep` | `logging/spdlog/fmt/bundled/format-inl.h:517-521` | subtract_bigits at the next place keeps the difference exact with one borrow |
| `Subtraction.BorrowMeaning` | `logging/spdlog/fmt/bundled/format-inl.h:534-537` | after the whole subtrahend a borrow is due exactly when the part under it was smaller |
| `Subtraction.SubtractEnd` | `logging/spdlog/fmt/bundled/format-inl.h:538` | the last loop leaves the difference if and only if the bigit at its fixed index is not a zero with a borrow due |
| `Subtraction.NeverStuck` | `logging/spdlog/fmt/bundled/format-inl.h:538` | a dividend of at most one bigit position more never meets that case |
| `Subtraction.StuckExample` | `logging/spdlog/fmt/bundled/format-inl.h:538` | 2^64 - 1 as a concrete failing subtraction |
| `DigitLoop.GeneratedWithin` | `logging/spdlog/fmt/bundled/format-inl.h:1014-1036` | the digits of the loop read as a decimal lie in the rounding interval, ends included only for an even significand |
| `DigitLoop.NoneCoarser` | `logging/spdlog/fmt/bundled/format-inl.h:1014-1036` | a decimal with a coarser last place lies in the interval only at its lower end, in the tie the representation misses |
| `DigitLoop.GeneratedNearest` | `logging/spdlog/fmt/bundled/format-inl.h:1021-1028` | with equal gaps the last digit is the nearest at its place |
| `DigitLoop.GeneratedNearestInside` | `logging/spdlog/fmt/bundled/format-inl.h:1014-1036` | for any gaps, a decimal of the same length in the interval that is nearer than the digits is a lower end missed as a tie, less than half a unit away |
| `DigitLoop.GeneratedTieIsEven` | `logging/spdlog/fmt/bundled/format-inl.h:1021-1028` | half to even: when another decimal of the same length in the interval is equally far from the value, the digits are the even one, but for a lower end missed as a tie half a unit away |
| `DigitLoop.LowerEndNearer` | `logging/spdlog/fmt/bundled/format-inl.h:1014-1036` | and such a lower end is nearer |
| `DigitLoop.NeverLowerEnd` | `logging/spdlog/fmt/bundled/format-inl.h:1016` | with ties there missed, the digits are never exactly the lower end |
| `DigitLoop.DigitsInRange` | `logging/spdlog/fmt/bundled/format-inl.h:1019-1027` | every digit stays within 0..9 when the value and its upper end fit ten units |
| `DigitLoop.DigitsFitIff` | `logging/spdlog/fmt/bundled/format-inl.h:1014-1036` | for any start, every digit printed is one if and only if the value fits, or is below nine units, or its nine at the upper end is not rounded up |
| `Fallback.SetUpLarge` | `logging/spdlog/fmt/bundled/format-inl.h:976-987` | the branch for a nonnegative binary exponent computes them |
| `Fallback.SetUpSmall` | `logging/spdlog/fmt/bundled/format-inl.h:988-998` | the branch for a fraction with a negative decimal exponent computes them |
| `Fallback.SetUpMiddle` | `logging/spdlog/fmt/bundled/format-inl.h:999-1008` | the branch for a fraction with a nonnegative decimal exponent computes them |
| `Fallback.NextDigit` | `logging/spdlog/fmt/bundled/format-inl.h:1015-1018` | one division and both end tests on bigints give the digit, the remainder and the tests on the values |
| `Fallback.FinalDigit` | `logging/spdlog/fmt/bundled/format-inl.h:1020-1028` | the final increment: up at the upper end, to the nearer and then the even digit when both ends are near |
| `Fallback.OneDigit` | `logging/spdlog/fmt/bundled/format-inl.h:1015-1035` | one turn of the loop prints the next digit of the digit generation on values, aliasing of upper and lower included |
| `Fallback.GenerateDigits` | `logging/spdlog/fmt/bundled/format-inl.h:1014-1036` | the loop on bigints terminates and prints exactly the digits generated from the values it starts from |
| `Fallback.Magnify` | `logging/spdlog/fmt/bundled/format-inl.h:1033-1035` | the tenfold step, when upper is lower itself too |
| `Fallback.NeverEqual` | `logging/spdlog/fmt/bundled/format-inl.h:976-987` | a numerator with a larger whole-bigit exponent never becomes the denominator, so the comparison there is exact |
| `Fallback.FallbackFormat` | `logging/spdlog/fmt/bundled/format-inl.h:962-1037` | the characters are the generated digits, as distances from the character 0, and the exponent is lowered by their number less one; the exponent given need only bound the value itself, not its double |
| `FallbackTheorems.SetupRepresents` | `logging/spdlog/fmt/bundled/format-inl.h:1010` | the invariant in the source's comment holds after the set-up if and only if not (exponent nonnegative and predecessor closer) |
| `FallbackTheorems.SetupDoubles` | `logging/spdlog/fmt/bundled/format-inl.h:987` | in the case left the set-up stands for exactly twice the value |
| `FallbackTheorems.PrintedReadsBack` | `logging/spdlog/fmt/bundled/format-inl.h:1010-1036` | what is printed lies in the rounding interval of what the set-up stands for |
| `FallbackTheorems.ShortestIff` | `logging/spdlog/fmt/bundled/format-inl.h:1010-1036` | a shorter decimal in the interval exists if and only if the significand is even, the tie test is lost to the exponents, and at some place the lower end is the only decimal of the interval |
| `FallbackTheorems.PrintedIsNearest` | `logging/spdlog/fmt/bundled/format-inl.h:1021-1028` | for both gaps, the closer one as it is reported, no decimal of the same length in the rounding interval is nearer than the one printed |
| `FallbackTheorems.WithinHalfUnit` | `logging/spdlog/fmt/bundled/format-inl.h:1021-1028` | between equal gaps, inside the interval or not, no decimal of the same length is nearer: the one printed is within half a unit of its last place |
| `FallbackTheorems.PrintedTieIsEven` | `logging/spdlog/fmt/bundled/format-inl.h:1024-1027` | for every significand, exponent and gap: of two equally near decimals of the output's length that read back, the even one is printed |
| `FallbackTheorems.HalfToEvenExample` | `logging/spdlog/fmt/bundled/format-inl.h:1024-1027` | 22.121658325195312: a tie at the seventeenth digit goes to the even one |
| `FallbackText.TextReadsBackIff` | `logging/spdlog/fmt/bundled/format-inl.h:962-1037` | the characters with the exponent returned are a decimal in the rounding interval of f * 2^e if and only if not (exponent nonnegative and predecessor closer) |
| `FallbackText.TextIsDigitsIff` | `logging/spdlog/fmt/bundled/format-inl.h:1019-1028` | the characters are digits if and only if the number set up fits; for an exponent that bounds the value they are, unless it is doubled |
| `FallbackText.DoubledExample` | `logging/spdlog/fmt/bundled/format-inl.h:987` | 2^81 with decimal exponent 24: the digits printed read back to 2^82 and not to 2^81 |
| `FallbackText.NoDigitExample` | `logging/spdlog/fmt/bundled/format-inl.h:987` | 2^807 with decimal exponent 242: the first character printed is no digit |
| `FallbackText.UnitIs` | `logging/spdlog/fmt/bundled/format-inl.h:1010` | lower, at any place, is half the gap down from f * 2^e: the scaled numbers in terms of the value itself |
| `FallbackTheorems.MissedTieExample` | `logging/spdlog/fmt/bundled/format-inl.h:1016` | 4503600463867188 * 2^40: sixteen digits printed where a shorter decimal reads back |
| `Grisu.RoundDirectionIff` | `logging/spdlog/fmt/bundled/format-inl.h:739-753` | down (up) is returned exactly when every real within the error rounds down (up) |
| `Grisu.GrisuCountDigits` | `logging/spdlog/fmt/bundled/format-inl.h:764-775` | the number of decimal digits of a nonzero 32-bit number |
| `Grisu.FixedHandler.constructor` | `logging/spdlog/fmt/bundled/format-inl.h:863-868` | an empty handler over a buffer |
| `Grisu.FixedHandler.OnStart` | `logging/spdlog/fmt/bundled/format-inl.h:870-885` | the precision adjustment of fixed formats; more digits exactly when some are wanted; an error exactly when the rounding of the first place is not settled by the error |
| `Grisu.FixedHandler.OnDigit` | `logging/spdlog/fmt/bundled/format-inl.h:887-912` | a digit appended; at the last one the printed number is rounded as every value within the error rounds, or an error exactly when they do not all round one way; one character more than asked only on a carry to a power of ten |
| `Grisu.FixedHandler.Increment` | `logging/spdlog/fmt/bundled/format-inl.h:903-912` | the carry ripple adds exactly one unit in the last place, keeps decimal digits and lengthens the buffer exactly on reaching a power of ten |
| `DecimalText.RippleStep` | `logging/spdlog/fmt/bundled/format-inl.h:904-907` | moving the carry one character up keeps the number |
| `DecimalText.CarryOut` | `logging/spdlog/fmt/bundled/format-inl.h:908-911` | a carry out of the first digit gives one followed by zeros, one digit longer |
| `Grisu.IntegralStep` | `logging/spdlog/fmt/bundled/format-inl.h:800-847` | taking a digit off the integral part keeps digits and remainder together equal to the value |
| `Grisu.FractionStep` | `logging/spdlog/fmt/bundled/format-inl.h:850-858` | multiplying the fraction by ten and cutting the integral digit off keeps it too |
| `Grisu.IntegralDigits` | `logging/spdlog/fmt/bundled/format-inl.h:798-848` | the integral loop ends with all integral digits printed, or with a correct rounding exactly when the place it stops at has one |
| `Grisu.FractionalDigits` | `logging/spdlog/fmt/bundled/format-inl.h:850-859` | the fractional loop ends with a correct rounding exactly when the place it stops at has one; no 64-bit step overflows |
| `Grisu.GiveDigit` | `logging/spdlog/fmt/bundled/format-inl.h:841-846` | one call of the handler in either loop: digits and remainder carried on, or a verdict that is right |
| `Grisu.GrisuGenDigits` | `logging/spdlog/fmt/bundled/format-inl.h:781-860` | the result is done exactly when some number with its last digit at the place reached is a correct nearest rounding of every real within one unit of value.f, and then the buffer holds one; the number of digits is the one asked for, one more on a carry; a first place rounded without digits is done exactly when the value scaled down by ten settles it, and fails only within 110 units of the tie; in a fixed format the place reached is precision places after the decimal point |
| `Grisu.RoundedDigitsAreCorrect` | `logging/spdlog/fmt/bundled/format-inl.h:777-860` | a rounding accepted by the direction test is within half a unit of the last place of every real within one of value.f |
| `Grisu.UnsettledIsUnroundable` | `logging/spdlog/fmt/bundled/format-inl.h:887-912` | when the handler gives up, no number at all with its last digit at that place would have been a correct rounding |
| `Grisu.SpanIsNotUnit` | `logging/spdlog/fmt/bundled/format-inl.h:893-899` | the error check loses nothing at its boundary: twice the error is never exactly one unit of the last place |
| `Grisu.RoundingIsCorrect` | `logging/spdlog/fmt/bundled/format-inl.h:887-912` | the same for one rounding at a scaled remainder |
| `Grisu.StartRounded` | `logging/spdlog/fmt/bundled/format-inl.h:793-796` | the start test scaled down by ten is right for the unscaled value |
| `Grisu.StartUnsettled` | `logging/spdlog/fmt/bundled/format-inl.h:793-796` | the scaled-down test gives up only within 110 units of the tie |
| `SpecsText.WrittenSpecsParsed` | `logging/spdlog/fmt/bundled/format.h:2411-2543` | specifications written part by part (fill, alignment, sign, #, 0, width, precision, type) are read to their end as exactly the fields written, checked at once or recorded, and refused exactly when the argument's type or a width or precision from an argument does not allow them |
| `SpecsInverse.ParsedSpecsWritten` | `logging/spdlog/fmt/bundled/format.h:2411-2543` | whatever is accepted in front of a closing brace is specifications written so |
| `SpecsInverse.SpecsParsedIff` | `logging/spdlog/fmt/bundled/format.h:2497-2543` | parse_format_specs ends at a closing brace with a handler if and only if specifications written up to there make that handler: the inverse of writing them |
| `FormatMeaning.DynamicSpecIff` | `logging/spdlog/fmt/bundled/format.h:2186-2190` | a width or precision from an argument is its own number if and only if it is an integer that fits an int, and another number if and only if it is wider than 64 bits and the rest of it fits |
| `FormatMeaning.WideWidthExample` | `logging/spdlog/fmt/bundled/format.h:2186-2190` | a 128-bit width of 2^64 + 5 is taken for 5 |
| `FormatMeaning.ArgsInOrder` | `logging/spdlog/fmt/bundled/core.h:586-603` | arguments are found for a list of ids if and only if automatic ids and indices are not mixed and every argument is there; the automatic ids take the arguments in order, the others those they name |
| `FormatMeaning.PatternParsed` | `logging/spdlog/fmt/bundled/format.h:2575-2624` | from any position: text and fields in order, each field its argument's text |
| `FormatMeaning.FormatSays` | `logging/spdlog/fmt/bundled/format.h:3149-3210` | direct formatting of any string of literal text and fields prints the text, and each argument under exactly the fields written for it, in order; it fails exactly when a field does |
| `FormatMeaning.PrintedHasArgs` | `logging/spdlog/fmt/bundled/format.h:3149-3210` | nothing is printed for a string that mixes automatic ids and indices or names an argument that is not there, widths and precisions included |
| `FormatText.DigitsParsed` | `logging/spdlog/fmt/bundled/format.h:1987-2005` | the digits up to the first other character are read as their number, and refused if and only if that is past INT_MAX |
| `FormatText.ArgIdParsedIff` | `logging/spdlog/fmt/bundled/format.h:2336-2366` | parse_arg_id returns an id and a position if and only if that id is written there and ends there: the inverse of writing an id |
| `FormatText.TextWritten` | `logging/spdlog/fmt/bundled/format.h:2577-2592` | literal text is written with its doubled closing braces made single, or refused for one that is not doubled |
| `FormatText.EscapedPrintsItself` | `logging/spdlog/fmt/bundled/format.h:2575-2624` | any text with its braces doubled is printed as it is |
| `FormatString.VformatTo` | `logging/spdlog/fmt/bundled/compile.h:174-235` | the loop over the parts gives the output of interpreting them in order, and fails exactly when that fails |
| `FormatEquivalence.SpecsAgree` | `logging/spdlog/fmt/bundled/format.h:2497-2543` | specifications checked while parsing are those recorded and resolved later: same position, same specifications, failure for failure |
| `FormatEquivalence.WidthAgrees` | `logging/spdlog/fmt/bundled/format.h:2456-2470` | the same for the width, static or dynamic |
| `FormatEquivalence.PrecisionAgrees` | `logging/spdlog/fmt/bundled/format.h:2473-2492` | the same for the precision |
| `FormatEquivalence.AlignAgrees` | `logging/spdlog/fmt/bundled/format.h:2413-2453` | the same for fill and alignment |
| `FormatEquivalence.SignAgrees` | `logging/spdlog/fmt/bundled/format.h:2504-2518` | the same for the sign |
| `FormatEquivalence.LookupLater` | `logging/spdlog/fmt/bundled/format.h:2710-2724` | looking an argument up at once and resolving its reference later give the same number or both fail |
| `FormatEquivalence.ReplacementResolves` | `logging/spdlog/fmt/bundled/compile.h:208-231` | interpreting a replacement part is resolving its specifications and writing its argument |
| `FormatEquivalence.SpecsInStep` | `logging/spdlog/fmt/bundled/compile.h:137-151` | a field with specifications: formatting it and recording it stay in step |
| `FormatEquivalence.ArgIdInStep` | `logging/spdlog/fmt/bundled/compile.h:119-130` | automatic, manual and named ids keep formatting and compiling in step, indexing errors included |
| `FormatEquivalence.FieldInStep` | `logging/spdlog/fmt/bundled/format.h:2602-2622` | one replacement field or escaped brace keeps them in step |
| `FormatEquivalence.WriteInStep` | `logging/spdlog/fmt/bundled/compile.h:114-117` | literal text keeps them in step |
| `FormatEquivalence.ParseInStep` | `logging/spdlog/fmt/bundled/format.h:2575-2624` | a whole string keeps them in step, or both come to fail |
| `FormatEquivalence.CompiledIsDirect` | `logging/spdlog/fmt/bundled/compile.h:154-236` | for every string, argument list and way of writing an argument: direct formatting succeeds if and only if compiling succeeds, interpreting succeeds and every argument the parts write is there; then with the same output |
| `FormatEquivalence.FoundIff` | `logging/spdlog/fmt/bundled/compile.h:174-235` | interpretation that insists on arguments is plain interpretation when they are all there, and an error otherwise |
| `FormatEquivalence.MissingExample` | `logging/spdlog/fmt/bundled/compile.h:159` | {1} with one argument: refused directly, nothing printed when compiled |
| `CountDigits.CountByLoop` | `logging/spdlog/fmt/bundled/format.h:795-808` | the loop form counts the decimal digits of every number |
| `CountDigits.ClzCounts` | `logging/spdlog/fmt/bundled/format.h:787-792` | the leading-zeros form with its table counts them for every 64-bit number |
| `CountDigits.DigitsCounted` | `logging/spdlog/fmt/bundled/format.h:785-808` | the count is unique and is the length of the decimal text |
| `DigitGrouping.PredictSize` | `logging/spdlog/fmt/bundled/format.h:1608-1618` | the predicted size is the digits plus one separator for each group boundary inside them |
| `DigitGrouping.GroupedLength` | `logging/spdlog/fmt/bundled/format.h:1608-1618` | which is the length of the grouped text |
| `DigitGrouping.NumWriter.constructor` | `logging/spdlog/fmt/bundled/format.h:1574-1585` | the writer starts at the end of its buffer, before the first group |
| `DigitGrouping.NumWriter.Due` | `logging/spdlog/fmt/bundled/format.h:1589-1595` | the callback's state finds exactly the boundaries of the locale's grouping, the last size repeating |
| `DigitGrouping.NumWriter.Put` | `logging/spdlog/fmt/bundled/format.h:1596-1598` | one character in front of what is written |
| `DigitGrouping.NumWriter.PutDigit` | `logging/spdlog/fmt/bundled/format.h:890-895` | one digit and its separator bring the text one digit nearer to complete |
| `DigitGrouping.NumWriter.PutPair` | `logging/spdlog/fmt/bundled/format.h:885-897` | two digits of the loop, taken off together |
| `DigitGrouping.NumWriter.FormatDecimal` | `logging/spdlog/fmt/bundled/format.h:881-906` | the buffer is filled from its first cell with the grouped digits |
| `DigitGrouping.OnNum` | `logging/spdlog/fmt/bundled/format.h:1603-1621` | the digits of the value as the locale groups them |
| `DigitGrouping.SeparatorsRemoved` | `logging/spdlog/fmt/bundled/format.h:1588-1599` | removing the separators leaves the digits |
| `DigitGrouping.GroupedIsNumber` | `logging/spdlog/fmt/bundled/format.h:1603-1621` | and they are the decimal digits of the value |
| `Transcoding.TableIsRanges` | `logging/spdlog/fmt/bundled/format-inl.h:1235-1244` | the length table by the top five bits is the ranges of lead bytes |
| `Transcoding.Errors` | `logging/spdlog/fmt/bundled/format-inl.h:1259-1267` | each field of the error bits is zero exactly when its condition holds: canonical scalar value, and each tail byte a tail |
| `Transcoding.AcceptedIsEncoded` | `logging/spdlog/fmt/bundled/format-inl.h:1234-1270` | no error means the bytes begin with the UTF-8 encoding of the scalar value returned |
| `Transcoding.EncodedIsAccepted` | `logging/spdlog/fmt/bundled/format-inl.h:1234-1270` | the encoding of every scalar value is accepted and gives it back, whatever follows |
| `Utf8ToUtf16.AcceptedFits` | `logging/spdlog/fmt/bundled/format-inl.h:1318-1325` | a padding zero is never taken for part of a sequence |
| `Utf8ToUtf16.ErrorMeansIllFormed` | `logging/spdlog/fmt/bundled/format-inl.h:1301` | an error at any position means no sequence of scalar values encodes to the string |
| `Utf8ToUtf16.PushCodePoint` | `logging/spdlog/fmt/bundled/format-inl.h:1302-1308` | the UTF-16 units of the code point are appended |
| `Utf8ToUtf16.TranscodeBlocks` | `logging/spdlog/fmt/bundled/format-inl.h:1313-1315` | the loop over whole blocks |
| `Utf8ToUtf16.TranscodeTail` | `logging/spdlog/fmt/bundled/format-inl.h:1316-1323` | the loop over the zero-padded tail |
| `Utf8ToUtf16.Transcode` | `logging/spdlog/fmt/bundled/format-inl.h:1297-1326` | fails exactly on ill-formed UTF-8; otherwise gives the UTF-16 encoding of the same code points and a terminating zero |
| `Utf8ToUtf16.OneReading` | `logging/spdlog/fmt/bundled/format-inl.h:1297-1326` | a string has at most one reading as scalar values |
| `Utf8ToUtf16.UnitsReadBack` | `logging/spdlog/fmt/bundled/format-inl.h:1303-1309` | the units made for any scalar values read back as them by section 2.2 of RFC 2781: single units that are no surrogates, and pairs |
| `CircularQueue.RingStore` | `logging/spdlog/details/circular_q.h:53-54` | storing at the tail appends to the contents |
| `CircularQueue.CircularQ.constructor` | `logging/spdlog/details/circular_q.h:25` | the disabled queue |
| `CircularQueue.CircularQ.WithCapacity` | `logging/spdlog/details/circular_q.h:27-30` | an empty queue of the given capacity |
| `CircularQueue.CircularQ.PushBack` | `logging/spdlog/details/circular_q.h:49-62` | append, dropping and counting the oldest item when full; nothing on a disabled queue |
| `CircularQueue.CircularQ.Front` | `logging/spdlog/details/circular_q.h:66-74` | the oldest item |
| `CircularQueue.CircularQ.Size` | `logging/spdlog/details/circular_q.h:77-87` | the number of items stored |
| `CircularQueue.CircularQ.At` | `logging/spdlog/details/circular_q.h:91-95` | item i from the oldest |
| `CircularQueue.CircularQ.PopFront` | `logging/spdlog/details/circular_q.h:99-102` | the oldest item is gone |
| `CircularQueue.CircularQ.Empty` | `logging/spdlog/details/circular_q.h:104-107` | whether nothing is stored |
| `CircularQueue.CircularQ.Full` | `logging/spdlog/details/circular_q.h:109-117` | whether the capacity is reached |
| `CircularQueue.CircularQ.MoveFrom` | `logging/spdlog/details/circular_q.h:126-138` | the contents and the counter move, the other queue is left disabled, also when it is the same queue |
| `CircularQueue.RunConserves` | `logging/spdlog/details/circular_q.h:49-102` | over every run: pushed = popped + stored + overrun |
| `CircularQueue.OnlyPushes` | `logging/spdlog/details/circular_q.h:49-62` | with pushes only, the contents are the last items pushed, as many as fit |
| `AsyncQueue.NoLostWakeupKept` | `logging/spdlog/details/mpmc_blocking_q.h:32-67` | every step, spurious wakeups and timeouts included, keeps: the producers (consumers) that could go on are not more than the notifications on their way and those already woken |
| `AsyncQueue.WakeupLock` | `logging/spdlog/details/mpmc_blocking_q.h:35-37` | the critical sections keep it |
| `AsyncQueue.WakeupNotify` | `logging/spdlog/details/mpmc_blocking_q.h:39` | a notification that wakes a thread keeps it |
| `AsyncQueue.WakeupNobody` | `logging/spdlog/details/mpmc_blocking_q.h:65` | a notification that finds nobody keeps it |
| `AsyncShutdown.InvKept` | `logging/spdlog/details/thread_pool-inl.h:38-121` | every step keeps roles, places, terminate-message accounts, history and the wakeup balance |
| `AsyncShutdown.StartedInv` | `logging/spdlog/details/thread_pool-inl.h:16-31` | a pool as constructed satisfies them |
| `AsyncShutdown.NobodyStranded` | `logging/spdlog/details/mpmc_blocking_q.h:32-67` | with no notification on its way and nobody woken, sleeping producers face a full queue and dozing consumers an empty one |
| `AsyncShutdown.SomeStepEnabled` | `logging/spdlog/details/thread_pool-inl.h:38-53` | once the destructor runs, some working step is enabled until every worker has exited |
| `AsyncShutdown.Drained` | `logging/spdlog/details/thread_pool-inl.h:111-113` | when all workers have exited the queue is empty and as many terminate messages were dequeued as there are workers, none dropped |
| `AsyncShutdown.ClosingOverrunsNothing` | `logging/spdlog/details/thread_pool-inl.h:44` | during the shutdown nothing is overrun |
| `AsyncShutdown.WorkDecreases` | `logging/spdlog/details/thread_pool-inl.h:38-121` | each working step of the shutdown uses up work; a spurious wakeup or timeout adds at most two |
| `AsyncShutdown.RunKeepsInv` | `logging/spdlog/details/thread_pool-inl.h:38-121` | the invariant holds in every reachable state |
| `AsyncShutdown.ShutdownBounded` | `logging/spdlog/details/thread_pool-inl.h:38-53` | the working steps of a shutdown are bounded by the work at its start and the wakeups for nothing |
| `AsyncShutdown.ShutdownCompletes` | `logging/spdlog/details/thread_pool-inl.h:38-121` | a shutdown run that cannot go on has ended every worker; all messages are the dequeued and the overrun ones, each in order, every terminate message dequeued |
| `AsyncDelivery.BlockingLosesNothing` | `logging/spdlog/details/thread_pool-inl.h:71-81` | over every run in which all messages are posted to block, none is overrun |
| `AsyncDelivery.OverrunningNeverWaits` | `logging/spdlog/details/thread_pool-inl.h:71-81` | over every run in which all messages are posted to overrun, no client sleeps before the destructor runs |
| `AsyncDelivery.HistoriesAreLogs` | `logging/spdlog/details/mpmc_blocking_q.h:32-69` | messages enter the queue and are dequeued by the threads' own critical sections only, in that order |
| `AsyncDelivery.PushesWhatIsPosted` | `logging/spdlog/details/thread_pool-inl.h:56-81` | over every run each client pushes exactly the messages it was given to post, in that order; the last one it may still carry |
| `AsyncDelivery.HandlesWhatIsDequeued` | `logging/spdlog/details/thread_pool-inl.h:91-121` | over every run each worker handles exactly the messages it dequeued, in that order; the last one it may still hold |
| `AsyncDelivery.ShutdownDelivers` | `logging/spdlog/details/thread_pool-inl.h:38-121` | after a finished shutdown every message posted was pushed by its client and every message dequeued was handled by its worker, each once and in order; under the block policy what was dequeued is all that was pushed |
| `Wishbone.Wbram.constructor` | `models/wishbone/wbram.hpp:103-110` | an empty memory of the given size |
| `Wishbone.Wbram.RetrieveWord` | `models/wishbone/wbram.hpp:47-60` | the word stored; past the size it is fatal |
| `Wishbone.Wbram.SetWord` | `models/wishbone/wbram.hpp:62-74` | the word with the selected lanes replaced |
| `Wishbone.Wbram.HandleOp` | `models/wishbone/wbram.hpp:77-100` | one edge: a request is served once, acknowledged for one cycle, and the next edge ends it |
| `Wishbone.Bridge.constructor` | `tlms/tlm_adapters/tlm2wishbone.hpp:42-72` | an idle bridge with its request lines low |
| `Wishbone.Bridge.Lanes` | `tlms/tlm_adapters/tlm2wishbone.hpp:86-92` | byte k of a beat goes to lane 3 - k, with its enable |
| `Wishbone.Bridge.TakeLanes` | `tlms/tlm_adapters/tlm2wishbone.hpp:117-119` | and comes back from it |
| `Wishbone.Bridge.Handler` | `tlms/tlm_adapters/tlm2wishbone.hpp:76-129` | one edge of the state machine, from the slave's signals before it |
| `WishboneTransfer.Bench.Edge` | `tlms/tlm_adapters/tlm2wishbone.hpp:76-129` | the composition by phases: every edge leads to the next phase, and exactly one of them has the RAM do the access |
| `WishboneTransfer.Bench.Beat` | `tlms/tlm_adapters/tlm2wishbone.hpp:152` | waiting for the acknowledge is one atomic access; it ends well if and only if the timeout is at least 3 and the address in range |
| `WishboneTransfer.Bench.NextRequest` | `tlms/tlm_adapters/tlm2wishbone.hpp:155-159` | the request of the next beat |
| `WishboneTransfer.Bench.Turn` | `tlms/tlm_adapters/tlm2wishbone.hpp:151-160` | one turn of the beat loop: an atomic access, then the next request unless the width is used up |
| `WishboneTransfer.Bench.RunBeats` | `tlms/tlm_adapters/tlm2wishbone.hpp:151-160` | the beat loop is that many atomic accesses, at word addresses stepped by the beat's length in bytes |
| `WishboneTransfer.Bench.TurnAt` | `tlms/tlm_adapters/tlm2wishbone.hpp:151-160` | one turn of it adds one beat to those done |
| `WishboneTransfer.Bench.Transport` | `tlms/tlm_adapters/tlm2wishbone.hpp:132-162` | a whole transfer refines its atomic accesses; a command other than read or write is rejected |
| `WishboneRoundTrip.WriteStores` | `models/wishbone/wbram.hpp:62-74` | a write stores each beat on its enabled lanes and touches no other word or lane |
| `WishboneRoundTrip.WriteStoresBytes` | `tlms/tlm_adapters/tlm2wishbone.hpp:80-96` | byte by byte: lane 3 - k of a beat's word is byte k of the beat if that byte's own enable is 0xff or none are given, and what it was otherwise |
| `WishboneRoundTrip.WriteBytes` | `tlms/tlm_adapters/tlm2wishbone.hpp:80-160` | the same after a whole write through b_transport |
| `WishboneRoundTrip.ReadGivesBytes` | `tlms/tlm_adapters/tlm2wishbone.hpp:116-121` | byte k of a beat read is lane 3 - k of its word, unless a later beat covers it |
| `WishboneRoundTrip.ReadKeepsBytes` | `tlms/tlm_adapters/tlm2wishbone.hpp:116-121` | a read leaves the RAM and the bytes that no beat covers |
| `WishboneRoundTrip.RoundTrip` | `tlms/tlm_adapters/tlm2wishbone.hpp:76-162` | a fully enabled write and a read of the same address and shape give back every byte carried |
| `WishboneRoundTrip.WriteThenRead` | `tlms/tlm_adapters/tlm2wishbone.hpp:76-162` | the same through two calls of b_transport on bridge and RAM: it succeeds if and only if the timeout is at least 3 and all addresses are in range, and then the buffer holds what was written |
| `WishboneRoundTrip.BlockRoundTrip` | `tlms/tlm_adapters/tlm2wishbone.hpp:76-162` | with four-byte beats the whole block comes back |
| `WishboneRoundTrip.BeatLandsIff` | `tlms/tlm_adapters/tlm2wishbone.hpp:155-156` | beat i lands on the i-th word after the first if and only if stepping by bytes and by words wraps around together |
| `WishboneRoundTrip.FourByteBeats` | `tlms/tlm_adapters/tlm2wishbone.hpp:155-156` | so with four-byte beats only the first one does |
| `WishboneRoundTrip.SecondBeatElsewhere` | `tlms/tlm_adapters/tlm2wishbone.hpp:155-156` | after a write of two beats, a read four bytes on finds what was there before, and a read sixteen bytes on the second beat |
| `LogFiles.RFind` | `logging/spdlog/details/file_helper-inl.h:111` | the last position of a character |
| `LogFiles.SplitMeaning` | `logging/spdlog/details/file_helper-inl.h:109-129` | the split is at the dot that starts an extension in the last path component, and there is none exactly if there is no such dot |
| `LogFiles.NamesDiffer` | `logging/spdlog/sinks/rotating_file_sink-inl.h:44-54` | names for distinct indices are distinct |
| `LogFiles.IndexBeforeExtension` | `logging/spdlog/sinks/rotating_file_sink-inl.h:42-54` | the index goes in front of the extension, or at the end of a name without one, after a dot of its own |
| `LogFiles.RotatedSuffix` | `logging/spdlog/sinks/rotating_file_sink-inl.h:89-118` | a rotation only takes messages off the old end, with gaps among the files too |
| `LogFiles.RotationLoses` | `logging/spdlog/sinks/rotating_file_sink-inl.h:89-118` | a rotation takes exactly the messages of the oldest file, and those only if a file takes its place |
| `RotatingSink.RotatingFileSink.constructor` | `logging/spdlog/sinks/rotating_file_sink-inl.h:27-34` | opening: file 0 exists and its size is known, the other files are as found |
| `RotatingSink.RotatingFileSink.RotateOnOpen` | `logging/spdlog/sinks/rotating_file_sink-inl.h:35-38` | the rotation on opening leaves the counted size too high, never too low |
| `RotatingSink.RotatingFileSink.Remove` | `logging/spdlog/sinks/rotating_file_sink-inl.h:126` | removing the target changes that file only |
| `RotatingSink.RotatingFileSink.Move` | `logging/spdlog/sinks/rotating_file_sink-inl.h:127` | renaming moves the messages up by one file |
| `RotatingSink.RotatingFileSink.RenameFile` | `logging/spdlog/sinks/rotating_file_sink-inl.h:123-128` | the target is lost whether or not the renaming works |
| `RotatingSink.RotatingFileSink.RenameTwice` | `logging/spdlog/sinks/rotating_file_sink-inl.h:103-110` | two attempts |
| `RotatingSink.RotatingFileSink.MoveOneUp` | `logging/spdlog/sinks/rotating_file_sink-inl.h:96-115` | one turn of that loop: a file that exists moves up, a missing one is skipped |
| `RotatingSink.RotatingFileSink.MoveUp` | `logging/spdlog/sinks/rotating_file_sink-inl.h:94-116` | the downward loop moves every existing file up by one, unless a renaming fails twice |
| `RotatingSink.RotatingFileSink.Truncate` | `logging/spdlog/sinks/rotating_file_sink-inl.h:117` | file 0 starts empty |
| `RotatingSink.RotatingFileSink.Rotate` | `logging/spdlog/sinks/rotating_file_sink-inl.h:89-118` | the rotation, and what is left when it fails: file 0 empty, size 0 |
| `RotatingSink.RotatingFileSink.Write` | `logging/spdlog/details/file_helper-inl.h:72-80` | the message is appended to file 0 |
| `RotatingSink.RotatingFileSink.Append` | `logging/spdlog/sinks/rotating_file_sink-inl.h:74` | the log gains its last message |
| `RotatingSink.RotatingFileSink.SinkIt` | `logging/spdlog/sinks/rotating_file_sink-inl.h:64-75` | every message: the log stays a suffix of all messages, every file within the limit unless it holds one message, the size never under-counted, at most one rotation, other files untouched |
| `RotatingSink.LogIsSuffix` | `logging/spdlog/sinks/rotating_file_sink-inl.h:64-118` | the bytes of the files, oldest first, are those of the last messages, whole |
| `SdramAddress.WordAddressIsFlat` | `models/memories/sdram/generic_sdram.hpp:113-118` | with at most 30 address bits nothing wraps around |
| `SdramAddress.CellRoundTrip` | `models/memories/sdram/generic_sdram.hpp:109-125` | to_row_bank_column inverts to_address on every cell |
| `SdramAddress.AddressRoundTrip` | `models/memories/sdram/generic_sdram.hpp:109-125` | to_address inverts to_row_bank_column up to the low two bits and the size of the memory |
| `SdramAddress.CellsDiffer` | `models/memories/sdram/generic_sdram.hpp:113-118` | distinct cells have distinct word addresses |
| `Sdram.CommandTable` | `models/memories/sdram/generic_sdram.hpp:193-204` | the pins decode as the command table says; with address bit 10 high only the precharge of all banks does anything |
| `Sdram.StoreOne` | `models/memories/sdram/generic_sdram.hpp:170` | a write changes its cell and no other, in any bank |
| `Sdram.GenericSdram.constructor` | `models/memories/sdram/generic_sdram.hpp:313-323` | an empty memory with every row 0 |
| `Sdram.GenericSdram.ReadCommand` | `models/memories/sdram/generic_sdram.hpp:146-156` | a read queues the value of the cell in the open row |
| `Sdram.GenericSdram.WriteCommand` | `models/memories/sdram/generic_sdram.hpp:157-172` | a write stores the masked data in the cell of the open row |
| `Sdram.GenericSdram.CloseAll` | `models/memories/sdram/generic_sdram.hpp:178-183` | every open row becomes 0 |
| `Sdram.GenericSdram.HandleCmd` | `models/memories/sdram/generic_sdram.hpp:127-204` | every command refines its step on the memory of cells |
| `Sdram.MaskedByLanes` | `models/memories/sdram/generic_sdram.hpp:162-170` | a write keeps a lane if and only if the bit the loop tests for it is set |
| `Sdram.FollowsMaskIff` | `models/memories/sdram/generic_sdram.hpp:164-168` | every lane follows its own mask bit, for all words, if and only if mask bits 1 to 3 are zero |
| `Sdram.MaskExample` | `models/memories/sdram/generic_sdram.hpp:164-168` | mask 2 should keep the second byte; a write of zero clears it |
| `Sdram.SpacedIsFlat` | `models/memories/sdram/generic_sdram.hpp:127-204` | on every run with no read while another waits for its NOP, across banks, the bus carries in order what a flat memory returns |
| `Sdram.OrderedIff` | `models/memories/sdram/generic_sdram.hpp:133-156` | every read is answered, and in the order of the reads, if and only if the run is so spaced |
| `Sdram.DrivenByNumber` | `models/memories/sdram/generic_sdram.hpp:133-156` | the bus carries the words a flat memory returns, in the order in which the reads are answered |
| `Sdram.UnpacedReadsSwap` | `models/memories/sdram/generic_sdram.hpp:133-156` | two reads before their NOPs come back swapped |
| `Sdram.Untouched` | `models/memories/sdram/generic_sdram.hpp:127-191` | a cell keeps its value through every run that does not write it |
| `Sdram.RowsAre` | `models/memories/sdram/generic_sdram.hpp:141-183` | the row open in a bank is the one activated there last, or row 0 after a precharge, whatever else came |
| `Sdram.LanesAre` | `models/memories/sdram/generic_sdram.hpp:157-172` | after any commands a cell holds, lane by lane, what was last written to it and not kept by the tested mask bit |
| `Sdram.ReadReturnsWritten` | `models/memories/sdram/generic_sdram.hpp:146-172` | from the commands alone: a read returns, lane by lane, what the last write to the same bank, column and open row let through, or what was there before |
| `Sdram.SpacedReadIsDriven` | `models/memories/sdram/generic_sdram.hpp:133-172` | on a spaced run that is what the bus carries for the read |
| `Flash.N25QX.constructor` | `models/memories/flash/N25QX.hpp:157-164` | an idle flash with nothing loaded |
| `Flash.N25QX.ConfigureRegion` | `models/memories/flash/N25QX.hpp:132-155` | loading stores the image's nibbles, at 32-bit addresses that may wrap around |
| `Flash.LoadedBytes` | `models/memories/flash/N25QX.hpp:146-151` | each byte's nibbles are at twice its address modulo 2^32, and nothing else changes, for any image of at most 2^31 bytes |
| `Flash.N25QX.FlashHandler` | `models/memories/flash/N25QX.hpp:61-119` | one clock edge of the state machine, branch by branch, refines its step; the memory reads the same afterwards |
| `Flash.N25QX.ReadNibble` | `models/memories/flash/N25QX.hpp:101-106` | one nibble of the answer; a zero is stored where nothing was loaded |
| `Flash.CommandTaken` | `models/memories/flash/N25QX.hpp:64-74` | eight edges take the command byte in, whatever chip select does after the first |
| `Flash.IdleUntilSelected` | `models/memories/flash/N25QX.hpp:64-71` | nothing happens before chip select falls |
| `Flash.AddressTaken` | `models/memories/flash/N25QX.hpp:72-85` | six edges take the address in |
| `Flash.DummyPassed` | `models/memories/flash/N25QX.hpp:82-99` | the waiting edges: a turn-around and at least one more, whatever dummy_cycles is, with zeros on the data lines |
| `Flash.NibblesOut` | `models/memories/flash/N25QX.hpp:100-110` | each further edge brings out the next nibble until chip select rises |
| `Flash.ReadGivesImage` | `models/memories/flash/N25QX.hpp:61-155` | end to end: the nibbles read after loading an image make up exactly its bytes from the address given |
| `Flash.ClockedIsRun` | `models/memories/flash/N25QX.hpp:61-119` | falling edges and the zeros stored by reads change nothing: a run of the clock is a run of its rising edges |
| `Flash.OtherCommandsHang` | `models/memories/flash/N25QX.hpp:71-81` | another command byte is not left before the 32-bit edge counter wraps around |
| `Flash.HangEndsIff` | `models/memories/flash/N25QX.hpp:71-81` | after that the flash takes eight new bits, and goes on if and only if they are the quad read |

## Left out

- Fallback.FallbackFormat: takes the decimal exponent it is given as an estimate that bounds the value (`Fallback.Estimated`), because the Grisu path that computes it is not part of this model.
- BigintClass.Bigint.DivmodAssign: asks for a dividend of at most one bigit position more than the divisor, which the fixed-index borrow loop needs (`Subtraction.StuckExample`), and for a nonzero one if its exponent is larger.
- Grisu.GrisuGenDigits: does not cover fixed formats asking for more than 19 digits, where the error times ten could leave 64 bits.
- FormatEquivalence.CompiledIsDirect: does not cover arguments of custom types, whose formatters get no parse context on the compiled path; how one argument is written is an arbitrary function, and error messages are not compared.
- FormatString.OnFormatSpecs: treats the end of the string as a missing brace, where `compile.h:143` reads the character past the end.
- WishboneTransfer.Bench.Transport: asks for a streaming width that is zero or a multiple of the beat length; for others the unsigned remainder wraps around and the loop leaves the payload.
- Sdram.GenericSdram.HandleCmd: asks for rows, columns and banks that the geometry has; others would share the word addresses of other cells.
- The widths of `exp_`, sizes and counters in `bigint`, the capacity of its buffer, and memory allocation: these are unbounded here.
- `grisu_shortest_handler`, the cached powers of ten and their error bounds, `snprintf_float`, and single precision.
- Signs, prefixes and padding around formatted numbers; wide characters; the 32-bit table of `count_digits`, whose entries are the first ten of the 64-bit one.
- The MinGW variant of the queue, thread start-up callbacks, exceptions inside the logging back end, and clocks: a timeout may happen at any time. Fairness of the scheduler is not modelled: shutdowns are bounded in their working steps.
- The SystemC kernel: an edge reads all signals as they were and then commits the writes. A RAM word never written reads as one fixed unknown word. A fatal or error report ends the run.
- Failures to open or write log files, folder creation, the sink's mutex, the delay between renaming attempts, and the wrap-around of `size_t`. Renaming outcomes are a parameter.
- The SDRAM's backdoor copy and clear, its image loader and hex dump, and all log lines; commands with address bit 10 high other than precharge-all match no case and do nothing here too.
- Interface widths of the flash other than four lines.
- All other sinks and pattern formatters of spdlog; the TLM router, plain memory and ROM, registry and OR1K opcode table, which would add only easy members; `ethbridge`, network helpers, tracers and clock generators, which are input, output or simulation time.
