# GOLDILOCKS data types and client protocol: a verified model

This project models parts of the GOLDILOCKS (Gliese) database server and its client library, and
proves what they compute:

- the NUMERIC storage format, its byte-wise comparison, negation and addition, the running sum of SUM, the
  digits reserved for a precision, and the cast from INTEGER (`Numeric*.dfy`);
- calendar dates, day numbers and timestamps (`Calendar.dfy`, `Timestamp.dfy`);
- the LIKE operator: escapes, decomposition of the pattern, the choice of a matcher and the matchers,
  over the four database character sets (`Like*.dfy`, `CharacterSets.dfy`);
- the packet protocol between client and server: headers, sequences, sentences cut into packets, and
  the fields written into them (`PacketHeader.dfy`, `PacketLink.dfy`, `FieldStream.dfy`, `Framing.dfy`);
- row identifiers as bytes and as text (`RowId.dfy`, `RowIdLaws.dfy`), copies between data values (`CopyValue.dfy`),
  lists of value blocks (`ValueBlockList.dfy`), and the numeric decoding of an ODBC sample
  (`OdbcNumeric.dfy`).

`Powers.dfy`, `Digits.dfy`, `CArithmetic.dfy`, `Sequences.dfy` and `Wrappers.dfy` hold the arithmetic and the
small types they share. `dafny verify dfyconfig.toml` checks the whole project.

Loops and updates are methods. Each is proved either against a meaning stated outright or against a
function whose meaning lemmas then state: addition and running sums against positional values, day numbers
against counting days one by one, LIKE against the recursive meaning of ISO/IEC 9075-2 section 8.5, the two
ends of a connection against a state machine with one step per packet. Machine integers are written
out wherever their width decides the result.

Some things the source promises do not hold in every case. There the model follows the code, and the
project proves exactly when the promise is kept:

- addition is exact if and only if the condition of `NumericExactSum.AdditionExactIff` holds. Outside it there
  are four cases. Digits are dropped and the operands are at most twenty positions apart: the result is rounded
  within the bound of `NumericRounding.AdditionRounds`. No digit lies too low, but a carry drops the last one:
  it is rounded within the bound of `NumericRounding.CarryDropsDigit`. The operands are further apart: a byte
  that is no digit decides the rounding, so a whole unit of the last position may be added (`NumericWideGap.WideSum`).
  The sum leaves the exponent range: the next item;
- a sum out of range is reported as an error if and only if the condition of
  `NumericReporting.OverflowReportedIff` holds. That leaves out sums of just 1E126 and -1E126 of operands that
  overlap, which are stored as 1E-130 and 99E124, and all sums below 1E-130 (`UnderflowNeverReported`);
- a sum in range is stored in canonical form if and only if the condition of `NumericReporting.CanonicalIff`
  holds; otherwise it keeps a trailing zero digit;
- a running sum is exact under the same condition as addition (`NumericRunningSumLaws.SumExactIff`) and rounded
  within the same bounds (`NumericRunningSumLimits.SumRounds`, `SumDropsDigit`). It reports every sum that
  reaches 1E126 (`StepReportedIff`) and none that is too small. With the same bytes around the numbers, their
  order matters at a distance of 21 positions only, under the condition of `OrderIndependentIff`; at wider
  distances the result depends on the bytes in front of the smaller number (`WideStep`);
- a fixed field read in another shape than it was written in may lose bytes
  (`FieldStream.FixedReadKeepsAllIff`);
- the cast to NUMERIC with a negative scale checks the range before it rounds
  (`NumericFromInteger.RoundedStaysInRangeIff`);
- a sentence finished with an empty buffer sends no period (`PacketLink.FinishingNeedsBytes`,
  `ReassemblyIsExactIff`), although the comment in cmlDef.h lines 196-199 has the sequence advance after every
  sentence;
- a row identifier can be written as text in several ways (`RowId.ParseThenRenderIff`);
- the ODBC sample decodes sixteen bytes through a 32-bit integer (`OdbcNumeric.DecodesCorrectlyIff`).

The header comment of dtlDef.h (lines 1554-1556) says that NUMERIC comparison is memcmp. The code also
ranks a proper prefix by the sign, which memcmp does not, and the model follows the code.

## Model

| member | source | states |
|---|---|---|
| `NumericCodec.HeaderRoundTrip` | layer/DataType/dev/include/dtlDef.h:1609-1639 | for every exponent from -65 to 62 and either sign, the getters read back the sign and exponent the setter stored |
| `NumericCodec.HeaderInSteps` | layer/DataType/dev/include/dtlDef.h:1566-1606 | resetting the header and then OR-ing in sign and exponent stores the same byte as the one-shot setter, for every in-range exponent |
| `NumericCodec.HeaderRoundTripIff` | layer/DataType/dev/include/dtlDef.h:1609-1651 | for every integer exponent and either sign, sign and exponent are read back if and only if the exponent lies in -65..62; the setters check this only in debug builds |
| `NumericCodec.HeaderWraps` | layer/DataType/dev/include/dtlDef.h:1641-1651 | one step outside the exponent range the stored byte reads back as another number |
| `NumericCodec.MagnitudeBounds` | layer/DataType/dev/include/dtlDef.h:1541-1552 | a non-zero canonical number lies between the weight of its first digit and the next weight, whatever its digit count |
| `NumericCodec.UnitChange` | layer/DataType/dev/include/dtlDef.h:1541-1552 | the exact value does not depend on the power of 100 it is counted in, so sums and comparisons do not either |
| `NumericCodec.KnownNumbers` | layer/DataType/dev/include/dtlDef.h:1541-1606 | 1, -1, 0.01, 100, 12.34, -12.34 and zero byte by byte |
| `NumericCompare.CompareNumeric` | layer/DataType/dev/include/dtlPhysicalComp.h:87-275 | the four-bytes-at-a-time loop with its tail returns the sign of the byte-lexicographic order, a proper prefix ranking below or above by the sign |
| `NumericCompare.ByteOrderIsNumericOrder` | layer/DataType/dev/include/dtlDef.h:1554-1556 | for all canonical numbers the byte order is the order of the exact values, and equal bytes are equal values |
| `NumericCompare.Negate` | layer/DataType/dev/src/dtf/dtfNegative.c:269-324 | the in-place loop writes the complement of header and digits, keeps the length and touches nothing behind it |
| `NumericCompare.NegationLaws` | layer/DataType/dev/include/dtlDef.h:1653-1656 | complementing keeps canonical form, negates the exact value and undoes itself |
| `NumericCompare.NegationReversesOrder` | layer/DataType/dev/include/dtlDef.h:1653-1708 | complementing turns the byte order of any two canonical numbers round |
| `NumericCompare.DecimalRange` | layer/DataType/dev/include/dtlDef.h:2124-2128 | every non-zero canonical number has magnitude in [10^-130, 10^126) |
| `NumericCompare.DecimalRangeAttained` | layer/DataType/dev/include/dtlDef.h:2124-2128 | both ends of the exponent range are reached |
| `NumericAddition.DigitMapAdds` | layer/DataType/dev/src/dtl/dtlDataValue.c:239-535 | a step through the carry table adds two stored digits and a carry exactly, keeps the carry in range and the index inside the table, in all four sign cases |
| `NumericAddition.CompareMagnitude` | layer/DataType/dev/src/dtf/dtfNumeric.c:204-300 | decides which operand is larger in magnitude and whether two opposite operands cancel |
| `NumericAddition.AddApart` | layer/DataType/dev/src/dtf/dtfNumeric.c:655-700 | operands that do not overlap: the three digit segments make the row of the positional definition |
| `NumericAddition.AddOverlap` | layer/DataType/dev/src/dtf/dtfNumeric.c:405-433 | overlapping operands: the segment down to the first digit of the second operand |
| `NumericAddition.SumDigits` | layer/DataType/dev/src/dtf/dtfNumeric.c:395-950 | all alignments of the two operands give the digits and carry of one row of at most twenty positions |
| `NumericAddition.RoundAway` | layer/DataType/dev/src/dtf/dtfNumeric.c:478-548 | dropping the 21st digit rounds it, runs the carry down and drops every digit that wraps |
| `NumericAddition.Add` | layer/DataType/dev/src/dtf/dtfNumeric.c:57-1159 | the whole routine returns the outcome of the positional definition, which the next rows give its meaning |
| `NumericRows.AddRowsExact` | layer/DataType/dev/src/dtl/dtlDataValue.c:239-535 | for digit rows of any length the carry-table sum with its carry out equals the sum of the rows and the carry in |
| `NumericRows.MagnitudeOrderMeaning` | layer/DataType/dev/src/dtf/dtfNumeric.c:217-296 | the digit-by-digit magnitude comparison orders the exact magnitudes |
| `NumericExactSum.AdditionExactIff` | layer/DataType/dev/src/dtf/dtfNumeric.c:57-1159 | addition returns a canonical number equal to the exact sum if and only if no digit of the operands lies below the twentieth position, the sum is in range, and a carry into a 21st position meets a zero last digit |
| `NumericAdditionLimits.AdditionCommutes` | layer/DataType/dev/src/dtf/dtfNumeric.c:204-368 | exchanging the operands changes nothing |
| `NumericAdditionLimits.RowRounds` | layer/DataType/dev/src/dtf/dtfNumeric.c:395-950 | a second operand reaching below position 20 is rounded: the row is off by at most half a unit of its last position |
| `NumericRounding.RowIsReturned` | layer/DataType/dev/src/dtf/dtfNumeric.c:57-1159 | whenever the sum of the row is in range and a carry drops no non-zero last digit, the number returned is exactly that sum; only a sum of zero may send the scan for a leading digit past the row |
| `NumericRounding.RoundedResult` | layer/DataType/dev/src/dtf/dtfNumeric.c:57-1159 | the number returned when digits are dropped and the rounded sum is in range is off from the exact sum by at most half a unit of the last of twenty positions, and by at most 50 units more when a carry out of the full row drops a second non-zero digit |
| `NumericRounding.AdditionRounds` | layer/DataType/dev/src/dtf/dtfNumeric.c:57-1159 | the same bound for the whole routine, in either operand order, whatever memory surrounds the operands |
| `NumericAdditionLimits.OverflowRounds` | layer/DataType/dev/src/dtf/dtfNumeric.c:478-548 | a carry out of a full row rounds once more, by at most half a unit of the position above |
| `NumericAdditionLimits.OverflowCanonicalIff` | layer/DataType/dev/src/dtf/dtfNumeric.c:478-548 | the result of that second rounding is canonical exactly when the dropped digit rounds up or the digit before it is not zero |
| `NumericReporting.CanonicalIff` | layer/DataType/dev/src/dtf/dtfNumeric.c:478-548 | for any operands, a sum in range is stored, and in canonical form unless it reaches 1E40 units of its last position, the last digit is 1 to 49 and the one before it is zero |
| `NumericReporting.NotCanonicalExample` | layer/DataType/dev/src/dtf/dtfNumeric.c:478-548 | 1E40 - 1 + 2 is stored with a trailing zero digit |
| `NumericAdditionLimits.WideGap` | layer/DataType/dev/src/dtf/dtfNumeric.c:629-655 | beyond twenty positions of distance the row is the first operand plus a carry; the byte in front of the second operand's digits decides it, as if it were a digit |
| `NumericWideGap.WideSum` | layer/DataType/dev/src/dtf/dtfNumeric.c:57-1159 | more than twenty positions apart, the routine returns exactly the larger operand, with a unit of its twentieth position more if the byte in front of the smaller operand rounds up, or the error if that reaches 1E126; it is within half a unit of the exact sum if and only if that byte does not round up |
| `NumericAdditionLimits.HeaderAsDigit` | layer/DataType/dev/src/dtf/dtfNumeric.c:629-655 | at a distance of 21 that byte is the header, which rounds up exactly for positive numbers and for negative ones of magnitude 1E22 and more |
| `NumericAdditionLimits.WideGapExample` | layer/DataType/dev/src/dtf/dtfNumeric.c:629-655 | 1E42 + 1 is stored as 1E42 + 1E4: the header of the 1 is rounded up to a whole unit of the last position |
| `NumericRounding.CarryDropsDigit` | layer/DataType/dev/src/dtf/dtfNumeric.c:478-548 | a sum in range whose digits all lie within twenty positions, but whose carry drops a non-zero last digit, is off by at most 50 units of that position, in either operand order |
| `NumericReporting.OverflowReportedIff` | layer/DataType/dev/src/dtf/dtfNumeric.c:455-473 | for any operands, a sum, rounded where digits drop, is reported as out of range if and only if it is beyond 1E126 in magnitude, or just 1E126 and the operands do not overlap; if they overlap, 1E126 is stored as 1E-130 and -1E126 as 99E124 |
| `NumericReporting.ExactOverflowReportedIff` | layer/DataType/dev/src/dtf/dtfNumeric.c:455-473 | with all digits within twenty positions, exactly the sums beyond 1E126 are reported, so of those too large only 1E126 and -1E126 are not |
| `NumericReporting.UncheckedCarryExample` | layer/DataType/dev/src/dtf/dtfNumeric.c:455-473 | 50E124 + 50E124 is stored as 1E-130 and -50E124 - 50E124 as 99E124: the all-zero row increments the exponent without a range check |
| `NumericReporting.UnderflowNeverReported` | layer/DataType/dev/src/dtf/dtfNumeric.c:553-612 | for any operands, a sum below 1E-130 in magnitude is never reported: a positive number is stored, for a positive sum the one 256 decimal places larger |
| `NumericReporting.ExactUnderflowNeverReported` | layer/DataType/dev/src/dtf/dtfNumeric.c:553-612 | the same for the exact sum, with all digits within twenty positions |
| `NumericAdditionLimits.UncheckedStripExample` | layer/DataType/dev/src/dtf/dtfNumeric.c:553-612 | 1.01E-130 - 1E-130 is stored with exponent 62: stripping leading zeros does not check the lower bound |
| `NumericRunningSum.RunningSum.Add` | layer/DataType/dev/src/dtf/dtfNumeric.c:37-47 | adding into the buffer of the sum, by the routine that the two signs select, leaves the running sum of the definition or its error |
| `NumericRunningSum.RunningSum.AddSame` | layer/DataType/dev/src/dtf/dtfNumeric.c:2097-3994 | equal signs: the in-place routines order the operands, run the digit loops over the buffer, range-check every carry and store the result, for either operand being the larger |
| `NumericRunningSum.RunningSum.AddOpposite` | layer/DataType/dev/src/dtf/dtfNumeric.c:1168-2088 | opposite signs: the in-place routine cancels, strips leading zeros or trims trailing ones, with the sum being either operand |
| `NumericRunningSum.RowSame` | layer/DataType/dev/src/dtf/dtfNumeric.c:2302-3035 | the loops over two digits, over one, over the hole between the operands and over a remaining carry leave the row of the sum in the buffer and touch nothing behind it |
| `NumericRunningSum.RoundInPlace` | layer/DataType/dev/src/dtf/dtfNumeric.c:2402-2424 | a 21st digit is rounded away in the buffer, the carry running over the digits that wrap |
| `NumericRunningSum.SameSwaps` | layer/DataType/dev/src/dtf/dtfNumeric.c:3114-3137 | operands of equal sign and exponent may be taken in either order, so that the reversed digit comparison for negative sums does no harm |
| `NumericRunningSumLaws.SumExactIff` | layer/DataType/dev/include/dtlDataValue.h:565-570 | one step of a running sum leaves the canonical number of the exact sum if and only if the condition of exact addition holds, whatever memory surrounds the operands |
| `NumericRunningSumLaws.RunningSumIsExact` | layer/Kernel/dev/src/knl/knlAggregation.c:495-510 | a running sum over any list is the canonical number of the exact total as long as every step satisfies that condition |
| `NumericRunningSumLaws.SumOver` | layer/Kernel/dev/src/knl/knlAggregation.c:495-510 | SUM copies the first value, adds the others in place and stops at the first error, and so returns that total |
| `NumericRunningSumLimits.SumRounds` | layer/DataType/dev/src/dtf/dtfNumeric.c:1168-3994 | a step that drops digits of operands at most twenty positions apart is off by no more than addition is, in range |
| `NumericRunningSumLimits.SumDropsDigit` | layer/DataType/dev/src/dtf/dtfNumeric.c:1168-3994 | so is one that only loses its last digit to a carry |
| `NumericRunningSumLimits.StepReportedIff` | layer/DataType/dev/src/dtf/dtfNumeric.c:2401 | for any operands, a step is rejected if and only if the sum, rounded where digits drop, reaches 1E126 in magnitude |
| `NumericRunningSumLimits.ExactStepReportedIff` | layer/DataType/dev/src/dtf/dtfNumeric.c:2401 | with all digits within twenty positions, exactly the sums from 1E126 on are rejected |
| `NumericRunningSumLimits.StepUnderflowNeverReported` | layer/DataType/dev/src/dtf/dtfNumeric.c:1168-2088 | a sum below 1E-130 in magnitude is not rejected by a step either |
| `NumericRunningSumLimits.WideStep` | layer/DataType/dev/src/dtf/dtfNumeric.c:1168-3994 | more than twenty positions apart, a step leaves exactly the larger number, with a unit more if the byte in front of the smaller one rounds up, or the error; it is within half a unit if and only if that byte does not round up |
| `NumericRunningSumLimits.AgreesIff` | layer/DataType/dev/src/dtf/dtfNumeric.c:1168-3994 | for numbers that are not zero and do not cancel, a step and addition into a fresh result agree if and only if: where the running sum is the smaller number by 21 positions, its header rounds up exactly when the signs differ; anywhere else, the row is not just 1E126 of overlapping operands |
| `NumericRunningSumLimits.SmallSumAt21` | layer/DataType/dev/src/dtf/dtfNumeric.c:1476 | a running sum smaller by 21 positions leaves the new value unchanged for equal signs, and adds a whole unit of its own sign to it for opposite ones, as the overwritten header is a blank of the other sign |
| `NumericRunningSumLimits.OrderIndependentIff` | layer/DataType/dev/src/dtf/dtfNumeric.c:2305 | with the same surrounding bytes the order of the two numbers of a step does not matter if and only if one is zero, they are not 21 positions apart, or the smaller one's header rounds up exactly when the signs differ |
| `NumericRunningSumLimits.OrderMattersExample` | layer/DataType/dev/src/dtf/dtfNumeric.c:2305 | 1 added to a running 1E42 counts as 1E4, while 1E42 added to a running 1 swallows it |
| `NumericRunningSumLimits.CarryIsCheckedExample` | layer/DataType/dev/src/dtf/dtfNumeric.c:2392-2402 | 50E124 added to a running 50E124 is out of range, where addition stores 1E-130; so is the negative sum, where it stores 99E124 |
| `NumericFromInteger.DivBy100IsExact` | layer/DataType/dev/include/dtlDef.h:1754-1755 | the multiply-and-shift quotient is floor(n/100) for every n below 45812984499, hence whenever 12n < 2^39 and for all 32-bit values, where no step leaves 64 bits |
| `NumericFromInteger.DivBy100FailsFirst` | layer/DataType/dev/include/dtlDef.h:1754-1755 | at 45812984499, the first value beyond, the quotient is one too large |
| `NumericFromInteger.RoundedIsNearest` | layer/DataType/dev/src/dtc/dtcFromInteger.c:452-503 | rounding gives a multiple of the power of ten no further than half of it, ties going up in magnitude |
| `NumericFromInteger.DropDigits` | layer/DataType/dev/src/dtc/dtcFromInteger.c:439-449 | digits are dropped one at a time until the precision is met, and the last one dropped is kept |
| `NumericFromInteger.RoundToPrecision` | layer/DataType/dev/src/dtc/dtcFromInteger.c:439-476 | without a scale the digits kept, the last digit dropped and the carry case together round half up to the precision |
| `NumericFromInteger.RoundToScale` | layer/DataType/dev/src/dtc/dtcFromInteger.c:477-510 | with a scale the value is rejected exactly from 10^(precision - scale) on, and otherwise rounded half up to a multiple of 10^-scale |
| `NumericFromInteger.FillDigits` | layer/DataType/dev/src/dtc/dtcFromInteger.c:525-537 | repeated division by 100 leaves the base-100 digits of the number at the end of the buffer, the first not zero |
| `NumericFromInteger.StripZeros` | layer/DataType/dev/src/dtc/dtcFromInteger.c:540-550 | moving trailing zero digits into the exponent keeps the value |
| `NumericFromInteger.CastInteger` | layer/DataType/dev/src/dtc/dtcFromInteger.c:352-600 | for every 32-bit integer, precision and scale: out of range exactly from 10^(precision - scale) on and only with a scale; otherwise a canonical number, which is the integer itself with a scale of zero or more or when it has no more digits than the precision, the nearest multiple of 10^-scale with a negative scale, and without a scale the nearest multiple of 10^k for the k digits it has too many, ties going away from zero |
| `NumericFromInteger.NearestIsUnique` | layer/DataType/dev/src/dtc/dtcFromInteger.c:452-503 | an integer has one nearest multiple when ties go away from zero |
| `NumericFromInteger.TooLongBySome` | layer/DataType/dev/src/dtc/dtcFromInteger.c:439-449 | an integer with more digits than the precision has a single number of digits too many |
| `NumericFromInteger.RoundedStaysInRangeIff` | layer/DataType/dev/src/dtc/dtcFromInteger.c:480-498 | the range is checked before rounding: the rounded value stays below 10^(precision - scale) exactly when the value plus half a unit does |
| `NumericFromInteger.RoundedOutOfRangeExample` | layer/DataType/dev/src/dtc/dtcFromInteger.c:480-498 | 95 cast to NUMERIC(1,-1) becomes 100 |
| `NumericDigitSize.InHundredsIsSame` | layer/DataType/dev/src/dtl/dtlDataType.c:2440-2485 | a decimal times any power of ten, positive or negative, is an integer times a power of 100 |
| `NumericDigitSize.DigitSizeSuffices` | layer/DataType/dev/src/dtl/dtlDataType.c:2440-2485 | a decimal of p digits, scaled by any power of ten that keeps it in range, has a canonical NUMERIC of at most p/2 + 1 digits; for 38 digits these are 20 and with the header 21 bytes |
| `NumericDigitSize.DigitSizeIsNeeded` | layer/DataType/dev/src/dtl/dtlDataType.c:2440-2485 | for every precision some decimal needs all of them: its only canonical NUMERIC has exactly p/2 + 1 digits |
| `Calendar.NextNumber` | layer/DataType/dev/include/dtlDef.h:2395 | counting one day further by the leap rule and the day table adds one to the day number |
| `Calendar.NumberMonotone` | layer/DataType/dev/src/dtd/dtdDateTimeCommon.c:234-273 | later calendar dates have larger day numbers |
| `Calendar.DateToJulian` | layer/DataType/dev/src/dtd/dtdDateTimeCommon.c:103-276 | on 32-bit integers: from -4713-11-24 on the result is the number of days counted exactly when that number fits in 32 bits; earlier dates whose number fits get a negative one |
| `Calendar.JulianToDate` | layer/DataType/dev/src/dtd/dtdDateTimeCommon.c:286-445 | for every day number up to 2^31 - 1 the decoded date is the one that counting reaches |
| `Calendar.EveryDateIsCounted` | layer/DataType/dev/src/dtd/dtdDateTimeCommon.c:103-276 | counting reaches every calendar date from the first one on |
| `Calendar.CountingKeepsOrder` | layer/DataType/dev/src/dtd/dtdDateTimeCommon.c:286-445 | counted dates are strictly ordered, so day numbers and dates correspond one to one |
| `Calendar.Anchors` | layer/DataType/dev/include/dtlDef.h:2166-2167 | 2000-01-01 is day 2451545, 1970-01-01 day 2440588 and 9999-12-31 day 5373484, and no other number gives them |
| `Calendar.ValidIffNumberInRange` | layer/DataType/dev/include/dtlDef.h:2421-2437 | a calendar date passes the range test exactly when its day number is in 0..5373484 |
| `Calendar.IsValidDate` | layer/DataType/dev/src/dtl/dtlDataValue.c:2931-2954 | the validity check accepts exactly the first 5373485 counted dates |
| `Timestamp.SplitTimestamp` | layer/DataType/dev/include/dtlDef.h:2439-2458 | for every 64-bit timestamp the truncating split with its correction gives a day and a time within the day that make it up, without overflow |
| `Timestamp.SplitKeepsOrder` | layer/DataType/dev/include/dtlDef.h:2439-2458 | the split is the only one, and timestamp order is lexicographic order on day and time |
| `Timestamp.ClockOf` | layer/DataType/dev/src/dtd/dtdDateTimeCommon.c:464-487 | hour, minute, second and fraction are on the clock and make up the time of day |
| `Timestamp.ClockIsExact` | layer/DataType/dev/src/dtd/dtdDateTimeCommon.c:6594-6605 | different clock readings give different times of day |
| `Timestamp.Decode` | layer/DataType/dev/src/dtd/dtdDateTimeCommon.c:498-555 | the date and time read from a timestamp are the counted day and the clock; it fails exactly for timestamps that stand for no date, those before the first calendar day |
| `Timestamp.ChecksAreExact` | layer/DataType/dev/src/dtd/dtdDateTimeCommon.c:6502-6509 | the division check and the sign check together reject exactly the products and sums that do not fit in 64 bits |
| `Timestamp.Encode` | layer/DataType/dev/src/dtd/dtdDateTimeCommon.c:6478-6530 | for any 32-bit fields the result is exact or an error; on the calendar and the clock it is the timestamp that stands for them, and only dates outside the valid range fail |
| `Timestamp.MicrosecondsSince2000` | layer/DataType/dev/include/dtlDef.h:2166-2167 | a timestamp stands for the n-th day and a clock reading if and only if it is 86400000000 times the days since 2000-01-01 plus 3600000000 times the hour, 60000000 times the minute, 1000000 times the second and the microseconds, and the reading is one a clock has |
| `Timestamp.AnchorTimestamps` | layer/DataType/dev/include/dtlDef.h:2166-2167 | timestamp 0 is 2000-01-01 00:00:00, and the last valid one is 9999-12-31 23:59:59.999999 |
| `Timestamp.OneToOne` | layer/DataType/dev/src/dtd/dtdDateTimeCommon.c:498-555 | timestamps and the dates and times they stand for correspond one to one |
| `Timestamp.OrderOfTimestamps` | layer/DataType/dev/src/dtd/dtdDateTimeCommon.c:498-555 | timestamps are ordered as the dates and times they stand for |
| `Timestamp.EncodeThenDecode` | layer/DataType/dev/src/dtd/dtdDateTimeCommon.c:6478-6530 | encoding then decoding gives the date and time back for the whole valid range |
| `Timestamp.DecodeThenEncode` | layer/DataType/dev/src/dtd/dtdDateTimeCommon.c:498-555 | decoding then encoding gives the timestamp back, up to the last valid day and not beyond |
| `Timestamp.IsValidValue` | layer/DataType/dev/src/include/dtDef.h:773-783 | a stored value is accepted exactly when it stands for a date in the valid range |
| `LikeMeaning.TailMeaning` | layer/DataType/dev/include/dtlDef.h:4639-4666 | from a wildcard on, a pattern means: place the middle parts in order and fit the following part at the end |
| `LikeMeaning.DecompositionMeaning` | layer/DataType/dev/include/dtlDef.h:4639-4666 | for every pattern and string the decomposition accepts exactly what the recursive meaning accepts |
| `LikeMeaning.GreedyIsComplete` | layer/DataType/dev/src/dtf/dtfLike.c:832-862 | placing each middle part leftmost succeeds whenever any placement does, and ends no later |
| `LikeCharset.BytePrefixIsCharPrefix` | layer/DataType/dev/src/dtf/dtfLike.c:737-760 | where no character begins another, comparing bytes compares characters |
| `LikeCharset.ByteInfoLike` | layer/DataType/dev/src/dtf/dtfLike.c:763-868 | without underscores, matching the bytes accepts the same strings as matching characters, middle parts included when the set is self-synchronising |
| `CharacterSets.LengthFindsCharacter` | layer/DataType/dev/src/include/dtsCharacterSet.h:113-208 | in all four character sets the length read from the bytes is the character's, whatever follows it |
| `CharacterSets.RepertoireIsPrefixFree` | layer/DataType/dev/src/include/dtsCharacterSet.h:113-208 | in no character set does a character begin another |
| `CharacterSets.Utf8HasEveryCodePoint` | layer/DataType/dev/src/include/dtsCharacterSet.h:127-156 | the encoding of every Unicode code point by RFC 3629 is a character of the UTF-8 set, and its length is read from its bytes |
| `CharacterSets.Utf8KeepsCodePoint` | layer/DataType/dev/src/include/dtsCharacterSet.h:127-156 | the bits of such an encoding behind the markers of its bytes are the code point |
| `CharacterSets.Utf8LengthByBits` | layer/DataType/dev/src/include/dtsCharacterSet.h:127-156 | the leading bits 0, 110, 1110 and 11110 of the first byte mean 1 to 4 bytes, and no others are a character |
| `CharacterSets.RepertoireIs` | layer/DataType/dev/src/include/dtsCharacterSet.h:113-208 | the characters of ASCII, UHC and GB18030 byte by byte |
| `CharacterSets.BinaryComparableIff` | layer/DataType/dev/src/dts/dtsCharacterSet.c:110-116 | the table of sets that may be searched by bytes lists exactly the self-synchronising ones |
| `CharacterSets.BytesMisleadOutsideTable` | layer/DataType/dev/src/dts/dtsCharacterSet.c:110-116 | in UHC a byte search for A is wrong: it finds the second byte of another character |
| `LikeCompile.ParsePattern` | layer/DataType/dev/src/dtf/dtfLike.c:147-223 | the in-place escape pass yields the elements the escaped pattern stands for, or the two errors |
| `LikeMatch.EscapeByBytes` | layer/DataType/dev/src/dtf/dtfLike.c:163-166 | for an escape of the character set, comparing bytes finds exactly the characters that are the escape |
| `LikeCompile.EscapeRoundTrip` | layer/DataType/dev/src/dtf/dtfLike.c:147-223 | escaping any string and parsing it gives back its literal characters, whatever the escape character |
| `LikeCompile.LiteralsMatchThemselves` | layer/DataType/dev/src/dtf/dtfLike.c:737-760 | a pattern of literals matches its own text only |
| `LikeCompile.CountParts` | layer/DataType/dev/src/dtf/dtfLike.c:279-306 | the scan counts the parts after the leading one and tells whether the pattern ends with a wildcard |
| `LikeCompile.Decompose` | layer/DataType/dev/src/dtf/dtfLike.c:225-421 | the cutting steps produce the leading, middle and following parts of the definition |
| `LikeAtoms.MakePattern` | layer/DataType/dev/src/dtf/dtfLike.c:592-722 | the two passes over a part agree on the number of atoms, and the atoms rejoin to the part |
| `LikeAtoms.PatternIsUnique` | layer/DataType/dev/include/dtlDef.h:4639-4651 | cutting at underscores loses nothing and adds nothing: a part has exactly one list of atoms |
| `LikeAtoms.UnderscoreTest` | layer/DataType/dev/src/include/dtfString.h:361-362 | the test on atom count and first underscore count tells whether the part has an underscore |
| `LikeSearch.MatchAtom` | layer/DataType/dev/src/dtf/dtfLike.c:895-932 | one atom: underscores skipped, bytes compared, and whether the string ends first |
| `LikeSearch.RoomForAtom` | layer/DataType/dev/src/dtf/dtfLike.c:962-995 | when an atom no longer fits in what is left for one start, it fits for no later start, so giving up early is right |
| `LikeSearch.SearchMiddle` | layer/DataType/dev/src/dtf/dtfLike.c:946-1050 | the restarting search finds the leftmost place of a middle part, or tells that there is none |
| `LikeSearch.SearchFollowing` | layer/DataType/dev/src/dtf/dtfLike.c:1052-1125 | the forward search finds the following part exactly when it fits at the end of the string, after what is already matched |
| `LikeMatch.SelectMatcher` | layer/DataType/dev/src/dtf/dtfLike.c:423-486 | the matcher chosen is one that is right for the pattern and the character set |
| `LikeMatch.MatchBytes` | layer/DataType/dev/src/dtf/dtfLike.c:763-868 | the byte matcher accepts exactly what the decomposition accepts on bytes |
| `LikeMatch.GeneralCharMatch` | layer/DataType/dev/src/dtf/dtfLike.c:870-1140 | the character matcher accepts exactly what the decomposition accepts |
| `LikeMatch.Match` | layer/DataType/dev/src/dtf/dtfLike.c:549-590 | a compiled pattern accepts exactly the strings that the pattern means |
| `LikeMatch.LikeOperator` | layer/DataType/dev/src/dtf/dtfLike.c:81-590 | for every pattern, escape and string over each database character set the operator's verdict is the recursive meaning, with its two errors |
| `LikeLaws.EmptyPattern` | layer/DataType/dev/src/dtf/dtfLike.c:81-590 | the verdict for the empty pattern: only the empty string is accepted |
| `LikeLaws.PercentAccepts` | layer/DataType/dev/src/include/dtfString.h:364-368 | a pattern that starts with the byte 0x25, not escaped, accepts a string exactly when what follows accepts some suffix of it |
| `LikeLaws.UnderscoreAccepts` | layer/DataType/dev/src/include/dtfString.h:364-368 | a pattern that starts with the byte 0x5F, not escaped, accepts a string exactly when it has a first character and what follows accepts the others |
| `LikeLaws.CharacterAccepts` | layer/DataType/dev/src/dtf/dtfLike.c:225-421 | any other first character has to be the first of the string, and what follows has to accept the others |
| `LikeLaws.EscapeAccepts` | layer/DataType/dev/src/dtf/dtfLike.c:163-213 | behind the escape, a 0x25, a 0x5F and the escape itself stand for themselves, and any other character is an invalid pattern |
| `LikeLaws.BadPatternIff` | layer/DataType/dev/src/dtf/dtfLike.c:163-213 | a character that is not the escape neither makes nor repairs an invalid pattern, whatever the string |
| `LikeLaws.BadEscapedIff` | layer/DataType/dev/src/dtf/dtfLike.c:163-213 | nor does a proper escape |
| `LikeLaws.LoneEscape` | layer/DataType/dev/src/dtf/dtfLike.c:163-213 | an escape at the end of the pattern is invalid |
| `LikeLaws.BadEscapeIff` | layer/DataType/dev/src/dtf/dtfLike.c:147-161 | an escape that is not a single character is rejected for every pattern, and no other is |
| `PacketHeader.PeriodByteParts` | layer/Communication/dev/include/cmlDef.h:196-203 | period and sequence share a byte without disturbing each other, for every sequence |
| `PacketHeader.HeaderTells` | layer/Communication/dev/src/include/cmDef.h:55-82 | in either byte order a header tells payload size, period and sequence, whatever follows it |
| `PacketHeader.HeaderBytes` | layer/Communication/dev/src/include/cmDef.h:55-82 | the first four bytes of a packet are the payload size, most significant byte first in a big-endian session and least significant first in a little-endian one; the fifth is the sequence, with 128 added at a period |
| `PacketLink.RunKeepsSound` | layer/Communication/dev/include/cmlDef.h:19-26 | in every reachable state the send sequence is the receive sequence plus the periods in flight modulo 128, all packets are labelled with the number of their sentence, and what was sent is what was received plus what is in flight |
| `PacketLink.ReassemblyIsExact` | layer/Communication/dev/include/cmlDef.h:19-26 | however sentences are cut, their last pieces not empty, and however deliveries interleave, the receiver has a prefix of the sentences at any moment and all of them when nothing is in flight |
| `PacketLink.ReassemblyIsExactIff` | layer/Communication/dev/src/cml/cmlGeneral.c:310-345 | for any cuts, empty pieces included, the delivered sentences are those sent if and only if every last piece holds bytes |
| `PacketLink.MergedExample` | layer/Communication/dev/src/cml/cmlGeneral.c:310-345 | two sentences, the first finished with an empty piece, arrive as one |
| `PacketLink.ArrivalIsExpected` | layer/Communication/dev/src/include/cmDef.h:47-56 | every arriving packet carries the sequence the receiver expects, the number of its sentence modulo 128 |
| `PacketLink.LossIsNoticedIff` | layer/Communication/dev/src/include/cmDef.h:47-56 | after losing packets the next one is out of sequence exactly when the number of lost periods is not a multiple of 128 |
| `PacketLink.FinishingNeedsBytes` | layer/Communication/dev/src/cml/cmlGeneral.c:310-345 | finishing a sentence sends its period exactly when bytes are left to send; otherwise the next sentence runs into it |
| `FieldStream.WriteLeavesBytes` | layer/Communication/dev/src/cmp/cmpCursor.c:112-147 | after writing anything the packet that ends the sentence is not empty |
| `FieldStream.FieldsRoundTrip` | layer/Communication/dev/src/include/cmDef.h:152-172 | reading fields of the shapes that were written gives their values for every packet size, across packet borders, dropping nothing and leaving nothing |
| `FieldStream.BytesFillPackets` | layer/Communication/dev/src/cmp/cmpCursor.c:112-147 | writing a byte string sends full packets only: they and what stays in the buffer are the bytes before and the string |
| `FieldStream.FixedStartsPacketIff` | layer/Communication/dev/src/include/cmDef.h:163-172 | a fixed field starts a new packet exactly when it does not fit into the one begun |
| `FieldStream.SentencesRoundTrip` | layer/Communication/dev/src/include/cmDef.h:152-172 | sentences of any fields are read back one after another with their values, and nothing is left |
| `FieldStream.FixedReadKeepsAllIff` | layer/Communication/dev/src/include/cmDef.h:152-161 | for every reader and size, reading a fixed field loses nothing if and only if it fits in what is left of the packet or nothing is left; otherwise exactly what was left is lost |
| `FieldStream.LostByteExample` | layer/Communication/dev/src/include/cmDef.h:152-161 | one byte left over before a two-byte field is gone |
| `FieldStream.BytesReadKeepsAll` | layer/Communication/dev/src/cmp/cmpCursor.c:77-110 | reading a byte string never loses anything |
| `FieldStream.BytesReadWaitsIff` | layer/Communication/dev/src/cmp/cmpCursor.c:77-110 | reading a byte string waits exactly when fewer bytes have come in all |
| `Framing.Sender.MakeFrame` | layer/Communication/dev/src/cmg/cmgSocket.c:41-62 | what goes to the socket starts with the size, period and sequence byte by byte, then the payload from byte 8 on, and is at least 32 bytes long; the sequence advances at a period only |
| `Framing.Sender.SendPacketInternal` | layer/Communication/dev/src/cml/cmlGeneral.c:310-345 | sending is one step of the link with the buffered payload, and empties the buffer |
| `Framing.Sender.SendPacket` | layer/Communication/dev/src/cml/cmlGeneral.c:414-432 | the open sentence is finished with all its bytes, provided the buffer holds something |
| `Framing.Sender.WriteFixed` | layer/Communication/dev/src/include/cmDef.h:163-172 | a fixed field is appended to the open sentence, starting a packet when it does not fit |
| `Framing.Sender.WriteNBytes` | layer/Communication/dev/src/cmp/cmpCursor.c:112-147 | a byte string is appended to the open sentence over as many packets as it takes, finishing none |
| `Framing.FrameTells` | layer/Communication/dev/src/cmg/cmgSocket.c:98-150 | the first packet of a byte stream can be told from the stream alone: its payload and where the next one starts |
| `Framing.SenderFeedsReceiver` | layer/Communication/dev/src/cml/cmlGeneral.c:219-232 | what a sender has put on the wire is labelled as a fresh receiver expects |
| `Framing.Receiver.RecvPacket` | layer/Communication/dev/src/cmg/cmgSocket.c:98-170 | receiving takes exactly the next packet off the stream, with its sequence as expected |
| `Framing.Receiver.ReadFixed` | layer/Communication/dev/src/include/cmDef.h:152-161 | reads a fixed field as the reading definition says |
| `Framing.Receiver.ReadNBytes` | layer/Communication/dev/src/cmp/cmpCursor.c:77-110 | reads a byte string across packets as the reading definition says |
| `Framing.Exchange` | layer/Communication/dev/src/cml/cmlGeneral.c:219-232 | fields written sentence by sentence into one end of a fresh connection come out of the other end with their values, for every packet size and either byte order, and no byte is left on the wire |
| `Digits.ValueOfDigits` | layer/DataType/dev/src/include/dtdDef.h:79-103 | the digits of an integer in any base have its value modulo what they can hold, for negative integers too |
| `Digits.DigitIsShift` | layer/DataType/dev/src/include/dtdDef.h:79-103 | those digits are the ones that shift and mask cut out |
| `Digits.OrIsValue` | layer/DataType/dev/src/dtd/dtdRowId.c:189-202 | groups put together with shifts and OR have the value of the digit string |
| `RowId.PackThenUnpack` | layer/DataType/dev/src/dtl/dtlDataValue.c:4671-4713 | the sixteen bytes give back table, tablespace, page and row for every value of the four fields |
| `RowId.UnpackThenPack` | layer/DataType/dev/include/dtlDef.h:3088-3121 | every sixteen bytes are the packing of the fields read from them |
| `RowId.FromText` | layer/DataType/dev/src/dtd/dtdRowId.c:140-250 | a text is accepted exactly when it has 23 characters of the alphabet, and the bytes are those of its four fields |
| `RowId.RenderThenParse` | layer/DataType/dev/src/dtd/dtdCommon.c:7898-7945 | the text of any row identifier parses back to its bytes |
| `RowId.ParseThenRenderIff` | layer/DataType/dev/src/dtd/dtdRowId.c:184-245 | a valid text is rendered back unchanged exactly when its four leading characters fit their fields; every other text is a second name |
| `RowId.SecondNameExample` | layer/DataType/dev/src/dtd/dtdRowId.c:184-245 | a text that starts with I comes back with A |
| `RowIdLaws.PackedLayout` | layer/DataType/dev/src/dtl/dtlDataValue.c:4671-4713 | the sixteen bytes are table, tablespace, page and row in this order, high byte first, negative values in two's complement |
| `RowIdLaws.PackedPairs` | layer/DataType/dev/src/dtl/dtlDataValue.c:4671-4713 | the tablespace is byte 8 times 256 plus byte 9, and the row byte 14 times 256 plus byte 15, modulo 65536 |
| `RowIdLaws.AlphabetIs` | layer/DataType/dev/src/dtd/dtdCommon.c:111-134 | letters are written and read by their places in the base-64 alphabet written out |
| `RowIdLaws.OutsideAlphabet` | layer/DataType/dev/src/dtd/dtdCommon.c:111-134 | a character is rejected exactly when it is not in that alphabet |
| `RowIdLaws.RenderedCharacters` | layer/DataType/dev/src/dtd/dtdCommon.c:7898-7945 | each of the 23 characters is the letter of the alphabet at the 6-bit group of its field, 11, 3, 6 and 3 groups to a field |
| `RowIdLaws.RejectedIff` | layer/DataType/dev/src/dtd/dtdRowId.c:140-182 | a text is rejected exactly when it has not 23 characters or one is not in the alphabet |
| `RowIdLaws.ParsedFields` | layer/DataType/dev/src/dtd/dtdRowId.c:184-245 | the fields of an accepted text are the places of its characters in the alphabet, taken base 64 and cut to the width of the field |
| `CopyValue.CopyBytes` | layer/DataType/dev/include/dtlDef.h:3002-3032 | both loops end with the source bytes in the destination; the eight-byte loop goes no further than the length rounded up to eight and never past the buffer size |
| `CopyValue.CopyDataValue` | layer/DataType/dev/include/dtlDef.h:3040-3079 | same structure, shared buffer or disjoint buffers: the destination ends with the source's content and the source keeps it |
| `ValueBlockList.SetAllSkipAndUsed` | layer/DataType/dev/include/dtlDef.h:3402-3413 | both counts are set in every block on the list, shared blocks included, and nothing else changes |
| `ValueBlockList.SetInEitherOrder` | layer/DataType/dev/include/dtlDef.h:3339-3393 | the two single setters in either order have the same effect |
| `ValueBlockList.NoNodeTwice` | layer/DataType/dev/include/dtlDef.h:3230-3241 | a list that ends visits no node twice, so the walk terminates |
| `OdbcNumeric.StrToHexToVal` | Gliese/home/sample/ODBC/SAMPLE_SELECT.c:133-158 | the loop returns the first four bytes as a signed 32-bit number, while the same loop on unbounded integers returns the little-endian value of all sixteen |
| `OdbcNumeric.FirstFourBytes` | Gliese/home/sample/ODBC/SAMPLE_SELECT.c:133-158 | the first four bytes count 1, 256, 65536 and 16777216, less 2^32 from 128 in the fourth on |
| `OdbcNumeric.DecodesCorrectlyIff` | Gliese/home/sample/ODBC/SAMPLE_SELECT.c:133-158 | the two agree exactly when bytes 4 to 15 are zero and the value is below 2^31 |
| `OdbcNumeric.FifthByteExample` | Gliese/home/sample/ODBC/SAMPLE_SELECT.c:133-158 | 2^32 is decoded as zero |
| `OdbcNumeric.ScaleDivisor` | Gliese/home/sample/ODBC/SAMPLE_SELECT.c:542-561 | the divisor built is the power of ten reduced to 64 bits, for scales of either sign |
| `OdbcNumeric.DivisorIsPowerIff` | Gliese/home/sample/ODBC/SAMPLE_SELECT.c:542-561 | it is the power of ten itself exactly up to a scale of 18 |

## Left out

- NumericAddition.Add: the byte that the rounding test reads when the operands are more than 21 positions
  apart is a parameter, and so is the byte behind the result row; where the outcome would depend on bytes
  still further behind it is left unspecified. The running sum has the same two parameters; the byte behind
  the row is read from its buffer where it lies inside.
- NumericRunningSumLaws.SumOver: stops when a wrapped exponent leaves digits in the buffer that are out of
  range for the sign of their header, where the code adds on; after an error nothing is said of the buffer.
- NumericRounding.AdditionRounds: of a rounded sum of zero it says only that the outcome is near zero or
  unspecified.
- Operands of addition hold at most twenty digits, which is what the server stores; comparison and negation
  are proved for any digit count.
- NumericFromInteger.CastInteger: powers of ten, which the source reads from a table of doubles, are exact
  integers; at the sizes of a 32-bit cast the doubles are exact too. The precision is taken after the
  binary-to-decimal table of FLOAT.
- LikeMatch.LikeOperator: pattern, escape and string consist of characters of the set; the length functions' error on
  malformed bytes and the growth of the work area are not modelled.
- LikeCompile.ParsePattern: compares characters where the source compares bytes, which is the same for
  characters of one set (`LikeMatch.EscapeByBytes`).
- LikeSearch.SearchMiddle: the string is a sequence of characters with byte lengths, not a moving pointer; NULL
  arguments are not modelled.
- Framing.Receiver.RecvPacket: the source compares the sequence in a debug assertion only; the model returns the
  comparison. Partial sends and receives, retries and link failures are not modelled: a whole packet is
  available when one is received.
- Framing.Sender.WriteFixed: the contents of fixed fields (endianness of integers, command codes) are not
  modelled, only their bytes.
- CopyValue.CopyBytes: buffers are the same or do not overlap; the type checks of the debug build are left out.
- Allocation, column information and the other fields of value blocks.
- Time zones, intervals, and parsing and formatting of dates, times and numbers.
- REAL and DOUBLE arithmetic, multiplication, division and the mathematical functions on NUMERIC.
- UTF-16 text, character-set conversion, and the head and tail protocol sets.
- Sockets, shared memory, files, and the final float division and printing of the ODBC sample.
