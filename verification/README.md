# Exact number conversion and concurrent containers

A model in Dafny of two groups of C++ files that the mobile application ships with, and proofs about it.

**Number and text conversion** (double-conversion). `Bignum` is an in-place array of 28-bit digits; every operation
is shown to be plain integer arithmetic on its value. On it stand the shortest, counted and fixed digit generators,
the fast generators (Grisu3, the 64/128-bit fixed-point printer) that may refuse but agree with the exact ones where
they do not, and the correctly rounded reader with its fast path and its fallback. Rounding is to nearest, ties to even
(section 4.3.1 of IEEE 754-2008); the shortest digits are those of section 9.8.1 of ECMA-262 5.1. A double is its
64-bit pattern (`Ieee.Double`, from +0 to infinity), its value an integer in units of 2^-1074, and `Ieee.RoundsTo`
says that it is a decimal's rounding, by the boundaries half way to its neighbours. The chain is closed over text:
every finite positive double is printed, scanned and read back as itself, and any text that writes a number is read as
the double nearest to it, whatever its length. Next to it stand the reader for radix 2^k and folly's digit parser.

**Concurrent containers** (folly). `AtomicHashMap` with its `AtomicHashArray`s, `AtomicUnorderedInsertMap` and
`ConcurrentSkipList` are step systems: any number of threads, one atomic access a step, sequentially consistent
memory, and a `Choice` for what a step leaves open. A run is any interleaving. For each an inductive invariant is shown
to hold at the start and to be kept by every access, that no access is ever out of range, and what follows about
all runs: among other things that every answer of every operation is true, "missing" included, and that an operation has
changed exactly what it says.

The files follow the program's: `Bignum.dfy` on `Bigits`, `Comba`, `Exponentiation`; `ShortestDigits`, `Counted`,
`Scaling`, `Dtoa` for bignum-dtoa.cc, with `Shortest` and `Intervals` for what "shortest" means; `FastDtoa`, `Weeding`,
`Grisu`, `FastCounted` for fast-dtoa.cc and `Agreement` for why it agrees; `UInt128`, `FixedDtoa`; `Strtod` on
`Cutting`, `DiyFp`, `DiyFpStrtod`, with `Reals`, `ErrorAnalysis`, `Deciding`, `SmallestDenormal` for the error bounds;
`Scan`, `Text`, `Radix` for double-conversion.cc; `Conv`; `HashMap`, `MapAnswers`, `Probing`, `Freezing`, `MapIndex`;
`UnorderedMap`; `SkipList`, `ListAnswers`.

What the work found:

- The error counter of `DiyFpStrtod` alone does not make it correct: just above 2^-1075 there is a decimal and a scaled
  power within the counted error for which zero is accepted as correct (`DiyFpStrtods.ErrorCountMisses`,
  `DiyFpStrtods.AcceptsZero`). The table's first entry is good enough to rule that out (`DiyFpStrtods.NeverMisses`),
  so `Strtod` is right for all inputs.
- `FillFractionals` shifts by -1 (fixed-dtoa.cc:262) exactly when the significand is odd and every bit behind the point is
  asked for (`FixedDtoas.ShiftIsNegative`), as for (2^52 + 1)/2 with one place (`FixedDtoas.HalfWithOnePlace`). Nothing is
  left of the fraction then, so there is nothing to round.
- `DivideModuloIntBignum` asserts that both numbers are equally long after its first loop (bignum.cc:515). That holds for every
  dividend exactly when the divisor is at most 2^28 - 1 times its top digit's weight (`Bignums.LengthsAgree`); 2^56 by
  2^56 - 1 fails it (`Bignums.LengthsDiffer`). Quotient and remainder are right all the same.
- 772 digits and a sticky one are enough for the scanner (`Cutting.CutKeepsSides`), as are the reader's 779.
- A hash map that answers "full" at an empty cell has frozen the sub-map: nobody locks a cell of it again
  (`HashMaps.FullIsForever`). One that answers it after the last probe has frozen it exactly when the probes of that key
  reach every cell (`Freezing.FreezesExactly`). The default probe does (`Freezing.LinearFreezes`), the quadratic one exactly
  when the number of cells is a power of two (`Freezing.QuadraticFreezes`), so not with three
  (`Freezing.ThreeCellsDoNotFreeze`). Either way the sub-map is closed to the key for good (`HashMaps.LeftBehindForever`).
- `digits_to` reads one character behind an empty text for a signed type; with a sign there it reports an overflow.

## Model

| member | source | states |
|---|---|---|
| `Bignums.Bignum.AssignUInt64` | mobile/CloseApp/ios/Pods/DoubleConversion/double-conversion/bignum.cc:59-73 | the value is the 64-bit word, clamped, with no hidden exponent |
| `Bignums.Bignum.AssignBignum` | mobile/CloseApp/ios/Pods/DoubleConversion/double-conversion/bignum.cc:76-86 | the value of the other number, which stays as it is |
| `Bignums.Bignum.AssignDecimalString` | mobile/CloseApp/ios/Pods/DoubleConversion/double-conversion/bignum.cc:102-120 | the value written by the decimal digits, taken 19 at a time |
| `Bignums.Bignum.AddUInt64` | mobile/CloseApp/ios/Pods/DoubleConversion/double-conversion/bignum.cc:161-166 | adds the word to the value |
| `Bignums.Bignum.AddBignum` | mobile/CloseApp/ios/Pods/DoubleConversion/double-conversion/bignum.cc:169-208 | adds the other value, after the hidden exponents are aligned; the carry stays below two |
| `Bignums.Bignum.SubtractBignum` | mobile/CloseApp/ios/Pods/DoubleConversion/double-conversion/bignum.cc:211-235 | subtracts a value that is not larger; the borrow dies out within the digits |
| `Bignums.Bignum.ShiftLeft` | mobile/CloseApp/ios/Pods/DoubleConversion/double-conversion/bignum.cc:238-244 | multiplies the value by the power of two, whole digits going to the exponent |
| `Bignums.Bignum.MultiplyByUInt32` | mobile/CloseApp/ios/Pods/DoubleConversion/double-conversion/bignum.cc:247-270 | multiplies the value by a 32-bit factor with the carry below the factor |
| `Bignums.Bignum.MultiplyByUInt64` | mobile/CloseApp/ios/Pods/DoubleConversion/double-conversion/bignum.cc:273-297 | multiplies the value by a 64-bit factor applied in two halves; no 64-bit word wraps |
| `Bignums.Bignum.MultiplyByPowerOfTen` | mobile/CloseApp/ios/Pods/DoubleConversion/double-conversion/bignum.cc:300-337 | multiplies the value by 10^n through steps of 5^27, 5^13 and less, and a shift |
| `Bignums.Bignum.Square` | mobile/CloseApp/ios/Pods/DoubleConversion/double-conversion/bignum.cc:340-409 | the in-place Comba loops give exactly the square, never read an overwritten digit and end with a zero accumulator |
| `Bignums.Bignum.AssignPowerUInt16` | mobile/CloseApp/ios/Pods/DoubleConversion/double-conversion/bignum.cc:412-482 | base^n, the multiplication delayed at most in the last word-sized step |
| `Bignums.Bignum.DivideModuloIntBignum` | mobile/CloseApp/ios/Pods/DoubleConversion/double-conversion/bignum.cc:486-549 | answers the floor of this/other and leaves the remainder, clamped, whatever the lengths after the first subtraction |
| `Bignums.Bignum.SmallQuotient` | mobile/CloseApp/ios/Pods/DoubleConversion/double-conversion/bignum.cc:486-549 | a quotient below 16 meets every bound the division needs |
| `Bignums.Bignum.DivideLonger` | mobile/CloseApp/ios/Pods/DoubleConversion/double-conversion/bignum.cc:499-515 | the first loop: what it leaves, and the lengths agree exactly when that reaches the divisor's top weight |
| `Bignums.LengthsAgree` | mobile/CloseApp/ios/Pods/DoubleConversion/double-conversion/bignum.cc:501-515 | no dividend with a quotient below 2^16 becomes shorter than the divisor exactly when the divisor is at most 2^28 - 1 times its top digit's weight |
| `Bignums.LengthsDiffer` | mobile/CloseApp/ios/Pods/DoubleConversion/double-conversion/bignum.cc:515 | 2^56 divided by 2^56 - 1 does: one digit is left, the divisor has two |
| `Bignums.Bignum.SubtractTimes` | mobile/CloseApp/ios/Pods/DoubleConversion/double-conversion/bignum.cc:738-763 | subtracts factor * other through the early return of the borrow |
| `Bignums.Bignum.Align` | mobile/CloseApp/ios/Pods/DoubleConversion/double-conversion/bignum.cc:698-719 | moves hidden zeros into the digits without changing the value |
| `Bignums.Bignum.Clamp` | mobile/CloseApp/ios/Pods/DoubleConversion/double-conversion/bignum.cc:673-681 | drops leading zero digits without changing the value |
| `Bignums.Bignum.Compare` | mobile/CloseApp/ios/Pods/DoubleConversion/double-conversion/bignum.cc:618-633 | the exact sign of a - b with different hidden exponents |
| `Bignums.Bignum.PlusCompare` | mobile/CloseApp/ios/Pods/DoubleConversion/double-conversion/bignum.cc:636-670 | the exact sign of a + b - c |
| `Bignums.Bignum.ScanFromTop` | mobile/CloseApp/ios/Pods/DoubleConversion/double-conversion/bignum.cc:650-669 | one scan from the top decides it with a borrow that never exceeds one |
| `Shortest.Target.NoNineRoundsUp` | mobile/CloseApp/ios/Pods/DoubleConversion/double-conversion/bignum-dtoa.cc:236-260 | a nine is never incremented |
| `ShortestDigits.GenerateShortestDigits` | mobile/CloseApp/ios/Pods/DoubleConversion/double-conversion/bignum-dtoa.cc:185-274 | the digits written are the shortest in the interval between the neighbours and the closest of that length, and the loop ends because the deltas grow tenfold |
| `CountedDigits.GenerateCountedDigits` | mobile/CloseApp/ios/Pods/DoubleConversion/double-conversion/bignum-dtoa.cc:283-318 | exactly the requested digits, rounded half up; a carry out of the top leaves a one and zeros and moves the point |
| `CountedDigits.BignumToFixed` | mobile/CloseApp/ios/Pods/DoubleConversion/double-conversion/bignum-dtoa.cc:326-367 | the number rounded half up to the requested places, including those that leave one digit or none |
| `CountedDigits.RoundedIsUnique` | mobile/CloseApp/ios/Pods/DoubleConversion/double-conversion/bignum-dtoa.cc:326-367 | there is one such rounded number |
| `Scaling.InitialScaledStartValues` | mobile/CloseApp/ios/Pods/DoubleConversion/double-conversion/bignum-dtoa.cc:417-598 | in all sign cases numerator/denominator is the number over the power of ten and the deltas are the distances to the half-way neighbours, the closer lower one included |
| `Scaling.FixupMultiply10` | mobile/CloseApp/ios/Pods/DoubleConversion/double-conversion/bignum-dtoa.cc:612-639 | after it the quotient lies in 1..10, the end decided by parity |
| `Dtoa.Prepare` | mobile/CloseApp/ios/Pods/DoubleConversion/double-conversion/bignum-dtoa.cc:89-141 | from a significand, an exponent and an estimate to the numbers that digit generation needs, with nothing lost |
| `Dtoa.BignumDtoa` | mobile/CloseApp/ios/Pods/DoubleConversion/double-conversion/bignum-dtoa.cc:89-169 | in each mode the digits and the point promised for it: shortest, rounded to places, rounded to digits |
| `Dtoa.EstimateExists` | mobile/CloseApp/ios/Pods/DoubleConversion/double-conversion/bignum-dtoa.cc:371-413 | every finite positive double has an estimate as promised: the power of ten, or one less |
| `RoundTrips.EveryDoubleIsEstimated` | mobile/CloseApp/ios/Pods/DoubleConversion/double-conversion/bignum-dtoa.cc:371-413 | so every double from the smallest to the largest has one |
| `DiyFps.DiyFp.Multiply` | mobile/CloseApp/ios/Pods/DoubleConversion/double-conversion/diy-fp.cc:34-55 | the 64x64-bit product, rounded half up at 2^64, from four partial products that never wrap |
| `DiyFps.DiyFpToUint64` | mobile/CloseApp/ios/Pods/DoubleConversion/double-conversion/ieee.h:233-259 | the double with exactly the given value; too large an exponent gives infinity, too small a one zero |
| `Ieee.Successor` | mobile/CloseApp/ios/Pods/DoubleConversion/double-conversion/ieee.h:88-99 | the next pattern is the next value, one unit in the last place up |
| `Ieee.UpperBoundary` | mobile/CloseApp/ios/Pods/DoubleConversion/double-conversion/ieee.h:162-165 | (2f + 1) * 2^(e - 1) is half way to the successor |
| `Ieee.LowerBoundary` | mobile/CloseApp/ios/Pods/DoubleConversion/double-conversion/ieee.h:171-198 | the lower boundary is half way to the predecessor, a quarter below where that is closer |
| `Ieee.RoundingIsUnique` | mobile/CloseApp/ios/Pods/DoubleConversion/double-conversion/strtod.cc:448-472 | a decimal rounds to one double |
| `Ieee.RoundedIsNearest` | mobile/CloseApp/ios/Pods/DoubleConversion/double-conversion/strtod.cc:448-472 | no other double is closer, and only an even one is chosen in the middle |
| `FastDtoas.BiggestPowerTen` | mobile/CloseApp/ios/Pods/DoubleConversion/double-conversion/fast-dtoa.cc:240-256 | the largest power of ten that is not greater, from a guess one too high at most |
| `FastDtoas.RoundWeed` | mobile/CloseApp/ios/Pods/DoubleConversion/double-conversion/fast-dtoa.cc:61-166 | lowers the last digit while that brings it closer, never wraps, and accepts exactly what is inside the safe interval and no error of a unit could change |
| `FastDtoas.SettledIsClosest` | mobile/CloseApp/ios/Pods/DoubleConversion/double-conversion/fast-dtoa.cc:61-166 | where it stops lowering no other candidate is closer |
| `FastDtoas.DigitGen` | mobile/CloseApp/ios/Pods/DoubleConversion/double-conversion/fast-dtoa.cc:300-396 | the digits generated account for the whole of too_high; no 64-bit value wraps in either loop |
| `Weeding.AcceptedIsInside` | mobile/CloseApp/ios/Pods/DoubleConversion/double-conversion/fast-dtoa.cc:61-166 | accepted digits lie strictly between low and high for every true boundary within a unit |
| `Weeding.NothingShorter` | mobile/CloseApp/ios/Pods/DoubleConversion/double-conversion/fast-dtoa.cc:300-396 | no shorter digit string lies in the widened interval |
| `Weeding.AcceptedIsClosest` | mobile/CloseApp/ios/Pods/DoubleConversion/double-conversion/fast-dtoa.cc:61-166 | none of the same length is closer to the true number |
| `Grisus.NormalizedBoundaries` | mobile/CloseApp/ios/Pods/DoubleConversion/double-conversion/ieee.h:171-198 | both boundaries exactly, with the exponent of the normalized upper one |
| `Grisus.Grisu3` | mobile/CloseApp/ios/Pods/DoubleConversion/double-conversion/fast-dtoa.cc:519-583 | when it answers, the digits are the shortest that round to the double, and the closest of those |
| `Agreements.FastIsExact` | mobile/CloseApp/ios/Pods/DoubleConversion/double-conversion/fast-dtoa.cc:519-583 | then they are the very digits and point of the bignum printer |
| `Agreements.DoubleToShortest` | mobile/CloseApp/ios/Pods/DoubleConversion/double-conversion/double-conversion.cc:355-414 | fast generator or fallback: always the shortest digits, and they round to the double |
| `FastCounted.RoundWeedCounted` | mobile/CloseApp/ios/Pods/DoubleConversion/double-conversion/fast-dtoa.cc:181-223 | rounds exactly where no error of a unit could change the direction |
| `FastCounted.DigitGenCounted` | mobile/CloseApp/ios/Pods/DoubleConversion/double-conversion/fast-dtoa.cc:428-505 | counted digits of a scaled number with its error bound; no 64-bit value wraps |
| `FastCounted.Grisu3Counted` | mobile/CloseApp/ios/Pods/DoubleConversion/double-conversion/fast-dtoa.cc:591-632 | when it answers, the double rounded to the requested number of digits |
| `UInt128s.UInt128.Multiply` | mobile/CloseApp/ios/Pods/DoubleConversion/double-conversion/fixed-dtoa.cc:42-57 | the product of a 128- and a 32-bit number, word by word, each within 64 bits |
| `UInt128s.UInt128.Shift` | mobile/CloseApp/ios/Pods/DoubleConversion/double-conversion/fixed-dtoa.cc:59-78 | division by a power of two, or multiplication modulo 2^128 |
| `UInt128s.UInt128.DivModPowerOf2` | mobile/CloseApp/ios/Pods/DoubleConversion/double-conversion/fixed-dtoa.cc:82-95 | quotient and remainder by a power of two |
| `UInt128s.UInt128.BitAt` | mobile/CloseApp/ios/Pods/DoubleConversion/double-conversion/fixed-dtoa.cc:101-107 | a bit of the number |
| `FixedDtoas.FillDigits32FixedLength` | mobile/CloseApp/ios/Pods/DoubleConversion/double-conversion/fixed-dtoa.cc:120-127 | exactly the requested number of digits is appended |
| `FixedDtoas.FillDigits32` | mobile/CloseApp/ios/Pods/DoubleConversion/double-conversion/fixed-dtoa.cc:130-150 | the digits without leading zeros, filled in backwards and exchanged |
| `FixedDtoas.FillDigits64FixedLength` | mobile/CloseApp/ios/Pods/DoubleConversion/double-conversion/fixed-dtoa.cc:153-165 | 17 digits, from parts of 3, 7 and 7 |
| `FixedDtoas.FillDigits64` | mobile/CloseApp/ios/Pods/DoubleConversion/double-conversion/fixed-dtoa.cc:168-186 | the digits of a 64-bit number without leading zeros |
| `FixedDtoas.RoundUp` | mobile/CloseApp/ios/Pods/DoubleConversion/double-conversion/fixed-dtoa.cc:189-216 | adds one to the number in the buffer, a carry out of the top moving the point |
| `FixedDtoas.NextDigit` | mobile/CloseApp/ios/Pods/DoubleConversion/double-conversion/fixed-dtoa.cc:237-258 | times five under a point one lower gives the next decimal digit, below ten |
| `FixedDtoas.FillFractionals64` | mobile/CloseApp/ios/Pods/DoubleConversion/double-conversion/fixed-dtoa.cc:230-264 | the fraction rounded half up without wrapping 64 bits; where the point ends, and exactly when that is bit 0 and nothing is left |
| `FixedDtoas.OddReachesEnd` | mobile/CloseApp/ios/Pods/DoubleConversion/double-conversion/fixed-dtoa.cc:235-260 | the loop ends with the point at bit 0 exactly when the fraction is odd and all its bits are asked for |
| `FixedDtoas.ShiftIsNegative` | mobile/CloseApp/ios/Pods/DoubleConversion/double-conversion/fixed-dtoa.cc:262 | of a double: exactly when its significand is odd and as many places as bits behind the point are asked for |
| `FixedDtoas.HalfWithOnePlace` | mobile/CloseApp/ios/Pods/DoubleConversion/double-conversion/fixed-dtoa.cc:262 | (2^52 + 1)/2 with one place is such a double |
| `FixedDtoas.FillFractionals128` | mobile/CloseApp/ios/Pods/DoubleConversion/double-conversion/fixed-dtoa.cc:265-285 | the same in 128 bits |
| `FixedDtoas.TrimZeros` | mobile/CloseApp/ios/Pods/DoubleConversion/double-conversion/fixed-dtoa.cc:291-306 | zeros at both ends go, the number stays |
| `FixedDtoas.SplitLarge` | mobile/CloseApp/ios/Pods/DoubleConversion/double-conversion/fixed-dtoa.cc:331-368 | a number of up to 73 bits as q * 10^17 + r, both in words |
| `FixedDtoas.FastFixedDtoa` | mobile/CloseApp/ios/Pods/DoubleConversion/double-conversion/fixed-dtoa.cc:309-402 | answers for exponents up to 20 and 20 places: the double rounded half up, without zeros at the ends |
| `FixedDtoas.FixedAgrees` | mobile/CloseApp/ios/Pods/DoubleConversion/double-conversion/fixed-dtoa.cc:309-402 | what it prints is the number the bignum printer gives, digit for digit once zeros at the ends are dropped |
| `Strtods.TrimAndCut` | mobile/CloseApp/ios/Pods/DoubleConversion/double-conversion/strtod.cc:91-150 | what is left of the digits rounds like what was given |
| `Cutting.CutKeepsSides` | mobile/CloseApp/ios/Pods/DoubleConversion/double-conversion/strtod.cc:111-126 | digits behind the 772nd or a later one may be replaced by a one: no boundary between two doubles lies that deep |
| `Strtods.CompareBufferWithDiyFp` | mobile/CloseApp/ios/Pods/DoubleConversion/double-conversion/strtod.cc:392-418 | the exact sign of the difference between the decimal and the binary number |
| `ErrorAnalysis.ProductNear` | mobile/CloseApp/ios/Pods/DoubleConversion/double-conversion/strtod.cc:310-338 | the error in eighths after a multiplication by a rounded power |
| `DiyFpStrtods.ReadDiyFp` | mobile/CloseApp/ios/Pods/DoubleConversion/double-conversion/strtod.cc:176-194 | the first digits that fit, rounded, within half a unit |
| `DiyFpStrtods.AdjustmentPowerOfTen` | mobile/CloseApp/ios/Pods/DoubleConversion/double-conversion/strtod.cc:251-268 | the exact power of ten for one to seven places |
| `DiyFpStrtods.ScaleByPowers` | mobile/CloseApp/ios/Pods/DoubleConversion/double-conversion/strtod.cc:301-345 | the error counter bounds the true error after every normalisation and multiplication |
| `DiyFpStrtods.RoundToDouble` | mobile/CloseApp/ios/Pods/DoubleConversion/double-conversion/strtod.cc:346-380 | what is accepted, and that this means correct rounding for every number within the error but those just above 2^-1075; refusal leaves the right double or the one below |
| `DiyFpStrtods.DiyFpStrtod` | mobile/CloseApp/ios/Pods/DoubleConversion/double-conversion/strtod.cc:274-381 | so the fast path is right when it says so |
| `DiyFpStrtods.ErrorCountMisses` | mobile/CloseApp/ios/Pods/DoubleConversion/double-conversion/strtod.cc:346-380 | a number just above 2^-1075 and a scaled power within the counted error that passes the acceptance test, while zero is not the number's rounding |
| `DiyFpStrtods.AcceptsZero` | mobile/CloseApp/ios/Pods/DoubleConversion/double-conversion/strtod.cc:346-380 | on that power the rounding step answers zero and calls it correct, which it is not |
| `DiyFpStrtods.NeverMisses` | mobile/CloseApp/ios/Pods/DoubleConversion/double-conversion/strtod.cc:274-381 | the error of the table's first entry rules such numbers out |
| `Strtods.ComputeGuess` | mobile/CloseApp/ios/Pods/DoubleConversion/double-conversion/strtod.cc:423-446 | a guess that is right or one double too low, or known to be right |
| `Strtods.Strtod` | mobile/CloseApp/ios/Pods/DoubleConversion/double-conversion/strtod.cc:448-472 | for digits of any length and any exponent, the nearest double, ties to even |
| `RoundTrips.ShortestReadsBack` | mobile/CloseApp/ios/Pods/DoubleConversion/double-conversion/strtod.cc:448-472 | the shortest digits of a double round to it |
| `RoundTrips.NothingShorterReadsBack` | mobile/CloseApp/ios/Pods/DoubleConversion/double-conversion/bignum-dtoa.cc:185-274 | no decimal with fewer digits does |
| `RoundTrips.PrintAndRead` | mobile/CloseApp/ios/Pods/DoubleConversion/double-conversion/strtod.cc:448-472 | printing the shortest digits and reading them is the identity on finite positive doubles |
| `Scanning.CopyDigits` | mobile/CloseApp/ios/Pods/DoubleConversion/double-conversion/double-conversion.cc:744-771 | the first 772 significant digits are kept, and whether any other counts |
| `Scanning.ScanMantissa` | mobile/CloseApp/ios/Pods/DoubleConversion/double-conversion/double-conversion.cc:699-817 | the digits, point and leading zeros of any text, with the exponent they stand for |
| `Scanning.ScanNumber` | mobile/CloseApp/ios/Pods/DoubleConversion/double-conversion/double-conversion.cc:851-866 | the written exponent, or the largest one allowed |
| `Scanning.ClampIsHarmless` | mobile/CloseApp/ios/Pods/DoubleConversion/double-conversion/double-conversion.cc:851-868 | a larger exponent gives infinity or zero anyway |
| `Scanning.KeptRounds` | mobile/CloseApp/ios/Pods/DoubleConversion/double-conversion/double-conversion.cc:744-771 | cutting the digits and adding a sticky one does not change the rounding |
| `Scanning.StringToIeee` | mobile/CloseApp/ios/Pods/DoubleConversion/double-conversion/double-conversion.cc:597-908 | a text that writes a number is read as the double nearest to that number, of any length; any other is junk |
| `Scanning.WrittenNumber` | mobile/CloseApp/ios/Pods/DoubleConversion/double-conversion/double-conversion.cc:699-886 | digits, a point and an exponent write the number they seem to; what follows makes them junk exactly when it is not allowed |
| `Printing.CreateDecimalRepresentation` | mobile/CloseApp/ios/Pods/DoubleConversion/double-conversion/double-conversion.cc:113-158 | appends the padded decimal form |
| `Printing.DecimalSays` | mobile/CloseApp/ios/Pods/DoubleConversion/double-conversion/double-conversion.cc:113-158 | that text writes exactly the number with the given digits and point, in every style |
| `Printing.DecimalLooks` | mobile/CloseApp/ios/Pods/DoubleConversion/double-conversion/double-conversion.cc:113-158 | the digits before and behind its point are as many as asked for, and a bare point or a point and zero follow only by their flags |
| `Printing.CreateExponentialRepresentation` | mobile/CloseApp/ios/Pods/DoubleConversion/double-conversion/double-conversion.cc:75-110 | appends mantissa, exponent character, sign and exponent digits |
| `Printing.ExponentialSays` | mobile/CloseApp/ios/Pods/DoubleConversion/double-conversion/double-conversion.cc:75-110 | that text writes exactly the number with the given digits and exponent |
| `Printing.ExponentialLooks` | mobile/CloseApp/ios/Pods/DoubleConversion/double-conversion/double-conversion.cc:75-110 | one digit, the others behind a point, the exponent character, a sign exactly for a negative exponent or by flag, an exponent without leading zeros |
| `Printing.ToShortest` | mobile/CloseApp/ios/Pods/DoubleConversion/double-conversion/double-conversion.cc:161-196 | the decimal form exactly where the exponent lies between the limits, with as many digits behind the point as are needed and a bare point or zero only by its flag; else the exponential one, with its sign by flag and no leading zero |
| `Printing.PrintAndReadText` | mobile/CloseApp/ios/Pods/DoubleConversion/double-conversion/double-conversion.cc:161-196 | every finite positive double survives being printed as text in any style and read back from it |
| `Radices.RadixStringToIeee` | mobile/CloseApp/ios/Pods/DoubleConversion/double-conversion/double-conversion.cc:487-594 | digits of any length in radix 2^k, to 53 or 24 bits: rounded to nearest, ties to even, the tail and the carry included; other characters only where junk or spaces may follow |
| `Radices.DigitValues` | mobile/CloseApp/ios/Pods/DoubleConversion/double-conversion/double-conversion.cc:516-523 | each digit and letter of either case has its place in the row 0-9a-v as value, as far as the radix goes; no other character is a digit |
| `Radices.HeadDecides` | mobile/CloseApp/ios/Pods/DoubleConversion/double-conversion/double-conversion.cc:552-582 | the dropped bits and whether the tail is zero decide as the whole number does |
| `Radices.RadixIsNearest` | mobile/CloseApp/ios/Pods/DoubleConversion/double-conversion/double-conversion.cc:584-593 | the double built from it is the nearest to the integer, or infinity where that is too large |
| `Radices.ReadRadix` | mobile/CloseApp/ios/Pods/DoubleConversion/double-conversion/double-conversion.cc:487-594 | so any integer text is read as its nearest double |
| `Convs.MaxIsMax` | mobile/CloseApp/ios/Pods/RCT-Folly/folly/Conv.cpp:49-83 | the longest strings hold the largest values, of one digit more than always fit |
| `Convs.ExceedsIsGreater` | mobile/CloseApp/ios/Pods/RCT-Folly/folly/Conv.cpp:575-579 | comparing digit strings of that length as text compares their values |
| `Convs.FinalizeIsExact` | mobile/CloseApp/ios/Pods/RCT-Folly/folly/Conv.cpp:497-518 | the sign of the truncated value tells exactly whether the value fits the signed type |
| `Convs.Accumulate` | mobile/CloseApp/ios/Pods/RCT-Folly/folly/Conv.cpp:585-638 | four digits at a time by tables: the value of the digits, or a refusal if one is none; nothing wraps |
| `Convs.ConvertDigits` | mobile/CloseApp/ios/Pods/RCT-Folly/folly/Conv.cpp:556-642 | digits of any number, leading zeros included: the signed value where it fits, else the matching overflow; with another character among them, which of the two errors |
| `Convs.DigitsTo` | mobile/CloseApp/ios/Pods/RCT-Folly/folly/Conv.cpp:544-642 | the same behind an optional sign for a signed type: a minus negates, a plus does nothing, any other character is refused |
| `Convs.StrToIntegral` | mobile/CloseApp/ios/Pods/RCT-Folly/folly/Conv.cpp:683-727 | white space, an optional sign and the longest run of digits: its exact value or the overflow of its side, and how much of the text was taken |
| `Convs.ParsedText` | mobile/CloseApp/ios/Pods/RCT-Folly/folly/Conv.cpp:683-727 | of any white space, sign, digits and rest: minus the digits' value exactly behind a minus |
| `Convs.FitsIs` | mobile/CloseApp/ios/Pods/RCT-Folly/folly/Conv.cpp:497-518 | the values of a signed type are those of two's complement |
| `HashMaps.StepKeepsInv` | mobile/CloseApp/ios/Pods/RCT-Folly/folly/AtomicHashArray-inl.h:164-274 | every atomic access of any thread keeps the invariant of all sub-maps and threads |
| `HashMaps.NobodyIsStuck` | mobile/CloseApp/ios/Pods/RCT-Folly/folly/AtomicHashArray-inl.h:164-274 | no access is ever out of range or to a sub-map that is not there |
| `HashMaps.FrozenStays` | mobile/CloseApp/ios/Pods/RCT-Folly/folly/AtomicHashArray-inl.h:178-199 | once nobody can lock a cell of a full sub-map nobody ever can, though isFull_ is overwritten |
| `HashMaps.PendingStays` | mobile/CloseApp/ios/Pods/RCT-Folly/folly/AtomicHashArray-inl.h:178-240 | numPendingEntries_ counts exactly the threads between its increment and decrement |
| `HashMaps.FullIsClosed` | mobile/CloseApp/ios/Pods/RCT-Folly/folly/AtomicHashArray-inl.h:196-200 | a sub-map that answers full is closed to the key |
| `HashMaps.KeyIsHeldOnce` | mobile/CloseApp/ios/Pods/RCT-Folly/folly/AtomicHashMap-inl.h:133-207 | in every reachable state a key is in at most one cell of all sub-maps, stored or being stored |
| `HashMaps.KeyIsLiveOnce` | mobile/CloseApp/ios/Pods/RCT-Folly/folly/AtomicHashMap-inl.h:133-207 | in no interleaving is a key live twice, in one sub-map or two |
| `HashMaps.PathStaysOccupied` | mobile/CloseApp/ios/Pods/RCT-Folly/folly/AtomicHashArray-inl.h:164-274 | no cell probed before a stored key is ever empty or locked again, erases and throwing constructors included |
| `HashMaps.FullIsForever` | mobile/CloseApp/ios/Pods/RCT-Folly/folly/AtomicHashArray-inl.h:180-199 | after an answer of full at an empty cell no cell of the sub-map is ever locked and empty cells stay empty |
| `HashMaps.LeftBehindForever` | mobile/CloseApp/ios/Pods/RCT-Folly/folly/AtomicHashMap-inl.h:139-152 | a sub-map an insertion has left behind never holds its key again |
| `HashMaps.OneThreadGrows` | mobile/CloseApp/ios/Pods/RCT-Folly/folly/AtomicHashMap-inl.h:165-190 | at most one thread prepares a sub-map, the first one not in use |
| `HashMaps.SubMapIsMadeOnce` | mobile/CloseApp/ios/Pods/RCT-Folly/folly/AtomicHashMap-inl.h:165-190 | a sub-map stays the one its only creator made |
| `HashMaps.LiveKeysAreFound` | mobile/CloseApp/ios/Pods/RCT-Folly/folly/AtomicHashArray-inl.h:100-123 | a find during which the key stays in one cell answers with that cell, and an erase does not end while it stays |
| `MapAnswers.AnswersAreTrue` | mobile/CloseApp/ios/Pods/RCT-Folly/folly/AtomicHashMap-inl.h:133-207 | every answer of every find, insertion and erase in every interleaving: Added and Removed exactly if the thread stored, or erased, the key itself; a cell only if the key was in it during the call; Missing and full only if the key was nowhere at some moment of it |
| `MapAnswers.MissingWasAbsent` | mobile/CloseApp/ios/Pods/RCT-Folly/folly/AtomicHashMap-inl.h:297-320 | a find or an erase that does not find the key was right at some moment of the call, though it looks at one cell after the other |
| `MapAnswers.FullOnlyWhenFull` | mobile/CloseApp/ios/Pods/RCT-Folly/folly/AtomicHashMap-inl.h:158-163 | with growth allowed an insertion gives up only when all sub-maps are in use |
| `Probing.LinearCovers` | mobile/CloseApp/ios/Pods/RCT-Folly/folly/AtomicHashArray.h:43-51 | the default probe reaches every cell from any anchor |
| `Probing.QuadraticCovers` | mobile/CloseApp/ios/Pods/RCT-Folly/folly/AtomicHashArray.h:53-61 | the quadratic probe does exactly when the number of cells is a power of two |
| `Freezing.ExhaustedAnswersFull` | mobile/CloseApp/ios/Pods/RCT-Folly/folly/AtomicHashArray-inl.h:253-270 | the comparison answers full exactly at a foreign key, or an erased one, behind the last probe |
| `Freezing.ExhaustedPathStays` | mobile/CloseApp/ios/Pods/RCT-Folly/folly/AtomicHashArray-inl.h:266-270 | after that answer no cell the key's probes reach is ever empty or locked, in any interleaving |
| `Freezing.MissedCellIsLocked` | mobile/CloseApp/ios/Pods/RCT-Folly/folly/AtomicHashArray-inl.h:266-270 | and a cell they do not reach can be: the run that fills the others, is told full, and locks it |
| `Freezing.FreezesExactly` | mobile/CloseApp/ios/Pods/RCT-Folly/folly/AtomicHashArray-inl.h:266-270 | so that answer has frozen the array in every run exactly when the key's probes reach all cells, where some other key starts at each cell |
| `Freezing.LinearFreezes` | mobile/CloseApp/ios/Pods/RCT-Folly/folly/AtomicHashArray.h:43-51 | with the default probe it always has, in any sub-map |
| `Freezing.QuadraticFreezes` | mobile/CloseApp/ios/Pods/RCT-Folly/folly/AtomicHashArray.h:53-61 | with the quadratic probe exactly when the capacity is a power of two |
| `Freezing.ThreeCellsDoNotFreeze` | mobile/CloseApp/ios/Pods/RCT-Folly/folly/AtomicHashArray.h:53-61 | with three cells an insertion is told full and another cell is locked afterwards |
| `MapIndices.IndexNamesCell` | mobile/CloseApp/ios/Pods/RCT-Folly/folly/AtomicHashMap-inl.h:538-552 | the encoded index leads back to the cell exactly when sub-map and offset are within the documented sizes |
| `UnorderedMaps.StepKeepsInv` | mobile/CloseApp/ios/Pods/RCT-Folly/folly/AtomicUnorderedMap.h:260-312 | every atomic access keeps the invariant of slots, chains and threads |
| `UnorderedMaps.FetchAddKeepsHead` | mobile/CloseApp/ios/Pods/RCT-Folly/folly/AtomicUnorderedMap.h:384-387 | adding to the state bits leaves the head in the same word alone |
| `UnorderedMaps.LinkerKnows` | mobile/CloseApp/ios/Pods/RCT-Folly/folly/AtomicUnorderedMap.h:277-297 | the CAS that links succeeds only on the very chain in which the key was not found |
| `UnorderedMaps.ChainEndsAtNil` | mobile/CloseApp/ios/Pods/RCT-Folly/folly/AtomicUnorderedMap.h:422-431 | the walk from the head meets no slot twice and ends at slot 0 |
| `UnorderedMaps.KeyIsLinkedOnce` | mobile/CloseApp/ios/Pods/RCT-Folly/folly/AtomicUnorderedMap.h:260-312 | a key is linked at most once |
| `UnorderedMaps.LinkedForever` | mobile/CloseApp/ios/Pods/RCT-Folly/folly/AtomicUnorderedMap.h:260-312 | a linked slot is never unlinked; key, successor and place stay |
| `UnorderedMaps.LoserReturnsItsSlot` | mobile/CloseApp/ios/Pods/RCT-Folly/folly/AtomicUnorderedMap.h:302-310 | a losing insertion's slot is empty again and in no chain |
| `UnorderedMaps.QuietSlots` | mobile/CloseApp/ios/Pods/RCT-Folly/folly/AtomicUnorderedMap.h:302-310 | with nobody at work a slot is linked exactly when it is in a chain, and all others are empty |
| `UnorderedMaps.LinkedKeysAreFound` | mobile/CloseApp/ios/Pods/RCT-Folly/folly/AtomicUnorderedMap.h:422-431 | a search for a key that was linked when it began finds it |
| `UnorderedMaps.AnswersAreTrue` | mobile/CloseApp/ios/Pods/RCT-Folly/folly/AtomicUnorderedMap.h:260-312 | every answer in every interleaving: the slot is in the chain of the key's bucket and holds it; Inserted exactly if the thread linked it itself, where nothing held the key; not found only if nothing held it at some moment of the call; an exception only if a constructor threw or exactly 1000 slots were tried |
| `SkipLists.InitIsInv` | mobile/CloseApp/ios/Pods/RCT-Folly/folly/ConcurrentSkipList.h:166-173 | an empty list of any height satisfies the invariant |
| `SkipLists.StepKeepsInv` | mobile/CloseApp/ios/Pods/RCT-Folly/folly/ConcurrentSkipList.h:273-401 | every atomic access and lock operation of adds, removes, finds and head growth keeps it |
| `SkipLists.NobodyIsStuck` | mobile/CloseApp/ios/Pods/RCT-Folly/folly/ConcurrentSkipList.h:224-401 | no layer that does not exist and no null pointer is ever followed |
| `SkipLists.StepKeepsLayer` | mobile/CloseApp/ios/Pods/RCT-Folly/folly/ConcurrentSkipList.h:340-394 | every layer stays in order under every single pointer write |
| `SkipLists.LinkInserts` | mobile/CloseApp/ios/Pods/RCT-Folly/folly/ConcurrentSkipList.h:340-343 | the store that links a node puts it between two neighbours, whatever happened since the search |
| `SkipLists.VictimIsNext` | mobile/CloseApp/ios/Pods/RCT-Folly/folly/ConcurrentSkipList.h:386-394 | validated predecessors of a marked node point to it, though that is not checked |
| `SkipLists.MarkerMoves` | mobile/CloseApp/ios/Pods/RCT-Folly/folly/ConcurrentSkipList.h:504-527 | the exchange of the head is followed by the marking of the old one under its lock |
| `SkipLists.LayerIsSorted` | mobile/CloseApp/ios/Pods/RCT-Folly/folly/ConcurrentSkipList.h:224-251 | from head_ every layer is strictly increasing |
| `SkipLists.LayerIsReached` | mobile/CloseApp/ios/Pods/RCT-Folly/folly/ConcurrentSkipList.h:224-251 | the walk in a layer reaches exactly the nodes in it |
| `SkipLists.HigherLayerIsPart` | mobile/CloseApp/ios/Pods/RCT-Folly/folly/ConcurrentSkipList.h:224-251 | what a higher layer reaches, the one below does |
| `SkipLists.LayersStaySorted` | mobile/CloseApp/ios/Pods/RCT-Folly/folly/ConcurrentSkipList.h:273-401 | both hold after every access of every interleaving |
| `SkipLists.KeysStayDistinct` | mobile/CloseApp/ios/Pods/RCT-Folly/folly/ConcurrentSkipList.h:273-401 | two nodes that are linked and not marked never have equal keys |
| `SkipLists.PresentKeysAreFound` | mobile/CloseApp/ios/Pods/RCT-Folly/folly/ConcurrentSkipList.h:452-476 | a find during which its key's node stays linked and unmarked answers with that node |
| `SkipLists.PresentKeysAreMet` | mobile/CloseApp/ios/Pods/RCT-Folly/folly/ConcurrentSkipList.h:360-380 | meanwhile an add of that key answers with that node, and a remove is not turned away before it marks the node itself: the hit is in the node's highest layer, as the check demands |
| `SkipLists.PresentWasThere` | mobile/CloseApp/ios/Pods/RCT-Folly/folly/ConcurrentSkipList.h:262-325 | a find or an add that answers with a node saw it in the list, with that key and not marked, during the call |
| `ListAnswers.AnswersAreTrue` | mobile/CloseApp/ios/Pods/RCT-Folly/folly/ConcurrentSkipList.h:262-401 | every answer of every find, add and remove in every interleaving: Added only with a node the thread made and linked itself and the size it counted, Removed only if it marked a node with the key itself and that is in no layer at the end; otherwise it linked, or marked, nothing |
| `ListAnswers.MissingWasAbsent` | mobile/CloseApp/ios/Pods/RCT-Folly/folly/ConcurrentSkipList.h:224-267 | a find or a remove that does not find the key was right at some moment of the call |
| `SkipLists.SizeIsRight` | mobile/CloseApp/ios/Pods/RCT-Folly/folly/ConcurrentSkipList.h:345-358 | size_ never goes below zero, what an addition reports is positive, and at rest it is the number of nodes |

## Left out

- `EstimatePower` and the cached table of powers: floating-point logarithms and constants; they are hypotheses (`Dtoa.GoodEstimate`, `Grisus.PowerFor`, `DiyFpStrtods.Table`), the first shown to be satisfiable for every double.
- Strtods.ComputeGuess: without the attempt of `DoubleStrtod`, arithmetic in the machine's floating point, which is tried first where it is exact.
- `Strtof` and the single-precision printers: the double case again with other constants.
- Agreements.DoubleToShortest: without the sign, zero and the other modes of `DoubleToAscii`; the generators behind those modes are modelled one by one.
- Printing.ToShortest: without the sign, zero and the special values, for finite positive doubles only.
- Negative doubles, NaN and the infinity and NaN symbols: the model's doubles are the non-negative ones, the sign is a flag beside them.
- Scanning.StringToIeee: without leading spaces, spaces after the sign, hexadecimal and octal prefixes and the infinity and NaN symbols: their flags are off in the model; the radix reader they lead to is modelled.
- `ToFixed`, `ToExponential` and `ToPrecision`: they choose a mode and a form, both of which are modelled.
- Sizes beyond what an `int` counts: text is bounded where the source asserts it, the exponent of the radix reader is unbounded.
- Bignum's hexadecimal strings: used only by its tests.
- Memory orders weaker than sequential consistency, allocation failure, freeing and reuse of nodes, iterators and `clear`, which is documented as not thread safe.
- Values beside keys in the containers: a constructor that throws is modelled, what it constructs is not.
- `numEntries_` of the hash array, a cached approximate count: whether it has reached its limit is left open at every step.
- `allocateNear`'s random slots and the skip list's random heights: arbitrary in their range.
- `Convs.DigitsTo`: characters above 127, which a signed `char` would turn into a negative table index.
- Freezing.FreezesExactly: the locking run is built in the primary sub-map, where some other key starts at each cell; that covering probes freeze is shown for every sub-map and any keys.
