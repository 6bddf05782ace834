# Verified model of the CMSIS numerics, MPU loaders and NVIC priorities

This Dafny 4.11 project models the algorithms that the washing-machine firmware takes from CMSIS and
its board file, and proves what they compute: the fixed-point routines of `CMSIS/arm_math.h`, the
region-table loaders of `CMSIS/mpu_armv7.h` and `CMSIS/mpu_armv8.h`, the memory map that
`board/board.c` builds, the interrupt priorities of `CMSIS/core_armv8mml.h` and
`CMSIS/core_armv8mbl.h`, and the software bit loops of `CMSIS/cmsis_iccarm.h` and
`CMSIS/cmsis_gcc.h`. `dafny verify dfyconfig.toml` checks the whole project.

Machine words are mathematical integers with explicit types and conversions (`Words.dfy`): a right
shift is floor division, a left shift is multiplication truncated to the word, a conversion picks the
representative modulo a power of two, a mask of low bits is a remainder, and or-ing disjoint fields is
addition. Loops, instance structures, register files and buffers of the source are methods with
loops, classes and arrays; each is tied to a function on values, and the theorems are about that
function.

| file | content |
|---|---|
| `Words.dfy` | words, conversions, powers of two, division lemmas |
| `Saturation.dfy` | clips, saturating and packed intrinsics |
| `Bits.dfy` | `__CLZ`, `__RBIT`, `__ROR` |
| `Reciprocal.dfy` | Newton-Raphson reciprocals |
| `ReciprocalNegative.dfy` | the Q15 reciprocal on negative inputs |
| `Pid.dfy` | Q31 and Q15 PID controllers |
| `Rotation.dfy` | Park and Clarke transforms and inverses |
| `Interpolation.dfy` | linear and bilinear interpolation |
| `CircularBuffer.dfy` | circular reads and writes |
| `MpuTable.dfy`, `MpuV8.dfy`, `MpuV7.dfy` | region tables and their loaders on the two MPU register files |
| `BoardMpu.dfy` | the board's memory map |
| `Nvic.dfy` | priority grouping and the two register layouts |

## Where the code differs from its documentation

The model follows the code. Each difference is a theorem:

- The Q31 PID is documented as free of overflow for inputs scaled down by two bits and as saturating.
  The scaled accumulator is exact (`ScaledInputsKeepAccumulator`), but the output is neither protected
  nor saturated (`WindUpWraps`). What holds for all inputs is `RunQ31IsPositional`.
- The reciprocals have a branch for inputs that are not positive. In Q31 it never yields a reciprocal
  (`RecipQ31IffPositive`). In Q15 the index selects the entry of another input (`MirroredIndex`) and
  the unclipped cast wraps. `ServedIff` gives the exact ranges of the normalised magnitude on which
  every accurate table, or none, yields a result of the right sign; it fails already at -1/2
  (`MinusHalf`).
- The C fallback of `__SMLALD` forms its products' sum in 32 bits, unlike the instruction it stands
  for (`FallbackAgreesIff`).
- Park saturates; the round trip returns exactly when it does not, up to a margin of fifteen units
  (`ParkRoundTripIff`).
- Clarke is documented as free of overflow. The second product wraps beyond 0.866 of full scale
  (`ClarkeProductFits`, `ClarkeWraps`, `ClarkeRoundTripIff`).
- Linear interpolation is announced for tables of 4096 entries; entries from index 2049 on are
  unreachable (`LinearQ15UpperEntriesUnused` and its Q7 and Q31 forms). It is not monotone at zero
  for a positive first entry (`LinearQ15MonotoneEverywhereIff`), and not exactly monotone in Q31
  (`LinearQ31StepsBack`), which happens only within segments (`LinearQ31MonotoneIff`) and never in
  steep ones (`LinearQ31MonotoneIfSteep`).
- Bilinear interpolation compares the column coordinate with the number of rows and the row coordinate
  with the number of columns (`GuardAdmitsAllCellsIff`), and does not keep the
  reads inside the table (`GuardAdmitsOnlyCellsIff`, `ReadsStayInsideIff`, `TwoByTwoReadsOutside`).
- The circular buffers' comment mentions negative increments; the update handles exactly the
  increments from zero to the buffer length (`AdvanceStaysInsideIff`).
- `clip_q31_to_q7` and `clip_q63_to_q15` truncate in part of their range (`ClipQ31ToQ7Exact`,
  `ClipQ63ToQ15Exact`).

## Model

| member | source | states |
|---|---|---|
| Saturation.ClipQ63ToQ31 | CMSIS/arm_math.h:523-528 | the comparison of the high word with the sign of the low word is exactly the clamp to 32 bits, for every 64-bit value |
| Saturation.ClipQ31ToQ15 | CMSIS/arm_math.h:553-558 | exactly the clamp to 16 bits |
| Saturation.ClipQ31ToQ7Exact | CMSIS/arm_math.h:543-548 | clamps if and only if the value is outside the band of truncation or its low byte happens to be the saturation value; in the band the low byte is kept |
| Saturation.ClipQ63ToQ15Exact | CMSIS/arm_math.h:533-538 | clamps the shifted value if and only if the value is outside two explicit bands, in which the low 16 bits are kept |
| Saturation.QAdd | CMSIS/arm_math.h:871-876 | exact saturating addition |
| Saturation.QSub | CMSIS/arm_math.h:882-887 | exact saturating subtraction |
| Saturation.Mult32x64 | CMSIS/arm_math.h:564-570 | the floor of the full product divided by 2^32, with no intermediate overflow |
| Saturation.Ssat | CMSIS/cmsis_gcc.h:1302-1318 | clamp to the requested width for 1 to 32 bits, identity for any other width |
| Saturation.QAdd16 | CMSIS/arm_math.h:719-730 | each signed half is the clamped sum of the halves |
| Saturation.QAdd8 | CMSIS/arm_math.h:683-695 | each of the four signed bytes is the clamped sum of the bytes |
| Saturation.DualProductExact | CMSIS/arm_math.h:965-971 | in the C fallback the 32-bit sum of two lane products is exact except when all four halves are -32768, when it is short by 2^32 |
| Saturation.SmlaldExact | CMSIS/arm_math.h:935-944 | in the C fallback accumulating a dual product onto any 64-bit value is exact if and only if the sum fits 64 bits, and off by 2^64 otherwise |
| Saturation.FallbackAgreesIff | CMSIS/arm_math.h:935-944 | for any accumulator the fallback computes what the smlald instruction (CMSIS/cmsis_gcc.h) computes if and only if not all four halves are -32768 |
| Bits.Clz | CMSIS/cmsis_iccarm.h:487-500 | the loop ends with 2^(31-c) <= v < 2^(32-c), or 32 for zero |
| Bits.LeadingZerosUnique | CMSIS/cmsis_iccarm.h:487-500 | these bounds determine the count |
| Bits.Normalises | CMSIS/arm_math.h:586-596 | a shift by one less than the count moves every positive input to [2^30, 2^31) |
| Bits.Rbit | CMSIS/cmsis_gcc.h:984-1005 | the shortened loop with its final shift computes the reversal of all 32 bits |
| Bits.ReverseBit | CMSIS/cmsis_iccarm.h:502-513 | bit i of the reversal is bit n-1-i of the value |
| Bits.RbitInvolution | CMSIS/cmsis_gcc.h:978-983 | reversing twice restores every word |
| Bits.RorBit | CMSIS/cmsis_gcc.h:957-965 | bit i of the rotation is bit (i + k) mod 32 of the word |
| Bits.RorCompose | CMSIS/cmsis_gcc.h:957-965 | rotations compose by adding their amounts |
| Reciprocal.StepUnder | CMSIS/arm_math.h:607-614 | a Newton step of either width never reaches the true reciprocal |
| Reciprocal.StepConverges | CMSIS/arm_math.h:607-614 | the distance after a step is at most the square of the one before plus the cost of two floors |
| Reciprocal.RecipQ31 | CMSIS/arm_math.h:576-621 | for every input but the most negative one the method stores the entry selected by bits [29:24] of the normalised input, corrected twice without any wrap, and returns the number of leading zeros as exponent |
| Reciprocal.StepQ31IsExact | CMSIS/arm_math.h:609-613 | for normalised positive inputs no unsigned difference wraps and the clip never fires |
| Reciprocal.StepQ31Converges | CMSIS/arm_math.h:609-613 | 0 < e' <= e^2 + 3 * 2^-30 for every non-negative approximation |
| Reciprocal.RecipQ31Value | CMSIS/arm_math.h:595-615 | for inputs of either sign: all normalised inputs of the i-th block of 2^24, counted from a multiple of 2^30, use entry i |
| Reciprocal.RecipQ31Table | CMSIS/arm_math.h:572-621 | for every table whose entry i is within eps of the reciprocals of its block of 2^24 inputs, every positive input times its result is short of the target by a positive relative amount of order eps^4 plus truncation |
| Reciprocal.CentreQ31Table | CMSIS/arm_math.h:598-603 | such a table exists for eps = 1/128 |
| Reciprocal.RecipQ31Accuracy | CMSIS/arm_math.h:605-621 | the same bound from the error of the selected entry alone |
| Reciprocal.RecipQ31IffPositive | CMSIS/arm_math.h:586-593 | with positive table entries the result has relative error between zero and one if and only if the input is positive |
| Reciprocal.RecipQ15 | CMSIS/arm_math.h:627-672 | the same method contract for Q15 |
| Reciprocal.StepQ15IsExact | CMSIS/arm_math.h:660-664 | the unsigned product and the cast lose nothing although the clip is commented out |
| Reciprocal.StepQ15Converges | CMSIS/arm_math.h:660-664 | 0 < e' <= e^2 + 3 * 2^-14 |
| Reciprocal.RecipQ15Accuracy | CMSIS/arm_math.h:624-672 | the eps^4 bound for Q15 on all positive inputs |
| ReciprocalNegative.StepIsRaw | CMSIS/arm_math.h:660-664 | for operands of any sign the unsigned arithmetic and the unclipped cast amount to one reduction of the signed correction to 16 bits |
| ReciprocalNegative.RecipQ15Value | CMSIS/arm_math.h:646-665 | for inputs of either sign: all normalised inputs of the i-th block of 2^8, counted from a multiple of 2^14, use entry i, corrected twice with a cast to 16 bits each |
| ReciprocalNegative.MirroredIndex | CMSIS/arm_math.h:647-652 | the index of a negative input selects the entry of the positive input 0xC000 above it |
| ReciprocalNegative.NegativeInput | CMSIS/arm_math.h:641-672 | with any table accurate to a 128th for all positive inputs a negative input gets a result of the right sign that undershoots for normalised magnitudes in [0x4001, 0x6000], [0x6C01, 0x6EA2] and [0x73CD, 0x7FFF], and no reciprocal at powers of two, in [0x6001, 0x6C00] and in [0x6F01, 0x7300] |
| ReciprocalNegative.ServedIff | CMSIS/arm_math.h:641-672 | every accurate table serves a normalised magnitude if and only if it lies in the first ranges, and none does if and only if it lies in the second; in the two gaps left between them accurate tables disagree on every magnitude |
| ReciprocalNegative.CentreTableAccurate | CMSIS/arm_math.h:651-655 | a table of 64 entries accurate for all positive inputs exists |
| ReciprocalNegative.OwnSeed | CMSIS/arm_math.h:655-672 | with a selected entry accurate for the magnitude itself the result works in [0x4780, 0x4D40] and [0x6110, 0x7EB0] and fails at 0x4000, in [0x40C0, 0x45E0] and in [0x4ED0, 0x5F00] |
| ReciprocalNegative.MinusHalf | CMSIS/arm_math.h:641-672 | the input -1/2 with an entry accurate for all inputs that share it gives a result of the wrong sign |
| Pid.Telescopes | CMSIS/arm_math.h:4724-4732 | the increments of the documented gains add up to the positional controller |
| Pid.IdealDrift | CMSIS/arm_math.h:4724-4732 | after n samples the truncated sum lies below the positional form by less than n units in the last place |
| Pid.WrapsOnce | CMSIS/arm_math.h:4823-4833 | wrapping the accumulator, its narrowing and the addition amounts to one reduction of the exact sum to 32 bits |
| Pid.StepQ31Exact | CMSIS/arm_math.h:4813-4842 | a step is exact if and only if the exact new output fits 32 bits |
| Pid.RunQ31IsIdeal | CMSIS/arm_math.h:4813-4842 | on every run from reset the state is the last two samples and the exact recurrence reduced to 32 bits |
| Pid.RunQ31IsPositional | CMSIS/arm_math.h:4726-4729 | every run outputs, modulo 2^32, an integer within n units below the positional controller, and that integer itself if and only if it fits |
| Pid.ScaledInputsKeepAccumulator | CMSIS/arm_math.h:4808-4810 | inputs scaled down by two bits keep accumulator and narrowing exact |
| Pid.WindUpWraps | CMSIS/arm_math.h:4810-4811 | a constant scaled input winds the integral up to a negative output while the positional controller is positive |
| Pid.PidQ31.Process | CMSIS/arm_math.h:4813-4842 | the output is the previous one plus the floor of (A0 x[n] + A1 x[n-1] + A2 x[n-2]) / 2^31, reduced once to 32 bits, and exact if and only if that fits; the samples move up by one place |
| Pid.OutputQ15 | CMSIS/arm_math.h:4888-4891 | the output is the clamp of the previous output plus the floor of the scaled increment |
| Pid.RunQ15IsClamped | CMSIS/arm_math.h:4860-4900 | on every run from reset the state is the last two samples and the recurrence that clamps after every floored increment |
| Pid.RunQ15IsIdealIff | CMSIS/arm_math.h:4860-4900 | all outputs of a run are those of the exact recurrence if and only if none of these leaves 16 bits |
| Pid.DspAccumulator | CMSIS/arm_math.h:4867-4877 | the packed accumulator, formed by the instructions of cores with the DSP extension, is the plain one plus one when A0 and the input are both negative, and equal to it otherwise |
| Pid.DspStepIff | CMSIS/arm_math.h:4867-4891 | one step of the packed build gives the output of the plain one, plus one if and only if A0 and the input are negative, the low 15 bits of the accumulator are all ones and the output does not saturate |
| Pid.DspRunAgreesIff | CMSIS/arm_math.h:4860-4900 | all outputs of a run of the two builds agree if and only if no step of the run meets that condition |
| Pid.DspRunAgreesForGains | CMSIS/arm_math.h:4860-4900 | they agree on every run for non-negative A0 |
| Pid.DspRunDrift | CMSIS/arm_math.h:4860-4900 | on every run the packed build stays at or above the plain one, by at most one unit per negative sample |
| Pid.FirstSampleParts | CMSIS/arm_math.h:4867-4877 | a gain and a sample for which the two builds output 0 and 1 |
| Pid.PidQ15.Process | CMSIS/arm_math.h:4878-4900 | the output is the clamp of the previous one plus the floor of (A0 x[n] + A1 x[n-1] + A2 x[n-2]) / 2^15; the samples move up; the accumulator and the saturation argument stay in their types |
| Pid.PidQ15Dsp.Process | CMSIS/arm_math.h:4867-4900 | the same output in the packed build, where the low half of the packed gains multiplies x[n-1] and the high half x[n-2], with one added to the accumulator when A0 and x[n] are negative |
| Pid.PackedGains | CMSIS/arm_math.h:1723-1729 | the halves of a word packed from A1 and A2 are these gains |
| Rotation.ForwardExactIff | CMSIS/arm_math.h:5209-5238 | the forward pass returns the sums of its truncated products if and only if both fit 32 bits and -1 is not multiplied by a sine of -1 |
| Rotation.ParkExact | CMSIS/arm_math.h:5209-5238 | for all operands, angle or not, the results are the 32-bit clamps of the sum and difference of the products rounded down to 31 bits, where -1 times -1 gives -1 |
| Rotation.InvParkExact | CMSIS/arm_math.h:5322-5351 | the same for the inverse transform |
| Rotation.ParkRoundTrip | CMSIS/arm_math.h:5322-5351 | whenever the forward pass fits, Park then inverse Park returns each component times sin^2 + cos^2, within four and five units |
| Rotation.ParkRoundTripIff | CMSIS/arm_math.h:5209-5351 | for every angle and all vectors whose sums fit or leave the range by fifteen units or more, the round trip stays within these bounds if and only if the forward pass fits |
| Rotation.ParkRoundTripBound | CMSIS/arm_math.h:5209-5351 | for every angle and every vector without a product of -1 by -1, saturating or not, each component returns within the same bounds widened by what the two sums exceed the range |
| Rotation.TwelveUnitsReturn | CMSIS/arm_math.h:5233-5237 | a vector that saturates by twelve units still returns, so the margin cannot be dropped |
| Rotation.ParkVectorRoundTrip | CMSIS/arm_math.h:5322-5351 | vectors up to length 2^31 - 2 return at every angle |
| Rotation.ParkRoundTripUnit | CMSIS/arm_math.h:5322-5351 | for angles close to the unit circle the components themselves return within a fixed distance |
| Rotation.ParkSaturates | CMSIS/arm_math.h:5233-5237 | the longest diagonal vector at 45 degrees returns hundreds of millions of units short |
| Rotation.ClarkeProductFits | CMSIS/arm_math.h:5012-5013 | the second product keeps its value if and only if the phase is within an explicit bound, and how it is wrong beyond |
| Rotation.ClarkeExact | CMSIS/arm_math.h:4998-5017 | for all phases the first result is the first phase and the second the 32-bit clamp of the two phases weighted by 1/sqrt(3) and 2/sqrt(3) in 2.30 format, each rounded down, off by 2^32 beyond the bound |
| Rotation.InvClarkeExact | CMSIS/arm_math.h:5095-5114 | for all inputs, from the forward transform or not, the first result is the first input and the second the 32-bit clamp of the difference weighted by sqrt(3)/2 and 1/2, each rounded down |
| Rotation.ClarkeRoundTripIff | CMSIS/arm_math.h:4998-5114 | for all phases, Clarke then inverse Clarke returns the first phase exactly and the second within -3 and +2 units if and only if the product fits and, where the sum saturates, half the first phase plus the second lies within an explicit bound |
| Rotation.ClarkeMargin | CMSIS/arm_math.h:4998-5114 | a sum that fits returns, and one that saturates by four units or more does not |
| Rotation.ThreeUnitsReturn | CMSIS/arm_math.h:5016 | a sum that saturates by three units can still return |
| Rotation.ClarkeWraps | CMSIS/arm_math.h:4998-5017 | beyond the bound the second phase returns wrong by more than half of full scale |
| Interpolation.SegmentQ15 | CMSIS/arm_math.h:5559-5572 | no overflow, the floor of the weighted sum, and the result in the hull of its two entries less one |
| Interpolation.SegmentQ7 | CMSIS/arm_math.h:5614-5629 | the same in 32-bit arithmetic |
| Interpolation.LinearQ15Value | CMSIS/arm_math.h:5532-5574 | for every table and coordinate: the first entry below zero, the last one from its index on, and in between the floor of the two neighbours weighted by the fraction and its complement |
| Interpolation.LinearQ7Value | CMSIS/arm_math.h:5589-5631 | the same for Q7 |
| Interpolation.PolyMonotone | CMSIS/arm_math.h:5565-5569 | adjacent segments of a non-decreasing table meet, so the weighted sum is non-decreasing across them |
| Interpolation.LinearQ15Monotone | CMSIS/arm_math.h:5532-5574 | Q15 interpolation of a non-decreasing table is non-decreasing for all coordinates from zero into the upper clamp |
| Interpolation.LinearQ7Monotone | CMSIS/arm_math.h:5589-5631 | the same for Q7 |
| Interpolation.CurveAtPoint | CMSIS/arm_math.h:5566-5572 | at a table point the result is the entry, less one if it is positive |
| Interpolation.LinearQ15MonotoneEverywhereIff | CMSIS/arm_math.h:5547-5554 | over all coordinates, negative included, Q15 interpolation of a non-decreasing table is monotone if and only if the table has one entry or its first entry is not positive |
| Interpolation.LinearQ7MonotoneEverywhereIff | CMSIS/arm_math.h:5589-5631 | the same for Q7 |
| Interpolation.LinearQ15UpperEntriesUnused | CMSIS/arm_math.h:5528-5554 | entries from index 2049 on never influence a Q15 result |
| Interpolation.LinearQ7UpperEntriesUnused | CMSIS/arm_math.h:5585-5631 | the same for Q7 |
| Interpolation.LinearQ31UpperEntriesUnused | CMSIS/arm_math.h:5470-5516 | the same for Q31 |
| Interpolation.SegmentQ31 | CMSIS/arm_math.h:5499-5514 | neither the sum nor the left shift overflows, the result is less than four units below the exact value and in the hull of its entries less four |
| Interpolation.LinearQ31Value | CMSIS/arm_math.h:5474-5516 | the same clamps for Q31, and in between twice the sum of the two weighted neighbours, each rounded down |
| Interpolation.LinearQ31NearlyMonotone | CMSIS/arm_math.h:5474-5516 | a non-decreasing table steps back by at most two units, and never against the upper clamp |
| Interpolation.LinearQ31StepsBack | CMSIS/arm_math.h:5507-5511 | two tables for which it does step back by two, one of them rising by 2076279 per index |
| Interpolation.LinearQ31MonotoneIff | CMSIS/arm_math.h:5474-5516 | interpolation of a non-decreasing table is monotone on all coordinates from zero if and only if it is within each reachable segment |
| Interpolation.LinearQ31MonotoneIfSteep | CMSIS/arm_math.h:5474-5516 | tables whose segments all rise by at least 2^21 or touch zero are interpolated without any step back |
| Interpolation.AccumulateIsNested | CMSIS/arm_math.h:7000-7014 | the four-term accumulator is the interpolation along y of two interpolations along x |
| Interpolation.CellQ7 | CMSIS/arm_math.h:7000-7017 | no intermediate overflows and the result lies in the hull of the four corners less one |
| Interpolation.BilinearQ7Value | CMSIS/arm_math.h:6954-7018 | zero when an index fails the boundary test, and otherwise the floor of the four entries around the coordinate weighted by both fractions |
| Interpolation.BilinearIsSurface | CMSIS/arm_math.h:6954-7018 | for interior cells the reads stay inside the table and the result is linear interpolation along y of linear interpolations along x, truncated once |
| Interpolation.SharedEdgeX | CMSIS/arm_math.h:6986-7014 | cells next to each other in X give the same value on their shared edge |
| Interpolation.SharedEdgeY | CMSIS/arm_math.h:6986-7014 | cells next to each other in Y give the same value on their shared edge |
| Interpolation.BilinearMonotoneX | CMSIS/arm_math.h:6954-7018 | if all rows are non-decreasing the result is non-decreasing in X across cells |
| Interpolation.BilinearMonotoneY | CMSIS/arm_math.h:6954-7018 | if all columns are non-decreasing the result is non-decreasing in Y across cells |
| Interpolation.GuardAdmitsAllCellsIff | CMSIS/arm_math.h:6977-6982 | the transposed boundary test admits every cell if and only if the dimensions differ by at most one, up to the reachable indices |
| Interpolation.GuardAdmitsOnlyCellsIff | CMSIS/arm_math.h:6977-6982 | every coordinate that passes the boundary test lies in a cell if and only if a dimension is zero or both exceed 2048 |
| Interpolation.ReadsStayInsideIff | CMSIS/arm_math.h:6977-6998 | the reads stay inside the table for all coordinates that pass the test if and only if a dimension is zero or min(rows, 2048) + columns * min(columns, 2048) is below the table's size |
| Interpolation.TwoByTwoReadsOutside | CMSIS/arm_math.h:6988-6998 | in a two by two table the last cell passes the test and its last read lies three entries beyond the end |
| CircularBuffer.AdvanceStaysInsideIff | CMSIS/arm_math.h:5916-5919 | the offset update stays inside the buffer if and only if the increment is between zero and its length |
| CircularBuffer.AdvanceMod | CMSIS/arm_math.h:5916-5919 | i updates reach (start + i * inc) mod L |
| CircularBuffer.Write | CMSIS/arm_math.h:5889-5927 | final buffer contents and final offset for any block, stride and increment |
| CircularBuffer.WrittenHolds | CMSIS/arm_math.h:5908-5923 | cell (offset + i * inc) mod L ends with source sample start + i * srcInc unless a later step reaches the same cell, and cells that no step reaches are unchanged |
| CircularBuffer.Read | CMSIS/arm_math.h:5933-5983 | final destination contents, including its wrap-around, and final offset; with destination increment one, cell (start + i) mod length holds buffer cell (offset + i * inc) mod L for each step and keeps its contents beyond the last |
| CircularBuffer.DestinationRing | CMSIS/arm_math.h:5958-5967 | with increment one the destination pointer after i steps is (start + i) mod length from any start |
| CircularBuffer.ScatteredContiguous | CMSIS/arm_math.h:5958-5967 | a contiguous destination receives the samples in order and keeps its remainder |
| CircularBuffer.LastWritten | CMSIS/arm_math.h:5908-5923 | a cell holds the last sample written to it |
| CircularBuffer.Unwritten | CMSIS/arm_math.h:5908-5923 | cells that no step reaches are unchanged |
| CircularBuffer.OffsetsDiffer | CMSIS/arm_math.h:5916-5919 | steps less than L / gcd(L, inc) apart reach different cells |
| CircularBuffer.RoundTripIff | CMSIS/arm_math.h:5889-5983 | reading back every written block of n samples returns it if and only if n <= L / gcd(L, inc) |
| CircularBuffer.WriteAllIsStream | CMSIS/arm_math.h:5889-5927 | any run of writes equals one write of the concatenated stream |
| CircularBuffer.MostRecent | CMSIS/arm_math.h:5889-5927 | after any run of writes the cell k + 1 behind the offset holds the k-th most recent sample |
| MpuV8.CopyIsSetAll | CMSIS/mpu_armv8.h:270-277 | copying words through the alias window sets exactly the rows they belong to |
| MpuV8.SetAllPlaces | CMSIS/mpu_armv8.h:279-284 | the simple loop places row i at region first + i and leaves every other region unchanged |
| MpuV8.Mpu.OrderedCpy | CMSIS/mpu_armv8.h:270-277 | the copy loop stores the words in order and never leaves the alias window |
| MpuV8.Mpu.SetRegionEx | CMSIS/mpu_armv8.h:236-241 | sets one region |
| MpuV8.Mpu.ClrRegionEx | CMSIS/mpu_armv8.h:206-210 | clears the limit register of one region and nothing else |
| MpuV8.Mpu.LoadEx | CMSIS/mpu_armv8.h:285-308 | for one or four aliases, any first region and any count, the split load equals the simple loop; states the final region number |
| MpuV7.RbarDecodes | CMSIS/mpu_armv7.h:75-78 | region number, validity and address stand at bits [3:0], 4 and [31:5] of the word |
| MpuV7.RasrDecodes | CMSIS/mpu_armv7.h:92-101 | every argument, masked to its field, stands at the bits of that field, from XN at bit 28 to the enable bit 0 |
| MpuV7.SetRegionPlaces | CMSIS/mpu_armv7.h:150-154 | a row goes to the region named in its base word or else to the selected one, without the five low bits of its base |
| MpuV7.WordsSetAll | CMSIS/mpu_armv7.h:150-154 | writing the words of a table in memory order is setting its rows one by one |
| MpuV7.Mpu.Disable | CMSIS/mpu_armv7.h:127-135 | clears the enable bit and the memory-fault enable bit and keeps all others |
| MpuV7.Mpu.Enable | CMSIS/mpu_armv7.h:115-123 | stores the control word with the enable bit and sets the memory-fault enable bit |
| MpuV7.Mpu.SetRegion | CMSIS/mpu_armv7.h:150-154 | sets the region named in the word, or else the selected one |
| MpuV7.Mpu.ClrRegion | CMSIS/mpu_armv7.h:140-144 | clears the attributes of one region |
| MpuV7.Mpu.OrderedCpy | CMSIS/mpu_armv7.h:173-180 | writes the words in order within the alias window |
| MpuV7.Mpu.Load | CMSIS/mpu_armv7.h:186-195 | for every table and any number of aliases the chunked load equals setting the rows one by one, the selected region included |
| MpuV7.LastRowWins | CMSIS/mpu_armv7.h:186-195 | with every row naming its region the last row for a region decides, and others keep their contents |
| MpuV7.OrderIrrelevant | CMSIS/mpu_armv7.h:186-195 | every permutation of rows for distinct regions leaves the same register file |
| BoardMpu.BasesAligned | board/board.c:427-479 | all nine bases are multiples of their region sizes |
| BoardMpu.BoardRegions | board/board.c:427-479 | register file after the nine writes, row by row |
| BoardMpu.BoardWords | board/board.c:427-479 | the nine base addresses and attribute words in numbers; regions 9 to 15 are unchanged |
| BoardMpu.EffectiveMap | board/board.c:427-479 | for every 32-bit address, resolution by highest region gives one explicit list of intervals, whatever regions 0 to 8 held before |
| BoardMpu.EffectiveFields | board/board.c:427-479 | for every 32-bit address the resolved access permission, TEX, S, C and B in numbers: tightly coupled memories, on-chip RAM and 30 MB of SDRAM write-back, 2 MB of SDRAM not cached, flash read-only, the windows around them devices, and all else background |
| BoardMpu.MapOrderIrrelevant | board/board.c:427-479 | the same map results from any order of the nine writes |
| BoardMpu.ConfigMpu | board/board.c:386-482 | the register sequence stores these words, establishes the map in these fields, leaves CTRL at 5 (enabled, with the background map) and enables memory faults, keeping all other bits of SHCSR |
| Nvic.FieldsFill | CMSIS/core_armv8mml.h:2428-2429 | the two field widths add up to the implemented bits |
| Nvic.DecodeEncode | CMSIS/core_armv8mml.h:2422-2460 | decoding an encoded pair returns both values, masked to their fields |
| Nvic.EncodeDecode | CMSIS/core_armv8mml.h:2422-2460 | encoding a decoded priority returns it, masked to the implemented bits |
| Nvic.EncodeOrder | CMSIS/core_armv8mml.h:2422-2435 | codes are ordered lexicographically by preemption priority and subpriority |
| Nvic.ReadBack | CMSIS/core_armv8mml.h:2397-2408 | a priority reads back as written, masked to the implemented bits; the unimplemented bits of its byte are zero |
| Nvic.GroupPriorityOfCode | CMSIS/core_armv8mml.h:2375-2435 | the group priority the hardware reads from a stored code is the preemption priority up to a fixed power of two |
| Nvic.PreemptionOrder | CMSIS/core_armv8mml.h:2375-2435 | hardware preemption order equals the order of preemption priorities |
| Nvic.PreemptionAfterRun | CMSIS/core_armv8mml.h:2149-2435 | after any run of settings under the grouping that AIRCR holds, one interrupt preempts another if and only if its preemption priority is lower |
| Nvic.MainlineNvic.Configure | CMSIS/core_armv8mml.h:2149-2385 | setting the grouping and then a run of priorities stores both |
| Nvic.LastSettingWins | CMSIS/core_armv8mml.h:2375-2408 | after any run an interrupt reads back its last setting |
| Nvic.OthersKeep | CMSIS/core_armv8mml.h:2375-2385 | interrupts without a setting keep their byte |
| Nvic.RunBoth | CMSIS/core_armv8mbl.h:1477-1489 | calling both SetPriority methods for any run of settings that both layouts support leaves equal bytes for equal interrupts |
| Nvic.SameAddress | CMSIS/core_armv8mbl.h:1271-1273 | both layouts keep the byte of an interrupt at the same address |
| Nvic.MainlineAddresses | CMSIS/core_armv8mml.h:2375-2385 | exceptions -12 to -1 have consecutive bytes from 0xE000ED18 on, and interrupts from 0xE000E400 on |
| Nvic.MainlineNvic.SetPriority | CMSIS/core_armv8mml.h:2375-2385 | stores the priority byte at IPR[irq], or at SHPR[irq + 12] for an exception, and nothing else |
| Nvic.MainlineNvic.GetPriority | CMSIS/core_armv8mml.h:2397-2408 | reads the byte from there and shifts it down |
| Nvic.MainlineNvic.SetPriorityGrouping | CMSIS/core_armv8mml.h:2149-2160 | the grouping field is set with the unlock key and all other control bits are kept |
| Nvic.SetByte | CMSIS/core_armv8mbl.h:1481-1482 | the read-modify-write changes one byte of a word and keeps the other three |
| Nvic.BaselineNvic.SetPriority | CMSIS/core_armv8mbl.h:1477-1489 | updates the store at one interrupt in spite of the shared word |
| Nvic.BaselineNvic.GetPriority | CMSIS/core_armv8mbl.h:1501-1512 | reads the store |

## Left out

- Floating-point routines (`_f32`, `_f64`): rounding is not the subject of this model.
- Routines of arm_math.h that are only declared there, including the PID initialisation: they have no body; the gains are taken as documented.
- Contents of the reciprocal tables: they are external; their accuracy is a hypothesis, which some tables meet (CentreQ31Table, CentreTableAccurate).
- RecipQ31: excludes the most negative input, whose negation the C language leaves undefined.
- RecipQ15: excludes the most negative input, for which the source shifts by 2^32 - 1 bits.
- OwnSeed: says nothing between its ranges; a table made for positive inputs, for which ServedIff is exact, does not select such entries.
- ParkRoundTripIff: leaves open vectors that saturate by one to fourteen units, some of which return (TwelveUnitsReturn); ParkRoundTripBound bounds them.
- LinearQ31MonotoneIfSteep: one direction only; which segments that rise by less than 2^21 step back depends on the individual truncations (LinearQ31StepsBack shows one that rises by 2076279).
- Read: the destination is a different array from the circular buffer.
- Bilinear interpolation in Q31 and Q15: the same scheme with additional truncations.
- BilinearQ7: its reads beyond the end of a table, where ReadsStayInsideIff fails, have no value in the model.
- The region-word macros of Armv8-M: the loader treats register words as opaque.
- WriteRow: the nine pairs of register writes are taken from a table of their arguments, one call per pair.
- ConfigMpu: cache maintenance and barriers are not modelled.
- Packed intrinsics other than the two saturating additions and the dual products: they repeat the same lane arithmetic.
- Writes to unimplemented MPU regions and reserved exceptions: the architecture leaves them unpredictable; the methods require legal numbers.
- Circular buffers of the other sample types: they are the same code on another type.
- Secure and non-secure duplicates, instrumentation, timers and inline assembly: register access without an algorithm.
- Pin, clock and bus set-up of the board, and the network and cloud stubs: drivers that are not part of this model.
