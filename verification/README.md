# Fixed-point arithmetic, interrupt priorities and text packets

A Dafny model of the computing parts of this repository, with proofs of what they promise:

- the fixed-point functions that `arm_math.h` defines inline: saturation, packed lanes, reciprocal,
  PID, Clarke and Park transforms, table interpolation, circular buffers;
- the interrupt priority registers of Cortex-M0+ (packed words) and Cortex-M4 (bytes), and the
  priority group encoding;
- the text senders of the EtherCOM client, over TCP and over the serial port.

`dafny verify dfyconfig.toml` checks everything.

## How C is modelled

Values are mathematical integers. `MachineInt` gives the conversions, which wrap in two's
complement; an arithmetic right shift is floor division; a left shift is a multiplication followed
by the wrap of the type it is stored in. `Bits` defines the bitwise operators bit by bit and proves
what the masks of the source do. Where C leaves the result undefined (overflow of a signed sum or
left shift) the two's complement result of the target compilers is taken.

A method has the loops, locals and conversions of the C or C# function it models. Its contract
states the result, or ties it to a function on values about which the lemmas speak.

| file | contents |
|---|---|
| MachineInt.dfy, Bits.dfy, Sequences.dfy | integer types, casts, division, bitwise operators, concatenation |
| Saturate.dfy, Lanes.dfy | clips, `__SSAT`, `mult32x64`, packed bytes and half-words |
| Newton.dfy, Reciprocal.dfy | one Newton step for either word size; `__CLZ` and both reciprocals |
| Pid.dfy | the Q31 controller and the two builds of the Q15 one |
| Transforms.dfy | Clarke, Park and their inverses |
| Interpolate.dfy | linear and bilinear table interpolation |
| Circular.dfy | circular write and read, the ring as a history |
| Nvic.dfy | priority registers, refinement, priority groups |
| Packetiser.dfy | packets, link failure, sessions |

## Where the code and its documentation disagree

The model follows the code. Each case has a lemma that says exactly when the documented behaviour is
the actual one, or is listed under "Left out" with what is missing.

- `clip_q63_to_q15` and `clip_q31_to_q7` test wider ranges than they return (`ClipQ63ToQ15SaturatesIff`,
  `ClipQ31ToQ7SaturatesIff`).
- `__QASX` and `__QSAX` add a signed low half, which borrows from the high lane (`QAsxLanes`, `QSaxLanes`);
  `__SHADD16` halves before it adds (`ShAdd16IsMeanIff`).
- `arm_recip_q31` is described as 1/in for both signs; for every negative input it returns 0x7FFFFFFF
  (`AccurateIffPositive`).
- `arm_recip_q15` has no clip, and its first step wraps for every negative input (`FirstStepFitsIff`,
  `NegativeQ15MayHitOrMiss`).
- `arm_pid_q31` is described as saturating the output after an accumulator that may wrap; the output
  wraps as well (`PidQ31SaturatesIff`, `AccumulatorWrapIsDocumented`).
- `arm_clarke_q31` saturates its sum but not its second product (`ClarkeSaturatesIff`); the Park outputs
  are the saturated sums unless a product is -1 times -1 (`ParkSaturatesIff`, `InvParkSaturatesIff`).
- The Q31 and Q15 linear interpolators read the coordinate as unsigned, so their test for a negative
  index never fires (`CoordinateMasks`, `BelowRangeLaw`, `BelowRangeReturnsFirstIff`,
  `BelowRangeCanReturnNeither`; `BelowRangeLawQ31`, `BelowRangeReturnsFirstIffQ31`).
- The bilinear bounds test compares the X index with the number of rows, and lets the edge cells pass
  (`InsideIsTableIff`, `ReadsInsideIff`).
- The circular functions wrap only at the top, and by one turn: `OffsetIsRingIff` for every increment,
  `StoredOffsetIsRingIff` for the 16-bit store, `NegativeIncrementFails` with an input; the destination
  pointer of a read wraps only when it meets the end (`DstStrideInBoundsIff`).

## Model

| member | source | states |
|---|---|---|
| `Bits.AndField` | platform/CMSIS/Include/core_cm0plus.h:635-637 | a mask of w ones above k zeros selects the w-bit field at bit k, for every word; every mask in the project is read through this |
| `Bits.AndCutClear` | platform/CMSIS/Include/core_cm0plus.h:716-717 | and with the complement of a field mask clears that field and keeps the bits above and below it |
| `Saturate.ClipQ63ToQ31Saturates` | platform/CMSIS/Include/arm_math.h:434-439 | the sign comparison is 32-bit saturation on every 64-bit input |
| `Saturate.ClipQ31ToQ15Saturates` | platform/CMSIS/Include/arm_math.h:464-469 | 16-bit saturation on every 32-bit input |
| `Saturate.ClipQ63ToQ15SaturatesIff` | platform/CMSIS/Include/arm_math.h:441-449 | is the saturated x >> 15 exactly when |x| is below 2^30 or x is outside 32 bits; in between it is the low 16 bits of x >> 15 |
| `Saturate.ClipQ31ToQ7SaturatesIff` | platform/CMSIS/Include/arm_math.h:451-459 | is 8-bit saturation exactly when x fits, is outside 24 bits, or has the bound as its low byte; within 24 bits the value is the low byte |
| `Saturate.QAdd` | platform/CMSIS/Include/arm_math.h:920-925 | the sum clamped to 32 bits |
| `Saturate.QSub` | platform/CMSIS/Include/arm_math.h:930-935 | the difference clamped to 32 bits |
| `Saturate.Ssat` | platform/CMSIS/Include/arm_math.h:620-654 | the doubling loop clamps to [-2^(y-1), 2^(y-1)-1] for widths 1 to 31 |
| `Saturate.Mult32x64Exact` | platform/CMSIS/Include/arm_math.h:475-481 | the two partial products give floor(x*y/2^32) exactly, and no intermediate leaves 64 bits |
| `Lanes.QAdd8IsLaneSaturation` | platform/CMSIS/Include/arm_math.h:668-690 | each of the four bytes is the saturated sum of the operands' bytes |
| `Lanes.QSub8IsLaneSaturation` | platform/CMSIS/Include/arm_math.h:695-716 | each of the four bytes is the saturated difference |
| `Lanes.QAdd16IsLaneSaturation` | platform/CMSIS/Include/arm_math.h:725-743 | each half-word is the saturated sum |
| `Lanes.QSub16IsLaneSaturation` | platform/CMSIS/Include/arm_math.h:771-788 | each half-word is the saturated difference |
| `Lanes.BytesDetermineWord` | platform/CMSIS/Include/arm_math.h:668-716 | a word is determined by its four bytes, so the byte laws fix the whole result |
| `Lanes.HalvesDetermineWord` | platform/CMSIS/Include/arm_math.h:725-788 | the same for the two half-words, so the half-word laws fix the whole result |
| `Lanes.ShAdd16IsMeanIff` | platform/CMSIS/Include/arm_math.h:748-766 | each half-word is the floor of the mean, less one exactly when both operands are odd |
| `Lanes.QAsxLanes` | platform/CMSIS/Include/arm_math.h:815-828 | low lane the saturated difference; high lane the saturated sum, less one (wrapping) exactly when that difference is negative |
| `Lanes.QSaxLanes` | platform/CMSIS/Include/arm_math.h:856-869 | the same for the crossed difference and sum |
| `Newton.StepIdentity` | platform/CMSIS/Include/arm_math.h:546-554 | target times new residual equals the square of the old residual plus the two truncation remainders, exactly |
| `Newton.StepContracts` | platform/CMSIS/Include/arm_math.h:546-554 | a step never overshoots, and its residual is below D^2/T + 3h: quadratic convergence |
| `Newton.StepStaysInRange` | platform/CMSIS/Include/arm_math.h:597-604 | neither the correction nor the new estimate leaves the word, for either word size |
| `Reciprocal.Clz` | platform/CMSIS/Include/arm_math.h:494-508 | the mask loop stops for every non-zero word, at the number of its leading zeros |
| `Reciprocal.Normalised` | platform/CMSIS/Include/arm_math.h:528-536 | the shift by leading zeros less one brings a positive word into [2^30, 2^31) |
| `Reciprocal.PassQ31IsStep` | platform/CMSIS/Include/arm_math.h:548-553 | on a normalised input no conversion of the loop body changes a value and the clip never fires |
| `Reciprocal.PassQ31IsClippedStep` | platform/CMSIS/Include/arm_math.h:548-553 | for either sign of the input and every estimate below 2^31 the loop body is the Newton step clipped at 0x7FFFFFFF |
| `Reciprocal.PassQ15IsStep` | platform/CMSIS/Include/arm_math.h:599-603 | the same for the Q15 body, which has no clip |
| `Reciprocal.PassQ15IsSignedStep` | platform/CMSIS/Include/arm_math.h:599-603 | for every input above -0x8000 and every estimate the unsigned products and casts are the signed Newton step reduced to 16 bits once |
| `Reciprocal.FirstStepFitsIff` | platform/CMSIS/Include/arm_math.h:599-603 | from a seed of at least one half the first step keeps its value exactly for positive inputs |
| `Reciprocal.NegativeQ15MayHitOrMiss` | platform/CMSIS/Include/arm_math.h:563-610 | two negative inputs, with seeds that are within 1/64 for the whole of their cell: one whose result is its reciprocal by accident and one whose result is not |
| `Reciprocal.PassQ31PinsNegative` | platform/CMSIS/Include/arm_math.h:546-554 | on a normalised negative input one pass saturates the estimate at 0x7FFFFFFF |
| `Reciprocal.TwoStepsQ31` | platform/CMSIS/Include/arm_math.h:546-554 | from a seed within 1/64 both steps leave a residual in (0, 2^37 + 2^33) of 2^61 |
| `Reciprocal.TwoStepsQ15` | platform/CMSIS/Include/arm_math.h:597-604 | from a seed within 1/64 both steps leave a residual in (0, 98403) of 2^29 |
| `Reciprocal.RecipQ31` | platform/CMSIS/Include/arm_math.h:516-562 | normalises, seeds and refines: dst is two clipped Newton steps on the seed for either sign, two plain ones and accurate when the seed is for positive inputs, and the largest word for negative ones |
| `Reciprocal.RecipQ15` | platform/CMSIS/Include/arm_math.h:567-610 | the same for Q15: dst is two Newton steps on the seed, each reduced to 16 bits once, for every input including negative ones; accurate for positive inputs when the seed is |
| `Reciprocal.AccurateIffPositive` | platform/CMSIS/Include/arm_math.h:512-562 | with a table of true 1.31 seeds the result is an accurate reciprocal exactly for positive inputs, although the comment promises 1/in |
| `Reciprocal.RecipErrorQ31` | platform/CMSIS/Include/arm_math.h:556-560 | dst is never above floor(2^61/n) and at most 135 below it |
| `Reciprocal.RecipErrorQ15` | platform/CMSIS/Include/arm_math.h:606-609 | dst is never above floor(2^29/n) and at most 6 below it |
| `Reciprocal.MidpointSeedsQ31` | platform/CMSIS/Include/arm_math.h:538-543 | seeding each of the 64 cells with the reciprocal of its middle is within 1/64 for every input, so the accuracy condition is satisfiable |
| `Reciprocal.MidpointSeedsQ15` | platform/CMSIS/Include/arm_math.h:589-594 | the same for the 64 cells of Q15, so one table meets the accuracy condition for every input |
| `Pid.PidQ31.Process` | platform/CMSIS/Include/arm_math.h:4957-4987 | from the fields and the old state cells: the output is the exact value reduced to 32 bits once, the cells move on |
| `Pid.WrapsAreHarmless` | platform/CMSIS/Include/arm_math.h:4964-4977 | the wraps of the 64-bit accumulator and of the scaled sum change nothing beyond that one reduction |
| `Pid.PidQ31SaturatesIff` | platform/CMSIS/Include/arm_math.h:4945-4955 | the code returns the documented saturation of the wrapped accumulator plus y[n-1] exactly when that fits, or is one of two values a full turn away |
| `Pid.PidQ31SaturatesExactIff` | platform/CMSIS/Include/arm_math.h:4957-4977 | the same condition for the saturation of the exact output, whose accumulator does not wrap |
| `Pid.AccumulatorWrapIsDocumented` | platform/CMSIS/Include/arm_math.h:4945-4955 | an input where the two differ: the code meets the documented value and not the exact one |
| `Pid.StateAfterRun` | platform/CMSIS/Include/arm_math.h:4979-4982 | after any run the cells hold the last two inputs and the unbounded output reduced to 32 bits, whatever overflowed before |
| `Pid.DriftBound` | platform/CMSIS/Include/arm_math.h:4866-4870 | over any run the incremental form stays below the positional PID law by less than one unit a step |
| `Pid.PidQ31TracksIff` | platform/CMSIS/Include/arm_math.h:4866-4987 | over runs of up to 2^32 steps the output follows the positional law within that drift exactly when the unbounded output fits in 32 bits |
| `Pid.PidQ15.Process` | platform/CMSIS/Include/arm_math.h:5024-5048 | from the fields and the old state cells: the scalar build returns y[n-1] + floor(sum/2^15), or the bound on its side if that does not fit, for all inputs |
| `Pid.NextQ15Value` | platform/CMSIS/Include/arm_math.h:5036-5048 | the step function of the runs saturates on every state: exact value, or the bound on its side |
| `Pid.PidQ15TracksIff` | platform/CMSIS/Include/arm_math.h:5024-5048 | the saturating Q15 output equals the unbounded one throughout a run exactly when that one fits throughout; `Pid.DriftBound` then ties it to the positional law |
| `Pid.SmuadOfScalars` | platform/CMSIS/Include/arm_math.h:1005-1012 | on sign-extended half-words the dual product is a*x, plus one exactly when both are negative |
| `Pid.DualProducts` | platform/CMSIS/Include/arm_math.h:979-1012 | on any operands: products of like halves, summed in 32 and in 64 bits |
| `Pid.PackedAccumulator` | platform/CMSIS/Include/arm_math.h:5015-5022 | the packed build's accumulator is the three-term sum plus that one |
| `Pid.PackedPidQ15.Process` | platform/CMSIS/Include/arm_math.h:5005-5048 | the same for the packed build, with one added to the sum when first gain and input are both negative |
| `Pid.PackedStepDiffersIff` | platform/CMSIS/Include/arm_math.h:5012-5037 | from equal states the builds differ, by one, exactly when first gain and input are negative, the sum is one below a multiple of 2^15 and the exact output is in [-2^15, 2^15-2] |
| `Pid.BuildsStayClose` | platform/CMSIS/Include/arm_math.h:5012-5043 | over any run the packed output leads the scalar one by 0 up to the number of steps with gain and input both negative |
| `Transforms.ClarkeQ31` | platform/CMSIS/Include/arm_math.h:5141-5160 | alpha is Ia; beta is the saturated sum of the two scaled phases, less a turn of 2^32 when |Ib| exceeds 1859775393 |
| `Transforms.InvClarkeQ31` | platform/CMSIS/Include/arm_math.h:5245-5265 | phase a is alpha; phase b is beta * C3 / 2^31 - alpha / 2, saturated, for every input |
| `Transforms.ClarkeConstants` | platform/CMSIS/Include/arm_math.h:5152-5155 | the constants are in ratio 1:2:3 and forward times inverse gain is one to within 470745493/2^60 |
| `Transforms.ClarkeSaturatesIff` | platform/CMSIS/Include/arm_math.h:5136-5160 | beta is the saturated exact sum exactly when |Ib| <= 1859775393; beyond that the product's cast wraps |
| `Transforms.ClarkeRoundTrip` | platform/CMSIS/Include/arm_math.h:5141-5265 | wherever the forward sum fits, the inverse returns Ia exactly and Ib at most three units low and one high |
| `Transforms.ClarkeFitsHalfScale` | platform/CMSIS/Include/arm_math.h:5141-5160 | inputs up to 2^30 in magnitude always fit |
| `Transforms.ScaledExactIff` | platform/CMSIS/Include/arm_math.h:5377-5388 | the cast of a scaled product is exact unless both operands are -1 |
| `Transforms.ParkSaturatesIff` | platform/CMSIS/Include/arm_math.h:5361-5395 | each forward output is the saturated exact sum, as documented, exactly when no product is -1 times -1, or in the difference both are |
| `Transforms.InvParkSaturatesIff` | platform/CMSIS/Include/arm_math.h:5481-5516 | the same for the inverse |
| `Transforms.ParkValue` | platform/CMSIS/Include/arm_math.h:5366-5395 | both outputs for every input, a product of -1 and -1 counting as -1 |
| `Transforms.InvParkValue` | platform/CMSIS/Include/arm_math.h:5486-5516 | the same for the inverse |
| `Transforms.ParkQ31` | platform/CMSIS/Include/arm_math.h:5366-5395 | the forward rotation with every cast and saturation |
| `Transforms.InvParkQ31` | platform/CMSIS/Include/arm_math.h:5486-5516 | the inverse rotation with every cast and saturation |
| `Transforms.ParkFitsHalfScale` | platform/CMSIS/Include/arm_math.h:5366-5395 | inputs up to 2^30 in magnitude never saturate and never meet a product of -1 and -1, at any angle |
| `Transforms.ParkRoundTrip` | platform/CMSIS/Include/arm_math.h:5366-5516 | at any angle, the half and quarter turns included, the inverse returns both coordinates within 5 and 6 units, if the forward sums fit and no product is -1 times -1 |
| `Transforms.RoundedAngleIsUnit` | platform/CMSIS/Include/arm_math.h:5341-5342 | every angle, its sine and cosine rounded to the nearest word (+1 to the greatest), meets the condition on the pair |
| `Interpolate.CoordinateMasks` | platform/CMSIS/Include/arm_math.h:5656-5671 | the masks split a coordinate into a 12-bit index, never negative, and a 20-bit fraction |
| `Interpolate.LinearInterpQ31` | platform/CMSIS/Include/arm_math.h:5643-5688 | last entry at or above the last index; otherwise exactly the two weighted entries (weights 2^31-1-fract and fract), each floored to 2^32, summed and doubled; in [min-4, max] of the entries and above their exact mean by at most 1 and below it by less than 5 |
| `Interpolate.LinearQ31` | platform/CMSIS/Include/arm_math.h:5677-5684 | no cast in the value wraps, nor the final doubling, even between two most negative entries |
| `Interpolate.LinearInterpQ15` | platform/CMSIS/Include/arm_math.h:5705-5749 | in [min-1, max], and the floor of the exact mean less 2^-20 of the left entry, with no wrap |
| `Interpolate.InterpolantAscends` | platform/CMSIS/Include/arm_math.h:5718-5746 | over an ascending table the interpolated value never decreases with the coordinate, across cell borders and into the flat end |
| `Interpolate.BelowRangeLaw` | platform/CMSIS/Include/arm_math.h:5718-5746 | for every table a negative coordinate returns the last entry if its index reaches that far (always, up to 2049 entries), and otherwise the interpolant of a cell from index 2048 on |
| `Interpolate.BelowRangeReturnsFirstIff` | platform/CMSIS/Include/arm_math.h:5565-5567 | the documented first entry is returned at every negative coordinate exactly when the entries from number 2048 on come out as it, and the last one equals it |
| `Interpolate.BelowRangeCanReturnNeither` | platform/CMSIS/Include/arm_math.h:5565-5567 | a table of 2050 entries where a negative coordinate returns neither the first nor the last |
| `Interpolate.BelowRangeLawQ31` | platform/CMSIS/Include/arm_math.h:5656-5684 | the same law for the Q31 interpolator and every table |
| `Interpolate.BelowRangeReturnsFirstIffQ31` | platform/CMSIS/Include/arm_math.h:5565-5567 | for every table of up to 2^12 entries the documented first entry c is returned at every negative coordinate exactly when the last entry is c and, from 2050 entries on, c is not positive, a multiple of 2^21, and the entries from number 2048 on are c or c + 1 (or 2, at zero) |
| `Interpolate.BelowRangeFlatIffQ31` | platform/CMSIS/Include/arm_math.h:5677-5684 | for tables of any size, above 2^12 entries too, with a flat upper half: every negative coordinate returns the entry exactly when it is not positive and a multiple of 2^21 |
| `Interpolate.LinearInterpQ7` | platform/CMSIS/Include/arm_math.h:5765-5811 | first entry for negative coordinates, last at or above the last index, otherwise in [min-1, max] and the floor of the exact mean less 2^-20 of the left entry |
| `Interpolate.InsideIsTableIff` | platform/CMSIS/Include/arm_math.h:7130-7135 | over the indices a coordinate can have, the bounds test is membership in the table exactly when the sides agree up to 4096 or the table is empty |
| `Interpolate.ReadsInsideIff` | platform/CMSIS/Include/arm_math.h:7130-7152 | in a table of exactly numRows * numCols entries no read leaves the table exactly when min(numRows, 4096) + numCols * min(numCols, 4096) is below that number, or there is no cell |
| `Interpolate.BilinearInterpQ15` | platform/CMSIS/Include/arm_math.h:7102-7172 | zero outside the test; otherwise exactly the floor of the sum with the weights 2^20-1-f and f, less the four remainders the shifts drop; in [min corner - 1, max corner] and close to the exact four-point mean, with no wrap |
| `Interpolate.RoundedCell` | platform/CMSIS/Include/arm_math.h:7154-7170 | the accumulator of four doubly shifted products still meets both bounds and the return fits 16 bits |
| `Interpolate.BilinearInterpQ7` | platform/CMSIS/Include/arm_math.h:7182-7248 | the same for Q7: exactly the floor of the weighted sum, nothing being dropped before the last shift |
| `Circular.CircularWrite` | platform/CMSIS/Include/arm_math.h:6070-6108 | writes the strided samples one by one at the running offsets and stores the final offset in 16 bits, also when the source is the buffer itself |
| `Circular.StridedSamples` | platform/CMSIS/Include/arm_math.h:6090-6094 | sample number k of a write is the source entry at start + k*srcInc |
| `Circular.CircularRead` | platform/CMSIS/Include/arm_math.h:6115-6165 | copies from the running offsets to the destination, whose pointer wraps when it meets the end exactly, also within the buffer itself |
| `Circular.LastWriteStays` | platform/CMSIS/Include/arm_math.h:6087-6104 | for any increment a slot keeps the last sample written to it |
| `Circular.LastReadStays` | platform/CMSIS/Include/arm_math.h:6136-6160 | for any increments a destination cell keeps the last sample copied to it |
| `Circular.SelfWriteReplays` | platform/CMSIS/Include/arm_math.h:6087-6104 | a write whose source is the buffer writes samples each read from what the ones before it left |
| `Circular.SelfWriteIsWrite` | platform/CMSIS/Include/arm_math.h:6087-6104 | copying within the buffer writes its old samples if none is overwritten before its turn |
| `Circular.SelfReadIsRead` | platform/CMSIS/Include/arm_math.h:6136-6160 | the same for reading the buffer into itself |
| `Circular.DstStrideInBoundsIff` | platform/CMSIS/Include/arm_math.h:6144-6149 | for every positive stride the destination pointer stays in its ring exactly while it has not reached the end, or if it meets the end exactly and the stride divides the ring or the second lap is short enough |
| `Circular.DstPosition` | platform/CMSIS/Include/arm_math.h:6144-6149 | where the destination pointer is after k samples, for every stride |
| `Circular.OffsetIsModular` | platform/CMSIS/Include/arm_math.h:6096-6100 | for increments 0 to L the k-th offset is (start + k*inc) mod L |
| `Circular.OffsetIsRingIff` | platform/CMSIS/Include/arm_math.h:6096-6100 | for every increment the offset after n samples is (start + n*inc) mod L exactly when a negative increment never has to wrap and one above L does not climb out by its surplus |
| `Circular.StoredOffsetIsRingIff` | platform/CMSIS/Include/arm_math.h:6096-6107 | for every increment the stored offset is the ring position exactly when it is a slot and what the 16-bit store takes off is whole turns of the ring |
| `Circular.NegativeStoredIsRingIff` | platform/CMSIS/Include/arm_math.h:6096-6107 | for increments between -L and 0, after a call that stayed in the buffer: exactly when the last update does not have to wrap either, or L is 65536 |
| `Circular.NegativeIncrementFails` | platform/CMSIS/Include/arm_math.h:6096-6107 | one step back from slot 0 of a ring of four stores 65535 and the next call is out of bounds |
| `Circular.NegativeIncrementInBoundsIff` | platform/CMSIS/Include/arm_math.h:6096-6100 | the accesses of one call with a negative increment stay in the buffer exactly when no update before the last has to wrap |
| `Circular.SteepIncrementInBoundsIff` | platform/CMSIS/Include/arm_math.h:6096-6100 | the accesses of one call with an increment above L stay in the buffer exactly when the surpluses do |
| `Circular.OffsetStorableIff` | platform/CMSIS/Include/arm_math.h:6106-6107 | the 16-bit offset keeps every ring position exactly for L <= 65536 |
| `Circular.WriteSplits` | platform/CMSIS/Include/arm_math.h:6070-6108 | one call with two blocks equals two calls, for any increment, and the 16-bit store between them loses nothing |
| `Circular.CallsAreOneWrite` | platform/CMSIS/Include/arm_math.h:6070-6108 | any sequence of calls equals one call with all samples, stored offsets included |
| `Circular.RingHoldsHistory` | platform/CMSIS/Include/arm_math.h:6070-6108 | each slot holds the most recent sample whose number is congruent to it, untouched slots their old content |
| `Circular.RunHoldsHistory` | platform/CMSIS/Include/arm_math.h:6070-6108 | the same over any sequence of calls, with the offset counting samples mod L |
| `Circular.RingRoundTrip` | platform/CMSIS/Include/arm_math.h:6070-6165 | writing up to L samples and reading them back reproduces them in order across both wraps, touches nothing else and ends at the same position, which the 16-bit store keeps exactly when it is below 65536 |
| `Circular.WriteThenRead` | platform/CMSIS/Include/arm_math.h:6070-6165 | the same on the heap: the two returned offsets are equal and the block has arrived |
| `Nvic.ReplaceByteLanes` | platform/CMSIS/Include/core_cm0plus.h:716-717 | the read-modify-write sets one byte of a word and keeps the other three |
| `Nvic.StoredField` | platform/CMSIS/Include/core_cm4.h:1571-1573 | the stored byte is the priority's implemented bits, left-aligned over zeros |
| `Nvic.CortexM0.SetPriority` | platform/CMSIS/Include/core_cm0plus.h:713-721 | the interrupt's own byte lane becomes its implemented bits, left-aligned, and every other lane is kept |
| `Nvic.CortexM0.GetPriority` | platform/CMSIS/Include/core_cm0plus.h:735-742 | the interrupt's own byte lane without its unimplemented low bits, below 2^bits |
| `Nvic.CortexM4.SetPriority` | platform/CMSIS/Include/core_cm4.h:1568-1574 | the interrupt's own byte becomes its implemented bits, left-aligned, and every other byte is kept |
| `Nvic.CortexM4.GetPriority` | platform/CMSIS/Include/core_cm4.h:1588-1595 | the interrupt's own byte without its unimplemented low bits, below 2^bits |
| `Nvic.SetRefines` | platform/CMSIS/Include/core_cm0plus.h:713-721 | setting the same priority on both cores keeps words and bytes in step, lane by lane |
| `Nvic.GetAgrees` | platform/CMSIS/Include/core_cm0plus.h:735-742 | both cores then read the same priority |
| `Nvic.RunRefines` | platform/CMSIS/Include/core_cm0plus.h:713-742 | for every sequence of calls the packed words refine the byte arrays and every interrupt reads the same |
| `Nvic.SetThenGetPlain` | platform/CMSIS/Include/core_cm4.h:1568-1595 | an interrupt reads back its implemented bits and no other interrupt changes |
| `Nvic.SetThenGetPacked` | platform/CMSIS/Include/core_cm0plus.h:713-742 | the same on the packed words |
| `Nvic.DecodePriority` | platform/CMSIS/Include/core_cm4.h:1638-1649 | the two outputs are the quotient and remainder fields of the priority, the subpriority max(0, group mod 8 + bits - 7) bits wide and the preemption min(bits, 7 - group mod 8) |
| `Nvic.FieldsFillPriority` | platform/CMSIS/Include/core_cm4.h:1616-1617 | the widths as functions of group mod 8, and that they always add up to the implemented bits |
| `Nvic.EncodedValue` | platform/CMSIS/Include/core_cm4.h:1610-1623 | the encoding is positional with these widths of group mod 8, and below 2^bits |
| `Nvic.DecodeEncode` | platform/CMSIS/Include/core_cm4.h:1610-1649 | decoding an encoded pair returns both fields reduced to their widths |
| `Nvic.EncodeDecode` | platform/CMSIS/Include/core_cm4.h:1610-1649 | encoding a decoded priority is the identity below 2^bits |
| `Nvic.EncodeIsLexicographic` | platform/CMSIS/Include/core_cm4.h:1610-1623 | numeric order of encodings is the order of (preemption, subpriority) |
| `Nvic.PriorityRoundTrip` | platform/CMSIS/Include/core_cm4.h:1568-1649 | encode, set, get, decode on the packed core returns both fields |
| `Packetiser.PacketsPacketise` | EtherCOM/EtherCOM/TcpForm.cs:147-167 | the packets concatenate to the text, all but the last have eight elements, none is empty, and there are ceil(n/8) |
| `Packetiser.PacketisationUnique` | EtherCOM/EtherCOM/TcpForm.cs:147-167 | no other packet list meets those promises |
| `Packetiser.TcpForm.SendOverIP` | EtherCOM/EtherCOM/TcpForm.cs:172-185 | a write appends one packet, or closes the link and clears the flag |
| `Packetiser.TcpForm.SendText` | EtherCOM/EtherCOM/TcpForm.cs:145-168 | sends the packets of the text's bytes in order through the reused buffer: after what the peer had, character by character mod 256, all of it exactly when the connection takes ceil(n/8) writes |
| `Packetiser.SameCuts` | EtherCOM/EtherCOM/RsForm.cs:48-68 | the serial sender cuts the same text at the same places |
| `Packetiser.WriteAllIsPrefix` | EtherCOM/EtherCOM/TcpForm.cs:172-185 | the peer gets exactly the first packets the connection takes |
| `Packetiser.ReceivedIsPrefix` | EtherCOM/EtherCOM/TcpForm.cs:145-185 | one line: the peer's byte k is character k mod 256, it has all of them exactly when ceil(n/8) writes succeed, and a text of characters below 256 arrives as typed |
| `Packetiser.SessionIsPrefix` | EtherCOM/EtherCOM/TcpForm.cs:110-185 | any number of lines: the peer has a prefix of everything typed, each character mod 256, and everything while the flag is set; characters below 256 arrive as typed |
| `Packetiser.RsForm.SendText` | EtherCOM/EtherCOM/RsForm.cs:41-72 | writes the packets of the text in order to the serial port |

## Left out

- RecipQ15: the least input -0x8000 and zero are excluded, as for RecipQ31; how near the result of a negative input comes to its reciprocal is decided by two wrapping steps and not bounded.
- RecipQ31: nothing is stated about the value for a negative table entry, which no table of reciprocals has. The most negative input and zero are excluded; the first makes `-in` overflow and the shift count wrap, on the second the count of leading zeros does not terminate.
- Ssat: widths 0 and 32 are excluded; the source's loop runs 2^32 - 1 times for the first and overflows its bound for the second.
- CircularWrite: the memory cells holding the offsets are not part of the arrays. The same holds for CircularRead.
- BelowRangeReturnsFirstIffQ31: tables above the 2^12 entries the source documents are excluded; there no coordinate reads the last entry unweighted, and which cells come out constant depends on the entries bit by bit.
- BilinearInterpQ15: requires that the table holds the four entries of every cell that passes the bounds test, as the source reads them unchecked. The same holds for BilinearInterpQ7.
- LinearInterpQ31: tables of zero or more than 2^31 values are excluded; the first have no entry to return, for the second the cast of `nValues - 1` is negative. The same holds for LinearInterpQ15.
- The contents of `armRecipTableQ31` and `armRecipTableQ15` are not part of this model: they are declared, not defined, in the headers. The table is a parameter.
- The initialisation functions of the controllers are declared only; the constructors clear the state and take the derived gains, as the documentation describes.
- `arm_bilinear_interp_q31`: its last shift can wrap near the most negative entries; the Q15 form carries the bounds.
- The floating-point functions, and the filters, transforms, matrix and statistics functions that are declared only.
- The remaining lane functions (`__SHSUB16`, `__SHASX`, `__SMLAD` and the like): the same halving, crossing and packing as in the functions modelled.
- Enable, pending and reset functions of the interrupt controller: single register stores.
- The decimal and hexadecimal branches of the TCP sender, and everything of the client that is windows, sockets, threads or reconnection. A connection is a number of writes it still takes.
- The serial port's character encoding and exceptions.
- Board setup, drivers, interrupt dispatch, demos and the operating system layer.
