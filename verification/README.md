# Verified model of the CMSIS fixed-point and register code

A Dafny 4.11 model of the parts of CMSIS this firmware builds on that have bodies of their own: the saturating and
narrowing primitives, the Newton reciprocals, the PID controllers, the Clarke and Park transforms, table
interpolation, the strided circular buffers, the MPU region loaders, the interrupt priority registers and the
software bit operations. `dafny verify dfyconfig.toml` checks the whole project.

Conventions:

- Machine integers are mathematical integers; every C conversion that can change a value is written out
  (`ToInt32`, `ToUint32`, ...), and `>> k` is floor division by 2^k. Bit manipulation of registers uses bit-vectors.
- What the source updates in place is a class or an array; its methods are tied to step functions, and the laws are
  proved about those functions, over whole runs where there are runs.
- Packed 16-bit pairs are little-endian, the first element in the low half.

| file | content |
|---|---|
| `Bits.dfy` | powers of two, bitwise "and" and its masks |
| `FixedPoint.dfy` | conversions, clips, 32 x 64 product, saturating addition |
| `Reciprocal.dfy` | leading zeros, normalisation, the two Newton reciprocals |
| `Pid.dfy`, `PidRuns.dfy` | the Q15 controller in both builds; whole runs |
| `PidQ31.dfy`, `PidF32.dfy` | the wrapping Q31 controller; the float controller over the reals |
| `VectorTransforms.dfy` | Clarke, Park and their inverses |
| `Interpolation.dfy` | linear and bilinear interpolation |
| `OrderedStores.dfy`, `CircularBuffer.dfy` | ordered stores; the circular copies |
| `CircularLaws.dfy`, `DestinationWrap.dfy` | the number theory of slots; where a read puts its samples |
| `MpuV8.dfy`, `MpuV7.dfy` | the two region loaders |
| `Nvic.dfy`, `PriorityGroups.dfy` | priority registers of both ports; priority grouping |
| `BitReverse.dfy` | the software bit reversal |

Main results:

- **Reciprocals.** One Newton step obeys an exact identity: the scaled new residual is the square of the old one plus
  one non-negative term for each of the two dropped remainders. So the output never overestimates, no clip fires and
  no cast is lossy, and a seed within 2^55 (Q31) or 2^23 (Q15) of the ideal product ends within 2^38 or 2^17.
- **PID.** Every unsaturated Q15 run tracks the textbook sum from below by less than one LSB a sample, and being
  unsaturated is exactly what it takes to produce the unbounded outputs. On every run the DSP build drifts
  above the plain build by at most one LSB per negative sample, and by nothing when A0 >= 0; the bound is reached. No
  overflow of the Q31 controller on the way is visible in its output, which is the unbounded output modulo 2^32.
- **Interpolation.** Monotone in non-negative inputs on non-decreasing tables. Less than 1 + 1/32 (linear), 1 + 1/4096
  (bilinear Q7) and 1 + 1/16 + 2^-14 (bilinear Q15) below the documented interpolation, whose weights sum to one where
  those of the code do not, and at most 1/32, 1/4096 and 1/16 above it.
- **Circular buffers.** The offset stays in the buffer under an exact condition on the arguments. Slots repeat with
  period L / gcd(stride, L); that decides when slots are distinct, when a lap fills the buffer, and, as an equivalence,
  when reading back returns what was written. The destination of a read runs on, laps, or laps once, as its stride
  divides the way to its end and its length.
- **Region loaders.** The banked loaders leave the region file as setting one region at a time does; for a table built
  with the Armv7 macro that is field by field the last setting for each region.
- **Priorities.** Both register layouts are one map from interrupt to priority; grouping is a bijection that keeps
  lexicographic order and puts the binary point of the register field above bit "group".

Where the code and its documentation disagree the model follows the code, and a lemma says exactly when they agree:

- `clip_q31_to_q7` and `clip_q63_to_q15` are not clamps on all inputs (`ClipQ31ToQ7ClampsIff`, `ClipQ63ToQ15ClampsIff`;
  failing inputs in `ClipQ31ToQ7Wraps`, `ClipQ63ToQ15Wraps`).
- `arm_pid_q31` is documented to saturate its truncated accumulator before y[n-1] is added, and wraps it
  (`SaturatesIff`, `SaturationMissing`). If the saturation is read as one of the whole sum, that is missing too
  (`SumSaturatesIff`, `WrapExample`).
- `arm_clarke_q31` is documented to run no risk of overflow, but casts a product that may not fit
  (`ClarkeProductFitsIff`, `ClarkeSaturatesIff`, `ClarkeOverflowExample`).
- `arm_park_q31` and `arm_inv_park_q31` are documented likewise; products of two -1.0 are cut (`ParkSaturatesIff`,
  `InvParkSaturatesIff`, `ParkOverflowExample`).
- The linear interpolations are documented for 2^12 table entries; the index is signed, so only the first 2^11 + 1 can
  have an influence (`EntryMattersIff`).
- The Q15 and Q7 linear interpolations drop by one LSB from input -1 to input 0 when the first entry is positive
  (`MonotoneIff`, `MonotoneFails`).
- The bilinear guard compares the column index with the number of rows and conversely
  (`GuardIsDocumentedIff`, `GuardExample`).
- The circular copies mention negative strides but only wrap upward (`OffsetsInsideIff`, `NegativeStrideLeaves`).
- The circular writes take a 32-bit length but hand back a 16-bit offset, so in longer buffers a following write may go
  elsewhere (`ReturnedContinuesIff`, `WritesDoNotCompose`).

## Model

| member | source | states |
|---|---|---|
| FixedPoint.ClipQ63ToQ31 | CMSIS/arm_math.h:589-594 | the high-word test makes this the exact clamp to 32 bits, for every 64-bit input |
| FixedPoint.ClipQ31ToQ15 | CMSIS/arm_math.h:619-624 | the exact clamp to 16 bits |
| FixedPoint.ClipQ31ToQ7ClampsIff | CMSIS/arm_math.h:609-614 | the Q7 clip is a clamp exactly outside the band that fits 24 bits but not 8 (apart from accidental hits) |
| FixedPoint.ClipQ63ToQ15ClampsIff | CMSIS/arm_math.h:599-604 | the Q15 clip is a clamp of x >> 15 exactly outside the band that fits 32 bits but not 31 |
| FixedPoint.Mult32x64 | CMSIS/arm_math.h:629-635 | splitting the 64-bit operand loses nothing: floor(x * y / 2^32) for all operands |
| FixedPoint.QAdd | CMSIS/arm_math.h:935-940 | the clamped mathematical sum |
| FixedPoint.QSub | CMSIS/arm_math.h:946-951 | the clamped mathematical difference |
| FixedPoint.SaturatingOpsNonExpansive | CMSIS/arm_math.h:935-951 | both operations are monotone and never widen a difference |
| FixedPoint.Ssat | CMSIS/cmsis_gcc.h:1315-1331 | the clamp to the given width for widths 1..32, the identity otherwise |
| Reciprocal.Clz | CMSIS/cmsis_iccarm.h:501-514 | the count of leading zeros brackets the input between two powers of two, also for zero |
| Reciprocal.NewtonIdentity | CMSIS/arm_math.h:671-678 | exact error law of one step: new residual in terms of the old one and of the two dropped remainders |
| Reciprocal.NewtonBounds | CMSIS/arm_math.h:671-678 | on normalised inputs a step stays in range, stays strictly below the ideal product, and contracts quadratically |
| Reciprocal.RefineQ31Law | CMSIS/arm_math.h:670-678 | the two loop passes take a residual of at most 2^55 in magnitude below 2^38, still positive |
| Reciprocal.RefineQ15Law | CMSIS/arm_math.h:721-729 | the two loop passes take a residual of at most 2^23 in magnitude below 2^17, still positive |
| Reciprocal.RecipStepQ31 | CMSIS/arm_math.h:673-677 | the loop body with its conversions equals the exact Newton step: no wrap, no clip |
| Reciprocal.RecipStepQ15Lossless | CMSIS/arm_math.h:723-727 | the same for Q15, whose cast is not clipped at all |
| Reciprocal.RecipQ31 | CMSIS/arm_math.h:640-685 | the exponent names the normalised input; the output is two exact steps from its table entry, never overestimates, and is within 2^38 for a good table; a zero input saturates exactly for a first entry above one quarter |
| Reciprocal.RecipQ15 | CMSIS/arm_math.h:691-736 | the same for Q15, within 2^17; a zero input never gives the largest value |
| Reciprocal.RefineQ31OfZeroIff | CMSIS/arm_math.h:670-678 | on a zero input the two passes saturate exactly for seeds above one quarter |
| Reciprocal.RefineQ15OfZero | CMSIS/arm_math.h:721-729 | on a zero input the two unclipped passes reach the largest value for no seed |
| Reciprocal.RefineQ15OfZeroWraps | CMSIS/arm_math.h:721-729 | a seed for which they come back negative |
| Reciprocal.IdealSeedQ31Suffices | CMSIS/arm_math.h:661-667 | a table of midpoint reciprocals meets the hypothesis on seeds for every normalised input |
| Reciprocal.IdealSeedQ15Suffices | CMSIS/arm_math.h:712-718 | the same for the Q15 table |
| Pid.PidQ15.Process | CMSIS/arm_math.h:4897-4934 | one call is one step on exact integers, saturated: no intermediate cast or 64-bit sum loses anything |
| Pid.PidQ15Dsp.Process | CMSIS/arm_math.h:4904-4934 | one call of the DSP build, on the packed words, is the exact sum of the plain build plus the product of the sign halves |
| Pid.SmlaldOfPacked | CMSIS/cmsis_gcc.h:1938-1953 | on packed operands the dual multiply adds both remaining products to the 64-bit accumulator exactly |
| Pid.SmlaldEmulationFitsIff | CMSIS/arm_math.h:999-1008 | in builds without the instruction the emulation's 32-bit sum of the two products overflows exactly when both words are 0x80008000 |
| Pid.SmuadOfSignExtended | CMSIS/arm_math.h:4908 | on sign-extended operands the dual multiply adds one exactly when both are negative |
| PidRuns.TextbookIncrement | CMSIS/arm_math.h:4762-4768 | with the derived gains one correction is the increment of Kp x + Ki sum x + Kd (x - previous x) |
| PidRuns.IdealApproximatesTextbook | CMSIS/arm_math.h:4762-4768 | flooring each step never overshoots the textbook sum and loses less than one unit a sample, at any scale |
| PidRuns.RunIsIdealIff | CMSIS/arm_math.h:4913-4930 | a run produces the unbounded outputs throughout exactly when none of them leaves the Q15 range |
| PidRuns.PidQ15TracksTextbook | CMSIS/arm_math.h:4897-4934 | 2^15 y <= textbook < 2^15 (y + number of samples) for every unsaturated run |
| PidRuns.RunNonExpansive | CMSIS/arm_math.h:4913-4930 | saturation included, a higher starting output stays higher and the gap never grows |
| PidRuns.DspBuildDrift | CMSIS/arm_math.h:4904-4930 | on every run from any common state, through saturation, the DSP build is above the plain one by at most the number of negative samples, and equal to it for A0 >= 0 |
| PidRuns.DspBuildDriftReached | CMSIS/arm_math.h:4904-4918 | for every n up to 2^15 - 1 a run of n samples on which the builds end n apart |
| PidQ31.Pid.Process | CMSIS/arm_math.h:4851-4880 | one call is one step whose output is the exact sum modulo 2^32, although the accumulator may have wrapped |
| PidQ31.OverflowInvisible | CMSIS/arm_math.h:4867-4871 | accumulator overflow does not reach the bits that are kept |
| PidQ31.RunIsIdealWrapped | CMSIS/arm_math.h:4851-4880 | after any run the output is the unbounded output modulo 2^32 |
| PidQ31.PidQ31TracksTextbook | CMSIS/arm_math.h:4851-4880 | a final output that fits tracks the textbook sum, whatever overflowed on the way |
| PidQ31.SaturatesIff | CMSIS/arm_math.h:4844-4871 | a step equals the documented one, truncated accumulator saturated and then y[n-1] added, exactly when the products sum to less than 2^62 in magnitude or are all (-1.0)(-1.0) |
| PidQ31.SumSaturatesIff | CMSIS/arm_math.h:4867-4871 | a step equals the saturated whole sum exactly when that sum fits or wraps onto the limit |
| PidF32.Pid.Process | CMSIS/arm_math.h:4818-4836 | one call is one step, over the reals |
| PidF32.RunIsTextbook | CMSIS/arm_math.h:4762-4768 | every run computes the textbook sum exactly, over the reals |
| VectorTransforms.ClarkeRoundTrip | CMSIS/arm_math.h:5033-5138 | the inverse returns Ia exactly and Ib within -3..+1 |
| VectorTransforms.ClarkeProductFitsIff | CMSIS/arm_math.h:5047-5048 | the 2/sqrt(3) product survives its cast exactly for abs(Ib) <= 0x6ED9EBA1 |
| VectorTransforms.ClarkeSaturatesIff | CMSIS/arm_math.h:5041-5051 | the second component is the saturated exact sum for exactly the same Ib, whatever Ia is |
| VectorTransforms.ClarkeOverflowExample | CMSIS/arm_math.h:5028-5051 | a full-scale positive input gives a negative component |
| VectorTransforms.InvClarkeSaturates | CMSIS/arm_math.h:5119-5138 | the inverse cuts no product: for every input the first output is Ialpha and the second the saturated exact difference |
| VectorTransforms.ConstantsAreRoots | CMSIS/arm_math.h:5045-5134 | the three constants are 1/sqrt(3), 2/sqrt(3) and sqrt(3)/2 rounded down to their formats |
| VectorTransforms.ProductFitsIff | CMSIS/arm_math.h:5234-5245 | a Park product survives its cast unless both factors are -1.0 |
| VectorTransforms.ParkSaturatesIff | CMSIS/arm_math.h:5221-5252 | the first output is the saturated exact sum exactly when neither product is (-1.0)(-1.0); the second is the saturated exact difference exactly when both are or neither is |
| VectorTransforms.InvParkSaturatesIff | CMSIS/arm_math.h:5324-5355 | the same for the inverse, sum and difference exchanged |
| VectorTransforms.ParkOverflowExample | CMSIS/arm_math.h:5234-5248 | inputs whose exact result 1.0 comes out as -1.0 in both transforms |
| VectorTransforms.ParkRoundTrip | CMSIS/arm_math.h:5223-5355 | the inverse returns each input times sin^2 + cos^2 within 4 and 5 LSB whenever nothing is cut or saturated |
| VectorTransforms.ParkRoundTripOnDisc | CMSIS/arm_math.h:5223-5355 | that holds for every vector six LSB short of full scale and every sine and cosine in the unit disc |
| Interpolation.IndexAndFraction | CMSIS/arm_math.h:5540-5555 | the masks split any input, negative ones too, into floor and rest |
| Interpolation.LinearInterpQ15IsInterpolate | CMSIS/arm_math.h:5525-5567 | the Q15 code, uncut, is the shared interpolation |
| Interpolation.LinearInterpQ7IsInterpolate | CMSIS/arm_math.h:5582-5624 | the Q7 code, with its different test order and masks, is the same interpolation |
| Interpolation.CellRange | CMSIS/arm_math.h:5557-5566 | inside a cell the result stays between the exact results at the cell's ends |
| Interpolation.InterpolateMonotone | CMSIS/arm_math.h:5525-5624 | monotone over all non-negative inputs on non-decreasing tables, across cells and into the clamp |
| Interpolation.InterpolateError | CMSIS/arm_math.h:5557-5566 | inside a cell the result is the weighted sum of its two entries rounded down, so the linear interpolation with weights summing to one up to 1/32 above and 1 + 1/32 below |
| Interpolation.OutsideTable | CMSIS/arm_math.h:5540-5547 | below the table the first entry is returned, above it the last, for any table |
| Interpolation.EntryMattersIff | CMSIS/arm_math.h:5522-5624 | in a table of any length exactly the first 2^11 + 1 entries can change a result |
| Interpolation.MonotoneIff | CMSIS/arm_math.h:5525-5624 | monotone over all inputs exactly for one entry or a non-positive first entry |
| Interpolation.AccumulatorQ7IsTwoStep | CMSIS/arm_math.h:7049-7064 | the four accumulated products, uncut, are linear interpolation in x and then in y |
| Interpolation.CellInTableIff | CMSIS/arm_math.h:7029-7048 | the code interpolates exactly in the cells of the guarded range whose four entries exist |
| Interpolation.CornersAreEntries | CMSIS/arm_math.h:6746-6750 | there it reads elements (i, j), (i + 1, j), (i, j + 1), (i + 1, j + 1) of the layout i + j numCols |
| Interpolation.BilinearQ7Law | CMSIS/arm_math.h:7004-7068 | the Q7 result is the two-step interpolation of those entries rounded down and lies between the exact results for the extreme ones |
| Interpolation.AccumulatorQ15NearTwoStep | CMSIS/arm_math.h:6970-6989 | the accumulator is the two-step sum less the four dropped remainders, each times its weight: less than 45 * 2^20 |
| Interpolation.BilinearQ15Law | CMSIS/arm_math.h:6926-6994 | the Q15 result is the two-step interpolation of the entries or one below, within the extreme entries less one |
| Interpolation.BilinearQ7Error | CMSIS/arm_math.h:6746-6765 | written out on the table entries, the Q7 result is the documented interpolation up to 1/4096 above and 1 + 1/4096 below |
| Interpolation.BilinearQ15Error | CMSIS/arm_math.h:6746-6765 | written out on the table entries, the Q15 result is the documented interpolation up to 1/16 above and 1 + 1/16 + 2^-14 below |
| Interpolation.OutsideGridIsZero | CMSIS/arm_math.h:7027-7032 | outside the guarded range both results are zero |
| Interpolation.GuardIsDocumentedIff | CMSIS/arm_math.h:7029-7032 | the guard is the documented table test exactly when rows and columns agree up to the index range, or one is zero |
| CircularBuffer.CircularWrite | CMSIS/arm_math.h:5891-5929 | for every stride that stays inside, negative ones too, slot (start + k inc) mod L holds source element base + k srcInc unless a later pass has that slot, all other positions are unchanged, and the offset is that of n passes, (start + n inc) mod L when 0 <= inc <= L, cut to 16 bits |
| CircularBuffer.StoredIsWritten | CMSIS/arm_math.h:5909-5926 | storing the source elements in order at the slots has exactly that effect |
| CircularBuffer.CircularRead | CMSIS/arm_math.h:5935-5986 | the destination holds the contents of slots (start + k inc) mod L in order, through its own wrap; the offset is that of n passes, (start + n inc) mod L when 0 <= inc <= L |
| DestinationWrap.RunsOnIff | CMSIS/arm_math.h:5965-5970 | the destination pointer never wraps exactly when start + k inc never lands on the end |
| DestinationWrap.PassesEnd | CMSIS/arm_math.h:5965-5970 | so it runs on for ever if the stride does not go up or does not divide the way to the end |
| DestinationWrap.FirstLanding | CMSIS/arm_math.h:5965-5970 | a stride that divides the way to the end goes back to the base after exactly that many passes |
| DestinationWrap.Laps | CMSIS/arm_math.h:5965-5970 | if it divides the length too, position k is base + (start - base + k inc) mod length for ever |
| DestinationWrap.LapsOnce | CMSIS/arm_math.h:5965-5970 | if it does not divide the length, the pointer goes back once and then runs on from the base |
| DestinationWrap.UnitStrideLaps | CMSIS/arm_math.h:5965-5970 | with stride one, position k is base + (start - base + k) mod length |
| DestinationWrap.LappedContents | CMSIS/arm_math.h:5959-5983 | after a read that laps its destination each position holds the last sample sent there and nothing outside changes |
| CircularBuffer.ReturnedContinuesIff | CMSIS/arm_math.h:5909-5928 | the 16-bit offset handed back continues the sequence of slots exactly when the next slot is below 2^16 |
| CircularBuffer.WritesCompose | CMSIS/arm_math.h:5891-5929 | in that case writing m and then n samples from the returned offset is writing m + n, for every stride that stays inside |
| CircularBuffer.WritesDoNotCompose | CMSIS/arm_math.h:5928 | two one-sample writes at the cut, L = 70000, that differ from one write of two |
| CircularBuffer.OffsetsInsideIff | CMSIS/arm_math.h:5909-5926 | the offsets of n passes all lie in the buffer exactly for strides 0..L, or while a stride outside them has not yet run past an end |
| CircularBuffer.NegativeStrideLeaves | CMSIS/arm_math.h:5919-5922 | a negative stride whose second pass is outside the buffer |
| OrderedStores.LastWriterWins | CMSIS/arm_math.h:5909-5926 | each position holds the last sample stored there, or its old value |
| CircularLaws.SlotsCoincideIff | CMSIS/arm_math.h:5919-5922 | two passes hit the same slot exactly when L / gcd(inc, L) divides their distance |
| CircularLaws.SlotsDistinctIff | CMSIS/arm_math.h:5909-5926 | n passes hit distinct slots exactly when n <= L / gcd(inc, L) |
| CircularLaws.FullLapReturns | CMSIS/arm_math.h:5909-5929 | L passes return the offset to its start |
| CircularLaws.FullLapFillsIff | CMSIS/arm_math.h:5909-5929 | L passes fill every slot exactly when no number above one divides both stride and length |
| CircularLaws.ReadBackIff | CMSIS/arm_math.h:5891-5986 | reading back returns the block exactly when samples that share a slot agree |
| CircularLaws.WriteThenRead | CMSIS/arm_math.h:5891-5986 | a block no longer than the period arrives unchanged in a linear destination |
| MpuV8.Mpu.SetRegionEx | CMSIS/mpu_armv8.h:248-253 | sets one region wholly and selects it |
| MpuV8.Mpu.OrderedMemcpy | CMSIS/mpu_armv8.h:281-288 | stores the words one after another, none past the last alias |
| MpuV8.Mpu.LoadEx | CMSIS/mpu_armv8.h:296-321 | the region file is as after setting the regions one at a time, for every count and every power-of-two alias count; RNR is left at the region for one row, else at the base of the last group |
| MpuV8.StoreRows | CMSIS/mpu_armv8.h:311-320 | rows copied into alias pairs of an aligned RNR land on consecutive regions |
| MpuV8.SetInTurnIsSplice | CMSIS/mpu_armv8.h:290-295 | setting in turn replaces exactly the named regions and touches no other |
| MpuV8.TargetReplacesLowBits | CMSIS/mpu_armv8.h:311-320 | an alias pair stays in the group of RNR and replaces its low bits |
| MpuV8.AlignMask | CMSIS/mpu_armv8.h:305-306 | the mask rounds the region number down to its alias group |
| MpuV7.Mpu.Load | CMSIS/mpu_armv7.h:261-271 | the device is as after setting the regions in table order, for every count and alias count |
| MpuV7.Mpu.SetRegion | CMSIS/mpu_armv7.h:218-222 | the effect of one table row |
| MpuV7.ValidBit | CMSIS/core_cm4.h:1253-1254 | the VALID test is bit 4 |
| MpuV7.SetRegionOfFields | CMSIS/mpu_armv7.h:218-222 | a row with VALID selects and wholly configures the region in its low four bits, a row without it the one selected before |
| MpuV7.RbarFields | CMSIS/mpu_armv7.h:75-78 | the macro's masks keep the address above bit 4 and the number below |
| MpuV7.RbarDecoded | CMSIS/mpu_armv7.h:75-78 | the macro's value is valid and names its region and its address |
| MpuV7.MacroTableLoaded | CMSIS/mpu_armv7.h:261-271 | after loading a table built with the macro each region has the last setting for it, or what it had |
| MpuV7.ValidTableIsStored | CMSIS/mpu_armv7.h:261-271 | with VALID set in every row the last row for a region decides it |
| MpuV7.LoadIdempotent | CMSIS/mpu_armv7.h:261-271 | loading a valid table again leaves the regions unchanged |
| Nvic.BaselineNvic.SetPriority | CMSIS/core_armv8mbl.h:1447-1459 | the read-modify-write replaces one lane of one word |
| Nvic.BaselineNvic.GetPriority | CMSIS/core_armv8mbl.h:1471-1482 | reads that lane |
| Nvic.PackedIndices | CMSIS/core_armv8mbl.h:1239-1241 | the index macros, in unsigned arithmetic, give word irq / 4 and lane irq mod 4 for interrupts and exceptions |
| Nvic.LanesAssemble | CMSIS/core_armv8mbl.h:1447-1482 | the lanes are the four bytes of the word, least significant first |
| Nvic.PackedSetBytes | CMSIS/core_armv8mbl.h:1447-1459 | a write changes byte irq mod 4 of word irq / 4 (of word (irq + 8) / 4 for exceptions) to the shifted priority, and no other byte of any word |
| Nvic.PackedGetBits | CMSIS/core_armv8mbl.h:1471-1482 | a read takes that byte, whatever wrote it, less its unimplemented bits |
| Nvic.PackedGetAfterSet | CMSIS/core_armv8mbl.h:1447-1482 | after a write that interrupt reads back modulo 2^PRIO_BITS and all others are unchanged |
| Nvic.MainlineNvic.SetPriority | CMSIS/core_armv81mml.h:2382-2392 | stores one byte |
| Nvic.MainlineNvic.GetPriority | CMSIS/core_armv81mml.h:2404-2415 | reads one byte |
| Nvic.ByteSetGetBytes | CMSIS/core_armv81mml.h:2382-2415 | a write stores the shifted priority in byte irq (byte irq + 12 for exceptions) only, and a read shifts that byte down |
| Nvic.ByteGetAfterSet | CMSIS/core_armv81mml.h:2382-2415 | the same law for the byte layout |
| Nvic.BothPortsAsExpected | CMSIS/core_armv8mbl.h:1447-1482 | after any writes both ports return the last priority written, reduced, or the initial one |
| Nvic.PortsAgreeIff | CMSIS/core_armv81mml.h:2382-2415 | the ports agree on an interrupt exactly when it was written or they agreed before |
| PriorityGroups.WidthsPartition | CMSIS/core_armv81mml.h:2435-2436 | the two widths add up to PRIO_BITS despite the unsigned wrap-around |
| PriorityGroups.BinaryPoint | CMSIS/core_armv81mml.h:2431-2466 | priorities preempt alike exactly when their 8-bit fields agree above bit "group" |
| PriorityGroups.DecodeEncode | CMSIS/core_armv81mml.h:2429-2467 | decoding undoes encoding, up to reduction to the widths |
| PriorityGroups.EncodeDecode | CMSIS/core_armv81mml.h:2429-2467 | encoding undoes decoding on implemented priorities |
| PriorityGroups.EncodedOrderIsLexicographic | CMSIS/core_armv81mml.h:2429-2442 | encoded priorities compare lexicographically by preemption, then subpriority |
| BitReverse.Rbit | CMSIS/cmsis_gcc.h:990-1002 | bit i of the input is bit 31 - i of the result, early exit and unmasked high bits notwithstanding |
| BitReverse.MirrorMovesBits | CMSIS/cmsis_gcc.h:990-1002 | the same bit by bit, in shifts |
| BitReverse.MirrorTwice | CMSIS/cmsis_iccarm.h:516-527 | reversing twice is the identity |

## Left out

- Reciprocal.RecipQ31: inputs below zero are not modelled, because C leaves the left shift of a negative number undefined; `RecipQ15` likewise.
- The contents of the reciprocal tables are not part of this model; they are a parameter with a hypothesis, which an ideal table is shown to meet.
- CircularBuffer.CircularWrite: requires that the offset stays in the buffer and that no 32-bit addition to it overflows, because C leaves anything else undefined, and a source that does not alias the buffer; `CircularRead` likewise.
- Pid.PidQ15Dsp.Process: the dual multiplies are the instructions' arithmetic, read off the emulations with the 64-bit addition of `smlald`; inline assembly itself has no meaning here.
- Interpolation.BilinearQ7Law: covers cells whose four corners lie in the table; reads past it are outside C's rules. `BilinearQ15Law` likewise.
- Interpolation.BilinearQ7Error: covers the same cells; `BilinearQ15Error` likewise.
- Floating-point rounding: `arm_pid_f32` is modelled over the reals, and the other floating-point variants are left out.
- Functions of `arm_math.h` without a body (filters, FFT, matrices, statistics, PID initialisation): nothing to decide.
- The per-lane SIMD emulations other than the two the PID uses, `arm_linear_interp_q31` and the Q31 bilinear variant: more of the same arithmetic.
- Stores to unimplemented MPU regions, barriers, MAIR attributes and the Non-secure aliases; the Armv7 device has the 16 regions its REGION field can name.
- Priority bits a device leaves unimplemented are modelled as stored; reads shift them out.
- Inline assembly, compiler builtins, exclusive accesses, SAU, ITM, SysTick and vector tables.
- The application, its drivers and lwIP.
