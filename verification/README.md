# Verified model of the fixed-point kernels, priority registers and send loops

A Dafny model of the parts of this STM32F4 port that do real work in integers, bits and
linked buffers, with proofs over all inputs, all runs and all replies of the network.

- `Arith.dfy`, `FixedPoint.dfy`, `Bits.dfy`: products and rounding division; the Q formats
  with explicit wrap-around and the four clip helpers; `&` and `|` as arithmetic.
- `Reciprocal.dfy`: leading-zero count, normalisation, the 64-entry table and two truncating
  Newton steps.
- `PackedLanes.dfy`: the C emulation of the packed byte and halfword instructions.
- `PidQ31.dfy`, `PidQ15.dfy`: the incremental PID controllers as classes over their gain
  fields and state arrays, compared with the positional form and with each other over runs.
- `Transforms.dfy`: Park and Clarke transforms and their round trips.
- `Interpolation.dfy`: linear (Q7, Q15, Q31) and bilinear (Q7, Q15) table interpolation.
- `CircularBuffer.dfy`: block writes and reads of the delay line as loops over arrays; the
  buffer as the history of a stream; strided access and the gcd. The typed versions in the
  source differ in the element type only, so the methods are generic.
- `NvicPriority.dfy`: priority encoding, and the byte and word register layouts as classes;
  the second refines the first over every run.
- `BitReverse.dfy`: the software bit reversal.
- `Pbuf.dfy`: lwIP's reference-counted buffer chains on the heap.
- `TcpSend.dfy`: the send loop on those chains, and the connection it talks to.
- `TcpServer.dfy`, `TcpClient.dfy`: the callbacks as classes on that heap, tied to value-level
  state machines about which the results over whole runs are proved.

Conventions. Signed machine integers are `int` with ranges; `>>` is division by a power of
two rounding down; a narrowing cast is a Wrap function. A result "times 2^k" is compared
without division, so `Residual` and `ErrorScaled` are errors in scaled units. In the network
model the answers of the TCP layer (room in the send buffer, result of a write) are an
arbitrary function of time.

## What turned out different from the comments

- The Q31 controller's comment (arm_math.h:4821-4826) asks for inputs scaled down by two bits
  and promises saturation. Two thirds of full scale is the limit for the accumulator; even
  past it a wrap of the accumulator cancels in the result. The output wraps
  (`PidQ31.OutputWraps`): it is saturated only where `PidQ31.StepSaturatesExactlyWhen` says.
- `clip_q63_to_q15` and `clip_q31_to_q7` do not clamp everywhere; the exact conditions are in
  the table.
- The circular accesses' comment mentions a negative value of the offset; only the upper end
  is corrected (`CircularBuffer.AdvanceStaysInExactlyWhen`).
- The circular reads' destination comes back to its base only when a step lands exactly on its
  end (`CircularBuffer.CursorStaysExactlyWhen`).
- The Clarke transform's product with 2/sqrt(3) wraps near full scale, although the sum after it
  saturates (`Transforms.ClarkeExactlyWhen`).
- Linear interpolation steps down by one unit when the argument enters a table that starts
  with a positive entry, because the weights sum to 2^20 - 1.
- The bilinear guard (arm_math.h:6916-6921) has rows and columns exchanged: the documented
  table (arm_math.h:6712-6714) has x along a row. It admits arguments outside the grid, some of
  them reading outside the table, and returns zero on cells of a wide or tall grid. The exact
  conditions on the dimensions are in the table.
- A negative input makes the reciprocal return the largest positive value.
- The echo server overwrites its queue when new data arrives or the peer closes: bytes still
  queued are lost, and their buffers stay out of the pool. The same happens when the peer
  resets the connection, because the error callback frees the state and not the chain. It also
  loses what arrives when the pool is empty or after the peer has closed. The client, with the
  same loop, drops nothing itself, but its strict window test never sends a buffer as long as
  the largest window, and a reset leaves its state and chain behind.

## Model

| member | source | states |
|---|---|---|
| FixedPoint.ClipQ63ToQ31Clamps | Libraries/CMSIS/Include/arm_math.h:484-489 | the 63-to-31 clip is the clamp to [-2^31, 2^31) for every 64-bit value |
| FixedPoint.ClipQ31ToQ15Clamps | Libraries/CMSIS/Include/arm_math.h:514-519 | the 31-to-15 clip is the clamp to [-2^15, 2^15) for every 32-bit value |
| FixedPoint.ClipQ63ToQ15ClampsExactlyWhen | Libraries/CMSIS/Include/arm_math.h:494-499 | the 63-to-15 clip saturates if and only if the value is outside 32 bits, inside 31 bits, or happens to keep the right bound after truncation; inside 32 bits it keeps the low 16 bits of the shifted value |
| FixedPoint.ClipQ31ToQ7ClampsExactlyWhen | Libraries/CMSIS/Include/arm_math.h:504-509 | the same for the 31-to-7 clip: right in range, outside 24 bits, or where the low byte is the bound; inside 24 bits it keeps the low byte |
| Reciprocal.Clz | Libraries/CMSIS/Include/arm_math.h:543-556 | the counting loop ends for every non-zero word and its result brackets the word between consecutive powers of two |
| Reciprocal.Normalise | Libraries/CMSIS/Include/arm_math.h:573-583 | the shift loses nothing (n = x * 2^signBits) and brings the magnitude into [2^30, 2^31) for both signs |
| Reciprocal.ReciprocalQ31 | Libraries/CMSIS/Include/arm_math.h:563-608 | for every table and every input the shift is defined for, the loop returns two Newton steps from the entry chosen by the normalised input, with the exact bit count; with the library's table the result is within 12 units below the reciprocal of the raw input if and only if that is positive |
| Reciprocal.StepResidual | Libraries/CMSIS/Include/arm_math.h:594-601 | from any positive approximation one step is the unclipped quotient, is positive, never overestimates, and its scaled error is in (0, e^2/2^61 + 3n] |
| Reciprocal.FourthPower | Libraries/CMSIS/Include/arm_math.h:594-601 | two steps from any positive table entry square the error twice, each time plus one rounding term: the error goes to its fourth power |
| Reciprocal.LibraryTableAccurate | Libraries/CMSIS/DSP_Lib/Source/CommonTables/arm_common_tables.c:21210-21222 | every one of the library's 64 entries is positive and within 1/128 of the reciprocal over its whole segment |
| Reciprocal.LibraryTableIsMeans | Libraries/CMSIS/DSP_Lib/Source/CommonTables/arm_common_tables.c:21210-21222 | every entry is, to the unit, the mean of the reciprocals at the two ends of its segment |
| Reciprocal.ReciprocalAccuracy | Libraries/CMSIS/Include/arm_math.h:563-608 | for every normalised positive input and accurate table the result is below 2^61/n by less than 12 units |
| Reciprocal.NegativeInputSaturates | Libraries/CMSIS/Include/arm_math.h:573-601 | for every normalised negative input both steps run into the clip and the result is 0x7FFFFFFF |
| Reciprocal.ReciprocalExactlyForPositive | Libraries/CMSIS/Include/arm_math.h:563-608 | with the library's table the accuracy bound holds if and only if the input is positive |
| PackedLanes.SsatLoop | Libraries/CMSIS/Include/arm_math.h:666-698 | the doubling loop, in wrapping 32-bit arithmetic, computes the clamp for every width from 1 to 32, including the width at which the bound itself wraps |
| PackedLanes.PackValue | Libraries/CMSIS/Include/arm_math.h:467-470 | the packed word has the four bytes' patterns in little-endian order |
| PackedLanes.UnpackPacked | Libraries/CMSIS/Include/arm_math.h:467-470 | unpacking the masked, or-ed word gives back the four signed bytes |
| PackedLanes.QAdd8OnLanes | Libraries/CMSIS/Include/arm_math.h:710-719 | the packed saturating sum of two packed words is the pack of the four clamped sums |
| PackedLanes.QSub8OnLanes | Libraries/CMSIS/Include/arm_math.h:726-740 | the same for differences |
| PackedLanes.UnpackHalves | Libraries/CMSIS/Include/arm_math.h:454-455 | the halfword pack is inverted by the shift pairs the multiply emulations use |
| PackedLanes.MultiplyValues | Libraries/CMSIS/Include/arm_math.h:886-1010 | SMUAD, SMUSD and SMUADX of packed halfwords are the sums and difference of lane products modulo 2^32; SMLALD adds the sum modulo 2^64, less 2^32 in the corner of all -32768 |
| PackedLanes.ProductSumExact | Libraries/CMSIS/Include/arm_math.h:962-998 | the 32-bit sum of two lane products is exact if and only if not all four lanes are -32768 |
| PackedLanes.ComplexProduct | Libraries/CMSIS/Include/arm_math.h:886-1010 | (SMUSD, SMUADX) is the complex product; the real part always, the imaginary part if and only if the corner is avoided |
| PackedLanes.NormMultiplicative | Libraries/CMSIS/Include/arm_math.h:886-1010 | for every pair of words, corner included, the squared norm of the packed product is SMUAD(x,x) * SMUAD(y,y) |
| PidQ31.Controller.Init | Libraries/CMSIS/DSP_Lib/Source/ControllerFunctions/arm_pid_init_q31.c:61-103 | stores the saturating derived gains and clears the state exactly when asked |
| PidQ31.Controller.Process | Libraries/CMSIS/Include/arm_math.h:4829-4858 | the state array after the update is the specified step of the old one and the returned value is the stored output |
| PidQ31.DerivedGainsExactlyWhen | Libraries/CMSIS/DSP_Lib/Source/ControllerFunctions/arm_pid_init_q31.c:70-94 | the derived gains are Kp+Ki+Kd, -Kp-2Kd, Kd if and only if no saturating sum acts and the negation fits |
| PidQ31.DerivedGainsValue | Libraries/CMSIS/DSP_Lib/Source/ControllerFunctions/arm_pid_init_q31.c:70-94 | in every other case the gains are the saturated sums, in that order, and for A1 their negative |
| PidQ31.RunIsWrappedExact | Libraries/CMSIS/Include/arm_math.h:4829-4858 | for all gains and input sequences the output after a run is the exact unbounded incremental sum reduced to 32 bits: wraps of the 64-bit accumulator never show |
| PidQ31.Telescopes | Libraries/CMSIS/Include/arm_math.h:4742-4745 | without truncation the incremental recurrence is the positional formula over every run |
| PidQ31.IncrementalIsPositional | Libraries/CMSIS/Include/arm_math.h:4742-4858 | after n samples the exact output is below P/2^31 by at least 0 and less than n units, P being the positional form, and the register holds it reduced to 32 bits |
| PidQ31.PositionalExactlyWhen | Libraries/CMSIS/Include/arm_math.h:4829-4858 | the register obeys the positional law if and only if the exact output is a 32-bit value |
| PidQ31.AccumulatorExactThroughout | Libraries/CMSIS/Include/arm_math.h:4829-4842 | for inputs up to two thirds of full scale the 64-bit accumulator is exact on every step of every run |
| PidQ31.NeverOverflowsExactlyWhen | Libraries/CMSIS/Include/arm_math.h:4829-4842 | it is exact on every step of every run with inputs up to a bound, for all gains, if and only if the bound is at most 0x55555555 |
| PidQ31.StepSaturatesExactlyWhen | Libraries/CMSIS/Include/arm_math.h:4846-4849 | one step stores the saturated sum, as the comment promises, if and only if the sum is a 32-bit value or is -3*2^31 |
| PidQ31.RunSaturatesExactlyWhen | Libraries/CMSIS/Include/arm_math.h:4829-4858 | over a run from any state the registers are those of the saturating controller after every sample if and only if every step's sum is one of those |
| PidQ31.FinalSaturatesExactlyWhen | Libraries/CMSIS/Include/arm_math.h:4829-4858 | the register after a run is the clamp of the exact output if and only if that output is a 32-bit value or ends in the bound's own pattern |
| PidQ31.OutputWraps | Libraries/CMSIS/Include/arm_math.h:4846-4849 | two full-scale samples make the output -4: it is not saturated, although the comment says so |
| PidQ15.ScalarController.Process | Libraries/CMSIS/Include/arm_math.h:4876-4916 | one scalar step on the state array |
| PidQ15.DualController.Process | Libraries/CMSIS/Include/arm_math.h:4876-4916 | one dual multiply-accumulate step on the state array, with the packed gain word |
| PidQ15.DualAccumulatorValue | Libraries/CMSIS/Include/arm_math.h:962-998 | the packed accumulator is the scalar one plus the product of the sign-extended high lanes, minus 2^32 in the corner |
| PidQ15.DualTracksScalar | Libraries/CMSIS/Include/arm_math.h:4876-4916 | over every corner-free run from equal state the packed output is never below the scalar one and above it by at most the number of steps with the sign-extension bit, so equal when A0 is not negative |
| PidQ15.StepTracksExactlyWhen | Libraries/CMSIS/Include/arm_math.h:962-971 | one step keeps that bound if and only if the two stored gains and two stored samples are not all -32768 |
| PidQ15.DualTracksExactlyWhen | Libraries/CMSIS/Include/arm_math.h:4876-4916 | the bound holds after every sample of a run from equal state if and only if the run never meets that corner; where it does, the outputs come out on opposite sides of zero whatever was stored |
| Transforms.MulShift31ExactlyWhen | Libraries/CMSIS/Include/arm_math.h:5235-5247 | the shifted product survives its cast to 32 bits if and only if it is not -1 times -1 |
| Transforms.ParkValue | Libraries/CMSIS/Include/arm_math.h:5225-5254 | for every input both coordinates are saturated sums of truncated products, -1 times -1 truncating to -1, and are the sums themselves if and only if those fit |
| Transforms.InverseParkValue | Libraries/CMSIS/Include/arm_math.h:5338-5367 | the same for the inverse |
| Transforms.ParkForward | Libraries/CMSIS/Include/arm_math.h:5225-5254 | below half scale the forward transform is the two sums of truncated products, unwrapped and unsaturated |
| Transforms.ParkRoundTrip | Libraries/CMSIS/Include/arm_math.h:5225-5367 | for every sine and cosine value the round trip returns each coordinate times (s^2+c^2)/2^62, the first within 4 and the second within 5 units, saturated or not |
| Transforms.ParkRoundTripUnsaturated | Libraries/CMSIS/Include/arm_math.h:5338-5367 | with s^2+c^2 at most one the inverse does not saturate |
| Transforms.ClarkeExactlyWhen | Libraries/CMSIS/Include/arm_math.h:5014-5033 | the second coordinate is the saturated sum of the two scaled phases if and only if the product with 2/sqrt(3) fits 32 bits; otherwise that product has wrapped once |
| Transforms.InverseClarkeValue | Libraries/CMSIS/Include/arm_math.h:5111-5130 | for every input the second phase is the saturated difference |
| Transforms.ClarkeForward | Libraries/CMSIS/Include/arm_math.h:5014-5033 | up to half scale the forward transform neither wraps nor saturates |
| Transforms.ClarkeRoundTrip | Libraries/CMSIS/Include/arm_math.h:5014-5130 | up to half scale the first phase returns exactly and the second between 3 units low and 1 unit high |
| Interpolation.LinearQ15Accuracy | Libraries/CMSIS/Include/arm_math.h:5548-5590 | inside a segment the result is within (-33/32, 1/32] of the exact interpolant; outside it is the nearest end of the table |
| Interpolation.LinearStep | Libraries/CMSIS/Include/arm_math.h:5548-5590 | one argument step moves the output by at most one, across segments and table ends too |
| Interpolation.LinearLipschitz | Libraries/CMSIS/Include/arm_math.h:5548-5590 | hence the function is 1-Lipschitz on all 32-bit arguments, for every table |
| Interpolation.LinearMonotoneExactlyWhen | Libraries/CMSIS/Include/arm_math.h:5548-5590 | a non-decreasing table gives a non-decreasing function from 0 up, and on all arguments if and only if its first entry is not positive or is the only one |
| Interpolation.Q7AgreesWithQ15 | Libraries/CMSIS/Include/arm_math.h:5605-5645 | the Q7 form, with its other guard order and unsigned index, returns what the Q15 form returns |
| Interpolation.LinearQ7Laws | Libraries/CMSIS/Include/arm_math.h:5605-5645 | so the Q7 form is 1-Lipschitz, and monotone from 0 up on a non-decreasing table |
| Interpolation.LinearQ7MonotoneExactlyWhen | Libraries/CMSIS/Include/arm_math.h:5605-5645 | and monotone on all arguments under the same condition, if and only if |
| Interpolation.HalvesFit | Libraries/CMSIS/Include/arm_math.h:5490-5532 | the two truncated products always sum into [-2^30, 2^30), so the doubling cannot overflow |
| Interpolation.LinearQ31Accuracy | Libraries/CMSIS/Include/arm_math.h:5490-5532 | inside a segment the result is within (-5, 1] units of the exact interpolant |
| Interpolation.LinearQ31Ends | Libraries/CMSIS/Include/arm_math.h:5505-5511 | beyond the table the first or the last entry is returned, for every table and argument |
| Interpolation.ZeroOutsideGuard | Libraries/CMSIS/Include/arm_math.h:6916-6921 | both bilinear forms return zero for every argument below zero or past the guard's bounds |
| Interpolation.GuardReadsInTableExactlyWhen | Libraries/CMSIS/Include/arm_math.h:6716-6921 | on a table of numRows*numCols entries every argument that passes the guard reads inside the table if and only if the grid is empty or min(numRows, 2048) + numCols*min(numCols, 2048) < numRows*numCols |
| Interpolation.GuardAdmitsOnlyCellsExactlyWhen | Libraries/CMSIS/Include/arm_math.h:6710-6921 | the guard, which compares x with the rows and y with the columns, passes only arguments whose cell is in the grid if and only if the grid is empty or both dimensions exceed 2048 |
| Interpolation.GuardAdmitsAllCellsExactlyWhen | Libraries/CMSIS/Include/arm_math.h:6710-6921 | it passes every cell of the grid if and only if there is no cell or each dimension covers the other's cells, as far as arguments reach |
| Interpolation.ReadsAreCornersExactlyWhen | Libraries/CMSIS/Include/arm_math.h:6710-6945 | the four flat reads are the corners of the argument's own cell if and only if Index(x)+1 < numCols and Index(y)+1 < numRows; past the last column they come from the next row |
| Interpolation.BilinearQ15Accuracy | Libraries/CMSIS/Include/arm_math.h:6892-6960 | for any four entries read: nothing overflows, the result lies between the smallest minus one and the largest, and within (-9/8, 1/16] of their exact bilinear combination |
| Interpolation.BilinearQ7Accuracy | Libraries/CMSIS/Include/arm_math.h:6970-7034 | the same hull and a bound of (-257/256, 1/4096] for the Q7 form |
| Interpolation.BilinearQ15RightExactlyWhen | Libraries/CMSIS/Include/arm_math.h:6715-6960 | for given dimensions, that bound holds against the documented interpolant on every cell of every table if and only if every cell passes the guard |
| Interpolation.BilinearQ7RightExactlyWhen | Libraries/CMSIS/Include/arm_math.h:6715-7034 | the same for the Q7 form |
| CircularBuffer.AdvanceStaysInExactlyWhen | Libraries/CMSIS/Include/arm_math.h:5929-5933 | the one subtraction keeps every offset in the buffer if and only if 0 <= bufferInc <= L |
| CircularBuffer.CircularWrite | Libraries/CMSIS/Include/arm_math.h:5905-5943 | the loop leaves the array and the 16-bit offset as the sample-by-sample ring says, for any source stride |
| CircularBuffer.CircularRead | Libraries/CMSIS/Include/arm_math.h:5949-5999 | the loop leaves the destination and the offset as the ring says, with the destination cursor wrapping |
| CircularBuffer.BlocksAreOneStream | Libraries/CMSIS/Include/arm_math.h:5905-5943 | writing blocks one after the other is writing their concatenation |
| CircularBuffer.BufferIsHistory | Libraries/CMSIS/Include/arm_math.h:5905-5943 | after any sequence of block writes with increment 1 the buffer holds the newest min(T, L) samples, sample t at (w0 + t) mod L |
| CircularBuffer.DelayedWindow | Libraries/CMSIS/Include/arm_math.h:5949-5999 | a read of n samples that starts d + n back returns exactly that window of the stream and touches nothing else in the destination |
| CircularBuffer.OffsetAfterWrite | Libraries/CMSIS/Include/arm_math.h:5805-5843 | the offset after k writes is (w0 + k*bufferInc) mod L |
| CircularBuffer.OffsetAfterRead | Libraries/CMSIS/Include/arm_math.h:5850-5899 | the same for reads |
| CircularBuffer.CursorAfter | Libraries/CMSIS/Include/arm_math.h:5975-5990 | where the destination cursor is after any number of steps: it wraps at the end only when the step divides the length |
| CircularBuffer.CursorStaysExactlyWhen | Libraries/CMSIS/Include/arm_math.h:5975-5990 | the destination is never overrun, however long the read, if and only if the step divides the length |
| CircularBuffer.ReadWraps | Libraries/CMSIS/Include/arm_math.h:5949-5999 | after a read longer than the destination every position holds the last sample that went there |
| CircularBuffer.DistinctExactlyWhen | Libraries/CMSIS/Include/arm_math.h:5805-5843 | the first n accesses hit distinct slots if and only if n * gcd(bufferInc, L) <= L |
| CircularBuffer.StridedRoundTrip | Libraries/CMSIS/Include/arm_math.h:5805-5899 | up to L/gcd samples written and read from one offset come back in order, and both offsets end equal and below L |
| NvicPriority.BinaryPoint | Libraries/CMSIS/Include/core_cm4.h:1747-1783 | what a group means: two handlers whose register bytes hold implemented bits only share a preemption level if and only if the bytes agree above bit g |
| NvicPriority.FieldsShareBits | Libraries/CMSIS/Include/core_cm4.h:1747-1752 | preempt bits plus sub bits are the implemented bits, for every group value |
| NvicPriority.DecodeOfEncode | Libraries/CMSIS/Include/core_cm4.h:1745-1783 | decoding an encoding returns the fields reduced to their widths |
| NvicPriority.EncodeOfDecode | Libraries/CMSIS/Include/core_cm4.h:1745-1783 | encoding a decoded value reduces it modulo 2^bits |
| NvicPriority.EncodeOrder | Libraries/CMSIS/Include/core_cm4.h:1745-1758 | numeric order of encodings is lexicographic order of in-range fields, both directions |
| NvicPriority.ByteNvic.SetPriority | Libraries/CMSIS/Include/core_cm4.h:1698-1708 | byte IRQn + 12 of SHP for a core handler, byte IRQn of IP otherwise, becomes the shifted and masked priority; every other byte of both arrays stays |
| NvicPriority.ByteNvic.GetPriority | Libraries/CMSIS/Include/core_cm4.h:1720-1731 | reads that byte shifted down |
| NvicPriority.WordNvic.SetPriority | Libraries/CMSIS/Include/core_cm0.h:688-700 | byte IRQn mod 4 of word (IRQn + 8) / 4 of SHP, or of word IRQn / 4 of IP, becomes the shifted and masked priority; the other three bytes and all other words stay |
| NvicPriority.WordNvic.GetPriority | Libraries/CMSIS/Include/core_cm0.h:712-723 | reads that byte of that word shifted down |
| NvicPriority.WordSetLanes | Libraries/CMSIS/Include/core_cm0.h:619-700 | a set changes the lane of its own interrupt and no other interrupt's |
| NvicPriority.WordRefinesByte | Libraries/CMSIS/Include/core_cm0.h:619-723 | over every run of sets the packed words return for every interrupt what the flat bytes return |
| NvicPriority.GetReturnsLast | Libraries/CMSIS/Include/core_cm0.h:688-723 | reading after any run returns the last priority set for that interrupt, reduced to the implemented bits |
| NvicPriority.StoredFields | Libraries/CMSIS/Include/core_cm4.h:1698-1783 | encode, set, get, decode returns the reduced fields in both layouts |
| BitReverse.Rbit | Libraries/CMSIS/Include/cmsis_gcc.h:526-545 | the loop ends for every value and bit i of the result is bit 31-i of the input, stale high bits notwithstanding |
| BitReverse.ReverseUnique | Libraries/CMSIS/Include/cmsis_gcc.h:526-545 | the bit law determines the result |
| BitReverse.ReverseInvolution | Libraries/CMSIS/Include/cmsis_gcc.h:526-545 | reversing twice is the identity |
| Pbuf.PbufRef | middle/lwip/src/core/pbuf.c:810-816 | adds one to the 16-bit count of one buffer |
| Pbuf.PbufFree | middle/lwip/src/core/pbuf.c:705-781 | on any chain: exactly the leading buffers with count 1 go back to the pool, the next one loses a count, the rest are untouched; the returned number is theirs modulo 256 |
| Pbuf.TakeNext | USER/tcp_server.c:180-182 | look up next, count it, free the head: the tail stays a chain and keeps its counts, except that the next buffer has one more when the head is shared, being then pointed to by the head and by the caller |
| Pbuf.PoolSizes | middle/lwip/src/core/pbuf.c:300-348 | the sizes the pool cuts a length into: they add up to it, the first fits behind the headers, all but the last are full |
| Pbuf.AllocAndTake | middle/lwip/src/core/pbuf.c:282-352 | a fresh chain over a copy of the data, in the given pieces, every count 1 |
| TcpSend.TcpPcb.Write | middle/lwip/src/core/tcp_out.c:348-349 | all of the bytes are taken or none, as the error reply says |
| TcpSend.Advance | USER/tcp_server.c:178-182 | one accepted buffer of an owned chain goes back to the pool once, the others stay live with count 1 |
| TcpSend.SendChain | USER/tcp_server.c:170-186 | the loop ends and leaves queue, accepted bytes and chain as the value-level loop says, for every sequence of windows and errors |
| TcpSend.SendTakesPrefix | USER/tcp_server.c:175-185 | a call takes the longest prefix of buffers that the replies admit, appends their bytes in order and leaves the rest |
| TcpSend.SendConserves | USER/tcp_server.c:170-186 | accepted bytes followed by queued bytes are the same before and after, whatever the replies |
| TcpSend.DrainsExactlyWhen | USER/tcp_server.c:175-185 | one call empties the queue if and only if every buffer fits and is taken |
| TcpSend.SentOrQueued | USER/tcp_server.c:175-185 | every buffer of the queue is handed over once or still queued |
| TcpSend.QuestionsAsked | USER/tcp_server.c:175-177 | how often a call asks for the window and offers a write: both once for each buffer handed over, then the window for the one that stops it |
| TcpSend.LoopsDifferExactlyWhen | USER/tcpclient.c:177-179 | the client's loop holds back what the server's sends if and only if the buffer is as long as the window |
| TcpServer.CopyOut | USER/tcp_server.c:101-105 | the copying loop collects the payload of the whole chain in order |
| TcpServer.Connection.constructor | USER/tcp_server.c:54-57 | an accepted connection starts with an empty queue |
| TcpServer.Connection.Send | USER/tcp_server.c:170-186 | sent buffers are freed once each, unsent ones stay a chain this connection owns, and the new state is the value-level loop's |
| TcpServer.Connection.Recv | USER/tcp_server.c:77-130 | every branch with its return value: state, queue and accepted bytes as the state machine says; the received chain freed once, or left alone when there is no memory; a queued chain that is overwritten joins the forgotten buffers, which the connection's invariant keeps out of the pool for good |
| TcpServer.Connection.Sent | USER/tcp_server.c:131-142 | resumes sending exactly when something is queued |
| TcpServer.Connection.Poll | USER/tcp_server.c:149-153 | resumes sending, or closes: if and only if the peer has closed and nothing is queued |
| TcpServer.PollCallback | USER/tcp_server.c:143-160 | the same, or an abort when the connection has no state |
| TcpServer.ErrorCallback | USER/tcp_server.c:161-168 | the state is freed with its connection gone: the queued chain joins the forgotten buffers |
| TcpServer.ConservesBetweenAssignments | USER/tcp_server.c:77-186 | as long as no event takes the queue away, under every interleaving, accepted bytes followed by queued bytes stay the same |
| TcpServer.Balance | USER/tcp_server.c:77-186 | over every run, resets included, bytes accepted, queued and lost add up to the bytes there were and the bytes that arrived, whatever the callback then did with them |
| TcpServer.EchoCompleteExactlyWhen | USER/tcp_server.c:77-186 | every byte that arrived is accepted or queued, in order and once, if and only if no callback of the run (a reset's among them) took away queued bytes, and none had new bytes with an error, without buffers in the pool or after the peer closed |
| TcpServer.EchoLost | USER/tcp_server.c:86-114 | one byte, a full window and a closing peer: the byte is lost |
| TcpServer.NothingSentAfterPeerCloses | USER/tcp_server.c:86-90 | after the peer closes nothing more is handed to the TCP layer in any run |
| TcpServer.EndsExactlyWhen | USER/tcp_server.c:77-168 | a run ends the connection if and only if it has a reset, a receive that finds the pool empty before the peer has closed, or a poll after that |
| TcpServer.PeerClosedThenPolledEnds | USER/tcp_server.c:86-90 | a closing of the peer is remembered: whatever comes between, the connection has ended at the next poll |
| TcpServer.DrainsEventuallyExactlyWhen | USER/tcp_server.c:131-186 | with windows up to a size, some run that never takes the queue away sends all of it if and only if no buffer in it is longer than that |
| TcpServer.ServedEventsDrain | USER/tcp_server.c:131-186 | in every such run the final queue and the acknowledgements and polls whose first reply admits the head are together at most the buffers there were, so as many of those events as buffers send everything |
| TcpServer.BufferBalance | USER/tcp_server.c:77-186 | over every run, resets included, the buffers queued at first and those taken from the pool are the ones freed by sending, the ones still queued and the ones forgotten |
| TcpServer.NothingForgottenExactlyWhen | USER/tcp_server.c:77-168 | a run forgets no buffer if and only if every queue that a receive, a closing peer or a reset took away was empty, of buffers and not only of bytes |
| TcpClient.Connected | USER/tcpclient.c:60-95 | queues the message and starts sending; closes without memory or buffers; does nothing on an error |
| TcpClient.Connection.constructor | USER/tcpclient.c:68-79 | the state after the message is queued and sent as far as it goes |
| TcpClient.Connection.Send | USER/tcpclient.c:173-197 | as for the server, with the strict window test |
| TcpClient.Connection.Recv | USER/tcpclient.c:97-135 | the peer's closing starts another round of sending or closes; a received chain is freed once and counted, modulo 2^32, before the peer has closed |
| TcpClient.Connection.Sent | USER/tcpclient.c:136-149 | resumes sending exactly when something is queued |
| TcpClient.Connection.Poll | USER/tcpclient.c:159-166 | resumes sending, or closes: if and only if the peer has closed and nothing is queued |
| TcpClient.PollCallback | USER/tcpclient.c:150-172 | the same, or an abort when the connection has no state |
| TcpClient.ResetByPeer | USER/tcpclient.c:75-78 | no error callback is registered: a dropped connection leaves state and chain as they are |
| TcpClient.LeavesBuffersExactlyWhen | USER/tcpclient.c:60-197 | a run ends without a connection and with buffers still out of the pool if and only if a reset met a queue that was not empty |
| TcpClient.Delivers | USER/tcpclient.c:60-197 | in every run accepted followed by queued bytes are the message, and unless it is reset the connection is closed only after the peer closed and all of it was accepted |
| TcpClient.EndsExactlyWhen | USER/tcpclient.c:97-172 | a run ends the connection if and only if it has a reset, a closing of the peer with nothing queued, or a poll after a closing with nothing queued |
| TcpClient.DrainsEventuallyExactlyWhen | USER/tcpclient.c:97-197 | with windows up to a size, some run of callbacks sends the whole queue if and only if every buffer in it is shorter than that |
| TcpClient.DeliverableExactlyWhen | USER/tcpclient.c:60-197 | from the connected callback on, a message can be delivered against such windows if and only if all its buffers are shorter than the largest |
| TcpClient.ServedEventsDrain | USER/tcpclient.c:97-197 | in every run, as many closings, acknowledgements and polls whose first reply admits the head as there are buffers send everything |
| TcpClient.Stalls | USER/tcpclient.c:177-179 | a head buffer that no window exceeds holds everything up: nothing is sent and the client never closes the connection, in any run |

## Left out

- All floating-point variants, and the library functions that are only declared in arm_math.h.
- `arm_recip_q15`: its step has no clip; nothing is claimed about it.
- Zero and the most negative value as inputs of the reciprocal: the leading-zero loop does not end for zero, and the negation and the shift are undefined for the other.
- The big-endian form of `__PACKq7`, and the packed operations that arm_math.h emulates but the modelled code does not use.
- The bilinear interpolation in Q31: the same scheme with one more truncation.
- The position of the derived gains inside the controller structures: fields are modelled, memory layout is not, except for the packed gain word of the Q15 controller.
- CircularBuffer.CircularWrite: pointers are an array and an index, and source and buffer do not overlap.
- CircularBuffer.CircularRead: offsets whose sum with the increment leaves the signed 32-bit range are excluded, where the source overflows; the destination end is an index; in the source it is a pointer cast to a signed word, which a 32-bit address space allows.
- NvicPriority.WordNvic.SetPriority: interrupt numbers for which the layouts have no register are excluded, as the headers' tables do.
- Barriers and the effect of priorities on the hardware: the registers are plain memory here.
- Pbuf.PbufFree: custom, ROM and RAM buffers go back to different pools in the source; one flag stands for all of them. Locking around the count is not modelled.
- Pbuf.TakeNext: counts below 65535 are required, where the 16-bit increment does not wrap.
- Pbuf.AllocAndTake: written by recursion where `pbuf_alloc` and `pbuf_take` are two loops over one chain, and for pieces of any sizes, of which `Pbuf.PoolSizes` gives the ones used; `len` and `tot_len` are the lengths of payloads.
- TcpSend.TcpPcb.Write: only the all-or-nothing contract; segmentation, queue limits and acknowledgements are not part of this model.
- TcpSend.SendChain: one loop with the window test as a parameter, where the source has two copies.
- TcpServer.Connection.constructor: the refusal of a connection when there is no memory for its state.
- TcpServer.EchoCompleteExactlyWhen: a chain refused for lack of memory counts as arrived only when the TCP layer delivers it again.
- TcpClient.Connected: the text of the message is a parameter.
- TcpClient.Connection.Recv: the copy made for printing.
- Return values of the client's callbacks: two of them are not assigned on every path of the source.
- `tcp_recved` window credit, connection set-up and teardown inside lwIP, callbacks registration, `printf`.
- `udp_server.c`, UART, clock, GPIO and interrupt set-up: hardware and simple copies.
