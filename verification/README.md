# Verified models of the pyCircuit designs

Dafny models of the parts of pyCircuit that carry real state or arithmetic, with the properties
the repository promises of them proved for every input and every run:

* the five-stage RV32I core (`designs/rv32i_core`), from its pipeline registers up to the
  instruction set it implements;
* the integer-only floating-point kernels (`examples/functional_float`), against exact rationals,
  square roots and series;
* the two-memory DMA and the BF16 multiply-accumulate (`examples/dma`, `examples/bf16_fmac`),
  against the oracles in their drivers;
* the duplicate-key scan over JSON text (`compiler/tools/link.cpp`) and the canonical
  configuration parser and printer (`runtime/model_input.cpp`).

`dafny verify dfyconfig.toml` checks the whole project.

## How the models are built

**Words.** Fixed-width words are naturals; every place where the hardware wraps, truncates or
shifts bits out is written out as a remainder. Bitwise operators are `Bits.Bitwise`, one bit at a
time. Code that assigns fields and locals step by step is a method or a class, proved equal to a
function of the old state; the theorems are about those functions.

**The core.** `Rv32Core.Core.Step` is one clock cycle. Instruction memory, data memory and faults
are a `Platform`; each cycle the bus may make either port wait for as long as it likes.
`Rv32Machine` executes one instruction at a time with the core's own decoder and datapath, and
`Rv32Reference` with the instruction set's: an abstract syntax of RV32I, its encoding, and its
effect on registers and byte-addressed memory (RISC-V Unprivileged ISA, chapter 2), in integer
arithmetic that shares no operator with the datapath. The main
theorem, `Rv32Implementation.PipelineImplementsIsa`, joins them: whatever the waits and faults, the
retirement records and the architectural state are those of the sequential execution.

**Floating point.** A finite value is a natural number of units of 2^-4096, the scale the kernels'
biased exponents count from. `FloatValue.Nearest` says that a word is the nearest to an exact
result, given as a quotient or a square root, with ties to even; `NearestIsBest` and
`BestIsNearest` show that this is what minimizing the distance means. Every operation is proved to
return the nearest word of the exact result, infinity past the largest finite one, an inexact flag
that tells whether anything was lost, and an underflow flag whose relation to tininess is exact. The
lemma that carries most of them is `FloatSticky.TrackRounds`: a word whose lowest bit stands for
everything below it rounds as the exact value does. The logarithm is compared with partial sums of
the atanh series, in reals.

**Designs with an oracle.** The DMA's counting controllers and the FMAC's registers are related to
the driver's deadlines and optional results by a simulation that every edge keeps, resets included.
What the oracle accounts for is then restated of the DMA's own pins and queues, its two memories are
shown to return the latest write by searching the log of accepted accesses, and a potential on its
nine places bounds how long anything stays inside. The FMAC's words are read as numbers, and its
result is compared with the exact one.

**Text.** The scanner is run on the text of an arbitrary JSON value, spelled with any whitespace
and any escapes. The configuration round trip is proved in both directions, with the exact
condition on names under which it holds.

Where the code and its documentation differ, the models follow the code:

* A faulting fetch does not always trap with cause 1: the word returned with the fault is still
  decoded, and a misaligned jump or access in it replaces the cause.
  `Rv32Implementation.FaultingFetch` gives the exact condition and `OverriddenFetch` an instance.
* A fetch killed before a terminal trap leaves its flag set for good, although nothing is
  outstanding any more: `Rv32Progress.KillFlagAtHalt` says exactly when,
  `KillFlagOutlivesFetch` shows a run.
* `float_to_integer_bits.py` names rounding policies 0 to 5; the code accepts 6 as well (nearest,
  ties upward), and so does the model.
* `float_formats.py` announces tininess after rounding (section 7.5 of IEEE 754-2019), but the flag
  asks whether the packed exponent field is zero. The two differ for the exact values from half a
  unit below the smallest normal number up to, and without, a quarter of a unit below it, and
  nowhere else: `FloatUnderflow.UnderflowIsTiny`. `BandWordHidesUnderflow` is a binary64 word that
  shows it.
* The scale counters of the binary32 and binary64 rounding kernels wrap, and a zero at a large scale
  reports an overflow. `Fp32Round.RoundPackIs` and `Fp64Round.RoundFp64Is` say exactly when; the
  arithmetic kernels stay clear of it, as their own theorems show.

## Model

| member | source | states |
|---|---|---|
| Rv32Stages.ComputeWriteback | designs/rv32i_core/writeback.py:22-101 | the writeback stage as it assigns its fields: store request, retirement record, register write, terminal trap |
| Rv32Stages.ComputeMemory | designs/rv32i_core/memory.py:24-76 | the memory stage: load issue, answer and fault, stage movement, flush behind a fault |
| Rv32Stages.ComputeExecuteLogic | designs/rv32i_core/execute.py:23-87 | the execute stage: forwarding, operand retention while waiting, redirect and kill |
| Rv32Stages.ComputeIssue | designs/rv32i_core/frontend.py:38-79 | the decode half of the front end: load-use hazard, retirement bypass, issue |
| Rv32Stages.ComputeFetch | designs/rv32i_core/frontend.py:89-116 | the fetch half: launch, killed and accepted responses, outstanding request |
| Rv32Stages.ComputeFrontend | designs/rv32i_core/frontend.py:22-119 | the whole front end, later assignments overriding earlier ones |
| Rv32Arithmetic.ComputeArithmetic | designs/rv32i_core/arithmetic.py:8-98 | the datapath: value, branch decision, target, and which trap wins |
| Rv32Decoder.ComputeDecoder | designs/rv32i_core/decoder.py:8-150 | the decoder: immediates, control and legality of every 32-bit word |
| Rv32Decoder.ComputeReadLoad | designs/rv32i_core/types.py:165-177 | lane selection and extension of loaded data |
| Rv32Core.Core.constructor | designs/rv32i_core/types.py:196-197 | the reset state |
| Rv32Core.Core.Step | designs/rv32i_core/core.py:13-28 | one cycle: the five stage calls composed, the state committed at once |
| Rv32Core.RunningCycle | designs/rv32i_core/core.py:13-28 | the next state of a running core, field by field from the old state and the bus |
| Rv32Core.RunningPins | designs/rv32i_core/core.py:13-28 | the fetch port, the single data request and the retirement record of a running core |
| Rv32Structure.FetchUnitKept | designs/rv32i_core/frontend.py:80-119 | every running cycle keeps: a kill flag means an outstanding fetch, never an outstanding fetch with a full buffer, an unkilled fetch is for the next program counter |
| Rv32Structure.TrapOrderKept | designs/rv32i_core/memory.py:59-70 | every running cycle keeps: a trap has nothing younger behind it, and only a trap stops the front end |
| Rv32Ports.ReachableStructure | designs/rv32i_core/core.py:13-28 | both hold in every state reachable from reset, on any bus |
| Rv32Operands.DecoderAnnounces | designs/rv32i_core/decoder.py:30-150 | every control word the decoder produces announces the operands its operation reads |
| Rv32Operands.PacketReadsUsed | designs/rv32i_core/arithmetic.py:8-98 | the visible result depends on an operand only if the decoder said it is used |
| Rv32Refinement.AdvancingOperand | designs/rv32i_core/execute.py:41-63 | when execute advances, each operand it uses is the register value left by all older instructions in flight |
| Rv32Refinement.WaitingOperand | designs/rv32i_core/execute.py:41-63 | an operand held through a stall stays right for the stages the older instructions move into |
| Rv32Refinement.CycleRefines | designs/rv32i_core/core.py:13-28 | each cycle either retires exactly the next sequential instruction or changes nothing architectural, and keeps the chain of program counters and in-flight results |
| Rv32Refinement.RunRefines | designs/rv32i_core/core.py:13-28 | the same over a whole run from any simulated state |
| Rv32Refinement.PipelineRefines | designs/rv32i_core/writeback.py:22-101 | from reset, the retirement sequence is the sequential trace, and registers, program counter and memory after k retirements are those after k steps |
| Rv32Isa.EncodingIsExact | designs/rv32i_core/decoder.py:8-150 | a word encodes at most one instruction, the one decoding finds, and decoding finds nothing else |
| Rv32Conformance.ArithmeticShiftIs | designs/rv32i_core/arithmetic.py:11-41 | the mask-and-fill right shift is floored division of the signed value |
| Rv32Conformance.LogicalBits | designs/rv32i_core/arithmetic.py:11-41 | bit k of AND, OR and XOR is the product, the larger and the sum modulo two of the operands' bits k, for all 32 of them |
| Rv32Conformance.LogicalAdds | designs/rv32i_core/arithmetic.py:11-41 | XOR plus twice AND, and OR plus AND, are the sum of the operands |
| Rv32Reference.RegisterReads | designs/rv32i_core/frontend.py:64-65 | x0 reads as zero, every other register as it was last written |
| Rv32Conformance.StoreWritesBytes | designs/rv32i_core/types.py:159-161 | a masked, lane-shifted store changes exactly the addressed bytes, lowest first |
| Rv32Implementation.EveryWordConforms | designs/rv32i_core/decoder.py:8-150 | every 32-bit word, illegal ones included, has through decoder and datapath the effect the instruction set gives it, defined by sums, signed values and common bits |
| Rv32Implementation.FaultingFetch | designs/rv32i_core/frontend.py:38-43 | a faulting fetch always traps; its cause and value are those of a misaligned access, else of a misaligned jump, in the word returned with it, and otherwise cause 1 at the program counter, which is if and only if the word holds neither |
| Rv32Implementation.OverriddenFetch | designs/rv32i_core/arithmetic.py:81-93 | a faulting first fetch that the sequential machine, and the pipeline five cycles after reset, report with cause 0 |
| Rv32Implementation.StepConforms | designs/rv32i_core/arithmetic.py:8-98 | one sequential step has the instruction set's effect; its record agrees too unless a fetch fault was overridden |
| Rv32Implementation.PipelineImplementsIsa | designs/rv32i_core/core.py:13-28 | for every program, memory, wait and fault pattern the pipeline's architectural state is the instruction set's after as many instructions, and its records are the instruction set's trace if and only if no fetch fault was overridden |
| Rv32Ports.DataRequestStable | designs/rv32i_core/memory.py:36-58 | an unanswered data request is repeated unchanged in the next cycle |
| Rv32Ports.FetchRequestStable | designs/rv32i_core/frontend.py:89-116 | so is an unanswered fetch, unless a terminal trap drops it |
| Rv32Ports.DataRequestOrder | designs/rv32i_core/writeback.py:33-45 | a load is issued only with no store still in writeback, and only the retiring instruction issues a store |
| Rv32Ports.DataRequestAligned | designs/rv32i_core/memory.py:36-58 | every data request goes to the aligned word that holds its instruction's address |
| Rv32Ports.ResetFetches | designs/rv32i_core/types.py:84-97 | out of reset every register is zero and the first fetch is from 0x8000_0000 |
| Rv32Ports.RetirementsNumbered | designs/rv32i_core/writeback.py:46-86 | in every run the retirements are numbered one after another, modulo 2^64 |
| Rv32Progress.HaltedIsFinal | designs/rv32i_core/frontend.py:135-147 | a halted core never changes and never retires |
| Rv32Progress.TrapHalts | designs/rv32i_core/writeback.py:87-94 | a cycle halts the core if and only if it retires a trap |
| Rv32Progress.TrapIsLast | designs/rv32i_core/writeback.py:87-94 | in every run a trap is the last retirement, and the run ends halted if and only if it has one |
| Rv32Progress.KillFlagAtHalt | designs/rv32i_core/frontend.py:135-147 | at a terminal trap every stage is emptied, and a kill flag without an outstanding fetch remains if and only if a killed fetch was outstanding |
| Rv32Progress.FiveCyclesTrap | designs/rv32i_core/core.py:13-28 | every word that traps at the reset address is the only retirement of the first five cycles, with its cause, and leaves the machine halted |
| Rv32Progress.KillFlagOutlivesFetch | designs/rv32i_core/frontend.py:135-147 | a reset run of five cycles that ends so |
| Rv32Progress.LoadInterlock | designs/rv32i_core/frontend.py:44-79 | an instruction that reads the load right ahead of it stays in decode behind a bubble; any other issues as soon as execute has room |
| Rv32Progress.RankFalls | designs/rv32i_core/frontend.py:54-116 | a cycle without a retirement lowers a rank on the oldest work if and only if that work does not wait: an instruction in decode or later for the data port alone, an empty pipeline for its fetch |
| Rv32Progress.SilenceIsWaiting | designs/rv32i_core/frontend.py:54-116 | in a run without retirements all but at most five cycles wait in that sense: no stall deadlock |
| FloatValue.NearestIsBest | examples/functional_float/float_formats.py:74-144 | the nearest word is at least as close as any other, and even if another is equally close |
| FloatValue.BestIsNearest | examples/functional_float/float_formats.py:74-144 | and a word no farther than its neighbours, even on a tie, is the nearest |
| FloatValue.NearestUnique | examples/functional_float/float_formats.py:74-144 | at most one word is the nearest to an exact value |
| FloatFormats.FormatsAre | examples/functional_float/float_formats.py:22-41 | fraction bits, bias, largest exponent and sign position of the four selectors |
| FloatFormats.OneIs | examples/functional_float/float_formats.py:43-71 | in every format the word with exponent field bias and no fraction has the value one |
| FloatFormats.UnpackIs | examples/functional_float/float_formats.py:43-71 | unpacking gives significand and scale of the word's value, and its class: zero, infinite, NaN, signalling |
| FloatFormats.PackRounds | examples/functional_float/float_formats.py:74-158 | every 128-bit magnitude at every 13-bit scale packs in each of the four formats to the nearest-even word, subnormals, carries and overflow included, inexact exactly when it differs |
| FloatFormats.PackFlags | examples/functional_float/float_formats.py:135-144 | when packing is inexact and when it underflows, in terms of the rounded word and the exact value |
| FloatUnderflow.TinyIsUnbounded | examples/functional_float/float_formats.py:1-5 | a value is tiny if and only if, rounded to nearest even with unbounded exponent, it stays below the smallest normal number |
| FloatUnderflow.UnderflowIsTiny | examples/functional_float/float_formats.py:135-144 | for every exact value and its nearest word, the code's rule is inexact and tiny if and only if the value lies outside a band between the last midpoint and a quarter unit below the smallest normal number |
| FloatUnderflow.PackUnderflow | examples/functional_float/float_formats.py:74-144 | the same of the packer's flags, for every magnitude, scale and format |
| FloatUnderflow.RoundsUnderflow | examples/functional_float/fp32_product.py:153-232 | the same of every response that rounds as products, quotients, square roots and integers do |
| FloatUnderflow.BandWordHidesUnderflow | examples/functional_float/float_convert.py:14-40 | a binary64 word whose binary32 conversion is tiny and inexact and raises no underflow |
| FloatSticky.JamRounds | examples/functional_float/float_fused.py:17-22 | jamming discarded bits into the lowest bit never changes a later rounding that drops two bits or more |
| FloatSticky.TrackRounds | examples/functional_float/float_fused.py:17-22 | a word that compares with every even number of its units as the exact value does rounds as it does |
| FloatFused.FusedRounds | examples/functional_float/float_fused.py:25-94 | in all four formats the fused result is the exact a*b+c rounded once, with overflow, underflow and inexact decided by that rounding and the sign of zero of IEEE 754-2019 section 6.3 |
| FloatUnderflow.FusedUnderflow | examples/functional_float/float_fused.py:25-94 | its underflow flag is inexact and tiny if and only if the exact result lies outside the band |
| FloatExceptions.FusedExceptions | examples/functional_float/float_fused.py:69-94 | every operand triple with an infinity or a NaN: result, a quiet NaN where there is none, invalid exactly for a signalling NaN, infinity times zero and opposite infinities, no other flag |
| FloatConvert.ConvertRounds | examples/functional_float/float_convert.py:14-40 | conversion returns the destination word nearest the exact value, with overflow, underflow and inexact decided by that rounding |
| FloatUnderflow.ConvertUnderflow | examples/functional_float/float_convert.py:14-40 | its underflow flag is inexact and tiny if and only if the value lies outside the band of the destination |
| FloatConvert.ConvertIdentity | examples/functional_float/float_convert.py:14-40 | within a format it returns the word itself, without flags |
| FloatConvert.WideningRoundTrip | examples/functional_float/float_convert.py:14-40 | widening is exact and narrowing back gives the same word |
| FloatConvert.ConvertMonotone | examples/functional_float/float_convert.py:14-40 | for every pair of formats conversion keeps numeric order, infinities included |
| FloatConvert.QuietNanIs | examples/functional_float/float_fused.py:78-83 | the NaN every kernel returns is a NaN, does not signal and has its sign bit clear, in every format |
| FloatConvert.QuietNanWords | examples/functional_float/float_fused.py:78-83 | its four words |
| FloatExceptions.ConvertExceptions | examples/functional_float/float_convert.py:14-40 | infinities and NaNs convert to infinities and the quiet NaN of the destination, invalid exactly for a signalling one |
| Fp32Round.ComputeRightBarrel64 | examples/functional_float/fp32_product.py:71-102 | the seven-stage barrel shifter is a right shift with a sticky bit for everything shifted out |
| Fp32Round.ComputeLeftBarrel64 | examples/functional_float/fp32_product.py:105-112 | the five-stage barrel shifter is a left shift within 64 bits |
| Fp32Round.RoundPackIs | examples/functional_float/fp32_product.py:153-232 | for every 64-bit magnitude and 11-bit scale, the binary32 rounding kernel gives the nearest word and the exact flags if and only if the scale of the leading one does not wrap (for a zero: if and only if the scale is below 640) |
| Fp64Round.RoundFp64Is | examples/functional_float/fp64_round.py:26-81 | for every 128-bit magnitude and 13-bit scale, the binary64 rounding kernel packs as the common packer does if and only if the scale of the leading one does not wrap (for a zero: if and only if the scale is below 5120) |
| FloatArithmetic.OperandIs | examples/functional_float/fp32_product.py:54-68 | the operand records give significand, scale, sign and class of the word, signalling NaNs told apart |
| FloatArithmetic.Product32Rounds | examples/functional_float/fp32_product.py:235-269 | the binary32 product is the exact product rounded once, with all flags decided by that rounding |
| FloatArithmetic.Product64Rounds | examples/functional_float/fp64_product.py:8-34 | the same in binary64 |
| FloatExceptions.ProductExceptions | examples/functional_float/fp64_product.py:8-34 | products with infinities and NaNs: a quiet NaN or a signed infinity, invalid exactly for infinity times zero and signalling NaNs, no other flag |
| FloatQuotient.QuotientTracks | examples/functional_float/fp32_divide.py:26-43 | the integer quotient with its remainder bit compares with every even number as the exact quotient does, and is long enough to round |
| FloatQuotient.Quotient32Rounds | examples/functional_float/fp32_divide.py:23-61 | the binary32 quotient by a non-zero divisor is the exact quotient rounded once, with all flags decided by that rounding |
| FloatQuotient.Quotient64Rounds | examples/functional_float/fp64_divide.py:8-45 | the same in binary64 |
| FloatQuotient.QuotientExceptions | examples/functional_float/fp64_divide.py:28-45 | all other operand pairs: which give a quiet NaN, an infinity or a zero, exactly when they are invalid, and when division by zero is signalled |
| FloatSqrt.ComputeDigits | examples/functional_float/float_sqrt.py:40-42 | the 55-step loop |
| FloatSqrt.DigitsAccount | examples/functional_float/float_sqrt_step.py:13-25 | after k steps root^2 + remainder is the top 2k bits of the radicand, the remainder at most twice the root, and the radicand register holds the bits still to come |
| FloatSqrt.RootTracks | examples/functional_float/float_sqrt.py:28-50 | 55 digits and a sticky bit compare with every even number as the exact square root does |
| FloatSqrt.SquareRootRounds | examples/functional_float/float_sqrt.py:10-69 | the square root of every non-negative finite word, both widths and subnormals included, is the exact root rounded once; it never overflows and is never subnormal |
| FloatSqrt.SquareRootExceptions | examples/functional_float/float_sqrt.py:22-69 | negative words and NaNs give a quiet NaN, infinity itself, and exactly when the operation is invalid |
| FloatSqrt.ComputeSquareRoot | examples/functional_float/float_sqrt.py:10-69 | the whole kernel with its loop |
| FloatLaws.DivisionUndoesProduct32 | examples/functional_float/fp32_divide.py:23-61 | where a binary32 product is exact, dividing it by one factor returns the other, sign included |
| FloatLaws.DivisionUndoesProduct64 | examples/functional_float/fp64_divide.py:8-45 | the same in binary64 |
| FloatLaws.RootUndoesSquare | examples/functional_float/float_sqrt.py:10-69 | where a square is exact, its square root is the magnitude squared |
| FloatLog.MultiplyShiftIs | examples/functional_float/fp32_log_step.py:13-30 | the four-partial-product multiply is floor(x*y / 2^80) for all 80-bit operands |
| FloatLog.ComputeSeries | examples/functional_float/fp32_log.py:26-29 | the 24-step loop |
| FloatLog.StepsAreClose | examples/functional_float/fp32_log_step.py:33-36 | after k floored steps the total never exceeds the exact partial sum and is short by at most 1 + 19k/12 units |
| FloatLog.SeriesIsClose | examples/functional_float/fp32_log.py:19-29 | after 24 steps it is at most 39 units short of that partial sum and fewer than 40 short of the series carried any further |
| FloatLog.LnTwoIsClose | examples/functional_float/fp32_log.py:37 | the constant is ln 2 rounded down to a unit of 2^-80 |
| FloatLog.LogIsClose | examples/functional_float/fp32_log.py:13-62 | the logarithm of every positive finite word is a fixed-point number within 80 + \|e\| units of 2^-80 of ln, negative exactly below one and zero exactly at one, rounded once; it never overflows or underflows |
| FloatLog.LogOfOne | examples/functional_float/fp32_log.py:45-62 | the logarithm of one is a positive zero without flags |
| FloatExceptions.LogExceptions | examples/functional_float/fp32_log.py:45-62 | zero gives minus infinity, negative words and NaNs a quiet NaN, infinity itself; exactly when the operation is invalid |
| FloatIntegral.PolicyChooses | examples/functional_float/float_to_integer_bits.py:38-65 | the increment logic selects, for each of the seven policies, the integer the policy defines |
| FloatIntegral.ChosenUnique | examples/functional_float/float_to_integer_bits.py:53-65 | no policy selects two integers for one value |
| FloatIntegral.IntegerBitsConverts | examples/functional_float/float_to_integer_bits.py:13-100 | for every finite word, width 1 to 64, signedness and policy: the policy's integer, overflow if and only if the width cannot hold it, then wrapped into the width or clamped to its ends |
| FloatExceptions.IntegerBitsExceptions | examples/functional_float/float_to_integer_bits.py:78-100 | NaN gives zero and infinity the end on its side, both invalid |
| FloatIntegral.FromIntegerRounds | examples/functional_float/float_from_integer.py:11-66 | every 64-bit integer, signed or not, becomes the nearest word of each format |
| FloatRoundIntegral.RoundIntegralChooses | examples/functional_float/float_round_integral.py:13-53 | every finite word under every policy keeps its sign and takes the value of the integer the policy selects, inexact exactly when that changes it |
| FloatRoundIntegral.SmallIsIntegral | examples/functional_float/float_round_integral.py:33-40 | below the boundary the way back from the integer is exact |
| FloatRoundIntegral.LargeIsIntegral | examples/functional_float/float_round_integral.py:33-40 | from the boundary on the word is integral already |
| FloatRoundIntegral.RoundIntegralIdempotent | examples/functional_float/float_round_integral.py:13-53 | rounding again, by the same or another policy, changes nothing and is not inexact |
| FloatRoundIntegral.IntegralFlags | examples/functional_float/float_round_integral.py:26-53 | the flags of every finite word, and the empty response to a policy that does not exist |
| FloatExceptions.RoundIntegralExceptions | examples/functional_float/float_round_integral.py:26-53 | infinities are kept and NaNs made quiet, invalid exactly for a signalling one |
| DmaDesign.MemoryController.Accept | examples/dma/dma.py:113-123 | accepting a request: read before write, and the new controller state |
| DmaDesign.ReadsBack | examples/dma/dma.py:113-123 | a write is read back at its own address modulo 16 and changes no other word |
| DmaDesign.MemoryController.AdvanceLatency | examples/dma/dma.py:96-101 | waiting: the word read is captured once, the countdown falls |
| DmaDesign.Dma.ServeDram | examples/dma/dma.py:61-137 | the DRAM's rules of one edge: which request it takes, what it finishes |
| DmaDesign.Dma.ServeSram | examples/dma/dma.py:141-215 | the SRAM's |
| DmaDesign.Dma.Edge | examples/dma/dma.py:219-282 | one rising edge of the whole design, every rule on the state before it, the copy transfer atomic |
| DmaOracle.EdgeImplements | examples/dma/driver.cpp:75-111 | every edge, resets included, keeps the relation between countdowns and deadlines, read registers and recorded words |
| DmaOracle.DesignRefinesOracle | examples/dma/driver.cpp:36-112 | on every input stream the design shows at every edge what the oracle expects |
| DmaHistory.RunConserves | examples/dma/driver.cpp:103-106 | on every run no queue exceeds its capacity and sent = retired + canceled + pending |
| DmaHistory.RunAccounts | examples/dma/dma.py:61-282 | on every run of the oracle everything sent since the last reset is on its path in order; each response is its request with the word its memory held just before acceptance, given by replaying the accepted accesses; a copy writes into the SRAM the word read from the DRAM |
| DmaHistory.EndpointsInOrder | examples/dma/dma.py:219-282 | every endpoint of the oracle is answered in order, each response with the tag and both addresses of its own request |
| DmaProgress.DesignConserves | examples/dma/dma.py:219-282 | no queue of the design exceeds its depth, and what went in under valid and ready has come out under valid and take, was dropped by a reset or is inside |
| DmaProgress.DesignAccounts | examples/dma/dma.py:219-282 | the accounting of requests, answers and memory contents, of the design's own queues, controllers and pins |
| DmaProgress.MemoriesRemember | examples/dma/dma.py:61-215 | on every run, resets included, each access either memory accepts finds what the latest earlier write to its word wrote, or the zero of power-on |
| DmaProgress.LogsAreAccesses | examples/dma/dma.py:61-215 | the accesses since the last reset are those the answers are accounted from |
| DmaProgress.DesignInOrder | examples/dma/dma.py:219-282 | every endpoint sees at the pins its answers in order, each with the tag and both addresses of its own request |
| DmaProgress.EdgeSinks | examples/dma/dma.py:61-215 | with responses taken and nothing offered, every edge lowers a potential that is zero only when nothing is inside |
| DmaProgress.DesignDrains | examples/dma/dma.py:219-282 | from every reachable state such a pause of 74 edges empties the design, and every request since the last reset has been answered |
| DmaProgress.SeedStarves | examples/dma/dma.py:219-282 | without the pause there is no bound: a seed waits for as long as copies keep coming |
| FmacMultiplier.CarrySaveSum | examples/bf16_fmac/bf16_fmac.py:153-154 | a carry-save row keeps the sum of three numbers |
| FmacMultiplier.RippleIs | examples/bf16_fmac/bf16_fmac.py:157-187 | the full-adder chain adds, with its carry out |
| FmacMultiplier.MultiplierIsExact | examples/bf16_fmac/bf16_fmac.py:326-348 | partial products, the carry-save tree across the register and the carry-select adder give the exact 8x8-bit product |
| FmacPipeline.PackedIs | examples/bf16_fmac/bf16_fmac.py:248-313 | the priority chain and the barrel shifters normalize to the leading one |
| FmacPipeline.StagesEvaluate | examples/bf16_fmac/driver.cpp:29-70 | for every operand triple the four stages compute the driver's evaluate |
| FmacAccuracy.WordFields16 | examples/bf16_fmac/bf16_fmac.py:100-125 | a BF16 word is its sign, exponent and fraction |
| FmacAccuracy.SignLaw | examples/bf16_fmac/driver.cpp:29-70 | flipping the signs of a and acc flips bit 31 of the result and nothing else, except that nothing left is the zero word both times |
| FmacAccuracy.EvaluateIsClose | examples/bf16_fmac/driver.cpp:29-70 | while no exponent wraps, the result is within 262 units in the last place of the larger summand of the exact a*b+acc, the bit lost by halving the product included; a zero or subnormal factor leaves the accumulator exactly |
| FmacAccuracy.ExponentWrapsAround | examples/bf16_fmac/driver.cpp:29-70 | operands past that range, 2^127 squared, that give 0.25 |
| FmacStream.Fmac.Advance | examples/bf16_fmac/bf16_fmac.py:317-375 | one rising edge: all four boundaries commit together, the result holds across bubbles |
| FmacStream.StreamShows | examples/bf16_fmac/driver.cpp:180-220 | on every input stream, resets included, registers and outputs are the driver's |
| FmacStream.FourEdgesLater | examples/bf16_fmac/driver.cpp:180-220 | four edges after a valid input its value is at the output; after a bubble the last result is still held |
| JsonKeys.UniqueJsonKeys | compiler/tools/link.cpp:314-351 | the scanning loop with its stack of key sets, undefined where it would pop an empty stack or read past the end |
| JsonKeys.ReadLiteral | compiler/tools/link.cpp:323-347 | one string literal: its end, which a trailing backslash puts past the text, whether a colon follows, and whether the decoded key is new |
| JsonKeys.ScanJson | compiler/tools/link.cpp:314-351 | over the text of any value at any depth the scan returns to its state, unless an object in it repeats a key |
| JsonKeys.ScanDecides | compiler/tools/link.cpp:307-351 | on every valid JSON text, with any whitespace, nesting and escaped spelling, the scan never pops an empty stack, never reads past the end, and accepts if and only if every object has pairwise distinct decoded keys |
| JsonKeys.SampleIsSpelled | compiler/tools/link.cpp:307-309 | a value with an escaped quote in a key, all four kinds of whitespace, an empty object and braces in a string is one of those texts |
| ConfigUtf8.IsValidUtf8 | runtime/model_input.cpp:12-48 | the byte loop |
| ConfigUtf8.ValidIsEncoded | runtime/model_input.cpp:12-48 | whatever it accepts is a concatenation of encodings of Unicode scalar values (RFC 3629 section 3) |
| ConfigUtf8.EncodedIsValid | runtime/model_input.cpp:12-48 | and it accepts every such concatenation |
| ConfigParser.Parser.Take | runtime/model_input.cpp:54-59 | a token is consumed exactly when it is there |
| ConfigParser.Parser.UnsignedInteger | runtime/model_input.cpp:65-76 | all digits, no leading zero, a 64-bit value |
| ConfigParser.Parser.String | runtime/model_input.cpp:78-124 | a quoted string with its escapes resolved |
| ConfigParser.PrintQuoted | runtime/model_input.cpp:131-166 | quoting, or nothing when a character has no spelling |
| ConfigParser.PrintConfig | runtime/model_input.cpp:180-203 | the canonical text |
| ConfigParser.ParseModelConfig | runtime/model_input.cpp:207-252 | the parser as it runs, cursor and loop, is the grammar's parse |
| ConfigText.NumberOfDecimal | runtime/model_input.cpp:65-76 | a printed number reads back, and one of more than 64 bits is refused |
| ConfigText.EscapesAre | runtime/model_input.cpp:131-166 | the seven escapes, and which characters have no spelling |
| ConfigText.TextOfQuote | runtime/model_input.cpp:78-166 | a quoted string reads back |
| ConfigGrammar.ParseUndoesPrint | runtime/model_input.cpp:180-252 | parsing the canonical text of any limits returns them if and only if every name is nonempty, well-formed UTF-8 and free of control characters without an escape; otherwise it is refused |
| ConfigGrammar.PrintUndoesParse | runtime/model_input.cpp:207-252 | every accepted text is the empty object or the canonical text of what was read |
| ConfigGrammar.BelowIsPrecedes | runtime/model_input.cpp:224-234 | the order the parser checks is the lexicographic one: decided at the first difference, a proper prefix first |
| ConfigGrammar.NamesInOrder | runtime/model_input.cpp:224-234 | any two names of an accepted text are different and in that order |
| ConfigGrammar.CanonicalSpelled | runtime/model_input.cpp:180-203 | the keys and punctuation of the canonical text, character by character |
| ConfigGrammar.SampleEntries | runtime/model_input.cpp:188-195 | two entries as they are printed |

## Left out

- Rv32Core.Core.Step: models known bits only; four-state values, a reset in the middle of a run and the diagnostic view pins are not claimed about.
- FloatFormats.PackFlags: reads the underflow flag in terms of the rounded word; FloatUnderflow.UnderflowIsTiny relates it to tininess.
- FloatLog.LogIsClose: a bound on the fixed-point error, not correct rounding of the logarithm, which the source does not claim either.
- JsonKeys.ScanDecides: LLVM's string decoder is a parameter, required only to accept the keys of a valid text; the validity check before the scan and the reading of bindings after it are not modelled.
- ConfigParser.ParseModelConfig: the error messages and the partly filled record after a failure are not modelled.
- DmaDesign.Dma.Edge: edges at which the clock does not rise change nothing and are not steps; the driver's stimulus counters are left out; its oracle is a function on values.
- FmacStream.Fmac.Advance: the never-written rows and the row count of the first register are left out; IEEE rounding is not claimed, which this unit does not do; FmacAccuracy.EvaluateIsClose bounds its error.
- FmacAccuracy.EvaluateIsClose: its range of exponents is sufficient, not necessary; outside it a wrapped exponent can be far off, as ExponentWrapsAround shows, or by chance not.
- FmacPipeline.StagesEvaluate: the driver's `evaluate`, which reassigns locals in sequence, is a function on values.
- Payloads of NaNs beyond the canonical quiet one.
- The compiler, linker and emitter drivers, the simulation runtime and the benches: they rest on MLIR libraries and headers outside this model.
- The exponential kernel (`examples/functional_float/fp32_exp.py`) is left out.
- Low-precision casts, comparisons, maxima and the small example designs would only add easy members.
