# A verified model of the NR baseband chain

This Dafny project models the bit-level 5G NR baseband chain of the repository in exact arithmetic
and proves what its parts promise: over GF(2) for the coding layers, over the reals for soft values,
and over pairs of reals for complex samples. Every operation that the program carries out in loops on
mutable state is a Dafny method proved against a specification function. The laws about that
specification are lemmas over all inputs, all runs or all message histories.
`dafny verify dfyconfig.toml` checks everything.

## How the pieces fit

| modules | part of the chain |
|---|---|
| `Gf2`, `LdpcGraph`, `LdpcEncoder`, `LdpcQuasiCyclic` | Gauss-Jordan over GF(2), the lifted parity-check matrix, the systematic encoder, the block rotation symmetry |
| `LdpcDecoder`, `LdpcMessageLaws`, `LdpcMinSum`, `LdpcSymmetry` | normalised min-sum as message passing, the laws its messages obey on the edge list, the imperative decoder that computes it, its symmetries over whole runs |
| `LdpcErasure`, `LdpcErasureRuns`, `LdpcStopping` | agreement with erasure message passing at every iteration, whole runs on erasures, stopping sets |
| `LdpcTables`, `LdpcCodec` | lifting-size selection, graph construction from parameters, the public encode, decode and syndrome functions |
| `NatBits`, `BitReversal`, `ComplexNumbers`, `Dft`, `Fft`, `DftInverse`, `Ofdm` | the in-place radix-2 transform, the quadratic reference transform, inversion, cyclic prefix |
| `Crc`, `Segmentation`, `Scrambling` | shift-register CRC, transport-block segmentation, Gold sequences |
| `Llr`, `RateMatching`, `RateMatchingLaws`, `Harq` | soft bits, the circular buffer, the soft buffer across retransmissions |
| `ComplexMatrix`, `Equalizer`, `Gray`, `Modulation` | complex matrix inversion with pivoting, linear equalisation, Gray-coded QAM with hard and max-log demodulation |
| `Scheduler`, `Fapi`, `FapiJson` | resource-block packing, the control state machine, its JSON lines |
| `Chain` | end-to-end statements from transport block to transport block |

The graphs, twiddle factors and constellation scale are parameters. LDPC results hold for every base
edge list (repeated entries included) and every lifting size; transform results hold for any twiddles
with `tw[1] = -1` and `tw[l]^2 = tw[l-1]`, which the cosine and sine pairs of the program satisfy;
constellation results hold for every scale `s > 0`.

Points where the program and a plausible reading of it differ; the model follows the code:

- `include/nr_bb/ldpc.hpp` line 11 calls the decoder layered. The code is a flooding decoder: all
  variables are updated, then all checks (src/ldpc.cpp lines 197-220).
- A hard decision sends an a-posteriori value of exactly 0 to bit 0. Sign-flip symmetry along a codeword
  therefore holds exactly when ties are harmless; `LdpcSymmetry.FlipsIff` says when, for every run, and
  `LdpcSymmetry.ErasedWordDoesNotFlip` gives a failing input for every graph with a non-zero codeword.
- When the circular buffer is longer than the unpunctured block, de-rate-matching overwrites instead of
  accumulating (src/rate_matching.cpp line 82). `RateMatchingLaws.AdjointIff` states exactly when it is
  still the adjoint of rate matching.
- `is_valid_lifting_size(-1)` is true, because the padding entries of the table are -1
  (`LdpcTables.IsValidLiftingSize`).
- A caller who enlarges `kb` without truncating rows gets a graph that decodes and checks words, but whose
  parity columns run past the end of each row when encoding. `LdpcCodec.GraphFitsIff` says when, for every
  parameter set, `LdpcCodec.EnlargedKb` gives all the failing inputs and `LdpcCodec.EnlargedKbExample` one.
- The refinement loop of segmentation never runs: its test holds on the first estimate
  (`Segmentation.CountProperties`).
- Clipping can leave a selected terminal without resource blocks. `Scheduler.StarvedIff` says which ones,
  `Scheduler.AllServedIff` when there are none, and `Scheduler.TooManySelected` gives failing inputs: with
  two selected terminals and one resource block the second gets nothing.
- A session can be Running although no CONFIG_REQ was ever accepted, because STOP_REQ leaves the error state
  for Configured. `Fapi.ConfigBypassIff` says exactly for which histories, and `Fapi.RunningWithoutConfig` is
  the shortest one: START_REQ, STOP_REQ, START_REQ.

## Model

| member | source | states |
|---|---|---|
| Gf2.GaussJordan | src/ldpc.cpp:128-142 | the elimination succeeds if and only if the matrix has trivial kernel, and then leaves the only solution of the original system; starting row additions at the pivot column loses nothing |
| Gf2.ClearEntry | src/ldpc.cpp:136-141 | adding the pivot row clears one entry and disturbs no column already reduced |
| Gf2.NoPivotSingular | src/ldpc.cpp:129-132 | a column without a pivot exhibits a kernel vector, so the failure branch is taken only for singular matrices |
| Gf2.EliminateColumn | src/ldpc.cpp:128-141 | one column of the elimination keeps the solutions of the system and of its homogeneous version; it fails only on a singular matrix |
| LdpcGraph.ModShift | src/ldpc.cpp:30-34 | the correction of the C++ remainder yields the mathematical residue for negative shifts as well |
| LdpcGraph.ExpandedMeans | src/ldpc.cpp:90-92 | check row·Zc + z is joined with variable col·Zc + (z + shift) mod Zc for every base edge whose shift is not negative and every z, and nothing else is joined |
| LdpcGraph.ExpandEdges | src/ldpc.cpp:155-166 | the edge list of the lifted graph, entries with negative shift absent |
| LdpcGraph.BuildH | src/ldpc.cpp:94-108 | the dense matrix is the XOR of one unit per lifted edge, for any edge list |
| LdpcGraph.SparseIsDense | src/ldpc.cpp:94-108 | edge-list parity equals the dense row product for every edge list, repeated edges included |
| LdpcGraph.CodewordXor | src/ldpc.cpp:309-321 | codewords are closed under XOR, and XOR with a codeword never turns a non-codeword into one |
| LdpcGraph.SyndromeOk | src/ldpc.cpp:309-321 | the dense syndrome test accepts exactly the codewords of the sparse description, and fails exactly on a wrong length, also for graphs that cannot be encoded |
| LdpcEncoder.EncodeGe | src/ldpc.cpp:110-148 | succeeds if and only if the length is right and the M by M parity part is non-singular; the result is then the one codeword with the given systematic prefix |
| LdpcEncoder.AssembleSolves | src/ldpc.cpp:113-127 | the assembled word is a codeword exactly when its parity part solves the linear system set up by the encoder |
| LdpcEncoder.EncodingUnique | src/ldpc.cpp:110-148 | with a non-singular parity part an information word has at most one encoding |
| LdpcEncoder.EncodingLinear | src/ldpc.cpp:110-148 | the encoding of an XOR of information words is the XOR of the encodings |
| LdpcEncoder.ReEncode | src/ldpc.cpp:143-148 | re-encoding the systematic part of any codeword reproduces the codeword |
| LdpcQuasiCyclic.RotatedSyndrome | src/ldpc.cpp:90-108 | rotating every block of a word permutes its checks inside their blocks |
| LdpcQuasiCyclic.RotationAutomorphism | src/ldpc.cpp:90-108 | rotating every block by the same amount maps codewords to codewords, and only codewords |
| LdpcQuasiCyclic.EncodingRotates | src/ldpc.cpp:110-148 | the encoder commutes with block rotation |
| LdpcMinSum.DecodeMinsum | src/ldpc.cpp:168-228 | the loops over arrays compute the information part of the first hard decision that is a codeword, or of the last decision after max_iter rounds; fails exactly on a wrong length |
| LdpcMinSum.DecodeLoop | src/ldpc.cpp:174-227 | the whole word that ends the run, early exit included, for graphs without single-edge checks |
| LdpcMinSum.VariableUpdate | src/ldpc.cpp:183-196 | in place: a-posteriori values are channel value plus incoming messages, and outgoing messages leave out their own edge |
| LdpcMinSum.CheckUpdate | src/ldpc.cpp:206-219 | in place: each outgoing message is 0.75 times the product of the signs and the least magnitude of the other messages of its check, for graphs without single-edge checks |
| LdpcMinSum.SyndromeZero | src/ldpc.cpp:199-205 | the parity test along adjacency lists accepts exactly the codewords |
| LdpcDecoder.StopFrom | src/ldpc.cpp:197-205 | the stopping iteration: the first codeword among the hard decisions, otherwise the iteration limit |
| LdpcMessageLaws.CheckStepLaw | src/ldpc.cpp:206-219 | the message along an edge has three quarters of the least magnitude among the other messages of its check, and with no zero among them it is negative exactly when an odd number of them are |
| LdpcMessageLaws.MinSumLawUnique | src/ldpc.cpp:206-219 | that law determines the message |
| LdpcMessageLaws.DecoderLaw | src/ldpc.cpp:183-219 | for every iteration: messages start at 0, a-posteriori values are the channel value plus all incoming messages, hard decisions are their signs with 0 for bit 0, and the next messages obey the law on the a-posteriori values without their own message |
| LdpcMessageLaws.AnswerLaw | src/ldpc.cpp:197-227 | the answer is the hard decision of the first iteration that gives a codeword, or else of the last |
| LdpcSymmetry.ScaleInvariance | src/ldpc.cpp:183-227 | multiplying all LLRs by any positive factor changes neither the stopping iteration nor the decoded word |
| LdpcSymmetry.HardFlips | src/ldpc.cpp:183-186 | at every iteration, negating the LLRs along a codeword flips the hard decision along it except at exact ties |
| LdpcSymmetry.FlipsIff | src/ldpc.cpp:183-227 | over a whole run, the flipped input stops at the same iteration with the flipped word if and only if the last iteration has no tie and no earlier decision becomes a codeword when its ties are set |
| LdpcSymmetry.FlipSymmetry | src/ldpc.cpp:183-227 | in particular, a run without ties at the positions of the codeword is flipped exactly |
| LdpcSymmetry.ErasedWordDoesNotFlip | src/ldpc.cpp:185 | the all-zero input breaks the symmetry for every codeword but the zero word |
| LdpcErasure.MessagesFollowErasures | src/ldpc.cpp:168-220 | if every LLR is 0 or leans towards codeword c, then at every iteration the non-zero messages are exactly those resolved by erasure message passing, and each has the sign of c |
| LdpcErasure.AppFollowsErasures | src/ldpc.cpp:183-196 | the same for the a-posteriori values |
| LdpcErasureRuns.KnownGrows | src/ldpc.cpp:168-220 | resolved messages stay resolved |
| LdpcErasureRuns.CoveredUnique | src/ldpc.cpp:199-205 | when erasure message passing covers all variables, c is the only codeword that agrees with the given positions, so an early exit can only stop at c |
| LdpcErasureRuns.ErasureDecoding | src/ldpc.cpp:168-228 | if erasure message passing covers all variables within max_iter rounds, the decoder ends with the codeword itself |
| LdpcErasureRuns.ErasureOutcome | src/ldpc.cpp:168-228 | for every input that leans towards codeword c, whether or not the erasures are covered: the run stops at the first iteration whose resolved part of c is a codeword and returns that part; that is c if and only if every 1 of c is resolved there |
| LdpcErasureRuns.FlipsOnErasuresIff | src/ldpc.cpp:183-227 | on such inputs the sign-flip symmetry along a codeword d holds if and only if every 1 of d is resolved at the stopping iteration and adding the unresolved part of d makes no earlier decision a codeword |
| LdpcErasureRuns.NoiselessDecoding | src/ldpc.cpp:197-205 | without erasures the decoder stops in its first iteration with the codeword, whatever the magnitudes |
| LdpcStopping.StoppingSetStalls | src/ldpc.cpp:206-219 | a stopping set inside the erased positions is never resolved, in any number of rounds |
| LdpcStopping.CoverageCharacterised | src/ldpc.cpp:168-228 | erasure message passing covers everything, within as many rounds as there are edges, if and only if no non-empty stopping set lies inside the erased positions |
| LdpcTables.ILsForZc | src/ldpc.cpp:242-249 | finds the first table row that contains the value, if there is one |
| LdpcTables.IsValidLiftingSize | src/ldpc.cpp:240 | accepts every lifting size, and the padding value -1 |
| LdpcTables.LiftingSizesAre | src/ldpc.cpp:12-21 | set i holds exactly the multiples by powers of two, up to 384, of 2, 3, 5, 7, 9, 11, 13 or 15 |
| LdpcTables.BasegraphMonotone | src/ldpc.cpp:232-238 | more bits or a higher rate never lead from the first base graph back to the second |
| LdpcTables.BasegraphBoundaries | src/ldpc.cpp:232-238 | the first base graph is chosen above 292 bits for rates above 0.67, and above 3824 bits for rates above 0.25; failure exactly below 12 bits |
| LdpcTables.SelectionColumns | src/ldpc.cpp:251-263 | the column count used for selection never decreases with the size and steps from 6 to 8, 9 and 10 after 192, 560 and 640 bits; it is 22 on the first base graph |
| LdpcTables.SelectionLiftable | src/ldpc.cpp:232-282 | the selected base graph can be lifted for every size up to 8448 bits above rate 1/4, and up to 3840 bits at lower rates, and for no larger size |
| LdpcTables.SelectLifting | src/ldpc.cpp:251-282 | the least lifting size of the table that makes room, with its row index; fails exactly when 384 is too small |
| LdpcCodec.MakeGraph | src/ldpc.cpp:36-84 | succeeds exactly when the parameters describe a graph, which is then the only one, and reports the filler |
| LdpcCodec.TruncatedGraph | src/ldpc.cpp:66-75 | a truncated graph has mb_use rows and kb + mb_use columns, and exactly the edges of the table that lie inside, as often and in the same order |
| LdpcCodec.LiftingChosen | src/ldpc.cpp:52-63 | a given Zc is taken, and otherwise the least lifting size with room for the information bits; a given set index is taken, and otherwise a row that holds Zc |
| LdpcCodec.LiftingRefusedIff | src/ldpc.cpp:52-63 | no lifting is found exactly for a Zc outside the table, for missing or too many information bits without a Zc, and for a set index above 7 |
| LdpcCodec.GraphRefusedIff | src/ldpc.cpp:64-82 | with a lifting, a graph is refused exactly for a kb not below the columns, more rows than the table has, or more information bits than fit |
| LdpcCodec.GraphFitsIff | src/ldpc.cpp:63-75 | the graph of any accepted parameters is in range for decoding and the syndrome test; it is in range for encoding if and only if rows are truncated or kb is not enlarged |
| LdpcCodec.EnlargedKb | src/ldpc.cpp:63-75 | for every valid table, every kb between the default and the number of columns without truncation is accepted and gives a graph whose information and parity parts together are longer than a row |
| LdpcCodec.EnlargedKbExample | src/ldpc.cpp:45-61 | one such input for the second base graph of the program: kb = 11 with Zc = 2 |
| LdpcCodec.LdpcEncode | src/ldpc.cpp:289-301 | the result is the one encoding of the information bits followed by zero filler; failure only for non-bits, parameters without a graph, an oversized input or a singular parity part |
| LdpcCodec.EncodeDefaults | src/ldpc.cpp:291-293 | stated information bits are used as they are; otherwise the length of the input counts, which then always fits |
| LdpcCodec.LdpcDecode | src/ldpc.cpp:303-307 | the decoded information part for the graph of the parameters, with any accepted kb; failure only when no graph matches the length |
| LdpcCodec.LdpcSyndromeOk | src/ldpc.cpp:309-321 | membership in the code of the parameters' graph, with any accepted kb |
| BitReversal.RevInvolution | src/fft.cpp:13-19 | reversing the index bits twice changes nothing |
| BitReversal.ReversedIncrement | src/fft.cpp:15-17 | the inner loop is the reversed carry: it clears set bits from the top and sets the first clear one |
| BitReversal.CarryCounts | src/fft.cpp:15-17 | the reversed carry takes the reversal of i to the reversal of i + 1 |
| BitReversal.BitReversePermute | src/fft.cpp:13-19 | the swap loop performs exactly the bit-reversal permutation in place |
| NatBits.PowerOfTwoLog | src/fft.cpp:7 | the bit trick accepts only powers of two |
| NatBits.Pow2IsPowerOfTwo | src/fft.cpp:7 | and it accepts all of them |
| Dft.Butterfly | src/fft.cpp:25-31 | one butterfly yields outputs k and k + len/2 of the defining sum from output k of the sums over even and odd elements |
| Fft.Stage | src/fft.cpp:23-32 | the two inner loops leave one butterfly output at every position of the array |
| Fft.StageLevel | src/fft.cpp:20-33 | a stage takes "every block holds the transform of its decimated subsequence" from length len/2 to length len |
| Fft.Transform | src/fft.cpp:13-33 | permutation and all stages leave the defining sum of the input at every position |
| Fft.FftRadix2 | src/fft.cpp:9-39 | succeeds exactly on power-of-two lengths; for every k the result is the sum of x[i] w^(ki) in the forward direction, and N times the result is that sum in the inverse direction |
| DftInverse.NaiveDft | educational/src/naive_dft.cpp:7-22 | the double loop computes the same sums with the same scaling, for any length |
| DftInverse.Orthogonal | educational/src/naive_dft.cpp:12-20 | the columns of the transform are orthogonal |
| DftInverse.TransformsInvert | src/fft.cpp:9-39 | inverse after forward and forward after inverse both return the input |
| Ofdm.OfdmModulate | src/ofdm.cpp:6-15 | the inverse transform, by its defining sums, preceded by a copy of its last cp_len samples |
| Ofdm.OfdmDemodulate | src/ofdm.cpp:17-22 | the forward transform, by its defining sums, of what follows the prefix |
| Ofdm.RoundTrip | src/ofdm.cpp:6-22 | demodulating a modulated symbol returns the subcarriers for every prefix length up to the symbol length |
| Crc.RegisterStep | src/crc.cpp:29-34 | shift, mask and conditional XOR of the integer register are one step of a linear feedback shift register |
| Crc.GeneratorPowers | src/crc.cpp:11-20 | the constants are the generator polynomials of section 5.1 of TS 38.212, power by power, and L is their degree |
| Crc.ComputeCrc | src/crc.cpp:23-36 | the register is the CRC of the message and fits its width; values other than 0 and 1 are rejected |
| Crc.CrcAttach | src/crc.cpp:42-51 | the message followed by its CRC, most significant bit first |
| Crc.CrcCheck | src/crc.cpp:53-57 | true exactly when the last L bits are the CRC of what precedes them; short blocks are rejected |
| Crc.PassesIff | src/crc.cpp:53-57 | a zero register over the whole block is the same as a matching suffix |
| Crc.AttachedPasses | src/crc.cpp:42-57 | every attached block passes the check |
| Crc.CrcIsRemainder | src/crc.cpp:23-36 | the CRC is the one remainder of message times x^L on division by the generator |
| Crc.ErrorSeen | src/crc.cpp:53-57 | an error pattern is missed exactly when it is itself a valid block |
| Crc.BurstDetected | src/crc.cpp:11-57 | every non-zero burst no longer than the CRC is detected, wherever it falls |
| Scrambling.GoldSequence | src/scrambling.cpp:5-18 | the two array recurrences and the 1600-step offset yield the Gold sequence of the seed |
| Scrambling.GoldMeans | src/scrambling.cpp:5-18 | for any two sequences that follow the recurrences of section 5.2.1 of TS 38.211 from the fixed seed and from the low 31 bits of c_init, output n is the exclusive or of their entries n + 1600 |
| Scrambling.Scramble | src/scrambling.cpp:20-28 | XOR with the sequence; values other than 0 and 1 are rejected |
| Scrambling.Descramble | src/scrambling.cpp:30 | restores every scrambled bit string |
| Scrambling.GoldPrefix | src/scrambling.cpp:16 | shorter sequences are prefixes of longer ones |
| Scrambling.GoldLinear | src/scrambling.cpp:9-16 | the seed enters linearly |
| Scrambling.GoldDistinguishes | src/scrambling.cpp:9-16 | seeds with different low 31 bits differ inside every window of 31 outputs, and seeds with equal low bits never differ |
| Llr.BitsToLlr | src/llr.cpp:5-12 | the magnitude for 0 and its negative for 1; consistent with the bits when the magnitude is positive; values other than 0 and 1 are rejected |
| Llr.LlrToBits | src/llr.cpp:14-18 | negative values decide for 1; a consistent vector without zeros gives back its bits |
| Llr.LlrCombine | src/llr.cpp:20-25 | the elementwise sum, and failure on different lengths |
| Llr.CombineConsistent | src/llr.cpp:20-25 | combining LLRs that lean towards a codeword keeps them leaning, and erases nothing |
| RateMatching.RvK0Positions | src/rate_matching.cpp:6-20 | the four starting positions |
| RateMatching.K0Properties | src/rate_matching.cpp:6-20 | every starting position is a multiple of Zc inside the buffer, they do not decrease with the redundancy version, and version 0 starts at 0 |
| RateMatching.MatchIndexMeans | src/rate_matching.cpp:23-58 | bit i is read i places round the buffer from k0, with k0 = floor(c·Ncb / (cols·Zc))·Zc for c of {0, 17, 33, 56} in 66 or {0, 13, 25, 43} in 50, or a quarter of the buffer per version when Zc is unknown; the buffer repeats the code block without its punctured bits |
| RateMatching.RateMatch | src/rate_matching.cpp:41-60 | selects e_bits bits through the circular index map, never one of the punctured first 2 Zc |
| RateMatching.RateDematch | src/rate_matching.cpp:69-84 | each position recovers what was collected by its last copy in the buffer; punctured positions are 0 |
| RateMatching.RecoveredMeans | src/rate_matching.cpp:80-83 | a position is 0 when punctured or beyond the buffer, and otherwise the sum of the LLRs read at the last buffer position that holds it |
| RateMatchingLaws.AdjointIff | src/rate_matching.cpp:41-84 | recovery is the adjoint of selection exactly when no transmitted bit lands on a copy that is overwritten; a buffer no longer than the unpunctured block suffices |
| RateMatchingLaws.HitCount | src/rate_matching.cpp:58 | every buffer position is sent floor(E / Ncb) times, plus one for those reached by the last partial round |
| RateMatchingLaws.DematchConsistent | src/rate_matching.cpp:69-84 | LLRs that lean towards the selected bits are recovered leaning towards the codeword, for any buffer size |
| RateMatchingLaws.DematchErasures | src/rate_matching.cpp:69-84 | without erased inputs exactly the positions that were sent are recovered |
| Harq.HarqBuffer.UpsertLlr | src/harq.cpp:6-22 | the new process table: a fresh entry on a new process or a toggled NDI, otherwise the sum; a length mismatch is rejected and changes nothing |
| Harq.HarqBuffer.Get | src/harq.cpp:24-28 | the stored soft buffer, if the process exists |
| Harq.HarqBuffer.ClearProcess | src/harq.cpp:30 | the entry is removed |
| Harq.RejectedIsInvisible | src/harq.cpp:18 | rejected calls leave no trace in any history |
| Harq.HoldsSumSince | src/harq.cpp:6-30 | after any history, rejected calls included, a process exists exactly when its last accepted call was a transmission, and holds the sum and the number of the LLR vectors accepted since its NDI last changed |
| Harq.SumAllConsistent | src/harq.cpp:19 | if all of them lean towards one codeword so does the buffer, and a zero remains only where all were zero |
| ComplexMatrix.MatInv | src/equalizer.cpp:35-65 | a result is the two-sided inverse; a rejection means that some vector of length at least 1 is mapped to almost nothing; a first column without an entry above 1e-14 is rejected, and for one stream nothing else is |
| ComplexMatrix.EliminateColumn | src/equalizer.cpp:41-60 | one column of the elimination keeps the row equivalence and extends the reduced columns |
| ComplexMatrix.InverseFromReduced | src/equalizer.cpp:61-64 | the right half of the reduced rows is the inverse from both sides |
| Equalizer.EqualizeSample | src/equalizer.cpp:76-94 | zero forcing returns the one solution of the plain normal equations, the least-squares fit, and the transmitted vector itself without noise; MMSE the one solution with the noise variance on the diagonal, and RZF with its delta, each minimising the squared error plus that multiple of the squared norm when it is not negative; the size checks are those of the program |
| Equalizer.LeastSquares | src/equalizer.cpp:82-93 | around the solution the cost is a sum of squares |
| Equalizer.RegularisedAccepted | src/equalizer.cpp:48 | with more than 2e-14 of regularisation no channel of up to four streams is rejected |
| Gray.GrayToBinLoop | src/modulation.cpp:25-29 | the prefix-XOR loop |
| Gray.GrayRoundTrip | src/modulation.cpp:23-29 | coding undoes decoding, for any number of bits |
| Gray.BinRoundTrip | src/modulation.cpp:23-29 | decoding undoes coding, for any number of bits |
| Gray.DecodeReflects | src/modulation.cpp:25-29 | setting the next higher bit of a code counts down instead of up |
| Gray.NeighboursDifferOnce | src/modulation.cpp:23 | neighbouring values have codes that differ in exactly one bit |
| Modulation.AmpRoundTrip | src/modulation.cpp:33-48 | bits to amplitude and back, for any number of bits per axis |
| Modulation.LevelRoundTrip | src/modulation.cpp:33-48 | amplitude to bits and back |
| Modulation.PamReflects | src/modulation.cpp:33-39 | for any number of bits the first bit is the sign, and the others count outwards from the middle of the half |
| Modulation.PamFormula | src/modulation.cpp:33-39 | the amplitudes of all four orders in closed form, all-zero bits at the most positive level |
| Modulation.SymbolFormula | src/modulation.cpp:50-63 | 2, 4, 6 or 8 bits per symbol, the first half on the real axis and the second half on the imaginary axis, times the scale |
| Modulation.Modulate | src/modulation.cpp:82-95 | one symbol per group of bits; a partial group is rejected |
| Modulation.Constellation | src/modulation.cpp:50-73 | point i carries the label i |
| Modulation.DemodulateHard | src/modulation.cpp:97-121 | for each axis the bits of the nearest amplitude, the most negative one on a tie |
| Modulation.DemodulateLlr | src/modulation.cpp:123-147 | for each bit the scaled difference of the least squared distances over the points with bit 1 and with bit 0; a noise variance that is not positive is rejected |
| Modulation.SoftBitMeans | src/modulation.cpp:130-143 | twice the noise variance times an LLR is the squared distance to the nearest symbol with that bit 1 minus the squared distance to the nearest symbol with that bit 0 |
| Modulation.SoftAgreesWithHard | src/modulation.cpp:97-147 | for every received point a positive LLR comes with hard bit 0 and a negative one with hard bit 1 |
| Modulation.SequenceRecovers | src/modulation.cpp:82-121 | hard decisions recover every bit sequence received with less than s of noise per axis |
| Modulation.SoftSequenceCorrect | src/modulation.cpp:82-147 | under the same noise every LLR is non-zero and has the sign of its bit |
| Segmentation.CountProperties | src/segmentation.cpp:14-36 | C = ceil(B / Kcb), the refinement loop never runs, no payload exceeds Kcb, and only the last block is padded, with at least one bit of its own |
| Segmentation.CountBlocks | src/segmentation.cpp:14-29 | the loop that refines the block count returns the first estimate |
| Segmentation.SegmentTransportBlock | src/segmentation.cpp:6-74 | succeeds exactly on segmentable sizes; every block carries its payload and CRC, the least lifting size that fits with its row, a non-negative filler, and its LDPC parameters |
| Segmentation.PlanGraphFits | src/segmentation.cpp:57-69 | the LDPC parameters of a plan describe exactly one graph: the whole base graph lifted as planned, fit for encoding, with K = k_ldpc = block length + filler |
| Segmentation.BlocksAlike | src/segmentation.cpp:53-71 | all blocks have the same base graph, lifting and filler, the total filler is their sum, and the base graph is the configured one unless it is selected automatically |
| Segmentation.SegmentableIff | src/segmentation.cpp:10-36 | segmentation succeeds exactly when Kcb is at least 40 and blocks of ceil(B / C) bits plus CRC can be lifted |
| Segmentation.AutomaticSegmentable | src/segmentation.cpp:10-69 | with automatic base graphs above rate 1/4 and Kcb between 40 and 8424, only transport blocks below 12 bits are refused |
| Segmentation.ConcatenateCodeBlocks | src/segmentation.cpp:84-92 | the blocks joined without the final filler; too much filler is rejected |
| Segmentation.SegmentationRoundTrip | src/segmentation.cpp:6-92 | several blocks carry 24 bits of CRC each, when asked for, and pass it; joining the blocks without CRCs gives the transport block followed by zeros, and without those padding bits the transport block |
| Scheduler.Schedule | src/scheduler.cpp:34-85 | filtered identifiers, the ranked selection and one grant per selected terminal; fails exactly on a non-positive size |
| Scheduler.FilterPartitions | src/scheduler.cpp:40-49 | filtered and eligible terminals partition the input |
| Scheduler.FilteredIff | src/scheduler.cpp:41-43 | the five reasons to leave a terminal out |
| Scheduler.MetricValue | src/scheduler.cpp:7-21 | the metric inside its limits as a product of whole factors: weight, rate, CQI, layers, QoS weight, buffer and free HARQ processes over throughput |
| Scheduler.MetricSaturates | src/scheduler.cpp:7-21 | beyond the limits of throughput, buffer and HARQ the metric stays what it is at the limit |
| Scheduler.McsMeans | src/scheduler.cpp:71-76 | when the hint is raised to 16 or 10 or lowered to 2, and when it is kept |
| Scheduler.RankingUnique | src/scheduler.cpp:50-53 | a stable descending sort has exactly one outcome |
| Scheduler.SelectionIsTop | src/scheduler.cpp:50-57 | everything left out ranks after everything selected |
| Scheduler.Pack | src/scheduler.cpp:58-85 | the loop with cursor and remainder yields the grants in order |
| Scheduler.MetricSumMeans | src/scheduler.cpp:59-60 | each metric enters the sum as itself, but as 1e-9 when it is smaller |
| Scheduler.RequestMeans | src/scheduler.cpp:65-66 | a terminal asks for the whole blocks in its proportional share, but for at least one |
| Scheduler.GrantMeans | src/scheduler.cpp:63-84 | every grant starts where the earlier requests end and has its request, or what is left when that is less; the last has all that is left |
| Scheduler.GrantFields | src/scheduler.cpp:77-82 | the other fields of a grant are those of its terminal |
| Scheduler.AllocationsTile | src/scheduler.cpp:63-85 | for any metrics the allocations are consecutive, disjoint and cover all resource blocks |
| Scheduler.FairShares | src/scheduler.cpp:63-71 | when all metrics reach 1e-9 and all shares reach one block, every terminal but the last gets the floor of its share, and the last at least its share and less than n - 1 blocks more |
| Scheduler.AllServedIff | src/scheduler.cpp:63-71 | every selected terminal gets a block if and only if the requests of all but the last leave at least one over |
| Scheduler.StarvedIff | src/scheduler.cpp:63-71 | a selected terminal gets no block if and only if the terminals before it ask for all of them |
| Scheduler.TooManySelected | src/scheduler.cpp:63-71 | with more selected terminals than blocks, every terminal from number n_prb on gets none, whatever the metrics |
| Fapi.FapiSession.Handle | src/fapi.cpp:48-107 | the new state and clock, and every field of the answer, error text included, for every message in every state |
| Fapi.RefusedIff | src/fapi.cpp:57-105 | exactly which messages are refused in which state |
| Fapi.AnswerTypes | src/fapi.cpp:48-107 | the type of the answer by message, and the state it leaves |
| Fapi.RefusalReasons | src/fapi.cpp:57-105 | the error text of every refusal |
| Fapi.FapiSession.Reset | src/fapi.cpp:41-46 | the initial session |
| Fapi.SlotClock | src/fapi.cpp:82-103 | after every history slot < 20, sfn < 1024, and sfn * 20 + slot is the number of accepted data and TTI messages modulo 20480 |
| Fapi.RunningIff | src/fapi.cpp:48-107 | Running if and only if the history ends with an accepted START_REQ followed only by data and TTI messages of a supported version |
| Fapi.ConfigBypassIff | src/fapi.cpp:60-81 | for every history: the session is at some point Configured or Running without an accepted CONFIG_REQ before if and only if a STOP_REQ of a supported version is handled in the error state without an accepted CONFIG_REQ before |
| Fapi.RunningWithoutConfig | src/fapi.cpp:78-81 | START_REQ, STOP_REQ, START_REQ from reset ends Running, and its STOP_REQ is such a message |
| FapiJson.TypeRoundTrip | src/fapi.cpp:8-38 | the type names parse back |
| FapiJson.TypeNames | src/fapi.cpp:8-23 | the eleven names |
| FapiJson.ParsedIsName | src/fapi.cpp:25-38 | no other text is a type |
| FapiJson.GetLoop | src/fapi.cpp:112-128 | the scanning loops extract the value behind the first occurrence of the quoted key |
| FapiJson.FapiFromJsonLine | src/fapi.cpp:109-138 | the parsed message with defaults; quoted numbers may carry white space and a sign; failure on unreadable numbers or an unknown type |
| FapiJson.ParsedFields | src/fapi.cpp:129-138 | defaults, reduction to 16 and 32 bits, and exactly when parsing fails |
| FapiJson.FindIsFirst | src/fapi.cpp:112-116 | a key is found at its first occurrence, and missed only when there is none |
| FapiJson.BlanksSkipped | src/fapi.cpp:118-124 | blanks before a value do not matter |
| FapiJson.NoLeadingZero | src/fapi.cpp:142-143 | printed numbers have no leading zeros |
| FapiJson.DecimalRoundTrip | src/fapi.cpp:132-143 | the digits of a printed number read back as the number |
| FapiJson.StoulReads | src/fapi.cpp:132-135 | white space and a plus sign before a printed number, and anything but a digit after it, do not change what is read |
| FapiJson.StoulNegative | src/fapi.cpp:132-135 | a minus sign wraps around 2^64 |
| FapiJson.StoulTooLarge | src/fapi.cpp:132-135 | 2^64 and more is refused |
| FapiJson.KeysOccurFirst | src/fapi.cpp:140-147 | no key occurs in a printed line before its own field |
| FapiJson.PrintedLine | src/fapi.cpp:140-147 | the printed line in full, with crc_ok and the error text |
| FapiJson.JsonRoundTrip | src/fapi.cpp:109-147 | parsing a printed message restores version, type, sfn, slot and handle, whatever the error text contains |
| FapiJson.FapiRunFixtureLines | src/fapi.cpp:149-161 | the session and the error count after any list of lines; an unreadable line counts as an error and leaves the session alone |
| FapiJson.UnreadableLine | src/fapi.cpp:151-158 | an unreadable line counts as one error and leaves the session alone |
| FapiJson.FixtureOfPrinted | src/fapi.cpp:140-161 | replaying printed messages leads to the session of the messages themselves, and the error count is the number of messages not accepted |
| Chain.EarlyStopReEncodes | src/ldpc.cpp:110-205 | a run that stops early returns information bits whose one encoding is the word that stopped it |
| Chain.BufferErasures | src/harq.cpp:6-22 | a soft buffer fed with clean de-rate-matched receptions leans towards the codeword and is non-zero exactly at the positions sent through a copy that de-rate-matching does not overwrite |
| Chain.RetransmissionsDecode | src/harq.cpp:6-30 | after any history, rejected calls included, decoding the soft buffer returns the information bits whenever erasure message passing from those positions covers the graph in time, for any redundancy versions and lengths |
| Chain.SymbolsAreClean | src/modulation.cpp:82-147 | QAM symbols received with less than s of noise per axis make a clean reception |
| Chain.TransportBlockDelivered | src/segmentation.cpp:6-92 | the composed chain: segmentation, encoding in the graph of each plan, rate matching, QAM received within the scale, soft demodulation, de-rate-matching, a HARQ buffer with any history, and decoding with the parameters of the plan rebuild the transport block, whenever erasure message passing from the positions sent covers each graph in time |

## Left out

- Floating-point rounding, NaN and infinity: all arithmetic on `double` is exact real arithmetic.
- LdpcMinSum.DecodeMinsum: requires that no check of the lifted graph has a single edge, because the program then multiplies an infinite minimum and may subtract infinities.
- LdpcMinSum.DecodeLoop: the same requirement.
- LdpcMinSum.CheckUpdate: the same requirement; `LdpcDecoder.Scaled` gives the missing minimum no meaning, so the lemmas of `LdpcSymmetry` speak about the program only under it.
- LdpcCodec.LdpcDecode: the same requirement on the graph of its parameters.
- LdpcCodec.LdpcEncode: requires that the parity columns fit once the elimination is reached; otherwise the program reads past the end of its matrix, which has no defined result (`LdpcCodec.GraphFitsIff`).
- LdpcEncoder.EncodeGe: the same requirement.
- Ofdm.OfdmModulate: requires cp_len <= fft_size, because a longer prefix is undefined in the program.
- The constants of the two base graphs: they are an argument; whether the parity part is non-singular for a given lifting size is a finite computation on them.
- Cosines, sines and square roots: twiddle factors and the constellation scale are parameters with the algebraic properties the proofs need.
- Flattened vectors indexed by r * N + c are two-dimensional arrays or sequences of rows.
- Bytes are checked for 0 and 1 where the program checks them and are booleans afterwards; 32-bit registers are naturals, and `Crc.ComputeCrc` proves that the CRC register stays within its width.
- ComplexMatrix.FindPivot: compares squared moduli, which orders entries as the moduli do.
- Scheduler.StableSort: a function that yields the one stable ranking, in place of the library sort working in place.
- The text of thrown errors: a throwing operation returns None.
- Overflow of counters and of `int` products; FAPI message types outside the enumeration.
- Error rates and convergence of min-sum under Gaussian noise, and the period of the Gold sequence: nothing in the code states them.
- Scheduler.Schedule: does not model `replay_hash`, a hash of the allocations for regression comparison.
- `equalize_stream`, `segment_transport_block_fixed`, `ldpc_make_reference` and the default-argument wrappers of rate matching: thin wrappers.
- Channel models, bit-error campaigns, fronthaul, layer mapping, channel estimation, MIMO precoding, metrics and the CUDA kernels: they use random numbers, hardware or simple index shuffles.
