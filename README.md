# FQSim state-vector simulator kernels in Dafny

FQSim is a small quantum simulator written for SYCL devices. A register of
`numQubits` qubits is a dense vector of 2^numQubits complex amplitudes;
index bit j is the value of qubit j. The kernels in
`code/FQSim/src-solution/kernels.cpp` (and the identical helpers of the
exercise copy `code/FQSim/src/kernels.cpp`) are modelled here:

- `nth_cleared` and the partner index `zero | (1 << target)`: module
  `BitIndex` (`bitindex.dfy`). The bitwise operators are defined on
  naturals one bit at a time, so `nth_cleared` is stated literally as
  `(n & mask) | ((n & ~mask) << 1)`. It is proved equal to `ZeroIndex`, the
  recurrence "insert a 0 bit at position target". All index facts are
  proved about `ZeroIndex`, with `Compress` (drop bit target) as its inverse.
- `apply_gate`, `h` and `z`: module `Gates` (`gates.dfy`). The state is an
  `array<Complex>`, updated in place. The device's `parallel_for` becomes a
  sequential loop over the pair numbers. Its result is proved to be
  `Applied`, which describes every amplitude pointwise. Separate lemmas
  show that any duplicate-free order of the work items gives the same
  state. Both `h` and `z` keep the total probability, the sum of
  |amplitude|^2 over the whole state (`SumNorm`).
- `get_proba` and the counting and printing part of `measure`: module
  `Measurement` (`measurement.dfy`). The outcomes drawn by the random
  sampler are an input sequence.
- `toBinary`: module `Binary` (`binary.dfy`).
- Amplitudes are exact complex numbers over `real`: module `Complexes`
  (`complexes.dfy`).

The table below cites the solution file. The exercise copy's `toBinary`
(lines 10-17), `nth_cleared` (19-25) and `apply_gate` (27-44) are the same
code one line further down. Its `get_proba` (59-67) is the same code twelve
lines further up, because its `h` and `z` are shorter stubs. The same
members model all four.

The square root of 2 that `h` computes with `std::sqrt(2.0f)` is passed in
as `sqrt2`, characterised by `sqrt2 > 0` and `sqrt2 * sqrt2 == 2`.
Statements about `h` use the factor `k = 1/sqrt2`, of which only
`k * k == 1/2` is needed.

The code never checks that `target < numQubits` or that `samples` is
non-negative, and raises no errors of its own. A target outside the
register is a precondition (`Shape`), since the code then indexes outside
the state vector. A non-positive `samples` simply draws nothing.

## Model

| member | source | states |
|---|---|---|
| BitIndex.NthClearedIsZeroIndex | code/FQSim/src-solution/kernels.cpp:18-24 | the mask expression of `nth_cleared` equals ZeroIndex, n with a 0 bit inserted at position target |
| BitIndex.NthClearedZero | code/FQSim/src-solution/kernels.cpp:20-23 | for target 0 the mask is empty and `nth_cleared(n, 0)` is 2n |
| BitIndex.NthClearedSucc | code/FQSim/src-solution/kernels.cpp:20-23 | one more mask bit keeps bit 0 of n in place and solves the rest one position lower |
| BitIndex.AndBit | code/FQSim/src-solution/kernels.cpp:23 | bit j of `a & b` is set exactly when bit j is set in both |
| BitIndex.AndNotBit | code/FQSim/src-solution/kernels.cpp:21-23 | bit j of `a & ~m` is set exactly when it is set in a and clear in m |
| BitIndex.OrBit | code/FQSim/src-solution/kernels.cpp:23 | bit j of `a \| b` is set exactly when it is set in either |
| BitIndex.BitOfPow2 | code/FQSim/src-solution/kernels.cpp:36 | `1 << t` has bit t set and no other |
| BitIndex.ZeroIndexArith | code/FQSim/src-solution/kernels.cpp:18-24 | closed form: the result is `n % 2^t + 2 * (n - n % 2^t)` |
| BitIndex.ZeroIndexBits | code/FQSim/src-solution/kernels.cpp:18-24 | bit t of the result is 0, bits below t are those of n, bit j >= t of n moves to bit j + 1 |
| BitIndex.ZeroIndexIncreasing | code/FQSim/src-solution/kernels.cpp:18-24 | strictly increasing in the pair number, hence injective |
| BitIndex.ZeroIndexBound | code/FQSim/src-solution/kernels.cpp:33-36 | for pair numbers below 2^(k-1) both members of the pair lie below 2^k |
| BitIndex.CompressZeroIndex | code/FQSim/src-solution/kernels.cpp:18-24 | dropping bit t again recovers the pair number |
| BitIndex.ZeroIndexCompress | code/FQSim/src-solution/kernels.cpp:18-24 | every index is the zero member, or the partner when its bit t is set, of the pair numbered by dropping bit t |
| BitIndex.CompressBound | code/FQSim/src-solution/kernels.cpp:33-36 | indices below 2^k belong to pairs numbered below 2^(k-1) |
| BitIndex.PartnerAdds | code/FQSim/src-solution/kernels.cpp:36 | with bit t clear, `zero_state \| (1 << t)` is `zero_state + 2^t` |
| BitIndex.PartnerBits | code/FQSim/src-solution/kernels.cpp:36 | the partner differs from the zero index only in bit t, which it has set |
| BitIndex.CompressPartnerIndex | code/FQSim/src-solution/kernels.cpp:35-36 | dropping bit t of the partner also recovers the pair number |
| BitIndex.CompressPartner | code/FQSim/src-solution/kernels.cpp:35-36 | both pair members carry the pair number and have bit t equal to 0 and 1 |
| BitIndex.PairBelow | code/FQSim/src-solution/kernels.cpp:35-36 | a pair lies below 2^(t+1) exactly when its zero member lies below 2^t |
| BitIndex.PairsDisjoint | code/FQSim/src-solution/kernels.cpp:35-36 | distinct work items touch disjoint pairs: zero indices differ, partners differ, no zero index is another item's partner |
| BitIndex.PairIndexSets | code/FQSim/src-solution/kernels.cpp:35-36 | over the pair numbers below 2^(k-1) the zero indices are exactly the indices below 2^k with bit t clear, and the partners exactly those with bit t set |
| Gates.ApplyGate | code/FQSim/src-solution/kernels.cpp:26-43 | after the loop over `global_id < numStates` the state is Applied: the pairs numbered below numStates hold the matrix products of their old values, every other amplitude is unchanged |
| Gates.PairStepAt | code/FQSim/src-solution/kernels.cpp:35-41 | one work item changes exactly the two members of its pair, to the rows of the matrix product |
| Gates.AppliedStep | code/FQSim/src-solution/kernels.cpp:34-41 | running work item id after items 0..id-1 gives Applied with id + 1 pairs, the loop invariant of ApplyGate |
| Gates.AppliedPair | code/FQSim/src-solution/kernels.cpp:35-41 | for every processed pair, `state[zero] == A*old[zero] + B*old[one]` and `state[one] == C*old[zero] + D*old[one]` |
| Gates.AppliedElsewhere | code/FQSim/src-solution/kernels.cpp:34-43 | an index outside every processed pair keeps its old amplitude |
| Gates.AnyOrder | code/FQSim/src-solution/kernels.cpp:34-43 | running the work items in any duplicate-free order updates exactly the pairs named, each from its old amplitudes |
| Gates.OrderIrrelevant | code/FQSim/src-solution/kernels.cpp:34-43 | every ordering of the pair numbers below numStates gives the same state as the sequential loop |
| Gates.AppliedAll | code/FQSim/src-solution/kernels.cpp:51 | processing all 2^(numQubits-1) pairs updates every amplitude |
| Gates.HalfPow2 | code/FQSim/src-solution/kernels.cpp:51 | `std::pow(2, numQubits) / 2` is the number of pairs 2^(numQubits-1) |
| Gates.HGateIsHadamard | code/FQSim/src-solution/kernels.cpp:47-54 | the coefficients `(1, 1, 1, -1) / sqrt(2)` form the Hadamard matrix with factor 1/sqrt2 |
| Gates.H | code/FQSim/src-solution/kernels.cpp:45-56 | `h` leaves every pair updated by the Hadamard matrix |
| Gates.Z | code/FQSim/src-solution/kernels.cpp:57-69 | `z` leaves every pair updated by diag(1, -1) |
| Gates.ZAt | code/FQSim/src-solution/kernels.cpp:57-69 | `z` negates exactly the amplitudes whose bit target is set and leaves the others unchanged |
| Gates.ZTwice | code/FQSim/src-solution/kernels.cpp:57-69 | `z` applied twice to the same qubit is the identity |
| Gates.ZFixesGround | code/FQSim/src-solution/kernels.cpp:57-69 | the basis state \|0...0> is a fixed point of `z` on every qubit |
| Complexes.Norm2Neg | code/FQSim/src-solution/kernels.cpp:61-66 | the negation `z` applies leaves each amplitude's probability unchanged, which gives ZSumNorm index by index |
| Gates.InvSqrt2 | code/FQSim/src-solution/kernels.cpp:51-54 | the factor 1/sqrt(2) squares to 1/2 |
| Gates.HRows | code/FQSim/src-solution/kernels.cpp:47-54 | the Hadamard rows are k(x + y) and k(x - y) |
| Gates.HPair | code/FQSim/src-solution/kernels.cpp:45-56 | `h` maps each pair (a, b) to (k(a + b), k(a - b)) |
| Gates.HadamardNorm | code/FQSim/src-solution/kernels.cpp:47-54 | with k*k == 1/2 the Hadamard pair map keeps \|x\|^2 + \|y\|^2 |
| Gates.HPairNorm | code/FQSim/src-solution/kernels.cpp:45-56 | `h` keeps the total probability of every pair |
| Gates.HPairNormAt | code/FQSim/src-solution/kernels.cpp:45-56 | the same, for the pair whose zero member is any index m with bit target clear |
| Gates.HKeepsPairNorms | code/FQSim/src-solution/kernels.cpp:45-56 | `h` keeps \|x\|^2 + \|y\|^2 of every pair (m, m + 2^target) with bit target of m clear |
| BitIndex.AlignedZeroIndex | code/FQSim/src-solution/kernels.cpp:18-24 | for `first` a multiple of 2^t and r < 2^t, `nth_cleared(first + r, t)` is `2 * first + r`: consecutive pair numbers fill blocks of 2^(t+1) indices, zero members below and partners above |
| Gates.BlockPairAt | code/FQSim/src-solution/kernels.cpp:35-36 | in such a block, offset r and offset 2^t + r form one pair, so a pair-preserving update keeps their total |
| Gates.BlockNorm | code/FQSim/src-solution/kernels.cpp:33-41 | an update that keeps the total of every pair keeps the total of every aligned block of 2^(t+1) amplitudes |
| Gates.BlocksNorm | code/FQSim/src-solution/kernels.cpp:33-41 | such an update keeps the total of every prefix made of whole blocks |
| Gates.PairNormsSumNorm | code/FQSim/src-solution/kernels.cpp:26-43 | an update of every pair that keeps each pair's total keeps the total probability of the whole state |
| Gates.HSumNorm | code/FQSim/src-solution/kernels.cpp:45-56 | `h` keeps the total probability: the sum of \|amplitude\|^2 over the state is unchanged |
| Gates.ZSumNorm | code/FQSim/src-solution/kernels.cpp:57-69 | `z` keeps the total probability: the sum of \|amplitude\|^2 over the state is unchanged |
| Gates.HPairInverse | code/FQSim/src-solution/kernels.cpp:47-54 | the Hadamard pair map is its own inverse when k*k == 1/2 |
| Gates.HTwicePair | code/FQSim/src-solution/kernels.cpp:45-56 | applying `h` twice restores both members of every pair |
| Gates.HTwiceAt | code/FQSim/src-solution/kernels.cpp:45-56 | applying `h` twice restores every amplitude |
| Gates.HTwice | code/FQSim/src-solution/kernels.cpp:45-56 | `h` applied twice to the same qubit is the identity |
| Gates.LayerPairInside | code/FQSim/src/test_h_gate.cpp:49-51 | a Hadamard layer turns a pair holding (c, 0) into (kc, kc) |
| Gates.LayerPairOutside | code/FQSim/src/test_h_gate.cpp:49-51 | a Hadamard layer keeps a pair holding (0, 0) at (0, 0) |
| Gates.LayerAt | code/FQSim/src/test_h_gate.cpp:49-51 | if the first 2^t amplitudes hold c and the rest 0, `h` on qubit t leaves kc on the first 2^(t+1) and 0 elsewhere |
| Gates.HadamardEachOnGround | code/FQSim/src/test_h_gate.cpp:45-51 | from \|0...0>, `h` on qubits 0..j-1 leaves k^j on the first 2^j amplitudes and 0 on the rest |
| Gates.UniformSuperposition | code/FQSim/src/test_h_gate.cpp:45-51 | `h` on every qubit of \|0...0> gives amplitude k^numQubits at every index |
| Gates.SevenQubitScenario | code/FQSim/src/test_h_gate.cpp:37-51 | in the test driver's 7-qubit run all 128 amplitudes equal (1/sqrt2)^7 |
| Complexes.AbsOfSquare | code/FQSim/src-solution/kernels.cpp:76 | Norm2(amp) is non-negative and its square is Norm2(amp * amp) |
| Measurement.AbsOfSquareIsNorm2 | code/FQSim/src-solution/kernels.cpp:76 | the only value `std::abs(amp * amp)` can have is re^2 + im^2 |
| Measurement.RootUnique | code/FQSim/src-solution/kernels.cpp:76 | non-negative square roots are unique, so `std::abs` is determined |
| Measurement.GetProba | code/FQSim/src-solution/kernels.cpp:71-79 | `proba[i]` is the probability re^2 + im^2 of `state[i]` for every i below numStates; other slots and the state are unchanged |
| Measurement.TallyCounts | code/FQSim/src-solution/kernels.cpp:90-94 | counter k of the histogram is the number of draws equal to k |
| Measurement.SumIncrement | code/FQSim/src-solution/kernels.cpp:93 | one `arr[index]++` adds one to the total count |
| Measurement.SumZeros | code/FQSim/src-solution/kernels.cpp:90 | the freshly built counters sum to 0 |
| Measurement.TallySum | code/FQSim/src-solution/kernels.cpp:90-94 | the counters sum to the number of draws |
| Measurement.CountDraws | code/FQSim/src-solution/kernels.cpp:90-94 | the sampling loop leaves the histogram: `arr[k]` counts the draws equal to k, and the counts sum to the number of draws |
| Measurement.Report | code/FQSim/src-solution/kernels.cpp:95-98 | one line per basis state in increasing index order, line k labelled by `toBinary(k, numQubits)` (which reads back as k) and showing `arr[k]` |
| Measurement.Measure | code/FQSim/src-solution/kernels.cpp:81-101 | the weights are the probabilities of the state, counter k counts the draws equal to k, the counts sum to the number of draws (all zero when samples <= 0), and the report lists every index in order with its label and count |
| Measurement.PowerOfRootHalf | code/FQSim/src/test_h_gate.cpp:49-51 | (k^n)^2 == (1/2)^n when k*k == 1/2 |
| Measurement.HalfPower | code/FQSim/src/test_h_gate.cpp:49-54 | 2^n outcomes of probability (1/2)^n have total probability 1 |
| Measurement.UniformProbability | code/FQSim/src/test_h_gate.cpp:45-54 | after `h` on every qubit of \|0...0> every basis state has probability (1/2)^numQubits |
| Measurement.SevenQubitProbabilities | code/FQSim/src/test_h_gate.cpp:37-54 | in the 7-qubit run `measure` samples each of the 128 outcomes with probability 1/128 |
| Binary.BitString | code/FQSim/src-solution/kernels.cpp:9-16 | the label has exactly numQubits characters, each '0' or '1' |
| Binary.ToBinary | code/FQSim/src-solution/kernels.cpp:9-16 | the loop over i from numQubits - 1 down to 0 builds BitString(num, numQubits) |
| BitIndex.ShrSucc | code/FQSim/src-solution/kernels.cpp:12 | `num >> (i + 1)` is `(num >> i) / 2` |
| BitIndex.AndOne | code/FQSim/src-solution/kernels.cpp:12 | `x & 1` is the lowest bit of x |
| Binary.BitStringAt | code/FQSim/src-solution/kernels.cpp:11-13 | character j is bit numQubits - 1 - j of num: most significant bit first |
| Binary.FromBinaryBitString | code/FQSim/src-solution/kernels.cpp:9-16 | reading the label in base 2 gives num mod 2^numQubits |
| Binary.BitStringRoundTrip | code/FQSim/src-solution/kernels.cpp:9-16 | for num < 2^numQubits the label reads back as num |
| Binary.BitStringInjective | code/FQSim/src-solution/kernels.cpp:9-16 | distinct indices below 2^numQubits get distinct labels |
| Binary.BitStringFromBinary | code/FQSim/src-solution/kernels.cpp:9-16 | every string of '0' and '1' is the label of the number it spells |

## Left out

- SYCL plumbing: queues, device selection, `malloc_device`, `memcpy`, `.wait()` and the exception handlers are not modelled. The device and host buffers are one array.
- Concurrency: `parallel_for` is a sequential loop. Gates.AnyOrder and Gates.OrderIrrelevant show that the order of the work items does not matter, because their pairs are disjoint. Interleaving inside a work item is not modelled.
- Floating point: amplitudes are exact reals instead of `std::complex<float>`, and rounding is not modelled. `std::sqrt(2.0f)` is a parameter whose square is 2. `std::pow(2, numQubits)` is the exact 2^numQubits.
- Integer width: indices, `samples` counts and targets are unbounded naturals. The 32-bit `int` overflow of `1 << target` and of `nth_cleared` for large targets is not modelled.
- Target range: the code never checks `target < numQubits`. The model requires it (`Shape`), because otherwise the code indexes outside the state vector. No invalid-argument error is modelled, since the code raises none.
- Binary.ToBinary: `num` is a natural number. The arithmetic right shift of a negative `int` is not modelled, since every caller passes an index.
- Randomness: `std::random_device`, `std::mt19937` and `std::discrete_distribution` are not modelled. The outcomes drawn are the input `draws`, each below 2^numQubits. That they follow the weights is not stated.
- Renormalisation is left out together with the sampler. `std::discrete_distribution` divides each weight by the sum of all weights, so it renormalises probabilities that do not sum to 1. The model passes the weights on unnormalised, because the draws are an input.
- Measurement.Measure: printing is modelled as a sequence of lines, each holding the label and the count. The header line, the `State ` and `: ` text and the decimal rendering of the count are not modelled.
- The device buffer `probaVector_d` in `measure` is never freed. That is a resource leak, not behaviour, and is not modelled.
- The exercise stubs `h`, `z` and `measure` in `code/FQSim/src/kernels.cpp` have empty bodies and are not modelled.
- `code/FQSim/src-solution/kernels.hpp` is not part of this model. It declares `toBinary` with one parameter, while the definition takes two.
- The FPGA tutorial programs (matrix multiplication, shift register, accumulator, alignment benchmarks) are not part of this model.
