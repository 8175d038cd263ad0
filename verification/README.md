# Hashcats proof-of-work engine: a verified model

Hashcats mints a token for a nonce whose Keccak-256 hash, taken over
`miner || nonce || prevWork || anchorHash`, is below a target. The repository searches for such nonces with a C program,
a CUDA kernel and a Python pool, and sends the winning one to a chain that may change at any moment. This project models
that engine and proves what it promises:

- the in-place permutation of the C and CUDA code is Keccak-f[1600] of FIPS 202, on every state, and is a bijection
  with an explicit inverse; the single-block hash is KECCAK[512](M, 256) for every message of up to 135 bytes;
- the C and CUDA search and the Python reference accept the same nonces, through every text and byte encoding between
  them;
- the CUDA launch, the Python worker pool and the process supervisor keep their promises under every interleaving;
- the submission loops broadcast only what they have checked.

## Layout

| file | content |
|---|---|
| `Words.dfy` | 64-bit lanes as sequences of bits with C's operators, bytes and their bits |
| `Fips202.dfy` | the specification: FIPS 202 on bit strings, section by section |
| `KeccakLanes.dfy` | the permutation on 25 lanes, as a function |
| `RoundConstants.dfy`, `KeccakRefinement.dfy` | the lane form is the bit form |
| `KeccakInverse.dfy` | the inverse of every step and of the permutation |
| `KeccakInPlace.dfy`, `SingleBlock.dfy`, `HashInPlace.dfy` | the C loops over arrays; padding, absorbing and squeezing one block |
| `WordValues.dfy` | the numbers that bytes and lanes stand for, through shifts, loads and stores |
| `BigEndian.dfy`, `Codecs.dfy` | byte order, comparison, hexadecimal, decimal and the answer line |
| `WorkHash.dfy` | the acceptance rule: Python reference, nonce splice, preimage |
| `Lanes.dfy` | interleaved nonce lanes |
| `KeccakMiner.dfy`, `CSolver.dfy`, `SolveRange.dfy` | the C search, its Python driver, the reference search |
| `CudaKernel.dfy`, `LaunchCoverage.dfy`, `CudaHost.dfy` | kernel step system, nonce arithmetic of launches, host loop |
| `SolverMp.dfy`, `SolverMpLoops.dfy` | worker pool as a step system; its two loops as they run |
| `Difficulty.dfy` | difficulty bits |
| `Hunter.dfy`, `Continuous.dfy` | the two submission loops |

## How the model reads the code

- A `uint64_t` that is combined bit by bit (a Keccak lane) is a sequence of 64 bits; one that is added to (nonce,
  counter, cursor) is an integer modulo 2^64. Array indices and bounds are those of the code.
- Clocks, the scheduler, the chain and the subprocess runtime are arbitrary inputs: a clock is any function, a schedule
  any sequence of choices, a chain any answers, including calls that raise. A loop without an end of its own gets
  `fuel`, an arbitrary bound on how long the process lives.
- An interrupt can hit a pool worker between any two of its steps: check, digest, nonce, count, flag, message, return.
- A kernel thread may read a stale 0 from the flag at any time after it was set.
- In `keccak_miner.c` the report threshold is never advanced, so the time limit is tested after every hash from
  2^22 on; the model does the same.
- The hash total of the CUDA host counts whole launches, also the one that a find cut short.
- Factors such as 1.25, 1.2, 1.3 and the gas multiplier are exact; Python's floating-point rounding is not modelled.

## What does not hold, and when it does

- `solver_mp.solve` is meant to leave its loop with one message per worker and an exact hash total. It does, if and only
  if no worker was interrupted between a digest and its count, between setting the flag and its message, or between
  its message and its return (`SolverMp.FinishedIsExact`; `SolverMp.UncountedDigest`,
  `SolverMp.InterruptedReturnBreaksCount`).
- The shared flag can be set although no nonce is ever delivered: exactly when the worker that set it was interrupted
  before its message (`SolverMp.FlagMeansWinner`, `SolverMp.NoneAfterWin`).
- A None result of `solver_mp` can hide a win: by an interrupt between a winning digest and its message
  (`SolverMp.NoneAfterWin`), or by one between a message and the return, whose second message displaces another worker's
  (`SolverMp.DoubledMessageHidesWin`). Without the latter, None and no cut-off win together are equivalent to "every
  digest lost" (`SolverMp.NoneMeansLost`).
- `csolver.solve` does not always return a nonce that a child has printed, because the reader threads are not joined. A
  call that has left its loop returns None if and only if no FOUND line was read, and the loop was left on the stop
  event, on the time limit, or because every process is gone (`CSolver.LostIfUnread`). In the last case every lane
  has printed a winner, passed its time limit or was terminated from outside (`CSolver.AllPrintedOrKilled`,
  `CSolver.PrintedButNotReturned`).
- `hunter.py` may see a second status-1 receipt in one run: the loop goes on after such a receipt if and only if the
  ownership read that follows raises (`Hunter.GoesOnIfRaised`, `Hunter.AtMostOneSuccess`, `Hunter.TwoSuccesses`).
- `gpu_hunter_continuous.py` may mint twice in one run for the same reason (`Continuous.GoesOnIfRaised`,
  `Continuous.TwoSuccesses`).
- The balance check of `hunter.py` is made with the first simulation's price, gas and fee, while the transaction uses
  values read again. Every balance that passes, at once or in the grace loop, covers the transaction if and only if the
  transaction costs no more than the estimate (`Hunter.CheckCoversExactlyIf`, `Hunter.BroadcastBeyondBalance`). `gpu_hunter_continuous.py` has
  no such gap.
- Two slices of the GPU driver, d slices apart, test disjoint nonces if and only if the first runs no launch, or at most d
  and the two with what is between them do not go round the 64-bit counter (`LaunchCoverage.SlicesDisjoint`,
  `Continuous.SlicesApart`).
- NONE of the GPU program means that every nonce of its launches lost only if the device accepts the launch
  configuration: a rejected launch hashes nothing, and its error is not asked for (`CudaHost.Mine`,
  `CudaHost.RejectedSaysNone`).

## Model

| member | source | states |
|---|---|---|
| KeccakInPlace.Theta | keccak_miner.c:47-52 | the two in-place loops over the 5-lane scratch compute theta on 25 lanes |
| KeccakInPlace.RhoPi | keccak_miner.c:53-59 | the 24-step cycle chase carrying one displaced lane computes fused rho and pi |
| KeccakInPlace.Chi | keccak_miner.c:60-64 | the row-buffered in-place loop computes chi |
| KeccakInPlace.KeccakF | keccak_miner.c:44-67 | the whole in-place permutation computes the lane form of Keccak-f[1600] |
| KeccakRefinement.ThetaRefines | keccak_miner.c:47-52 | lane theta is theta of FIPS 202 section 3.2.1 on the flattened bit string |
| KeccakRefinement.WalkIsTheCycle | keccak_miner.c:41-42 | the order of the PI table is the walk (x, y) -> (y, 2x + 3y) of section 3.2.2 |
| KeccakRefinement.RhoIsTriangular | keccak_miner.c:39-40 | RHO[i] = (i+1)(i+2)/2 mod 64 |
| KeccakRefinement.RhoPiRefines | keccak_miner.c:53-59 | the fused cycle is rho followed by pi of sections 3.2.2 and 3.2.3 |
| KeccakRefinement.ChiRefines | keccak_miner.c:60-64 | lane chi is chi of section 3.2.4 |
| RoundConstants.RoundConstantIsFips | keccak_miner.c:29-37 | every RC entry is the constant that the shift register of section 3.2.5 generates |
| KeccakRefinement.IotaRefines | keccak_miner.c:65 | adding RC[r] to lane 0 is iota |
| KeccakRefinement.KeccakFRefines | keccak_miner.c:44-67 | the code's permutation is KECCAK-f[1600] of FIPS 202 sections 3.2 to 3.4 on every state |
| KeccakInverse.ShearTwice | keccak_miner.c:47-52 | on column parities, (1 + X^k + X^-k Y^k) squared is 1 + X^2k + X^-2k Y^2k |
| KeccakInverse.PowerOfTwo | keccak_miner.c:47-52 | the 2^j-th power of the parity map of theta is 1 + X^(2^j) + X^-(2^j) Y^(2^j) |
| KeccakInverse.ParityMap64 | keccak_miner.c:47-52 | its 64th power is 1 + X + X^4 |
| KeccakInverse.ParityMapOrder | keccak_miner.c:47-52 | the 192nd power of the parity map of theta is the identity |
| KeccakInverse.ThetaInverseLeft | keccak_miner.c:47-52 | the explicit inverse, through the 191st power, undoes theta |
| KeccakInverse.ThetaInverseRight | keccak_miner.c:47-52 | theta undoes the explicit inverse |
| KeccakInverse.RhoPiInverseLeft | keccak_miner.c:53-59 | walking the cycle back undoes fused rho and pi |
| KeccakInverse.RhoPiInverseRight | keccak_miner.c:53-59 | fused rho and pi undo the walk back |
| KeccakInverse.ChiOrderFour | keccak_miner.c:60-64 | chi applied four times is the identity |
| KeccakInverse.KeccakFBijective | keccak_miner.c:44-67 | the permutation has a two-sided inverse through all 24 rounds |
| KeccakInverse.KeccakF1600Bijective | keccak_miner.c:44-67 | so KECCAK-f[1600] is a permutation of the 1600-bit strings |
| SingleBlock.PadBlockBits | keccak_miner.c:73-77 | the two XORed pad bytes give message, 1, zeros, 1, also when both fall into one byte |
| SingleBlock.UnpadUndoesPad | keccak_miner.c:73-77 | an explicit unpadding recovers every message of at most 135 bytes from its block |
| SingleBlock.PaddingInjective | keccak_miner.c:73-77 | different messages have different blocks |
| SingleBlock.HashIsKeccak256 | keccak_miner.c:69-87 | absorb, permute, squeeze on one block is the sponge KECCAK[512](M, 256) for every length from 0 to 135 |
| HashInPlace.LoadLane | keccak_miner.c:78-82 | the byte loop with OR and shift loads the little-endian lane of appendix B.1, whose number is the sum of its eight bytes times powers of 256 |
| HashInPlace.StoreOut | keccak_miner.c:84-86 | byte k of the digest is the number of lane k / 8 divided by 256^(k mod 8), modulo 256 |
| WordValues.ByteValue | keccak_miner.c:80 | the bits of a byte add up to the byte |
| WordValues.ByteBit | keccak_miner.c:80 | bit i of a byte is its binary digit of weight 2^i |
| WordValues.LiteralValue | keccak_miner.c:29-37 | a 64-bit literal fills a lane with its own number |
| WordValues.ShlValue | keccak_miner.c:80 | a left shift multiplies by a power of two, modulo 2^64 |
| WordValues.ShrValue | keccak_miner.c:86 | a right shift divides by a power of two |
| HashInPlace.Keccak256Single | keccak_miner.c:70-87 | the array code writes Keccak-256 of the first len bytes to out, len < 136 |
| HashInPlace.Keccak256Of116 | gpu/verify_kernel_cpu.c:54-71 | the fixed-length copy writes Keccak-256 of the 116 bytes |
| BigEndian.FirstDifference | keccak_miner.c:100-102 | the first differing byte decides the big-endian order, for any equal lengths |
| BigEndian.LtBe | keccak_miner.c:99-104 | lt_be is numeric less-than of the big-endian values |
| BigEndian.ValueOfBytes | miner.py:31-35 | int.from_bytes undoes int.to_bytes for every number that fits |
| Codecs.Hex2Bin | keccak_miner.c:89-96 | fails exactly when some byte does not scan, otherwise out holds the scanned bytes |
| Codecs.HexDigitMeans | keccak_miner.c:92 | a character reads as digit d exactly when it is the d-th lower-case or upper-case digit |
| Codecs.HexBytesFail | keccak_miner.c:89-96 | hex2bin fails exactly when some byte has no digit at its first place |
| Codecs.HexBytesRead | keccak_miner.c:89-96 | otherwise each byte is the number of its two digits, or of one when the second place has none |
| Codecs.HexBytesOfHex | csolver.py:33 | hex2bin undoes bytes.hex() |
| Codecs.HexIsLower | csolver.py:33 | the digits written are lower case |
| Codecs.HexBytesOfPadded | csolver.py:32-34 | hex2bin of the zero-padded hexadecimal form of n is n as big-endian bytes |
| Codecs.HexBytesOfLower | csolver.py:31 | what C reads from the lower-cased address is what bytes.fromhex reads from the address |
| Codecs.LowerCharMeans | csolver.py:31 | exactly the upper-case letters change, each to its lower-case letter |
| Codecs.StrtoullOfDec | keccak_miner.c:116-117 | a decimal argument is read back exactly below 2^64 and saturates from there on |
| Codecs.StrtoullStops | keccak_miner.c:116-117 | reading stops at the first character that is no digit |
| Codecs.FoundLineRoundTrip | csolver.py:55-59 | the parent reads back the nonce that the child printed |
| Codecs.OtherLines | csolver.py:55-59 | a line that does not start with FOUND yields no nonce |
| WorkHash.SpliceNonce | keccak_miner.c:137-139 | bytes 44 to 51 become the big-endian nonce and no other byte changes |
| WorkHash.SplicedIsPacked | keccak_miner.c:120-125 | template plus spliced nonce is the packed preimage of that nonce |
| WorkHash.PackedInjective | miner.py:29-34 | equal preimages come from equal miner, nonce, prevWork and anchor |
| WorkHash.VerifyLocalIsWins | gpu/gpu_hunter_continuous.py:68-75 | verify_local accepts exactly the nonces whose packed hash is below the target |
| KeccakMiner.TryNonce | keccak_miner.c:137-143 | one iteration leaves the packed preimage and its digest in the buffers and decides the acceptance rule |
| KeccakMiner.Search | keccak_miner.c:134-158 | FOUND is the first winner of the lane; NONE and termination mean every nonce tried lost; NONE needs 2^22 hashes and a clock past a positive limit |
| KeccakMiner.LaneMeans | keccak_miner.c:134-158 | the outcome in terms of nonces and clock alone: all nonces before lost, the clock was in time before, and what FOUND, NONE and termination say about the last |
| KeccakMiner.LaneStops | keccak_miner.c:149-157 | a lane without an earlier winner says NONE at the first test that the clock fails |
| KeccakMiner.Run | keccak_miner.c:106-158 | exits 2 exactly on fewer than six arguments or a missing hexadecimal digit, otherwise searches the job the arguments describe, with the optional time limit |
| KeccakMiner.Accepts | keccak_miner.c:111-143 | from the hexadecimal arguments to the verdict on one nonce: the acceptance rule on the job that the arguments describe |
| KeccakMiner.LaneFinds | keccak_miner.c:134-148 | a lane that is not stopped before its q-th nonce, a winner, reports that winner or an earlier one |
| CSolver.JobArgsParse | csolver.py:31-43 | the child reads back exactly the parent's job from its argument list |
| CSolver.EndToEnd | csolver.py:31-43 | the C program, given the parent's text arguments, accepts a nonce exactly when verify_local does on the parent's values |
| Lanes.LanesPartition | csolver.py:40-43 | every nonce from the base on lies on exactly one lane at exactly one place |
| CSolver.CounterFollowsLane | keccak_miner.c:148 | below 2^64 the wrapping counter of a lane visits base + i + k * ncores |
| CSolver.WinnerIsReported | csolver.py:40-46 | a winner in [base, base + ncores * rounds) is reported by its lane within that many iterations |
| CSolver.FoundIsAccepted | csolver.py:53-59 | a printed nonce, read back, passes verify_local |
| CSolver.ReturnedIsAccepted | csolver.py:82-104 | a nonce that solve returns passes verify_local, for every order of prints, exits, reads, stop, timeout, break and return |
| CSolver.PrintedButNotReturned | csolver.py:89-90 | for every job, winning nonce, time limit and stop event, a genuine run in which a printed nonce is lost |
| CSolver.LostIfUnread | csolver.py:82-104 | for every call, with or without stop event and time limit, that has left its loop: the answer is None if and only if no reader had got a FOUND line, and the loop was left on the stop event, the time limit, or with every process gone |
| CSolver.AllPrintedOrKilled | csolver.py:82-104 | a process that is gone had printed a winner, passed its time limit or was terminated from outside; if None is returned with neither stop event nor time limit, that is every lane |
| CSolver.ReturnsExactlyIf | csolver.py:82-104 | after any events solve can break and return if and only if a FOUND line was read, the stop event came, the time limit passed, or every process is gone |
| CSolver.Delivers | csolver.py:53-104 | after a FOUND line was read it returns the nonce of the last such line |
| SolveRange.Solve | miner.py:45-69 | the three ways to return: a hit after all earlier nonces lost, exhaustion or the flag, an overflow; a prevWork that does not fit always raises |
| SolveRange.LeastWinner | miner.py:57-66 | a returned nonce is the least winner of the range |
| SolveRange.AgreesWithLane | miner.py:57-69 | with stride 1 the C lane over the same range reports the same nonce, or loses with it |
| CudaKernel.InvStep | gpu/keccak_cuda.cu:113-129 | every step of every thread keeps the invariant, also between swapping the flag and writing the nonce |
| CudaKernel.LaunchIsCorrect | gpu/keccak_cuda.cu:99-130 | after synchronisation a set flag comes with a winning nonce stored once by the thread that won the swap, and a clear flag means every nonce of the launch lost |
| CudaKernel.LaunchEnds | gpu/keccak_cuda.cu:114-129 | no schedule keeps a launch busy for longer than its work, and it only stops when all threads have returned |
| CudaKernel.StopsPromptly | gpu/keccak_cuda.cu:115 | once the flag is set and seen, no thread begins another iteration, and all return within two steps each |
| LaunchCoverage.TidCovers | gpu/keccak_cuda.cu:107 | every thread number below the stride belongs to a thread of a block |
| LaunchCoverage.TidUnique | gpu/keccak_cuda.cu:107 | and to only one |
| LaunchCoverage.TidNeighbours | gpu/keccak_cuda.cu:107 | neighbouring threads have neighbouring numbers, block after block |
| LaunchCoverage.LaunchesCover | gpu/keccak_cuda.cu:178-194 | n launches reach every distance below n * blocks * threads * iters |
| LaunchCoverage.LaunchesUnique | gpu/keccak_cuda.cu:178-194 | no distance belongs to two launches, iterations or threads |
| LaunchCoverage.LaunchesBounded | gpu/keccak_cuda.cu:178-194 | no launch reaches beyond |
| LaunchCoverage.LaunchNonce | gpu/keccak_cuda.cu:113-128 | iteration j of thread t of launch l tests base plus that distance, modulo 2^64 |
| LaunchCoverage.TestedExactlyOnce | gpu/keccak_cuda.cu:107-194 | without 64-bit wrap, n launches test each nonce of [base, base + n * blocks * threads * iters) in exactly one launch, iteration and thread |
| LaunchCoverage.SlicesDisjoint | gpu/gpu_hunter_continuous.py:150-153 | a slice and the d-th after it test no common 64-bit nonce if and only if the first runs no launch, or at most d and both with what is between stay within 2^64 nonces |
| CudaHost.TestNonce | gpu/keccak_cuda.cu:108-122 | the device code for one nonce, on the arrays the iteration before left behind, leaves packed preimage and digest and decides the acceptance rule |
| CudaHost.ThreadLoop | gpu/keccak_cuda.cu:107-129 | a thread stops on the flag, at its first winner or after all its iterations, and every nonce before lost |
| CudaHost.Mine | gpu/keccak_cuda.cu:185-212 | FOUND wins and lies in the last launch; if the device accepts the configuration, all launches before it, or all launches, were lost; the total counts whole launches |
| CudaHost.FoundMeans | gpu/keccak_cuda.cu:185-207 | FOUND wins, is tested by a thread of the last launch, and no nonce of the range covered before it wins |
| CudaHost.NoneMeans | gpu/keccak_cuda.cu:198-211 | NONE means that the clock has passed a positive limit, for the first time after a launch |
| CudaHost.HostStops | gpu/keccak_cuda.cu:198-211 | conversely a process without a winner says NONE when the clock first passes the limit, unless a launch never ends |
| CudaHost.RejectedSaysNone | gpu/keccak_cuda.cu:185-212 | a device that rejects the configuration makes the program say NONE at its first successful time test, for every job, also one whose first nonce wins |
| CudaHost.RunProgram | gpu/keccak_cuda.cu:141-213 | the same for the job, base nonce, time limit and grid that the arguments or their defaults describe |
| CudaHost.DefaultGrid | gpu/keccak_cuda.cu:156-158 | without the optional arguments a launch is 4096 blocks of 256 threads with 4096 nonces each |
| CudaHost.GivenGrid | gpu/keccak_cuda.cu:156-158 | with them, blocks and threads are as given and the iterations are cut to 32 bits |
| CudaHost.FoundIsAccepted | gpu/gpu_hunter_continuous.py:41-51 | a nonce that the GPU program prints, read back, passes verify_local |
| CudaHost.SliceArgsParse | gpu/gpu_hunter_continuous.py:37-39 | the GPU program reads back the job and the grid from the driver's argument list |
| CudaHost.EndToEnd | gpu/gpu_hunter_continuous.py:35-40 | the GPU program, started on the driver's text arguments, accepts a nonce exactly when verify_local does on the driver's values |
| CudaHost.RunSlice | gpu/gpu_hunter_continuous.py:35-51 | the nonce that comes back from the program, started on the driver's text arguments, passes verify_local on the driver's values |
| CudaHost.LostRange | gpu/keccak_cuda.cu:185-212 | after n launches without a find no nonce of the covered range wins |
| SolverMp.InvStep | solver_mp.py:22-73 | every step of a worker, an interrupt at any point of its loop, or the parent keeps the invariant |
| SolverMp.CheckStops | solver_mp.py:24-27 | a worker at its check puts its count and stops exactly if the flag is set or the clock is past the deadline, whatever it has counted; otherwise it starts a batch of 8192 |
| SolverMp.ReportsWholeBatches | solver_mp.py:24-36 | a worker that neither won nor was interrupted reports a multiple of 8192 hashes |
| SolverMp.SoloFinds | solver_mp.py:21-34 | a worker left alone in time puts the first winner of its lane, with the number of hashes up to it |
| SolverMp.ParentKeeps | solver_mp.py:64-73 | the parent's counters and result are the sums and the last nonce of the messages received |
| SolverMp.OneMessageEach | solver_mp.py:63-73 | if no worker was interrupted between its message and its return, the parent leaves its loop after exactly one message from each worker |
| SolverMp.FinishedIsExact | solver_mp.py:63-73 | one message per worker, an empty queue and an exact hash total, if and only if no worker was interrupted between a digest and its count, between the flag and its message, or between its message and its return |
| SolverMp.UncountedDigest | solver_mp.py:31-38 | for every job, a run in which one digest is missing from the total |
| SolverMp.InterruptedReturnBreaksCount | solver_mp.py:24-38 | a concrete run in which the parent counts one worker twice and another not at all |
| SolverMp.ResultWins | solver_mp.py:31-34 | a returned nonce wins, was put by a worker that won with it, and is the one its own lane reaches after the hashes that worker counted |
| SolverMp.FlagMeansWinner | solver_mp.py:31-34 | the flag is set if and only if a worker set it, whose nonce wins; it has put that nonce, or is about to, if and only if it was not interrupted right after setting the flag; a nonce that was put is in the queue or received |
| SolverMp.NoneAfterWin | solver_mp.py:31-38 | for every job that nonce 0 wins, a run with the flag set, no nonce put and the result None |
| SolverMp.StopsPromptly | solver_mp.py:21-27 | once the flag is set no worker computes more than 8192 further hashes |
| SolverMp.FewHashesAfterFlag | solver_mp.py:21-27 | from any state with the flag set, no continuation lets a worker compute more than 8192 further digests |
| SolverMp.NoneMeansLost | solver_mp.py:22-38 | if no worker was interrupted between its message and its return: every digest computed lost, if and only if the result is None and no worker was interrupted between a winning digest and its message |
| SolverMp.NoneMeansStopped | solver_mp.py:24-26 | then every worker read a clock past a nonzero deadline or was interrupted |
| SolverMp.DoubledMessageHidesWin | solver_mp.py:24-38 | for every job that nonce 1 wins, a run with result None while the winner waits to put its nonce |
| SolverMp.NeverGivesUp | solver_mp.py:48-73 | without time limit and interrupts a search returns only with a winner |
| SolverMp.NeverStuck | solver_mp.py:67-68 | the parent never blocks for ever: while it waits, a message is queued or some worker is still running |
| SolverMp.EndsAfterFlag | solver_mp.py:21-38 | once the flag is set, no schedule keeps the pool busy beyond the steps left, and it stops only when the parent has left its loop and all workers have returned |
| SolverMp.EndsAfterDeadline | solver_mp.py:21-38 | the same once every clock is past the deadline |
| SolverMp.LeftBound | solver_mp.py:21-38 | those steps are at most 3 * 8192 + 6 for each worker |
| SolverMpLoops.WorkerLoop | solver_mp.py:19-36 | "done" reports whole batches that lost and comes from a stopping check; "found" carries the first winner of the lane |
| SolverMpLoops.ParentLoop | solver_mp.py:64-73 | the parent takes one message per worker, sums their counts and keeps the last nonce |
| SolverMp.LastNonceMeans | solver_mp.py:71-72 | the result is the nonce of the last message that has one |
| Difficulty.BitsBracketTarget | chain.py:86 | 2^bits * target < 2^256 <= 2^(bits+1) * target |
| Difficulty.WinnerHasLeadingZeros | gpu/gpu_hunter_continuous.py:64 | every winner's digest starts with at least that many zero bits |
| Difficulty.LeadingZerosWin | gpu/gpu_hunter_continuous.py:64 | one zero bit more than the difficulty is enough to win |
| Difficulty.ShiftedTargetBits | csolver.py:113 | the target (2^256 - 1) >> b has exactly b bits, for b from 0 to 256 |
| Hunter.GraceLoop | hunter.py:81-88 | appends at most 40 balance and 40 prevWork reads in turn; only the last read may raise, only the last balance may cover the cost, and without a covering balance or an exception all 80 are made |
| Hunter.GraceAttempt | hunter.py:77-100 | a balance that arrives at the m-th more read leads to the final simulation and the broadcast |
| Hunter.StraightAttempt | hunter.py:75-100 | and so does a first balance that covers the cost |
| Hunter.TrySendStops | hunter.py:64-74 | an attempt ends at a price that cannot be read, at a failed simulation, and in a dry run after a successful one |
| Hunter.HuntOnceTries | hunter.py:107-142 | a round waits exactly when the difficulty is above the limit, tries to send exactly when csolver finds a nonce for its snapshot, and is done exactly when an attempt in send mode succeeds |
| Hunter.Margins | hunter.py:76 | gas limit and gas price are 1.25 times the estimate and 1.2 times the fee, rounded down |
| Hunter.RunHunter | hunter.py:163-177 | the loop stops exactly at the first completed round; its log is disciplined and settled, and without --send nothing is sent |
| Hunter.RunIsDisciplined | hunter.py:64-142 | every broadcast ends an attempt: the snapshot, the nonce csolver returned for it, a successful simulation, the balance that covers its cost as the last read before the final price, a second simulation of the same nonce and anchor, whose price the transaction pays; every status-1 receipt is followed at once by the ownership read |
| Hunter.CsolverIsHonest | hunter.py:125-128 | a solver whose answers are those of genuine runs of csolver.solve returns only nonces that win the job of the snapshot it was given |
| Hunter.BroadcastWins | hunter.py:109-141 | with such a solver every broadcast nonce wins the job read in the snapshot of its own round |
| Hunter.DryRunNeverSends | hunter.py:72-74 | without --send nothing is broadcast and completion is never reported |
| Hunter.GoesOnIfRaised | hunter.py:98-102 | after a status-1 receipt the loop goes on if and only if the ownership read that follows raises |
| Hunter.AtMostOneSuccess | hunter.py:97-102 | completion needs a status-1 receipt; of two such receipts the first had its ownership read raise, so a run sees at most one if none raises |
| Hunter.ReceiptsBalance | hunter.py:97-102 | the status-1 receipts of a run are its completion, if it completed, and those whose ownership read raised |
| Hunter.TwoSuccesses | hunter.py:98-102 | for any two jobs of a miner within the difficulty limit and a nonce that wins each, a run with two status-1 receipts |
| Hunter.CheckCoversExactlyIf | hunter.py:75-97 | for every attempt that broadcasts, with or without the grace loop: every balance that passes the check covers the transaction, if and only if that costs no more than the estimate of the check |
| Hunter.FundedIfNoDearer | hunter.py:75-97 | with the grace loop too: the balance that passed the attempt's check covers a transaction that costs no more than its estimate |
| Hunter.FundedIfNothingRose | hunter.py:75-97 | in particular if price, gas and fee did not rise after the check |
| Hunter.BroadcastBeyondBalance | hunter.py:75-97 | a concrete run that broadcasts a transaction the balance does not cover |
| Continuous.RunContinuous | gpu/gpu_hunter_continuous.py:141-185 | the loop stops exactly at the pass that completes the mission; all its broadcasts are checked, all its slices ran on the latest snapshot, its log is orderly, every status-1 receipt is settled, and completion comes right after one |
| Continuous.RunIsOrderly | gpu/gpu_hunter_continuous.py:78-185 | event by event, each interaction of a run is the one that those before it call for, with the environment's answer; a pass never stops half way; slices run within the difficulty limit |
| Continuous.PassStarts | gpu/gpu_hunter_continuous.py:143-153 | a pass renews the snapshot exactly when due, and slices exactly when that did not raise and the difficulty is within the limit |
| Continuous.SliceBase | gpu/gpu_hunter_continuous.py:150 | the i-th slice of a run has base start + i * step, whatever the slices before returned or raised |
| Continuous.SlicesApart | gpu/gpu_hunter_continuous.py:150-153 | which two slices of a run repeat no nonce, when the step is one launch |
| Continuous.Margins | gpu/gpu_hunter_continuous.py:92-93 | gas limit and bid are 1.3 times the estimate and the fee times the multiplier, rounded down |
| Continuous.EveryBroadcastChecked | gpu/gpu_hunter_continuous.py:78-111 | every broadcast passed verify_local on the snapshot it was mined on, prevWork was re-read equal, and the balance read covers value + gas * gasPrice of that transaction |
| Continuous.AlwaysUpToDate | gpu/gpu_hunter_continuous.py:141-153 | every slice is mined on the latest snapshot read |
| Continuous.CompleteMeansMinted | gpu/gpu_hunter_continuous.py:172-178 | completion is reported only with --send, right after a status-1 receipt and the ownership read |
| Continuous.GoesOnIfRaised | gpu/gpu_hunter_continuous.py:107-111 | after a status-1 receipt the loop goes on if and only if the ownership read that follows raises |
| Continuous.TwoSuccesses | gpu/gpu_hunter_continuous.py:107-185 | for any two snapshots within the difficulty limit and nonces that pass verify_local on them, a run with two status-1 receipts |

## Left out

- RPC connection, contract calls, signing, key and wallet files: opaque; chain reads are arbitrary answers.
- The contract's own rules (price, burst, retarget) and `hashcats_abi.json`: only signatures are in the repository.
- `watcher.py`, `analyze.py`, `feasibility.py`, logging, hash-rate and time estimates: reporting, no promise to prove.
- `bot.py`: its submission (simulate, check the balance, broadcast) is left out; it is a shorter form of `hunter.py`'s, around `solver_mp`.
- `gpu/verify_kernel.cu`, `gpu/gpu_hunter.py`: copies of modelled code; the test-vector loop of `gpu/verify_kernel_cpu.c`.
- `benchmark` of `miner.py` and the shell scripts.
- Cryptographic strength of Keccak; the hash of pycryptodome is taken to be FIPS 202's.
- Codecs.Hex2Bin: `sscanf("%2x")` is modelled on hexadecimal digits; white space, signs and a "0x" prefix are not. A text
  of odd length, shorter than the buffer needs, makes C read past its terminator; the model reports a failure.
- Codecs.HexBytesOfLower: `bytes.fromhex` also skips white space, which an address never holds.
- Codecs.StrtoullOfDec: `strtoull` on text with white space or a sign is not modelled.
- KeccakMiner.Run: `atof` is an arbitrary function of its argument and `clock_gettime` an input; RATE lines are not modelled.
- CudaHost.RunProgram: `atof` is an arbitrary function; `atoi` is modelled on decimal numbers below 2^31, not on signs or overflow.
- CudaKernel.LaunchIsCorrect: memory is sequentially consistent except for stale reads of the flag; launches that `cudaDeviceSynchronize` reports as failed end the run in `CudaHost.Mine`.
- The shared flag, the queue and the device memory are values of a step system, not objects updated in place; aliasing between them cannot arise in the code.
- SolverMp.FinishedIsExact: an interrupt outside the try block or inside the except clause, an interrupt of the parent, a worker killed from outside, and the OverflowError of a nonce of 2^256 or more are not modelled; the parent takes queued messages in any order.
- Hunter.RunIsDisciplined: the reads of the prevWork watcher thread and a KeyboardInterrupt are not in the log.
- Continuous.EveryBroadcastChecked: the loop's sleeps and its progress output are not modelled; whether the snapshot is due for renewal is an input.
