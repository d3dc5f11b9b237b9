# Verified models of the algorithms inside the accelerator measurement harness

The repository measures hardware accelerators. This project models the self-contained algorithms and the
two small concurrent protocols inside it, and proves what they promise for every input and every run.

| file | what it models |
|---|---|
| `Murmur.dfy`, `Furc.dfy`, `FurcWitness.dfy` | the consistent hash of `include/ch3_hash.h`: murmur hash and rehash, the lazily cached bit stream, the retrying shard search |
| `Lfsr.dfy` | cyclic redundancy checks on bit strings: a shift register, and long division over GF(2) |
| `Word64.dfy`, `Crc64.dfy` | the table-driven CRC-64 of `chaining-demo/validate_compress_and_crc.c` (ECMA-182, Annex B) |
| `CrcWitness.dfy` | the check values of both codes, worked out |
| `Crc32c.dfy` | the slicing-by-8 CRC-32C of `chaining-demo/dsa_funcs.c` (section 12.1 of RFC 3720), all four flag settings |
| `Offload.dfy` | the first-come-first-served yielding scheduler and the emulated accelerator thread of `chaining-demo/compress_crc.c`, as one interleaved state machine |
| `Handshake.dfy` | the one-slot offload handshake of `uarch_contention_measurement/main.c` |
| `PointerChain.dfy` | the random pointer chain of `chaining-demo/compress_crc.c` |
| `LongOptions.dfy`, `ParseOptions.dfy` | the option parser of `idxd/util/parse-options.c` |
| `Bitmap.dfy` | the word-level bitmap of `idxd/util/bitmap.c` |
| `Strbuf.dfy` | the growable buffer of `idxd/util/strbuf.c` |
| `PostingLists.dfy` | the posting-list intersection of `ax_access_overhead_measurement/walker_ax_access_overhead.cpp` |
| `Prelude.dfy` | what several modules share |

`dafny verify dfyconfig.toml` checks the whole project.

## How the source is modelled

* Code that changes things in place is a method or a class over arrays, specified by a function on values;
  the laws are proved of that function.
* Machine words are bit vectors, and their bits are related to bit strings by a view. Lengths and indices are
  unbounded integers; where the source's width matters (the buffer's size arithmetic, the 32-bit shard
  count) it is written out.
* The two-thread programs are step relations over the shared variables, and every interleaving of steps is a run;
  fair endless runs are schedules of actions. A step makes at most one access to memory the other thread can change
  meanwhile. The accelerator's taking steps read several mailbox words at once, but only while the mailbox is pending,
  when no step of the other thread changes anything (`CoreHeldWhilePending`). Elapsed device time and preemption at
  probe points are free choices.
* Random draws, file contents, callbacks, number syntax, uninitialised memory and the allocator's limit are
  parameters.

## Where the code does not do what it is meant to do

The code is modelled as written. Each of these has a concrete witness and the exact condition.

* **Minimal disruption.** Growing the pool can move a key to an old shard: a search that uses up its 32 tries
  returns shard 0. `DisruptionExactly` and `GrowByOne` say exactly when, and `SeventeenthShardDisrupts` is a key
  that shard 7 of 16 loses to shard 0 of 17.
* **Completion stamps.** The accelerator thread reads the submitter's index again after it has released the
  mailbox, so a completion time can be written for the next request. With one request at most this never happens,
  with two or more it can (`StampsRightlyExactly`, with the run of `StampRace`).
* **Unwritten deadlines.** The request whose stamp went astray is then completed by comparing the clock with an array
  element that was never written: in some run exactly when there are two requests or more
  (`DeadlinesWrittenExactly`, with the run of `UnwrittenRead`). `EveryFairRunFinishes` therefore says that every fair
  run finishes or comes to such a comparison. If only written deadlines are sure to come, all fair runs finish exactly
  when there is one request at most (`AlwaysFinishesExactly`, with the run of `HangsForever`); if what the memory
  happens to hold comes too (`lucky`), all of them finish.
* **Unfilled offloads.** The driving loop takes the filler as optional. A yielding request driven without one is
  never resumed and its completion is erased unseen (`LosesNothingExactly`); the entry point never pairs them so.
* **Bitmap search.** Find-first-set counts from 1, so a successful search reports one past the bit it found
  (`FindRightExactly`), and the searched `bitmap_full` ignores the last bit (`FullRightExactly`).
* **Growing a fresh buffer.** The header promises a NUL after the contents. Making room keeps it, whatever the
  allocator returns, exactly for a buffer that was already allocated (`KeepsNulExactly`); `GrowFresh` makes a buffer
  without one.
* **Growth near the end of the size range.** The growth macro wraps, so the copying done by reallocation stays within
  three times the final length exactly up to the length where it does (`CopiesThriceExactly`, `WrappingCopiesMore`).
* **Negating short names.** `--no-n` and `--no-no` are not the negations of options named `n` and `no`
  (`NegationRecognised`, `NegationMissed`).
* **A value that outlives its argument.** If an option that stands for itself has `=` in its name, an abbreviation met
  before it takes the text after `=` for its value, and the next option gets that value (`LeaksExactly`, with the
  scan of `LeftOverTaken`).

## Model

| member | source | states |
|---|---|---|
| Murmur.MurmurHash64A | include/ch3_hash.h:43-94 | the block loop and the fall-through tail compute one function of the bytes: blocks absorbed in order, then the zero-padded little-endian tail, then the finish |
| Murmur.MixTail | include/ch3_hash.h:65-87 | the fall-through switch over 0 to 7 left-over bytes equals mixing in the zero-padded last word, and does nothing when none is left |
| Murmur.BlockReadBack | include/ch3_hash.h:50-62 | every whole block went in at its place: from the states before and after it, its eight bytes are read back in little-endian order |
| Murmur.TailReadBack | include/ch3_hash.h:65-91 | for every length that is no multiple of eight, undoing the finish and the last multiplication shows the left-over bytes, each at its position and nothing above |
| Murmur.NoTailReadBack | include/ch3_hash.h:65-91 | without left-over bytes only the finish follows the last block |
| Murmur.HashOfShortKey | include/ch3_hash.h:43-94 | the hash of the one-byte key `a` under the fixed seed, worked out |
| Murmur.HashOfLongKey | include/ch3_hash.h:43-94 | the hash of a key of two blocks and three bytes, worked out |
| Murmur.RehashIsHash | include/ch3_hash.h:24-42 | rehashing a word equals hashing its eight little-endian bytes with the fixed seed |
| Murmur.RehashBijective | include/ch3_hash.h:24-42 | rehashing is a bijection on 64-bit words, with its inverse given |
| Murmur.ChainsNeverMerge | include/ch3_hash.h:96-120 | if two rehash chains ever meet, one of the two starting words already lay on the other's chain |
| Murmur.OneBlockNeverCollides | include/ch3_hash.h:43-94 | keys of equal length that differ only inside one aligned eight-byte block (or only in the tail) hash differently under every seed |
| Furc.LevelLeast | include/ch3_hash.h:140-141 | the level found is the least whose power of two reaches the pool size |
| Furc.FindLevel | include/ch3_hash.h:140-141 | the counting loop finds that level |
| Furc.BitCache.GetBit | include/ch3_hash.h:96-120 | whatever indices were asked before and in whatever order, the cached prefix is the iterated rehash sequence and the bit returned is the uncached stream's; only the words needed are filled |
| Furc.CacheSuffices | include/ch3_hash.h:122-166 | every index read during a search for a 32-bit pool lies in cache word 368 or below, so inside the cache of 1024 |
| Furc.LevelOfWord | include/ch3_hash.h:140-141 | a 32-bit pool needs level 32 at most |
| Furc.FindSetLead | include/ch3_hash.h:143-150 | the inner loop stops at the try's own level if its leading bit is set, else at the highest lower level whose leading bit is set, else at zero |
| Furc.ReadNumber | include/ch3_hash.h:151-156 | the bits gathered are the binary number read off the stream at the fixed gap, leading bit first, and fit 32 bits |
| Furc.DigitsBits | include/ch3_hash.h:151-156 | bit i of the number read, from the most significant, is the stream bit i gaps after the first |
| Furc.ShardReadOff | include/ch3_hash.h:122-166 | a shard other than 0 is exactly the number the stream writes, bit by bit, at the place where the search was won: the first try not rejected at the top level, or the highest lower level whose leading bit is set |
| Furc.TriesCounted | include/ch3_hash.h:10-16 | exactly 32 tries are made at the given gap: a number in range counts on tries 0 to 31 and on no later one |
| Furc.DescendAtSetLead | include/ch3_hash.h:143-156 | falling through the levels gives the number read at the highest level whose leading bit is set, or zero |
| Furc.FurcHash | include/ch3_hash.h:122-166 | for every key and every 32-bit pool the cached, looping search returns the abstract search's shard on the key's stream, below the pool size |
| Furc.ShardInRange | include/ch3_hash.h:122-166 | for every stream and pool of one or more, the shard is below the pool size |
| Furc.SearchSettles | include/ch3_hash.h:143-165 | the search is decided by its first try that is not rejected: by the number itself, by falling to a lower level, or by zero when all 32 are rejected |
| Furc.MinimalDisruption | include/ch3_hash.h:122-166 | for pools m1 <= m2 needing the same level, or whose larger search does not use up its tries, a key whose shard in the larger pool already existed keeps it |
| Furc.DisruptionExactly | include/ch3_hash.h:122-166 | minimal disruption between two pools fails if and only if the level grows, the larger search uses up its tries and the smaller one does not land on zero anyway |
| Furc.GrowByOne | include/ch3_hash.h:122-166 | adding one shard keeps a key or moves it to the new shard, except exactly when the pool was a full power of two, the new search uses up its tries and some leading bit is set |
| Furc.ZeroShard | include/ch3_hash.h:122-166 | shard 0 is returned exactly when all tries are rejected or the settled try falls through clear leading bits |
| Furc.PowerOfTwoPool | include/ch3_hash.h:122-166 | in a pool of a power of two the first try always settles |
| FurcWitness.SeventeenthShardDisrupts | include/ch3_hash.h:122-166 | a concrete eight-byte key is on shard 7 of 16 and on shard 0 of 17 |
| Lfsr.RunConcat | chaining-demo/validate_compress_and_crc.c:25-37 | shifting in one bit string after another is shifting in their concatenation |
| Lfsr.RunLinear | chaining-demo/validate_compress_and_crc.c:25-37 | the register is linear in its start and its input together |
| Lfsr.RunInjective | chaining-demo/validate_compress_and_crc.c:25-37 | with an odd polynomial, different registers stay different under equal input |
| Lfsr.RunIsRemainder | chaining-demo/validate_compress_and_crc.c:25-37 | the shift register holds the remainder of long division over GF(2) of the message, register added at its front and as many zeros appended |
| Lfsr.RemainderLinear | chaining-demo/validate_compress_and_crc.c:25-37 | the remainder of a sum is the sum of the remainders |
| Lfsr.RemainderOfMultiple | chaining-demo/validate_compress_and_crc.c:25-37 | every shifted copy of the polynomial itself leaves remainder zero |
| Lfsr.RemainderOfShort | chaining-demo/validate_compress_and_crc.c:25-37 | a string of the polynomial's width is its own remainder, leading zeros apart; with the two laws above this determines every remainder |
| Lfsr.BurstDetected | chaining-demo/validate_compress_and_crc.c:25-37 | with an odd polynomial of width W, messages that differ only inside W consecutive bits leave different registers |
| Lfsr.SameRegisterExactly | chaining-demo/validate_compress_and_crc.c:25-37 | for any polynomial, messages of equal length leave the same register if and only if their difference, shifted up by the width, leaves remainder zero |
| Crc64.GenerateEntry | chaining-demo/validate_compress_and_crc.c:9-20 | the inner loop, with its separate remainder and shifting byte, computes the register after the byte's eight bits |
| Crc64.GenerateTable | chaining-demo/validate_compress_and_crc.c:5-23 | all 256 entries are filled with exactly those registers |
| Crc64.TableStep | chaining-demo/validate_compress_and_crc.c:31-35 | for every polynomial and register, one lookup and shift equals eight single-bit steps |
| Crc64.Crc64Be | chaining-demo/validate_compress_and_crc.c:25-37 | the table loop equals bit-at-a-time MSB-first division for every polynomial, start value and buffer |
| Crc64.SerialIsRun | chaining-demo/validate_compress_and_crc.c:25-37 | the 64-bit register is the shift register on bit strings |
| Crc64.Crc64IsRemainder | chaining-demo/validate_compress_and_crc.c:25-37 | the result is the remainder of long division by the polynomial |
| Crc64.MessageBitsAt | chaining-demo/validate_compress_and_crc.c:31-35 | the message bits are the bytes in order, each most significant bit first |
| CrcWitness.CheckValue64 | chaining-demo/validate_compress_and_crc.h:21 | the checksum of `123456789` is the code's published check value |
| Crc64.Crc64Chains | chaining-demo/validate_compress_and_crc.c:25-37 | the CRC of a concatenation is the CRC of the second part started from that of the first |
| Crc64.Crc64DetectsBursts | chaining-demo/validate_compress_and_crc.c:25-37 | for an odd polynomial, a change inside 64 consecutive bits always changes the result |
| Crc64.Crc64DetectsByteBursts | chaining-demo/validate_compress_and_crc.c:25-37 | for an odd polynomial, a change confined to eight consecutive bytes always changes the result |
| Crc64.EcmaDetectsByteBursts | chaining-demo/validate_compress_and_crc.h:21 | the same for the ECMA-182 polynomial |
| Crc64.Crc64CollidesExactly | chaining-demo/validate_compress_and_crc.c:25-37 | buffers of equal length share a CRC if and only if the polynomial divides their difference, shifted up |
| Crc32c.TableIsTicks | chaining-demo/dsa_funcs.c:3-284 | table k, made from table k-1 by the slicing recurrence, holds each byte advanced through k+1 zero bytes of bitwise division |
| Crc32c.TableStep | chaining-demo/dsa_funcs.c:755-756 | one byte lookup and shift equals eight single-bit steps |
| Crc32c.SliceIsEightBytes | chaining-demo/dsa_funcs.c:740-751 | one round of eight lookups equals 64 single-bit steps over the eight bytes |
| Crc32c.ReverseU8Reverses | chaining-demo/dsa_funcs.c:353-357 | the nibble-table reversal reverses all eight bits |
| Crc32c.Reverse | chaining-demo/dsa_funcs.c:359-369 | the byte loop computes the 32-bit mirror |
| Crc32c.MirrorReverses | chaining-demo/dsa_funcs.c:359-369 | the mirror reverses all 32 bits |
| Crc32c.MirrorTwice | chaining-demo/dsa_funcs.c:359-369 | mirroring twice is the identity |
| Crc32c.ConvertTwice | chaining-demo/dsa_funcs.c:734-767 | for both settings of the inversion flag the conversion on the way in undoes the one on the way out |
| Crc32c.DsaCalculateCrc32 | chaining-demo/dsa_funcs.c:726-768 | for every buffer, seed and all four flag settings the sliced loop and byte tail equal bit-at-a-time reflected division |
| Crc32c.Crc32cChains | chaining-demo/dsa_funcs.c:726-768 | for all four flag settings the CRC of a concatenation is the CRC of the second part seeded with that of the first |
| Crc32c.DataBypassIsReflection | chaining-demo/dsa_funcs.c:757-762 | bypassing data reflection equals the plain CRC of the buffer with each byte bit-reversed |
| Crc32c.Crc32cIsRemainder | chaining-demo/dsa_funcs.c:726-768 | before the final conversion the result is the remainder of long division by the CRC-32C polynomial |
| Crc32c.ViewAt | chaining-demo/dsa_funcs.c:726-768 | the bit string a register stands for is its bits, least significant first |
| Crc32c.PlainCrcIs | chaining-demo/dsa_funcs.c:734-767 | without the inversion bypass the result is the complement of the remainder started from the complement of the seed |
| Crc32c.BypassCrcIs | chaining-demo/dsa_funcs.c:734-767 | with the bypass it is the bit reversal of the remainder started from the bit-reversed seed |
| Crc32c.InputBitsAt | chaining-demo/dsa_funcs.c:739-762 | the input bits are the bytes in order, each least significant bit first, or most significant first when data reflection is bypassed |
| CrcWitness.CheckValue32 | chaining-demo/dsa_funcs.c:726-768 | the checksum of `123456789` is the code's published check value |
| Crc32c.Crc32cDetectsBursts | chaining-demo/dsa_funcs.c:726-768 | for all flag settings a change inside 32 consecutive input bits always changes the result |
| Crc32c.Crc32cDetectsByteBursts | chaining-demo/dsa_funcs.c:726-768 | for all flag settings a change confined to four consecutive bytes always changes the result |
| Crc32c.Crc32cCollidesExactly | chaining-demo/dsa_funcs.c:726-768 | for all flag settings, buffers of equal length share a CRC if and only if the polynomial divides the difference of their input bits, shifted up |
| Offload.StepInv | chaining-demo/compress_crc.c:3399-3451 | every step of the scheduler, a request or the accelerator keeps the invariant |
| Offload.ReachableInv | chaining-demo/compress_crc.c:4282-4333 | the invariant holds in every state of every interleaving, for any number of requests and any device capacity |
| Offload.FirstComeFirstServed | chaining-demo/compress_crc.c:4282-4333 | in every reachable state at most one started request is unsubmitted; when preempted it is the last one started and sits in the single slot; submissions, acceptances, completions and finishes each go 0, 1, 2, ... |
| Offload.NoStartWhileWaiting | chaining-demo/compress_crc.c:4282-4308 | while a request is preempted before submitting, no step starts another |
| Offload.ScheduleDecides | chaining-demo/compress_crc.c:4282-4333 | what each turn of the scheduler does, by the histories: a completed request that has not finished is resumed first, then the preempted one, then a new one is started |
| Offload.ProbeDecides | chaining-demo/compress_crc.c:3490-3499 | a probe point gives way exactly when an older request has completed and not finished; the slot then holds the request that gave way and the older one has the core next; otherwise nothing changes |
| Offload.AcceleratorCounts | chaining-demo/compress_crc.c:3399-3451 | between its steps the device's in-flight count is accepted minus completed, never above capacity plus one; records are set exactly for the completed requests; no wait loop ends on a full status, so the CPU fallback is never reached |
| Offload.CheckDecides | chaining-demo/compress_crc.c:3426-3431 | what is pending is taken exactly when no more offloads than the capacity are accepted and not completed |
| Offload.RejectTells | chaining-demo/compress_crc.c:3428-3429 | a rejected request sees the full status and stays pending |
| Offload.ClockDecides | chaining-demo/compress_crc.c:3409-3413 | a completion is due exactly when something is in flight and the clock has reached its time |
| Offload.CompletesOnce | chaining-demo/compress_crc.c:3408-3422 | a step completes nothing or exactly the oldest in-flight request, sets only that request's own record, and no record is ever cleared |
| Offload.PostKernelReady | chaining-demo/compress_crc.c:3844-3898 | a request runs its last kernel only when its own record is set and its own result delivered, is then the next to resume, and is not preempted there |
| Offload.SpinningKernelsPass | chaining-demo/compress_crc.c:3502-3512 | a kernel that spins on a completion record, before or after the offload, finds it already set |
| Offload.StopsOnlyWhenAllFinished | chaining-demo/compress_crc.c:4316-4333 | when the loops end, every request was submitted, accepted, completed and finished exactly once, in order, and nothing is pending |
| Offload.TryProgress | chaining-demo/compress_crc.c:3490-3499 | no step of either thread, preemption included, adds to what is left to do, and the core's own next step, when it need not poll, takes from it |
| Offload.WaitEnds | chaining-demo/compress_crc.c:3577-3637 | in a fair run that no unwritten deadline troubles, the core never polls for ever, for acceptance or for a completion, whatever the device's capacity |
| Offload.EveryFairRunFinishes | chaining-demo/compress_crc.c:4282-4333 | every endless interleaving in which both threads go on and every written deadline comes at last finishes all requests in order, whichever probe points preempt, or comes to read a deadline never written |
| Offload.AlwaysFinishesExactly | chaining-demo/compress_crc.c:3408-3446 | with only the written deadlines sure to come, all fair runs finish if and only if there is one request at most |
| Offload.HangsForever | chaining-demo/compress_crc.c:3408-3446 | from every start with two requests or more, a fair run in which nothing ever completes |
| Offload.AtReachable | chaining-demo/compress_crc.c:4282-4333 | such interleavings pass through reachable states only, so all of the above holds along them |
| Offload.TurnsAreFair | chaining-demo/compress_crc.c:4282-4333 | fair interleavings exist: taking turns is one |
| Offload.StampExactly | chaining-demo/compress_crc.c:3444-3446 | in a given state, the index read after the mailbox is released is the accepted request's own exactly when no later request has overwritten it |
| Offload.StampsRightlyExactly | chaining-demo/compress_crc.c:3444-3446 | in every run every stamp goes to the request it is for, if and only if there is one request at most |
| Offload.StampRace | chaining-demo/compress_crc.c:3444-3446 | for every device capacity and every number of requests from two, a run in which request 0's stamp goes to request 1 |
| Offload.DeadlinesWrittenExactly | chaining-demo/compress_crc.c:3411 | in every run every deadline read was written, if and only if there is one request at most |
| Offload.UnwrittenRead | chaining-demo/compress_crc.c:3411 | for every number of requests from two, a run that reads a deadline never written |
| Offload.CoreHeldWhilePending | chaining-demo/compress_crc.c:3590-3593 | while the mailbox is pending no step of the request core changes anything |
| Handshake.StepInv | uarch_contention_measurement/main.c:38-77 | every step of the core or the device keeps the handshake's invariant |
| Handshake.HandshakeSafe | uarch_contention_measurement/main.c:124-183 | in every run of the blocking and the filled modes, ids are accepted, completed and processed 0, 1, 2, ..., at most one offload is outstanding, post-processing follows its completion, no reset erases an unseen completion, and the status is clear between requests |
| Handshake.HandshakeFinishes | uarch_contention_measurement/main.c:228-251 | when the core stops, each id was accepted, completed and processed once, and nothing is pending |
| Handshake.NoTimeNoCompletion | uarch_contention_measurement/main.c:52-63 | a run in which no latency elapses completes nothing |
| Handshake.LosesNothingExactly | uarch_contention_measurement/main.c:154-183 | no run loses a completion if and only if the mode waits for completions or there are no requests |
| Handshake.UnfilledLoses | uarch_contention_measurement/main.c:228-251 | yielding requests driven without a filler: with one request or more some run loses a completion |
| Handshake.StepNearer | uarch_contention_measurement/main.c:38-77 | no step leads away from the end, and the core's step, or the device's while the core polls, leads nearer to it |
| Handshake.EveryFairRunFinishes | uarch_contention_measurement/main.c:228-251 | in the modes that wait, every fair endless run serves every request once, in order, and stops |
| Handshake.TurnsAreFair | uarch_contention_measurement/main.c:228-251 | fair runs exist: taking turns is one |
| PointerChain.RandomPermutation | chaining-demo/compress_crc.c:1909-1921 | the in-place loop is the Fisher-Yates shuffle with the choices its draws give |
| PointerChain.DrawsDecide | chaining-demo/compress_crc.c:1909-1921 | each choice is its draw modulo what is left to choose from |
| PointerChain.DrawsReachAll | chaining-demo/compress_crc.c:1909-1921 | every list of choices comes from some draws |
| PointerChain.FirstChoiceIsLast | chaining-demo/compress_crc.c:1909-1921 | the first choice picks the element that ends up last |
| PointerChain.ShufflePermutes | chaining-demo/compress_crc.c:1909-1921 | whatever the draws, the result is a permutation |
| PointerChain.ShuffleInjective | chaining-demo/compress_crc.c:1909-1921 | different choices give different permutations |
| PointerChain.ShuffleSurjective | chaining-demo/compress_crc.c:1909-1921 | every permutation is the outcome of some choices |
| PointerChain.LinkLines | chaining-demo/compress_crc.c:1931-1937 | each cache line is linked to the next of the permutation and the last to the first |
| PointerChain.CreateRandomChain | chaining-demo/compress_crc.c:1922-1956 | for either base address, the chain links the lines in the order of the shuffled identity |
| PointerChain.ChaseFollows | chaining-demo/compress_crc.c:1931-1937 | the k-th step of the chase is at the k-th line of the permutation after line 0, round and round |
| PointerChain.SingleCycle | chaining-demo/compress_crc.c:1922-1956 | from line 0, the first size/64 steps visit every line once, step size/64 is back at line 0, and the walk repeats for ever |
| PointerChain.ChasePointers | chaining-demo/compress_crc.c:1957-1967 | the chase follows that many links, stores what the one after it points to, and always stays inside the memory |
| LongOptions.ParseLongOpt | idxd/util/parse-options.c:233-335 | the one-pass loop with its remembered abbreviations and pending value decides as the declarative resolution does, for every table, argument and value left over |
| LongOptions.FirstStopIs | idxd/util/parse-options.c:243-322 | the loop ends at the first entry in table order that stops it |
| LongOptions.CandidatesExact | idxd/util/parse-options.c:281-314 | the candidates are exactly the abbreviated entries, in table order |
| LongOptions.ExactWins | idxd/util/parse-options.c:243-322 | the first exact match wins whatever abbreviations came before it |
| LongOptions.ExactWinsCleanly | idxd/util/parse-options.c:315-321 | with names free of `=`, it also gets exactly the text after `=`, or else what was left over, untouched by abbreviations before it |
| LongOptions.AbbreviationsDecide | idxd/util/parse-options.c:324-335 | with no exact match: unknown iff there is no candidate, ambiguous iff two or more, else that one is applied |
| LongOptions.AbbreviationValue | idxd/util/parse-options.c:293-297 | the only candidate gets the text after `=`, unless negated, or else what was left over |
| LongOptions.AmbiguityNames | idxd/util/parse-options.c:324-331 | an ambiguity names the last two candidates |
| LongOptions.ExactIsStem | idxd/util/parse-options.c:250-321 | a plain exact match is the name being all of the argument before its `=` |
| LongOptions.ExactValue | idxd/util/parse-options.c:315-321 | an exact match's value is the text after the first `=` |
| LongOptions.NegatedExactly | idxd/util/parse-options.c:262-321 | a full match is a negation exactly when the stem is the name with `no-` before it, or the name without its own `no-` |
| LongOptions.AbbreviatedExactly | idxd/util/parse-options.c:280-314 | a name not itself negated is abbreviated plainly by exactly the proper beginnings of it, and as negated by the proper beginnings of `no-` and the name that are not its own |
| LongOptions.NegatedNameAbbreviated | idxd/util/parse-options.c:262-314 | the same for names that begin with `no-`, whose beginnings without it unset them |
| LongOptions.NegationRecognised | idxd/util/parse-options.c:299-321 | `no-` before a name not itself negated is its negation, except exactly for the names "", `n` and `no` |
| LongOptions.NegationMissed | idxd/util/parse-options.c:250-321 | `--no-n` and `--no-no` do not match the options `n` and `no` at all |
| LongOptions.LeaksExactly | idxd/util/parse-options.c:250-297 | some argument leaves a value to the next if and only if the table has an entry standing for itself, with `=` in its name, reached past an abbreviation |
| LongOptions.PlainNeverLeaks | idxd/util/parse-options.c:250-297 | with names free of `=` an argument passes on what it was left and no more |
| ParseOptions.Context.constructor | idxd/util/parse-options.c:357-370 | reading starts after the program name and writing at or after it, so the writing position never starts beyond the reading one |
| ParseOptions.Context.GetArgument | idxd/util/parse-options.c:36-51 | in place, an argument is taken from the rest of the current one, a default, or the next one, as specified on values |
| ParseOptions.Context.ApplyOption | idxd/util/parse-options.c:53-220 | an option takes effect, and is recorded with its value, or fails, as specified on values, with the reading position moved accordingly |
| ParseOptions.UnsetDecides | idxd/util/parse-options.c:60-63 | a negated option takes effect exactly when that is allowed, no value is given and its callback accepts |
| ParseOptions.SwitchDecides | idxd/util/parse-options.c:65-115 | an option without argument takes effect exactly when it is given no value of its own and its callback accepts |
| ParseOptions.ArgumentDecides | idxd/util/parse-options.c:117-212 | an option with an argument takes its own, or none where that is allowed, or the next one, and fails exactly when there is none or it is not accepted |
| ParseOptions.ValueConsumes | idxd/util/parse-options.c:36-51 | a value is taken from the rest of the current argument or from the next one, never both |
| ParseOptions.Context.ParseShortOpt | idxd/util/parse-options.c:222-231 | the first option with the letter is applied; an unknown letter changes nothing |
| ParseOptions.CheckTypos | idxd/util/parse-options.c:337-355 | reports exactly the texts of three or more letters that begin `no-` or begin a long name |
| ParseOptions.GroupRuns | idxd/util/parse-options.c:408-427 | a group of switches without arguments sets each in turn and goes on with what follows them |
| ParseOptions.GroupHelps | idxd/util/parse-options.c:409-410 | a call for help inside a group is answered after the switches before it took effect |
| ParseOptions.TypoDecides | idxd/util/parse-options.c:406-407 | after its first switch a group ends as a typing error exactly when it could be a long option |
| ParseOptions.Context.MoreSwitches | idxd/util/parse-options.c:408-427 | the loop over aggregated switches ends, and as specified on values |
| ParseOptions.Context.Switches | idxd/util/parse-options.c:394-428 | a whole group of switches does as specified on values |
| ParseOptions.FirstShortsConsume | idxd/util/parse-options.c:394-428 | a group consumes at most one argument after its own; when it meets an unknown switch it has consumed none and a suffix of the group is left |
| ParseOptions.Context.StepOne | idxd/util/parse-options.c:384-461 | one turn of the loop does in place what the specification does on values: what is written, what stays unread, what is set |
| ParseOptions.Context.Step | idxd/util/parse-options.c:375-463 | the scan never overwrites an unread argument, however it ends: it ends as specified and has written exactly the kept arguments behind what was there |
| ParseOptions.Context.End | idxd/util/parse-options.c:465-470 | the unread arguments are moved down behind the kept ones and the terminator lies within the vector |
| ParseOptions.Parse | idxd/util/parse-options.c:472-522 | on a normal end the vector is the program name if kept, the kept arguments, the unread ones, then the terminator in bounds; contradictory flags are refused untouched |
| ParseOptions.SkipsPlain | idxd/util/parse-options.c:387-392 | arguments that are not options are passed through and the scan goes on behind them |
| ParseOptions.DashDashEnds | idxd/util/parse-options.c:431-437 | `--` ends the options: what follows is left alone, and it is dropped unless it is to be kept |
| ParseOptions.StopsAtPlain | idxd/util/parse-options.c:387-389 | where asked for, the scan stops at the first argument that is not an option |
| ParseOptions.AnswersItself | idxd/util/parse-options.c:394-446 | help and listing options end the scan with their own code, whatever the table holds |
| ParseOptions.UnknownDecides | idxd/util/parse-options.c:456-460 | an unknown option is kept and passed by where asked for, and otherwise ends the scan, itself unread |
| ParseOptions.OneConsumes | idxd/util/parse-options.c:384-461 | each turn consumes its argument and at most the next, so the scan terminates |
| ParseOptions.NothingLost | idxd/util/parse-options.c:375-470 | every kept argument and every setting is traced to its place, in order: a switch to the letter that names it, set and never unset, with what follows the letter or the next argument as its value; a long option to what its argument resolves to, with that index, negation and value; no argument is taken twice; on a normal end every argument before the unread ones was kept, set something, or is such a value, but for the `--` that ended the options |
| ParseOptions.OneSets | idxd/util/parse-options.c:384-461 | what one argument sets is what its letters name or what it resolves to, in order |
| ParseOptions.NothingLeftOver | idxd/util/parse-options.c:384-461 | with names free of `=` no argument leaves a value to the next |
| ParseOptions.LeftOverTaken | idxd/util/parse-options.c:384-461 | a table and arguments where an option is set to part of the argument before it and its own value is kept |
| ParseOptions.RestIsTail | idxd/util/parse-options.c:375-470 | on a normal end what is unread is an untouched tail of the arguments, and kept and unread together are no more than there were |
| ParseOptions.SettingsSound | idxd/util/parse-options.c:53-220 | every setting of every scan is for a real option, negated only where allowed and without a value, with a value only where one is taken and accepted, and without one only where it is optional |
| Bitmap.TestBit | idxd/util/bitmap.c:75-78 | the shifted word's low bit is the bit asked for |
| Bitmap.FirstMaskBits | idxd/util/bitmap.h:18 | the first-word mask has exactly the bits from the start on |
| Bitmap.LastMaskBits | idxd/util/bitmap.h:19 | the last-word mask has exactly the bits below the size, all of them for a whole word |
| Bitmap.BitmapSet | idxd/util/bitmap.c:30-48 | across any number of words exactly the bits of the range become set and all others keep their value |
| Bitmap.BitmapClear | idxd/util/bitmap.c:50-68 | across any number of words exactly the bits of the range become clear and all others keep their value |
| Bitmap.FindNextBit | idxd/util/bitmap.c:85-123 | the word loop reports one past the least matching bit, or the size when there is none |
| Bitmap.FirstMatchLeast | idxd/util/bitmap.c:85-108 | the least matching bit matches and nothing before it does |
| Bitmap.FindRightExactly | idxd/util/bitmap.c:107 | the report is the least match exactly when there is none to find |
| Bitmap.FindOffByOne | idxd/util/bitmap.c:107 | bit 0 of the map 1 is reported as 1 |
| Bitmap.BitmapFull | idxd/util/bitmap.c:125-131 | for a small constant size the mask decides rightly (a size of zero tests the whole word), otherwise the search decides |
| Bitmap.SearchIgnoresLastBit | idxd/util/bitmap.c:130 | the searched answer is that all bits but the last are set |
| Bitmap.FullRightExactly | idxd/util/bitmap.c:130 | the searched answer is right exactly when the last bit is set or an earlier one is clear |
| Bitmap.FullMissesLastBit | idxd/util/bitmap.c:130 | a map of 65 bits whose last is clear counts as full |
| Strbuf.Buffer.constructor | idxd/util/strbuf.c:39-45 | a new buffer is empty, owns nothing and ends in NUL |
| Strbuf.RoomExactly | idxd/util/strbuf.h:74-76 | the room reported is exactly how much can be appended without reallocating |
| Strbuf.Buffer.Grow | idxd/util/strbuf.c:64-71 | succeeds exactly when the size fits, makes room, keeps the contents, leaves a failed buffer untouched, and says exactly when there is a NUL |
| Strbuf.KeepsNulExactly | idxd/util/strbuf.c:64-71 | the NUL is kept for every content of the allocator's memory if and only if the buffer was allocated and terminated |
| Strbuf.GrowFresh | idxd/util/strbuf.c:64-71 | a new buffer that was asked for room and has no NUL |
| Strbuf.Buffer.SetLen | idxd/util/strbuf.h:80-86 | truncates or extends within the allocation and ends in NUL; fails exactly on its assertion or the allocator |
| Strbuf.Buffer.Add | idxd/util/strbuf.c:98-103 | appends the bytes and ends in NUL |
| Strbuf.Buffer.AddCh | idxd/util/strbuf.h:89-93 | appends one byte and ends in NUL |
| Strbuf.Buffer.Remove | idxd/util/strbuf.c:73-96 | cuts exactly the given range out of the contents; fails exactly when it is not inside them or memory is refused |
| Strbuf.Buffer.Release | idxd/util/strbuf.c:47-53 | leaves an empty buffer that owns nothing |
| Strbuf.Buffer.Detach | idxd/util/strbuf.c:55-62 | hands over the very array with its contents and forgets it |
| Strbuf.Buffer.Read | idxd/util/strbuf.c:129-154 | succeeds exactly when each round's growth fits, and leaves the room asked for; appends everything up to the end of file, however it is chunked; a failed read restores the old contents |
| Strbuf.SlurpMeans | idxd/util/strbuf.c:135-150 | chunks are joined up to the first empty one or the end, a failure before that loses them all, and nothing after is read |
| Strbuf.AmpleRead | idxd/util/strbuf.c:129-154 | a limit of half as much again as old contents, delivered bytes and one request is always enough, however the bytes are chunked |
| Strbuf.AppendsAmortised | idxd/util/util.h:41-70 | over any run of appends up to the length where the growth macro wraps, the bytes copied stay within three times the length |
| Strbuf.CopiesThriceExactly | idxd/util/util.h:41-70 | all runs of appends from a fresh buffer up to a given length copy at most three times the final length, if and only if that length does not pass the point where the growth macro wraps |
| Strbuf.WrappingCopiesMore | idxd/util/util.h:41-70 | five appends one byte past that point that copy more |
| Strbuf.GrowsGeometrically | idxd/util/util.h:41-70 | each reallocation grows by half or more, whatever is needed, if and only if the growth macro does not wrap |
| PostingLists.IntersectPostingLists | ax_access_overhead_measurement/walker_ax_access_overhead.cpp:100-118 | the list built holds the merge of the inputs in all its nodes but the last placeholder; the inputs are unchanged, all nodes but the first are new, and the walk terminates |
| PostingLists.CommonIsIntersection | ax_access_overhead_measurement/walker_ax_access_overhead.cpp:100-118 | for ascending inputs the merge is their multiset intersection |
| PostingLists.CommonAscends | ax_access_overhead_measurement/walker_ax_access_overhead.cpp:100-118 | for ascending inputs the merge ascends |
| PostingLists.CommonOfStrict | ax_access_overhead_measurement/walker_ax_access_overhead.cpp:100-118 | for strictly ascending inputs the merge is strictly ascending and holds exactly the common ids |

## Left out

- The literal entries of `crc32_table` and `crc32c_table`: the tables are defined by their recurrence, not compared with the numbers in the source.
- ParseOptions.Context.ApplyOption: records a setting where the source stores through the option's value pointer; number syntax and what callbacks do are a parameter, and file-name prefixes are left out.
- Usage texts, error messages and process exit of the option parser: a scan that ends early returns its code.
- Memory models weaker than sequential consistency, several iterations of the accelerator thread, and the real offload types of the scheduler test.
- What the kernels compute, time stamps, cycle counts and device latency: elapsed time is a free choice.
- The fibre switching itself: control returns to the loop that resumed the request.
- The size hint of `strbuf_init`: a constructor followed by `Grow`.
- `build_host_ll` (a list filled in a loop), `strbuf_addf` (formatted printing), and the one-line wrappers `strbuf_addstr`, `find_next_bit` and `find_next_zero_bit`.
- A key at the null pointer inside `furc_hash` beyond what `furc_get_bit` does with it, and pools wider than 32 bits.
- The sysfs and JSON tooling, the QAT, DSA and zlib driven programs, NUMA and cache control, statistics and the generated protocol code.
