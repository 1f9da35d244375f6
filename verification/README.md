# Verified models of the RISC-V test programs

A Dafny model of the hard logic in the test and benchmark programs that come
with the processor under `software/riscv-isa-tests/riscv-tests`, and proofs of
what that logic promises. `dafny verify dfyconfig.toml` checks everything.

| module | source | form |
|---|---|---|
| `Barrier` | the sense-reversing barrier of util.h | state machine, one step per atomic access |
| `VvaddProgram` | mt-vvadd, on top of `Barrier`; verifyDouble | state machine; method |
| `CooperativeMatMul` | ae_matmul.c, on top of `Barrier` | state machine |
| `CyclicMatMul` | ck_matmul.c | state machine; its inner loop as a method |
| `Spinlock` | multicore.c | state machine |
| `Matrix`, `Packing`, `MatMul`, `BlockedMatMul` | mm.c and rb.h | methods over arrays with views for pointers and strides |
| `Quicksort`, `RadixSort` | qsort_main.c, rsort.c | methods that sort arrays in place |
| `PageTable` | translate.c | a class for the page buffer; the architectural walk as a function |
| `DaisyChain` | rbb_daisychain.py | classes `Tap` and `Chain` |
| `Towers` | towers_main.c | classes `Node`, `List` and `Towers`, linked in place |
| `Crc`, `PrintParse`, `Pmp` | checksum.c, syscalls.c, pmp.c | methods against reference functions |
| `Arith`, `SquareMatrices` | | shared definitions and facts |

The concurrent programs are state machines with any number of threads. A step
is one access to shared data; a run is any sequence of steps by any threads;
memory is sequentially consistent. Fields such as `rounds`, `arrived`, `left`
or `v` are history variables that no step reads.

Results are stated through definitions such as `Dot`, `Lockstep` or `Upper`;
the lemmas called ...InElements, ...InBits, ...InBytes, ...InCodes and
...InNumbers say what these mean in the elements of the arrays, in bits and in
character codes.

Where code and comments disagree, the model follows the code:

- translate.c line 110 masks `physical` at the position of the PPN field
  without the shift by two that line 134 applies. Tables below the top level
  are therefore not identity tables in general; `NeighbourKeptIff` says exactly
  when they are, and `NeighbourLost` gives an input for which they are not.
- multicore.c's check assumes that hartid + hart_count + i does not wrap, and
  2^32 is no multiple of 26. `NeverSpinsIff` says exactly how many harts and passes it stands, and
  `WrapIsReached` gives the runs in which it then blocks everybody.
- pmp.c's `pmp_ok` computes the end of a region in wrapping arithmetic;
  `NapotExactIff` says exactly when it agrees with the architecture.
- qsort_main.c asks for a stack of 2*lg(n) pointers; because partitioning stops
  at 10 elements, 50 suffice for more than the 2^25 elements this allows.
- rbb_daisychain.py says "Read TDO before every scan"; the code puts the 'R'
  after it. The lockstep chain reads TDO after the scan as well.
- rsort.c's final memcpy is never reached: four passes are an even number.

## Model

| member | source | states |
|---|---|---|
| Barrier.BarrierSafety | software/riscv-isa-tests/riscv-tests/benchmarks/common/util.h:44-62 | In every state of every run, for any number of threads and any interleaving: nobody has left more rounds than anybody else has arrived at, two threads are at most one round apart, and the counter lies between 0 and ncores and is 0 whenever nobody has arrived in the open round |
| Barrier.StepKeepsInv | software/riscv-isa-tests/riscv-tests/benchmarks/common/util.h:52-59 | Each atomic step (flip of threadsense, fetch-and-add, reset, release, spin) keeps the inductive invariant, which ties the counter to the number of arrivals and a leader to everybody else waiting |
| Barrier.LastArrivalFindsOthersWaiting | software/riscv-isa-tests/riscv-tests/benchmarks/common/util.h:53-55 | When the fetch-and-add returns ncores-1, every other thread is spinning in the same round, so the reset of the counter races with nobody |
| Barrier.RoundOpensClean | software/riscv-isa-tests/riscv-tests/benchmarks/common/util.h:55-56 | Only the leader's write to sense opens a round; the counter is then 0 and every thread has arrived exactly once more |
| Barrier.NoDeadlock | software/riscv-isa-tests/riscv-tests/benchmarks/common/util.h:52-59 | If every thread makes the same number of calls and some thread is not done, an unfinished thread has a step that is not a failed spin |
| Barrier.StepUsesWork | software/riscv-isa-tests/riscv-tests/benchmarks/common/util.h:52-59 | A failed spin changes nothing and any other step strictly decreases the work that is left |
| Barrier.BarrierProgress | software/riscv-isa-tests/riscv-tests/benchmarks/common/util.h:52-59 | In a run with `calls` calls per thread all but 5 * calls * ncores steps are failed spins |
| VvaddProgram.ProgramCorrect | software/riscv-isa-tests/riscv-tests/benchmarks/mt-vvadd/mt-vvadd.c:47-78 | For every number of cores, every interleaving and any addition: whenever core 0 verifies, after the out-of-place and after the in-place pass, results[i] is add(input1[i], input2[i]) for every i; a core that exits with a non-zero code names the first element at which the reference data itself is wrong, and exit code 0 means that it is right |
| VvaddProgram.StepKeepsInv | software/riscv-isa-tests/riscv-tests/benchmarks/mt-vvadd/mt-vvadd.c:47-78 | Every single load, store, check, copy or barrier step keeps the invariant that says for each element what it holds, given where its owner and core 0 stand |
| VvaddProgram.PhasesOverlapNot | software/riscv-isa-tests/riscv-tests/benchmarks/mt-vvadd/mt-vvadd.c:53-76 | No core has completed more barrier calls than a core that is working between two of them, and no two cores are more than one call apart |
| VvaddProgram.NextOwned | software/riscv-isa-tests/riscv-tests/benchmarks/mt-vvadd/vvadd.c:14-17 | In the strided split no index between i and i + ncores has the same owner as i |
| VvaddProgram.ResultsComplete | software/riscv-isa-tests/riscv-tests/benchmarks/mt-vvadd/mt-vvadd.c:54-74 | At both checks all elements are complete sums, the aliased in-place pass included |
| VvaddProgram.ProgramNeverStuck | software/riscv-isa-tests/riscv-tests/benchmarks/mt-vvadd/mt-vvadd.c:47-78 | With correct reference data the program can always take a step until every core has exited |
| VvaddProgram.ProgramProgress | software/riscv-isa-tests/riscv-tests/benchmarks/mt-vvadd/mt-vvadd.c:47-78 | All but (7n + 30) * ncores steps of any run change nothing |
| VvaddProgram.UnchangedMeansWaiting | software/riscv-isa-tests/riscv-tests/benchmarks/mt-vvadd/mt-vvadd.c:47-78 | Only a failed spin and a core that has exited change nothing |
| VvaddProgram.VerifyDouble | software/riscv-isa-tests/riscv-tests/benchmarks/common/util.h:28-42 | Returns 0 exactly if the arrays agree, and otherwise the number of the first element that does not; the unrolling by two and the odd last element make no difference |
| Quicksort.Sort | software/riscv-isa-tests/riscv-tests/benchmarks/qsort/qsort_main.c:67-132 | Terminates with the first n elements sorted and only rearranged and everything else unchanged, without leaving the array, and never overruns stack[NSTACK] for n below 12 * 2^24 - 1 |
| Quicksort.InsertionSort | software/riscv-isa-tests/riscv-tests/benchmarks/qsort/qsort_main.c:42-58 | Sorts n elements from any offset, as a permutation of that stretch only; handles n = 0 and n = 1 |
| Quicksort.MedianOfThree | software/riscv-isa-tests/riscv-tests/benchmarks/qsort/qsort_main.c:91-94 | Leaves the partitioning element at l[0] with l[-1] no larger and ir[-1] no smaller: the two sentinels of the scans |
| Quicksort.ScanUp | software/riscv-isa-tests/riscv-tests/benchmarks/qsort/qsort_main.c:104 | The scan without a bounds check stops at or before the sentinel above it, at the first element that is not smaller |
| Quicksort.ScanDown | software/riscv-isa-tests/riscv-tests/benchmarks/qsort/qsort_main.c:105 | The scan without a bounds check stops at or before the sentinel below it, at the first element that is not larger |
| Quicksort.Partition | software/riscv-isa-tests/riscv-tests/benchmarks/qsort/qsort_main.c:91-112 | Puts the partitioning element between elements that are no larger and elements that are no smaller, with a non-empty part on either side, rearranging only this segment |
| Quicksort.SplitKeepsSettled | software/riscv-isa-tests/riscv-tests/benchmarks/qsort/qsort_main.c:118-129 | Splitting a segment keeps every pair in order that does not lie within one pending segment |
| Quicksort.PopKeepsSettled | software/riscv-isa-tests/riscv-tests/benchmarks/qsort/qsort_main.c:79-85 | Sorting the current segment and popping keeps every pair in order that does not lie within one pending segment |
| Quicksort.SplitKeepsHalved | software/riscv-isa-tests/riscv-tests/benchmarks/qsort/qsort_main.c:115-129 | Going on with the smaller part halves the bound on the size at each depth of the stack |
| Quicksort.StackSuffices | software/riscv-isa-tests/riscv-tests/benchmarks/qsort/qsort_main.c:23-26 | A segment that still needs partitioning cannot lie below more than 23 others, so two more pointers fit |
| RadixSort.Sort | software/riscv-isa-tests/riscv-tests/benchmarks/rsort/rsort.c:32-99 | After exactly four passes arrIn (not scratch) holds the input sorted and only rearranged, for every length including 0 |
| RadixSort.Histogram | software/riscv-isa-tests/riscv-tests/benchmarks/rsort/rsort.c:43-58 | The unrolled loop and its leftovers count every byte value exactly |
| RadixSort.PrefixSum | software/riscv-isa-tests/riscv-tests/benchmarks/rsort/rsort.c:60-66 | The in-place prefix sum with its fetch_add arithmetic, unrolled by two, turns counts into running totals |
| RadixSort.Scatter | software/riscv-isa-tests/riscv-tests/benchmarks/rsort/rsort.c:69-89 | The backward scatter, unrolled by four, fills scratch with the stable counting sort of arr |
| RadixSort.SlotIsFree | software/riscv-isa-tests/riscv-tests/benchmarks/rsort/rsort.c:79-86 | The slot an element is written to has not been written before: each slot is filled exactly once |
| RadixSort.FilterIsStable | software/riscv-isa-tests/riscv-tests/benchmarks/rsort/rsort.c:69-89 | Elements with the same byte keep their order |
| RadixSort.PassSorts | software/riscv-isa-tests/riscv-tests/benchmarks/rsort/rsort.c:41-96 | A stable pass on the next byte extends an order on the lower bytes |
| RadixSort.OneMoreDigit | software/riscv-isa-tests/riscv-tests/benchmarks/rsort/rsort.c:95 | Bytes taken least significant first refine the order of the words below the next byte boundary |
| Spinlock.SpinlockSafety | software/riscv-isa-tests/riscv-tests/debug/programs/multicore.c:26-37 | For any number of harts and any interleaving at most one is in the critical section, and a free, initialised buffer carries one whole pattern of a single hart's pass |
| Spinlock.BufferInNumbers | software/riscv-isa-tests/riscv-tests/debug/programs/multicore.c:68-85 | What a free, initialised buffer holds in every run, in character codes: 65 + i mod 26 before the first pass; after a last pass by hart h, whose hart_count is then at least 1, 65 (h odd) or 97 (h even) plus the letter at h + hart_count[h] - 1, as a 32-bit word, plus i |
| Spinlock.CountersNeverWrap | software/riscv-isa-tests/riscv-tests/debug/programs/multicore.c:65-88 | In every run no hart makes more than 2^32 - 30 - hartid passes, or one if that is less: whoever wraps is the last to pass, so the counters themselves never wrap |
| Spinlock.StepKeepsInv | software/riscv-isa-tests/riscv-tests/debug/programs/multicore.c:65-88 | Each access, inside and outside the lock, keeps mutual exclusion and the state of the half-rewritten buffer |
| Spinlock.CheckFailsIff | software/riscv-isa-tests/riscv-tests/debug/programs/multicore.c:75-79 | The check at position i fails if and only if the last complete pass wrapped its 32-bit counter at or before that position |
| Spinlock.StuckIff | software/riscv-isa-tests/riscv-tests/debug/programs/multicore.c:65-88 | No hart can take a step any more if and only if some hart fails its check |
| Spinlock.NeverSpinsIff | software/riscv-isa-tests/riscv-tests/debug/programs/multicore.c:65-88 | For n >= 1 harts: no check fails in any run in which each makes at most m passes, if and only if m = 0 or n + m + 30 <= 2^32 |
| Spinlock.CountersBelowNeverSpin | software/riscv-isa-tests/riscv-tests/debug/programs/multicore.c:77-87 | In a run in which hartid + hart_count + 31 <= 2^32 has held for every hart so far, no check fails and some hart can go on |
| Spinlock.CheckFailsByCounter | software/riscv-isa-tests/riscv-tests/debug/programs/multicore.c:77-87 | In every run a check fails exactly when hartid + hart_count of the last complete pass, as a 32-bit word, reaches 2^32 at or before the position checked |
| Spinlock.WrapIsReached | software/riscv-isa-tests/riscv-tests/debug/programs/multicore.c:65-88 | The wrap is real: any hart g that alone makes 2^32 - 30 - g passes from the start fails its next check at position 31, and then nobody can go on |
| Spinlock.NoWrapNeverSpins | software/riscv-isa-tests/riscv-tests/debug/programs/multicore.c:77-79 | If the pattern in the buffer was written with a counter value of at most 2^32 - 32, no check fails and some hart can go on |
| Spinlock.WrapBlocksForever | software/riscv-isa-tests/riscv-tests/debug/programs/multicore.c:77-85 | After a pass that wrapped, the hart that reaches the wrap spins for ever, and everybody else with it |
| PageTable.PageBuffer.AddEntry | software/riscv-isa-tests/riscv-tests/debug/programs/translate.c:126-152 | From the identity master table, for every pair of addresses and every level of Sv32, Sv39 and Sv48 but level 3 of Sv48 (where the int shift of line 134 is undefined): the architectural walk then sends every address exactly where `Translated` says; it hangs in get_page exactly if the pages run out |
| PageTable.PageIsMapped | software/riscv-isa-tests/riscv-tests/debug/programs/translate.c:131-136 | Every address in the (super)page of v translates to p's (super)page at the same offset |
| PageTable.OtherRegionsKept | software/riscv-isa-tests/riscv-tests/debug/programs/translate.c:138-146 | Every address with another top-level index translates to itself, as before |
| PageTable.NeighbourKeptIff | software/riscv-isa-tests/riscv-tests/debug/programs/translate.c:109-111 | An address inside the split region keeps its identity translation if and only if the bits of v that line 110 masks out, without the shift by two, equal the bits two places higher; the bits are written out for each mode and level (Sv39, lowest table: bits 19-27 against bits 21-38) |
| PageTable.NeighbourWalksOnIff | software/riscv-isa-tests/riscv-tests/debug/programs/translate.c:109-111 | The same for the architectural walk through the tables that add_entry leaves: it reaches the address itself if and only if the named bits of v agree, given for each mode and level |
| PageTable.NeighbourLost | software/riscv-isa-tests/riscv-tests/debug/programs/translate.c:109-111 | A concrete input for which the identity is lost: Sv32, v = 0x400000, the next page goes to 0x1001000 |
| PageTable.NeighbourLostSv39 | software/riscv-isa-tests/riscv-tests/debug/programs/translate.c:109-111 | The same in Sv39: with v = 0x80000000, address 0x80200000 goes to 0x200200000 and 0x80001000 to 0x1000 |
| PageTable.NeighbourLostSv48 | software/riscv-isa-tests/riscv-tests/debug/programs/translate.c:109-111 | The same in Sv48: with v = 0x8000000000, address 0x8040000000 goes to 0x20040000000 |
| PageTable.EntriesInBits | software/riscv-isa-tests/riscv-tests/debug/programs/translate.c:105-116 | The value of every entry that setup_page_table writes, for each mode and level: the flags 0xdf, the index at bit 10 plus the widths below, and the bits of `physical` that line 110 ORs in |
| PageTable.NewEntriesInBits | software/riscv-isa-tests/riscv-tests/debug/programs/translate.c:132-145 | The values of the pointer and of the leaf that add_entry writes |
| PageTable.MasterIsIdentity | software/riscv-isa-tests/riscv-tests/debug/programs/translate.c:105-116 | The table that setup_page_table builds for the top level maps every address to itself |
| PageTable.SetupWalk | software/riscv-isa-tests/riscv-tests/debug/programs/translate.c:105-116 | A leaf that setup_page_table writes at a lower level translates to the masked bits of `physical` followed by the low bits of the address |
| PageTable.TargetWalk | software/riscv-isa-tests/riscv-tests/debug/programs/translate.c:132-135 | The leaf that add_entry writes translates to p's (super)page |
| PageTable.PathWalk | software/riscv-isa-tests/riscv-tests/debug/programs/translate.c:128-151 | A walk follows the pointer entries that add_entry made as long as its indices agree with v's and leaves the path at the first that does not |
| PageTable.PageBuffer.SetupPageTable | software/riscv-isa-tests/riscv-tests/debug/programs/translate.c:105-116 | Every entry of the table, 4 or 8 bytes wide, is the leaf for its index, and no other table changes |
| PageTable.PageBuffer.GetPage | software/riscv-isa-tests/riscv-tests/debug/programs/translate.c:74-82 | Hands out aligned pages of the buffer that were not handed out before, and hangs exactly if the next one would reach the end |
| PageTable.PageBuffer.Grow | software/riscv-isa-tests/riscv-tests/debug/programs/translate.c:141-146 | A new table of identity entries is linked below the last table of the path |
| PageTable.Start | software/riscv-isa-tests/riscv-tests/debug/programs/translate.c:154-165 | For a page buffer at addresses that need no sign extension: after main has set up its tables (they always fit) the data page answers both to its own address and to another, sign-extended one, at every offset, which the assertions at lines 179-184 rely on |
| PageTable.AliasInBits | software/riscv-isa-tests/riscv-tests/debug/programs/translate.c:160-164 | The second address of the data page: its top four translated bits inverted, and sign-extended |
| DaisyChain.Chain.Execute | software/riscv-isa-tests/riscv-tests/debug/rbb_daisychain.py:36-61 | For any number of distinct deterministic TAPs and any bytes, the batch leaves the same TAP states and returns the same bytes as passing every command through all TAPs in lockstep; the length assertion never fails |
| DaisyChain.LockstepInBytes | software/riscv-isa-tests/riscv-tests/debug/rbb_daisychain.py:36-57 | What lockstep does with one command, in byte values: with two or more TAPs a scan (48 to 55) reaches the first TAP followed by 82, and goes on with its last bit set exactly if the TAP then answers 49; an 82 reaches the last TAP only; any other byte reaches every TAP |
| DaisyChain.ChunksDoNotMatter | software/riscv-isa-tests/riscv-tests/debug/rbb_daisychain.py:36-61 | Splitting the byte stream into chunks changes neither states nor answers |
| DaisyChain.FirstTapAhead | software/riscv-isa-tests/riscv-tests/debug/rbb_daisychain.py:38-57 | Running the first TAP over the whole batch and the others over the patched batch equals lockstep |
| DaisyChain.ProgressByOneTap | software/riscv-isa-tests/riscv-tests/debug/rbb_daisychain.py:38-57 | One more TAP processed keeps the partly executed batch equal to the lockstep result |
| DaisyChain.Chain.Collect | software/riscv-isa-tests/riscv-tests/debug/rbb_daisychain.py:39-56 | The commands for TAP i are the batch with each scan's TDI replaced and the probes added, and `values` is used up exactly |
| DaisyChain.Tap.Execute | software/riscv-isa-tests/riscv-tests/debug/rbb_daisychain.py:15-26 | The TAP runs the commands and answers one byte per 'R' |
| CooperativeMatMul.ReadsSeeTranspose | software/riscv-isa-tests/riscv-tests/mt/ae_matmul.c:38-65 | Under every interleaving a core that reads BB finds BB[i*lda + c] = B[c*lda + i] for all i and c, and a core that has returned has made lda + lda/4 * (lda/ncores) barrier calls, like every other |
| CooperativeMatMul.ProductComplete | software/riscv-isa-tests/riscv-tests/mt/ae_matmul.c:38-108 | When all cores have returned, C[j*lda + i] is the last of the partial sums that start at 0 and add A[j*lda + n] * B[n*lda + i] for n = 0 .. lda-1 |
| CooperativeMatMul.IdentityCopiesA | software/riscv-isa-tests/riscv-tests/mt/ae_matmul.c:38-108 | In particular, if B is the identity, C is A at every index |
| CooperativeMatMul.StepKeepsInv | software/riscv-isa-tests/riscv-tests/mt/ae_matmul.c:38-108 | Every access of every core keeps the invariant: which elements of BB and C are written, by whom, with what |
| CooperativeMatMul.BufferComplete | software/riscv-isa-tests/riscv-tests/mt/ae_matmul.c:43-51 | What the barriers are for: no core is in the second loop nest before BB is complete |
| CooperativeMatMul.AccessesInRange | software/riscv-isa-tests/riscv-tests/mt/ae_matmul.c:33-105 | No access leaves A, B, C or the 1024 elements of BB |
| CooperativeMatMul.NeverStuck | software/riscv-isa-tests/riscv-tests/mt/ae_matmul.c:38-108 | The program can always take a step until every core has returned |
| CooperativeMatMul.Progress | software/riscv-isa-tests/riscv-tests/mt/ae_matmul.c:38-108 | All but ncores * (lda * (s + 1) + lda/4 * s * (4 * lda + 6) + 5 * (lda + lda/4 * s)) steps of any run, s being lda/ncores, change nothing |
| CooperativeMatMul.UnchangedMeansWaiting | software/riscv-isa-tests/riscv-tests/mt/ae_matmul.c:38-108 | Only a failed spin and a core that has returned change nothing |
| CooperativeMatMul.TaskOfElement | software/riscv-isa-tests/riscv-tests/mt/ae_matmul.c:46-47 | The (i, j) iterations of the cores cover every element of C exactly once |
| CyclicMatMul.ProductAdded | software/riscv-isa-tests/riscv-tests/mt/ck_matmul.c:14-60 | For every lda that is a multiple of 16, any number of cores and every interleaving in which each core has had its bounded number of steps: C[r*lda + c] has grown by the last of the partial sums that start at 0 and add A[r*lda + k] * B[k*lda + c] |
| CyclicMatMul.EnoughTurns | software/riscv-isa-tests/riscv-tests/mt/ck_matmul.c:17-60 | A core that has had that many steps has returned |
| CyclicMatMul.IdentityAddsA | software/riscv-isa-tests/riscv-tests/mt/ck_matmul.c:14-60 | In particular, if B is the identity, C grows by A at every index |
| CyclicMatMul.AddedAtMostOnce | software/riscv-isa-tests/riscv-tests/mt/ck_matmul.c:21-58 | At any time an element has been updated once or not at all, and only the position of the core that owns its row decides which |
| CyclicMatMul.VisitsAreCyclic | software/riscv-isa-tests/riscv-tests/mt/ck_matmul.c:19 | The wrap-around order visits each column block exactly once and returns to its start only after the last |
| CyclicMatMul.NextVisit | software/riscv-isa-tests/riscv-tests/mt/ck_matmul.c:19 | The update of ii modulo lda goes on to the next block of the cyclic order |
| CyclicMatMul.StepCountsDown | software/riscv-isa-tests/riscv-tests/mt/ck_matmul.c:17-60 | Every step brings a core strictly closer to its end |
| CyclicMatMul.StepKeepsInv | software/riscv-isa-tests/riscv-tests/mt/ck_matmul.c:17-60 | Every load and store of C and every loop test keeps the invariant |
| CyclicMatMul.LoadsOriginal | software/riscv-isa-tests/riscv-tests/mt/ck_matmul.c:23-30 | What a core loads from C has not been changed by anybody |
| CyclicMatMul.AccessesInRange | software/riscv-isa-tests/riscv-tests/mt/ck_matmul.c:23-56 | No load or store of C and no read of A or B leaves its lda * lda elements |
| CyclicMatMul.TileProducts | software/riscv-isa-tests/riscv-tests/mt/ck_matmul.c:31-48 | The unrolled loop over k adds the full inner products to the eight accumulators |
| Towers.Benchmark | software/riscv-isa-tests/riscv-tests/benchmarks/towers/towers_main.c:199-233 | For every number of discs from 1 to 30, with and without the warm-up run, towers_verify returns 0 |
| Towers.Towers.SolveH | software/riscv-isa-tests/riscv-tests/benchmarks/towers/towers_main.c:140-158 | Moves the top n discs of any peg to any other in 2^n - 1 moves, the rest in place; pegs and free list stay a partition of the pool into acyclic lists, and every push puts a disc on a larger one or an empty peg |
| Towers.Towers.MoveDisc | software/riscv-isa-tests/riscv-tests/benchmarks/towers/towers_main.c:147-151 | One move; requires that the disc may lie where it goes |
| Towers.ThreeMoves | software/riscv-isa-tests/riscv-tests/benchmarks/towers/towers_main.c:153-155 | The three recursive calls are legal one after the other and add up to the whole move |
| Towers.ListPush | software/riscv-isa-tests/riscv-tests/benchmarks/towers/towers_main.c:53-71 | Takes the first free node and links it in front; both lists stay well formed |
| Towers.ListPop | software/riscv-isa-tests/riscv-tests/benchmarks/towers/towers_main.c:73-93 | Unlinks the first node, returns its value and gives it back to the free list |
| Towers.ListClear | software/riscv-isa-tests/riscv-tests/benchmarks/towers/towers_main.c:95-99 | Empties a peg and loses no node |
| Towers.PartitionPop | software/riscv-isa-tests/riscv-tests/benchmarks/towers/towers_main.c:73-93 | Moving a node from a peg to the free list keeps the partition of the pool |
| Towers.PartitionPush | software/riscv-isa-tests/riscv-tests/benchmarks/towers/towers_main.c:53-71 | Moving a node from the free list to a peg keeps the partition of the pool |
| Towers.Towers.Init | software/riscv-isa-tests/riscv-tests/benchmarks/towers/towers_main.c:113-127 | n discs in order on the first peg, numMoves 0 |
| Towers.Towers.Clear | software/riscv-isa-tests/riscv-tests/benchmarks/towers/towers_main.c:129-138 | From any legal position back to the initial one |
| Towers.Towers.Solve | software/riscv-isa-tests/riscv-tests/benchmarks/towers/towers_main.c:160-163 | All discs end on the third peg after 2^n - 1 more moves |
| Towers.Towers.Verify | software/riscv-isa-tests/riscv-tests/benchmarks/towers/towers_main.c:165-194 | Each return code holds exactly in the situation it stands for |
| Towers.FreshPool | software/riscv-isa-tests/riscv-tests/benchmarks/towers/towers_main.c:206-214 | The free list links every node of the pool |
| Crc.Crc32a | software/riscv-isa-tests/riscv-tests/debug/programs/checksum.c:20-38 | For every message the MSB-first bitwise CRC with reversal is the reflected, table-driven CRC of section 8 of RFC 1952 |
| Crc.CheckValue | software/riscv-isa-tests/riscv-tests/debug/programs/checksum.c:20-38 | The check value of this CRC: 0xCBF43926 for the bytes 0x31 .. 0x39 |
| Crc.AbsorbByte | software/riscv-isa-tests/riscv-tests/debug/programs/checksum.c:27-34 | Eight rounds on the reversed register are one table step of the reflected one |
| Crc.RoundReversed | software/riscv-isa-tests/riscv-tests/debug/programs/checksum.c:30-33 | One round of the MSB-first register is the mirror image of one shift of the reflected one |
| Crc.TableStep | software/riscv-isa-tests/riscv-tests/debug/programs/checksum.c:26-36 | Eight shifts are a look-up in the table of the low byte, as RFC 1952 does it |
| Crc.Affine | software/riscv-isa-tests/riscv-tests/debug/programs/checksum.c:20-38 | crc(x^y^z) = crc(x)^crc(y)^crc(z) for messages of one length |
| Crc.UpdateInjective | software/riscv-isa-tests/riscv-tests/debug/programs/checksum.c:26-36 | Different registers stay different over any further bytes |
| Crc.BurstDetected | software/riscv-isa-tests/riscv-tests/debug/programs/checksum.c:20-38 | Two messages that differ only within four consecutive bytes have different CRCs |
| Crc.ReverseTwice | software/riscv-isa-tests/riscv-tests/debug/programs/checksum.c:6-13 | reverse undoes itself |
| PrintParse.PrintedIsParsed | software/riscv-isa-tests/riscv-tests/benchmarks/common/syscalls.c:297-304 | atol of what sprintf("%d", x) wrote is x, for every long but the smallest and hence for every 32-bit int |
| PrintParse.PrintNum | software/riscv-isa-tests/riscv-tests/benchmarks/common/syscalls.c:156-175 | Emits the padding and then the digits of num, for every base from 2 |
| PrintParse.NextDigitFits | software/riscv-isa-tests/riscv-tests/benchmarks/common/syscalls.c:159-168 | The digits of a 64-bit number never overrun digs[64] for a base of at least 2 |
| PrintParse.DigitsDenote | software/riscv-isa-tests/riscv-tests/benchmarks/common/syscalls.c:162-174 | The digits emitted denote num and have no leading zero |
| PrintParse.DigitsInCodes | software/riscv-isa-tests/riscv-tests/benchmarks/common/syscalls.c:156-175 | The digits in character codes: 48 to 57 and from 97 on, the last one last |
| PrintParse.PaddedText | software/riscv-isa-tests/riscv-tests/benchmarks/common/syscalls.c:171-172 | The text is as wide as asked or as its digits, and only padc stands before them |
| PrintParse.CanonicalIsUnique | software/riscv-isa-tests/riscv-tests/benchmarks/common/syscalls.c:162-174 | They are the only such string |
| PrintParse.SprintfD | software/riscv-isa-tests/riscv-tests/benchmarks/common/syscalls.c:359-377 | The text is the decimal notation of x, sign included, and the terminating NUL |
| PrintParse.Atol | software/riscv-isa-tests/riscv-tests/benchmarks/common/syscalls.c:450-469 | Returns the number read after spaces and a sign, in wrapping 64-bit arithmetic |
| PrintParse.ParsedInCodes | software/riscv-isa-tests/riscv-tests/benchmarks/common/syscalls.c:450-469 | What is read, in character codes: 32 is skipped, 43 changes nothing and 45 negates what follows, and a further character c gives 10 times the number before plus c - 48 |
| PrintParse.ToLongIsModular | software/riscv-isa-tests/riscv-tests/benchmarks/common/syscalls.c:450-469 | Wrapping keeps the value modulo 2^64 and within 64 bits |
| PrintParse.PrintThenParse | software/riscv-isa-tests/riscv-tests/benchmarks/common/syscalls.c:450-469 | Parsing a printed number gives it back |
| PrintParse.ParseThenPrint | software/riscv-isa-tests/riscv-tests/benchmarks/common/syscalls.c:156-175 | Printing a parsed number gives the text back, if it had no needless zeros or sign |
| Pmp.EncodingsAgree | software/riscv-isa-tests/riscv-tests/benchmarks/pmp/pmp.c:143-159 | For every aligned power-of-two range of at least 4 bytes, set_pmp_napot (or its NA4 case) and set_pmp_range both denote exactly [base, base + range), the end wrapping to 0 in both if it is that of the address space |
| Pmp.SameVerdict | software/riscv-isa-tests/riscv-tests/benchmarks/pmp/pmp.c:65-98 | pmp_ok answers the same for both, for every address and every size for which its loop ends |
| Pmp.PmpOk | software/riscv-isa-tests/riscv-tests/benchmarks/pmp/pmp.c:65-98 | Says yes exactly if the entry is off or the 4-byte steps of the access lie all inside or all outside the region |
| Pmp.AllOrNoneInBytes | software/riscv-isa-tests/riscv-tests/benchmarks/pmp/pmp.c:90-97 | Of an access on one side of the region, any two of the addresses addr + 4k, modulo 2^64, lie on the same side ... |
| Pmp.MixedInBytes | software/riscv-isa-tests/riscv-tests/benchmarks/pmp/pmp.c:90-97 | ... and any other access has one such address inside and one outside |
| Pmp.EncodersInBits | software/riscv-isa-tests/riscv-tests/benchmarks/pmp/pmp.c:143-159 | The values both encoders write: cfg 0x09 and two addresses, or cfg 0x19 (0x11 for 4 bytes) and one |
| Pmp.TorInBits | software/riscv-isa-tests/riscv-tests/benchmarks/pmp/pmp.c:70-88 | With 1 in bits 3 and 4 of cfg the region lies between four times the two address registers |
| Pmp.Na4InBits | software/riscv-isa-tests/riscv-tests/benchmarks/pmp/pmp.c:70-88 | With 2 it is the four bytes at four times the second one |
| Pmp.NapotInBits | software/riscv-isa-tests/riscv-tests/benchmarks/pmp/pmp.c:70-88 | With 3, and a register that ends in a zero and t ones, it is 2^(t+1) times four bytes from the register with its ones cleared |
| Pmp.DecodeNapot | software/riscv-isa-tests/riscv-tests/benchmarks/pmp/pmp.c:75-80 | The loop finds the trailing ones, clears them and doubles the range for each |
| Pmp.NapotExactIff | software/riscv-isa-tests/riscv-tests/benchmarks/pmp/pmp.c:83-89 | The region that pmp_ok computes from a NAPOT entry is the one of section 3.7 of the Privileged Architecture if and only if the range ends before the end of the address space |
| Pmp.NapotWraps | software/riscv-isa-tests/riscv-tests/benchmarks/pmp/pmp.c:83-89 | A range that reaches the end wraps to 0 and is taken for empty, although the architecture matches it |
| BlockedMatMul.Mm | software/riscv-isa-tests/riscv-tests/benchmarks/mm/mm.c:145-152 | On both paths and with all leftovers, in exact arithmetic, c grows by exactly the product of a and b and nothing else changes |
| Matrix.AddsMeans | software/riscv-isa-tests/riscv-tests/benchmarks/mm/mm.c:145-152 | What that says element by element: c[i][j] has grown by sum_k a[i][k] * b[k][j], and every index that is no such element is unchanged |
| Matrix.AddsInElements | software/riscv-isa-tests/riscv-tests/benchmarks/mm/mm.c:145-152 | The same by the index into the array: c[base + (row+i)*ld + col + j] grows by the last partial sum |
| Matrix.DotInElements | software/riscv-isa-tests/riscv-tests/benchmarks/mm/mm.c:21-27 | The partial sums by the elements of the arrays: they start at 0, and step k adds a[base + (row+i)*ld + col + k] * b[base + (row+k)*ld + col + j] |
| Matrix.OneProductInElements | software/riscv-isa-tests/riscv-tests/benchmarks/mm/rb.h:41-47 | With p = 1 the cell grows by one product of two elements |
| Matrix.IdentityAddsA | software/riscv-isa-tests/riscv-tests/benchmarks/mm/mm.c:145-152 | If b is the identity, c grows by exactly the elements of a |
| Matrix.KeptInElements | software/riscv-isa-tests/riscv-tests/benchmarks/mm/mm.c:145-152 | An index whose row or column lies outside the block keeps its element |
| BlockedMatMul.MmCb | software/riscv-isa-tests/riscv-tests/benchmarks/mm/mm.c:74-143 | The cache-blocked path on packed copies, with right strip and bottom, adds exactly the product |
| BlockedMatMul.ComputeBlock | software/riscv-isa-tests/riscv-tests/benchmarks/mm/mm.c:100-113 | The k loop on packed blocks and its leftover leave the full sums in one block of c1, the other blocks unchanged |
| BlockedMatMul.BlockRow | software/riscv-isa-tests/riscv-tests/benchmarks/mm/mm.c:96-125 | One block row: its packed blocks, and the right strip in place |
| BlockedMatMul.Bottom | software/riscv-isa-tests/riscv-tests/benchmarks/mm/mm.c:126-138 | The rows below the last full block row |
| BlockedMatMul.CopyBack | software/riscv-isa-tests/riscv-tests/benchmarks/mm/mm.c:140-142 | Copying the packed sums back adds the product to the full blocks of c and touches nothing else |
| BlockedMatMul.ThreeParts | software/riscv-isa-tests/riscv-tests/benchmarks/mm/mm.c:96-142 | Right strip, bottom and full blocks make up the whole matrix, without overlap |
| Packing.Pack | software/riscv-isa-tests/riscv-tests/benchmarks/mm/mm.c:84-94 | Every block of the packed array holds the block of the matrix with its number |
| Packing.PackedInElements | software/riscv-isa-tests/riscv-tests/benchmarks/mm/mm.c:84-94 | By the elements: row i, column j of block (ib, jb) lies at (nc*ib + jb)*bm*bn + i*bn + j and is the element of the matrix in row ib*bm + i, column jb*bn + j |
| Packing.Repack | software/riscv-isa-tests/riscv-tests/benchmarks/mm/mm.c:46-72 | Copies an m by p block between strides and changes nothing else |
| Packing.CopiesInElements | software/riscv-isa-tests/riscv-tests/benchmarks/mm/mm.c:46-72 | By the elements: the destination at base + (row+i)*ld + col + j holds the element of the source in the same place of its block |
| MatMul.MmRb | software/riscv-isa-tests/riscv-tests/benchmarks/mm/mm.c:33-44 | Register tiles and the leftovers beside and below them add exactly the product |
| MatMul.MmNaive | software/riscv-isa-tests/riscv-tests/benchmarks/mm/mm.c:11-31 | The plain loop with four interleaved sums adds exactly the product |
| MatMul.KLoop | software/riscv-isa-tests/riscv-tests/benchmarks/mm/rb.h:3-210 | The 4 by 5 tile, unrolled by 6 with its leftovers, adds exactly the product to its tile of c and changes nothing else |
| Matrix.DotInner | software/riscv-isa-tests/riscv-tests/benchmarks/mm/mm.c:100-113 | Splitting the inner dimension splits the sum |
| Matrix.DeltaRows | software/riscv-isa-tests/riscv-tests/benchmarks/mm/mm.c:126-138 | Splitting the rows splits the matrix into parts that do not overlap |

## Left out

- The processor itself (hardware/source), its test benches and simulation are not part of this model.
- Weak memory: fences and `volatile` are taken to give sequential consistency.
- Floating-point rounding and NaN: `t` of mm.c is `real`, and verifyDouble compares by equality. Overflow of `int` in the matrix programs: sums are unbounded integers.
- Memory-mapped I/O, CSR accesses, inline assembly, traps, timers, the UART, `tohost` and `setStats`; the `satp` write of translate.c and its get_field and set_field macros.
- Sockets: a TAP is any deterministic machine that answers each 'R' with one byte, and a send is never cut short.
- Statements that the source unrolls over scalar variables are grouped: the twenty accumulators of rb.h are a 4 by 5 array, repack's groups of eight are copied element by element, and the products of ck_matmul.c, which read only constant data, are one step of its state machine.
- The loads of c1 .. c8 and the 32 products per round of ae_matmul.c are single steps in source order, but index computations are not.
- Spinlock.StepKeepsInv: put_lock and the increment of hart_count are one step, because no other hart reads that counter; timer interrupts are left out.
- Quicksort.Sort: lengths of 12 * 2^24 - 1 and more, for which the stack bound is not shown. selection_sort is never called.
- RadixSort.Sort: pointers are unbounded offsets, so the comparisons with &arr[n-3] and &arr[3] are also meaningful for n < 3; the key width is fixed at 32 bits.
- PageTable.PageBuffer.AddEntry: starts from the identity master table, so the branch of line 148, which never runs then, has no result of its own; level 3 of Sv48 is excluded because line 134 would shift an `int` by 37.
- Walk, in `PageTable`: permissions other than "everything is allowed from user mode" are left out, and the fault on an address that is not sign-extended is a separate predicate, `Canonical`; a page of memory is a table of entries.
- PrintParse.PrintNum: `%d` is modelled without flags, width and precision; other conversions and printf's return value are left out.
- PrintParse.SprintfD: the smallest long, whose negation overflows in C.
- Pmp.PmpOk: sizes above 2^64 - 4, for which the counter of line 92 wraps and the loop never ends; it takes a physical address (va2pa is left out), granule 4 and 64-bit words; with a larger granule lines 87-88 scale differently from the encoders.
- Pmp.SetPmpRange and Pmp.SetPmpNapot return the values only; writing them to the CSRs is left out.
- Towers.Towers.Verify: 31 or more discs, for which the 32-bit shift overflows. The pool has as many nodes as there are discs, allocated one by one instead of as an array.
- Crc.Crc32a: messages of 2^31 bytes and more, at which the `int` index overflows.
- The other mt/*_matmul.c variants, Dhrystone, median, multiply, spmv, vvadd and the remaining debug programs: fixed data or easier versions of what is here. cf_matmul.c and cm_matmul.c update the same elements from several cores without synchronisation.
- The Python test harness (testlib.py, gdbserver.py, targets.py): process control.
