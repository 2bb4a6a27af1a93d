# pmwcas-benchmark in Dafny

The benchmark compares several multi-word compare-and-swap implementations
on persistent memory. These are the authors' PMwCAS, Microsoft's PMwCAS,
the volatile MwCAS and its AOPT variant, a persistent single-word CAS
(PCAS), single-word CASes and a lock. This project models the parts of the
benchmark that generate the workload and run it:

- **Words** (`words.dfy`). 64-bit words with wrap-around increment, and the
  dirty flag in bit 63 that PCAS uses for words not yet flushed.
- **The descriptor contract** (`mwcas.dfy`). The descriptor libraries are
  not modelled. What every target relies on is modelled once: a descriptor
  either installs all of its desired values, or changes nothing.
- **Operations and their generators** (`pointer_operation.dfy`,
  `vector_operation.dfy`, `array_operation.dfy`, `engine_*.dfy`, `draws.dfy`,
  `sorting.dfy`, `shuffle.dfy`). An operation is a set of distinct target
  slots, sorted before it is issued. The generators draw targets until each
  one is new; the randomness is given to them as input sequences, and
  each generator is proved to stop at the first draw that completes an
  operation.
- **Shared helpers** (`common.dfy`, `wrappers.dfy`). Powers of two and
  the logarithm of the block size, decimal digits, and optional results.
- **Benchmark targets** (`mwcas_target.dfy`, `block_target.dfy`,
  `pcas_target.dfy`, `array_target.dfy`, `pmem_array.dfy`,
  `increment.dfy`). Executing an operation adds one, modulo 2^64, to every
  target word. For the MwCAS implementations this happens atomically. For
  the lock, it happens word by word inside one transaction. For single-word
  CAS, each word is retried on its own. PCAS reads a dirty word clean,
  installs its new value dirty, flushes it and then publishes it clean.
- **Persistent queues** (`queue_heap.dfy`, `queue_lock.dfy`,
  `pmem_queue.dfy`, `dummy_queue.dfy`, `queue_pmwcas.dfy`,
  `queue_microsoft_pmwcas.dfy`, `priority_list.dfy`,
  `priority_queue_pmwcas.dfy`, `priority_queue_microsoft_pmwcas.dfy`,
  `reservation.dfy`, `engine_queue.dfy`).
  - Pool memory is a map from pointer words to node offsets. The pointer
    words are the root's head and tail, each node's `next` and the
    per-thread temporary slots.
  - The FIFO queues keep a dummy node, with an append-at-tail push and a
    pop from the head.
  - The priority queues keep their list sorted from the largest value down.
  - Each queue states its contents as a ghost sequence and proves what
    every push and pop does to it. For the priority queues this includes
    that the list stays sorted and that pop returns a largest value.
- **Command-line validators** (`validators.dfy`, `bench_validators.dfy`).
  The flag checks of the drivers, including the two ways they check a
  random seed: by parsing it, and by scanning it for decimal digits.

In `src/array/operation_engine.hpp:89` the array generator calls
`SetAddrIfUnique(j, pos)`. The operation class of
`src/array/operation.hpp` has no member of that name. The model reads it as
`SetPositionIfUnique(j, pos)`, the member with that signature.

## Model

| member | source | states |
|---|---|---|
| Words.Clean | src/array/pmwcas_target.cpp:50 | the result has bit 63 clear and differs from the word at most by the flag |
| Words.Mark | src/array/pmwcas_target.cpp:87 | the result has bit 63 set and is the same word once cleaned |
| Words.Succ | src/pmwcas_target.cpp:157 | `old_val + 1` on uint64: the successor modulo 2^64 |
| Words.SuccOfSum | src/pmwcas_target.cpp:157 | incrementing a count taken modulo 2^64 adds one to the count |
| Words.CleanMarkRoundTrip | src/array/pmwcas_target.cpp:87-94 | marking a clean desired value and then cleaning it gives the value back |
| Words.SuccCanSetDirtyFlag | src/array/pmwcas_target.cpp:31 | the successor of 2^63 - 1 carries the dirty flag, so a clean word need not stay clean |
| Common.Log2 | include/common.hpp:33-39 | the recursive logarithm, 0 for 0 and 1; its meaning is stated by the three lemmas below |
| Common.Log2Bounds | include/common.hpp:33-39 | `Log2(v)` is the floor of the base-2 logarithm of every positive `v` |
| Common.Log2OfPow2 | include/common.hpp:33-39 | `Log2` inverts raising 2 to a power |
| Common.PowerOfTwoIsPow2 | include/common.hpp:33-39 | a value is a power of two exactly when 2^Log2(v) is v |
| Common.ShiftByLog2IsMultiply | include/pmwcas_target.hpp:149 | for a power-of-two block size, shifting by its logarithm multiplies by it |
| Common.Digits | src/queue/pmem_queue.hpp:76 | the decimal digits of a number, without leading zeros |
| Common.DigitsRoundTrip | src/queue/pmem_queue.hpp:76 | reading the digits back gives the number |
| Validators.ValidatePositiveVal | include/validaters.hpp:29-40 | the definition: a `double` passes exactly when it is not negative; it has no contract of its own (see "Left out") |
| Validators.ValidateNonZero | include/validaters.hpp:42-53 | the definition: a number passes exactly when it is not zero; what it guards is stated by `MwCASTarget.AcceptedInitThreadsCoverFields` |
| Validators.ClearLowestBitIsZero | include/validaters.hpp:66 | `v & (v - 1)` is zero exactly when `v` is a power of two |
| Validators.ValidateBlockSize | include/validaters.hpp:55-71 | the definition: below 8 fails, then a non-zero `value & (value - 1)` fails; characterised by the two lemmas below |
| Validators.ValidateBlockSizeAccepts | include/validaters.hpp:55-71 | the accepted block sizes are exactly the powers of two from 8 on |
| Validators.AcceptedBlockSizeHoldsWord | include/validaters.hpp:55-71 | every accepted block size is a power of two that holds a whole word |
| Validators.ValidateRandomSeed | include/validaters.hpp:73-88 | the definition, over `std::stoul` as a parameter: the empty seed is accepted; otherwise a converted seed is accepted, `invalid_argument` rejects it and `out_of_range`, not caught, terminates the program |
| BenchValidators.ValidateRandomSeed | src/pmwcas_bench.cpp:51-65 | accepts exactly the seeds made only of decimal digits |
| BenchValidators.DigitSeedsParse | src/pmwcas_bench.cpp:51-65 | for a `stoul` that converts digit strings, a seed of digits the scan accepts is accepted by the parsing validator too, unless its value needs more than 64 bits; then the program terminates |
| BenchValidators.OverlongSeedTerminates | include/validaters.hpp:81-86 | the digits of 2^64 pass the digit scan, yet the parsing validator terminates on them |
| BenchValidators.ParsedSeedNeedNotBeDigits | include/validaters.hpp:81-86 | the converse fails: for a `stoul` that stops at the first non-digit, "1a" is accepted by the parsing validator and rejected by the scan |
| MwCAS.Execute | src/pmwcas_target.hpp:115-125 | a descriptor succeeds exactly when every target holds its expected value; then the targets hold their desired values and nothing else changes; otherwise nothing changes |
| MwCAS.OnArray | src/array/pmwcas_target.hpp:185-194 | a descriptor on array positions leaves the array that `Execute` gives |
| Increment.IncrementAll | src/pmwcas_target.hpp:115-125 | the reference definition of an atomic increment: every listed word gets its successor; rows `Increment.IncrementSucceeds` and `Increment.IncrementAllCounts` state what it means |
| Increment.IncrementSucceeds | src/array/pmwcas_target.hpp:185-194 | a descriptor `(a, v, v + 1)` read from memory, on distinct targets, succeeds and increments exactly the targets |
| Increment.IncrementAt | src/array/pmwcas_target.hpp:187-193 | each listed position gets its successor, the rest are unchanged; its view is `IncrementAll` of the view |
| Increment.IncrementEachCounts | src/array/pmwcas_target.hpp:162-165 | incrementing one slot after another adds to each word the number of times its position is listed |
| Increment.IncrementEachDistinct | src/array/pmwcas_target.hpp:154-172 | on distinct positions the lock's one-by-one increments equal the atomic increment |
| Increment.IncrementAllCounts | src/pmwcas_target.hpp:111-166 | an atomic increment of distinct addresses adds one to each of them |
| Increment.AddedCountsStep | src/pmwcas_target.hpp:172-179 | one more single-word increment keeps every word's count of increments exact |
| Sorting.DistinctMultiplicity | src/operation.hpp:55-66 | a sequence has no duplicates exactly when no value occurs twice in its multiset |
| Sorting.DistinctPermutation | src/operation.hpp:79 | reordering a sequence without duplicates keeps it without duplicates |
| Sorting.SortedDistinctIsStrict | src/operation.hpp:79 | sorted distinct targets are strictly ascending |
| Sorting.SortedPermutationUnique | src/operation.hpp:79 | two sorted arrangements of the same elements are equal |
| Sorting.SortedSameHead | src/operation.hpp:79 | two sorted sequences with the same elements share their head, and their tails have the same elements |
| Sorting.SortedArrangementOfIota | include/array/operation_engine.hpp:61-66 | sorting any arrangement of 0 .. n - 1 gives 0 .. n - 1 back |
| Sorting.DistinctBelowBound | src/array/operation_engine.hpp:87-93 | pigeonhole: distinct positions below a bound are at most that many |
| Sorting.ArrangementOfIotaBelow | src/array/operation_engine.hpp:88 | every entry of the shuffled position index is a valid position |
| Sorting.InsertIntoPrefix | src/operation.hpp:79 | inserting element `i` into the sorted prefix leaves a longer sorted prefix, the same elements and the rest in place |
| Sorting.SortInPlace | src/operation.hpp:79 | `std::sort`: the array ends sorted and holds the same elements |
| Shuffle.ShuffleInPlace | include/array/operation_engine.hpp:66 | `std::shuffle` permutes the position index |
| Draws.PickedSplit | src/operation_engine.hpp:76-79 | splitting a run of draws splits the set of entries it picks |
| Draws.PickedGrows | src/operation_engine.hpp:76-79 | a longer run of draws picks at least the entries of a shorter one |
| Draws.FillEnd | src/operation_engine.hpp:76-79 | where the shortest run of draws picking `count` distinct entries ends; a run it finds does pick that many, within the draws |
| Draws.FillEndIsShortest | src/operation_engine.hpp:76-79 | no run ending before the one `FillEnd` finds picks `count` distinct entries, so the redraw loop stops as early as it can |
| Draws.FillEndRunsOut | src/operation_engine.hpp:76-79 | the shortest run does not exist exactly when all the draws together pick fewer than `count` distinct entries |
| Draws.FillEndSkips | src/operation_engine.hpp:77-78 | a redraw of an entry already held does not move where the operation completes |
| Draws.Batches | src/operation_engine.hpp:63-86 | where the draws of `n` operations end, each starting after the one before; none when they run out |
| PointerOperation.Operation.constructor | src/operation.hpp:32 | a new operation has `kTargetNum` null slots |
| PointerOperation.Operation.GetAddr | src/operation.hpp:49-53 | the address in slot `i` |
| PointerOperation.Operation.SetAddr | src/operation.hpp:55-66 | stores the address in slot `i` exactly when no earlier slot holds it, and keeps the earlier slots distinct |
| PointerOperation.Operation.SortTargets | src/operation.hpp:76-80 | the slots end sorted with the same addresses, and strictly ascending when they were distinct |
| VectorOperation.Operation.constructor | include/operation.hpp:32 | a new operation has no targets |
| VectorOperation.Operation.GetPositions | include/operation.hpp:53-58 | the target positions, in the order appended |
| VectorOperation.Operation.SetPositionIfUnique | include/operation.hpp:69-80 | appends the position exactly when it is not yet a target, so the targets stay distinct |
| VectorOperation.Operation.SortTargets | include/operation.hpp:90-94 | the targets end strictly ascending with the same positions |
| ArrayOperation.Operation.constructor | src/array/operation.hpp:34 | a new operation has `kTargetNum` slots holding 0 |
| ArrayOperation.Operation.GetPosition | src/array/operation.hpp:55-60 | the position in slot `i` |
| ArrayOperation.Operation.SetPositionIfUnique | src/array/operation.hpp:73-85 | false for a position held by an earlier slot; out of range from `at` for `i == kTargetNum`; otherwise stores it in slot `i` and keeps the earlier slots distinct |
| ArrayOperation.Operation.SortTargets | src/array/operation.hpp:95-99 | the slots end sorted with the same positions, and strictly ascending when they were distinct |
| PointerOperationEngine.OperationEngine.constructor | src/operation_engine.hpp:41-46 | the engine holds the target fields it is given |
| PointerOperationEngine.OperationEngine.DrawUnique | src/operation_engine.hpp:77-78 | stops at the first draw whose field is new to the earlier slots and stores that field in slot `j`; every earlier draw picked a field already there; it fails only when the draws run out, changing nothing |
| PointerOperationEngine.OperationEngine.FillTargets | src/operation_engine.hpp:76-79 | ends where the shortest run of draws picking `kTargetNum` distinct fields ends (`Draws.FillEnd`), the slots holding exactly the fields picked; fails only when no such run exists |
| PointerOperationEngine.OperationEngine.GenerateOne | src/operation_engine.hpp:74-82 | the operation is the fields the shortest completing run picks, distinct and ascending; it is none exactly when the draws run out first |
| PointerOperationEngine.OperationEngine.Generate | src/operation_engine.hpp:63-86 | `n` operations, each with `kTargetNum` distinct fields in ascending order; operation `k` holds exactly the fields the `k`-th shortest completing run picks, each run starting where the one before ended (the ghost `ends`); none exactly when the draws run out first |
| VectorOperationEngine.OperationEngine.constructor | include/array/operation_engine.hpp:54-67 | the position index is a permutation of 0 .. arrayCap - 1 |
| VectorOperationEngine.OperationEngine.DrawUnique | include/array/operation_engine.hpp:105-109 | stops at the first draw whose position is new to the operation and appends it; every earlier draw picked a position already there; it fails only when the draws run out, changing nothing |
| VectorOperationEngine.OperationEngine.GenerateOne | include/array/operation_engine.hpp:103-111 | the operation is the positions the shortest completing run picks, distinct and ascending; it is none exactly when the draws run out first |
| VectorOperationEngine.OperationEngine.Generate | include/array/operation_engine.hpp:90-117 | `n` operations of `target_num` distinct positions below the array capacity, ascending; operation `k` holds exactly the positions the `k`-th shortest completing run picks, each run starting where the one before ended; none exactly when the draws run out first; any operation needs `target_num <= array_cap` |
| ArrayOperationEngine.OperationEngine.constructor | src/array/operation_engine.hpp:45-56 | the position index is a permutation of 0 .. kElementNum - 1 |
| ArrayOperationEngine.OperationEngine.DrawUnique | src/array/operation_engine.hpp:88-92 | stops at the first draw whose position is new to the earlier slots and stores it in slot `j`; every earlier draw picked a position already there; it fails only when the draws run out, changing nothing |
| ArrayOperationEngine.OperationEngine.FillTargets | src/array/operation_engine.hpp:87-93 | ends where the shortest run of draws picking `kTargetNum` distinct positions ends, the slots holding exactly the positions picked, all below kElementNum; fails only when no such run exists |
| ArrayOperationEngine.OperationEngine.GenerateOne | src/array/operation_engine.hpp:85-96 | the operation is the positions the shortest completing run picks, distinct and ascending, which needs `kTargetNum <= kElementNum`; none exactly when the draws run out first |
| ArrayOperationEngine.OperationEngine.Generate | src/array/operation_engine.hpp:73-100 | `n` operations of `kTargetNum` distinct positions, ascending; operation `k` holds exactly the positions the `k`-th shortest completing run picks, each run starting where the one before ended; none exactly when the draws run out first |
| QueueOperationEngine.LowBit | src/queue/operation_engine.hpp:68-76 | `v % 2` is the bit `v & kMask` of the 64-bit word |
| QueueOperationEngine.Generate | src/queue/operation_engine.hpp:62-84 | `n` operations; the `i`-th pushes the `i`-th random value exactly when it is even, and pops otherwise |
| MwCASTarget.ShareCovers | src/pmwcas_target.hpp:51-62 | thread `i` initialises exactly the indices `i + k * init_thread_num` below `total_field_num` |
| MwCASTarget.RoundRobinIndex | src/pmwcas_target.hpp:52 | index `i + k * threads` belongs to thread `i` as its `k`-th index, so no index is initialised twice |
| MwCASTarget.ZeroedFill | src/pmwcas_target.hpp:53 | filling a null field adds one zeroed word at its address |
| MwCASTarget.InitialiseStep | src/pmwcas_target.hpp:52-54 | one loop step of thread `i` takes the fields done so far to those done up to its next index |
| MwCASTarget.InitialiseDone | src/pmwcas_target.hpp:52-54 | when its loop ends, thread `i` has initialised all of its indices |
| MwCASTarget.InitialiseThread | src/pmwcas_target.hpp:51-55 | thread `i` allocates a zeroed word for each of its indices and leaves the others as they were |
| MwCASTarget.MwCASTarget.constructor | src/pmwcas_target.hpp:44-63 | with at least one thread, every field gets its own zeroed word, no two fields sharing one; with none, every field stays null; so for a non-empty vector, `init_thread_num` passes ValidateNonZero exactly when no field is left null |
| MwCASTarget.AcceptedInitThreadsCoverFields | src/pmwcas_bench.cpp:79-80 | for fields initialised round robin from the allocated words, `num_init_thread` passes ValidateNonZero exactly when no field is left null |
| MwCASTarget.MwCASTarget.ReferTargetFields | src/pmwcas_target.hpp:92-96 | the target fields, which the pointer engine draws from |
| MwCASTarget.MwCASTarget.Execute | src/pmwcas_target.hpp:111-180 | every target word is increased by the number of times it is listed (once each for the MwCAS implementations) |
| MwCASTarget.MwCASTarget.ExecuteMwCAS | src/pmwcas_target.hpp:111-166 | the retried descriptor increments every target and nothing else |
| MwCASTarget.MwCASTarget.CompareExchange | src/pmwcas_target.hpp:176 | installs the desired value exactly when the word holds the expected one, and returns what it held |
| MwCASTarget.MwCASTarget.ExecuteSingleCAS | src/pmwcas_target.hpp:168-180 | each target in turn is retried until it gets one more increment |
| BlockTarget.AlignUpBounds | src/pmwcas_target.cpp:239-241 | `(x + mask) & ~mask` is the nearest block boundary at or above `x` |
| BlockTarget.Initialize | src/pmwcas_target.cpp:221-243 | pool creation failure is an error; otherwise the array and pool sizes and a block-aligned root within one block of the pool's offset |
| BlockTarget.BlocksFitInRoot | src/pmwcas_target.cpp:233-241 | every word of the array lies inside the root object after alignment |
| BlockTarget.BlocksDisjoint | src/pmwcas_target.cpp:212-219 | the words of different blocks do not overlap |
| BlockTarget.PMwCASTarget.constructor | src/pmwcas_target.cpp:74-119 | a target over the layout's root with every word zero |
| BlockTarget.PMwCASTarget.GetAddr | src/pmwcas_target.cpp:212-219 | `root + (pos << shift)` is the root plus `pos` blocks |
| BlockTarget.PMwCASTarget.GetAddrInjective | src/pmwcas_target.cpp:212-219 | distinct positions have distinct addresses |
| BlockTarget.PMwCASTarget.GetValue | src/pmwcas_target.cpp:135-142 | the word read at `root + (pos << shift)` is the word `pos` blocks past the root, and it exists |
| BlockTarget.PMwCASTarget.AddrsDistinct | src/pmwcas_target.cpp:151-158 | the descriptor built from distinct positions names no address twice |
| BlockTarget.PMwCASTarget.Execute | src/pmwcas_target.cpp:145-206 | the word of every target position is incremented once, and nothing else changes |
| BlockTarget.PMwCASTarget.ExecutePCAS | src/pmwcas_target.cpp:190-206 | the CAS retried from the value last seen increments that word |
| BlockTarget.PMwCASTarget.ExecuteMwCAS | src/pmwcas_target.cpp:145-188 | the retried descriptor increments every target address and nothing else |
| BlockTarget.PMwCASTarget.CompareExchange | src/pmwcas_target.cpp:201 | installs the desired value exactly when the word holds the expected one |
| PcasTarget.IncrementStep | test/array/pmwcas_target_test.cpp:131-133 | one atomic increment of all targets adds one to their count |
| PcasTarget.PcasStep | test/array/pmwcas_target_test.cpp:131-133 | one PCAS increment of a clean single target adds one to its count |
| PcasTarget.PMwCASTarget.constructor | src/array/pmwcas_target.cpp:104-143 | a target over `array_cap` zero words, with nothing flushed yet |
| PcasTarget.PMwCASTarget.GetValue | include/array/pmwcas_target.hpp:107-114 | the word at position `pos` of the array, as it is |
| PcasTarget.PMwCASTarget.CompareExchange | src/array/pmwcas_target.cpp:51 | installs the desired value exactly when the word holds the expected one, and returns what it held |
| PcasTarget.PMwCASTarget.Persist | src/array/pmwcas_target.cpp:49 | `pmem_persist` records the word's current content as flushed |
| PcasTarget.PMwCASTarget.PersistDirtyValueIfNeeded | src/array/pmwcas_target.cpp:42-54 | a clean value is returned untouched; a dirty one is flushed, cleared in memory and returned clean |
| PcasTarget.PMwCASTarget.PCASRead | src/array/pmwcas_target.cpp:60-69 | returns the word's clean value, after flushing it when it was dirty |
| PcasTarget.PMwCASTarget.PersistentCAS | src/array/pmwcas_target.cpp:78-96 | succeeds exactly when the word holds the expected value, clean or dirty; then the desired value is flushed and installed clean; otherwise the differing clean value comes back |
| PcasTarget.PMwCASTarget.Execute | src/array/pmwcas_target.cpp:149-217 | every target word is incremented once; PCAS increments the clean value of its single target |
| PcasTarget.PMwCASTarget.ExecuteRepeatedly | test/array/pmwcas_target_test.cpp:131-153 | `count` executions leave each target `count` increments later and the other words unchanged |
| PcasTarget.PMwCASTarget.ExecuteMwCAS | src/array/pmwcas_target.cpp:149-192 | the retried descriptor increments every target position and nothing else |
| PcasTarget.PMwCASTarget.ExecutePCAS | src/array/pmwcas_target.cpp:194-217 | the retried PCAS from the clean value read increments that word |
| ArrayTarget.PMwCASTarget.constructor | src/array/pmwcas_target.hpp:59-83 | the target works on the array it is given, with the chosen implementation |
| ArrayTarget.PMwCASTarget.Execute | src/array/pmwcas_target.hpp:154-224 | each word is increased once per slot holding its position (distinct slots for the MwCAS implementations) |
| ArrayTarget.PMwCASTarget.ExecuteLock | src/array/pmwcas_target.hpp:154-172 | the transaction increments each slot's word in slot order |
| ArrayTarget.PMwCASTarget.ExecuteMwCAS | src/array/pmwcas_target.hpp:180-224 | the retried descriptor increments every target position and nothing else |
| PmemArray.PoolSizeBounds | src/array/pmem_array.hpp:76 | a new pool is a whole number of minimum pools, with between one and two minimum pools of room beside the root |
| PmemArray.PartitionCovers | src/array/pmem_array.hpp:116-121 | the transactions' chunks cover every element exactly once |
| PmemArray.PmemArray.constructor | src/array/pmem_array.hpp:70-83 | an existing pool keeps its words; a new one is zeroed |
| PmemArray.PmemArray.Initialize | src/array/pmem_array.hpp:113-136 | every element ends zero, in transactions of `kN` elements, the last possibly shorter |
| Reservation.ElementHolder.constructor | src/element_holder.hpp:41-47 | the holder keeps its position, flag array and element |
| Reservation.ElementHolder.Get | src/element_holder.hpp:68-73 | the element the holder was built with |
| Reservation.ElementHolder.Release | src/element_holder.hpp:59 | the destructor clears this holder's flag and no other |
| Reservation.CompareExchangeFlag | src/queue/queue_pmwcas.hpp:302 | `compare_exchange_strong` on one flag |
| Reservation.ReserveNodeAddress | src/queue/queue_pmwcas.hpp:292-312 | a cached holder is kept; otherwise the first free slot is claimed and held, and none only when every slot is taken |
| QueueHeap.AppendStep | src/queue/queue_lock.hpp:133-140 | linking a new node at the tail keeps the chain linked and appends its value |
| QueueHeap.DropStep | src/queue/queue_lock.hpp:161-170 | unlinking the head node keeps the chain linked and drops the first value |
| QueueHeap.LinkedInsert | src/queue/priority_queue_pmwcas.hpp:142-149 | linking a new node at index `k` keeps the list linked with the node at `k` |
| QueueLock.QueueWithLock.constructor | src/queue/queue_lock.hpp:69-78 | a new pool's queue is empty |
| QueueLock.QueueWithLock.Push | src/queue/queue_lock.hpp:126-147 | the value is appended to the contents |
| QueueLock.QueueWithLock.Pop | src/queue/queue_lock.hpp:153-180 | none from an empty queue, which is unchanged; otherwise the first value, removed from the contents |
| PmemQueue.Decimal | src/queue/pmem_queue.hpp:76 | a number's text has no newline, so each value takes one line |
| PmemQueue.Lines | src/queue/pmem_queue.hpp:72-79 | the text `show` writes: each value in decimal, followed by a newline |
| PmemQueue.LinesCount | src/queue/pmem_queue.hpp:72-79 | `show` writes one line per value |
| PmemQueue.PmemQueue.constructor | src/queue/pmem_queue.hpp:106-109 | a queue with null head and tail is empty |
| PmemQueue.PmemQueue.Push | src/queue/pmem_queue.hpp:28-41 | the value is appended to the contents |
| PmemQueue.PmemQueue.Pop | src/queue/pmem_queue.hpp:47-66 | "Nothing to pop" from an empty queue, which is unchanged; otherwise the first value, removed from the contents |
| PmemQueue.PmemQueue.Show | src/queue/pmem_queue.hpp:72-79 | the values from head to tail, one per line, with nothing changed |
| PmemQueue.PushPopRoundTrip | src/queue/pmem_queue.hpp:28-66 | pushing any two values on a new queue and popping twice gives them back in the order pushed |
| DummyQueue.PushSucceeds | src/queue/queue_pmwcas.hpp:132-138 | the push descriptor read from memory succeeds, links the node as the new tail, clears the slot and changes nothing else |
| DummyQueue.PopSucceeds | src/queue/queue_pmwcas.hpp:162-172 | the pop descriptor read from memory succeeds, makes the successor the dummy, records the old dummy in the slot and changes nothing else |
| DummyQueue.EmptyWhenDummyAlone | src/queue/queue_pmwcas.hpp:165 | the dummy's `next` is null exactly when the queue is empty |
| DummyQueue.PushStep | src/queue/queue_pmwcas.hpp:111-139 | a whole push appends the value, clears the slot and keeps every other slot |
| DummyQueue.PopStep | src/queue/queue_pmwcas.hpp:153-179 | a whole pop drops the first value and leaves the old dummy in the slot, or finds the queue empty |
| DummyQueue.PopUnlinks | src/queue/queue_pmwcas.hpp:168-172 | the successful pop attempt leaves a well-formed queue without its first value |
| QueuePMwCAS.QueueWithPMwCAS.constructor | src/queue/queue_pmwcas.hpp:224-243 | a new pool: head and tail name one dummy node, the queue is empty and every slot is free |
| QueuePMwCAS.QueueWithPMwCAS.ReserveNodeAddress | src/queue/queue_pmwcas.hpp:292-312 | the caller's slot is the cached one, or a newly claimed one; memory is unchanged |
| QueuePMwCAS.QueueWithPMwCAS.Push | src/queue/queue_pmwcas.hpp:111-140 | the value is appended to the contents, the caller's slot ends null and every other slot is kept |
| QueuePMwCAS.QueueWithPMwCAS.PushNode | src/queue/queue_pmwcas.hpp:115-139 | the made node is appended, the slot cleared and every other slot kept |
| QueuePMwCAS.QueueWithPMwCAS.LinkNode | src/queue/queue_pmwcas.hpp:125-139 | the retried descriptor leaves the memory its first attempt gives |
| QueuePMwCAS.QueueWithPMwCAS.Pop | src/queue/queue_pmwcas.hpp:146-180 | none from an empty queue, with only the slot nulled; otherwise the first value, removed, the old dummy in the slot and every other slot kept |
| QueueMicrosoftPMwCAS.QueueWithMicrosoftPMwCAS.constructor | src/queue/queue_microsoft_pmwcas.hpp:86-97 | a new pool: head and tail name one dummy node, the queue is empty and every slot is free |
| QueueMicrosoftPMwCAS.QueueWithMicrosoftPMwCAS.ReserveNodeAddress | src/queue/queue_microsoft_pmwcas.hpp:252-273 | the caller's slot is the cached one, or a newly claimed one; memory is unchanged |
| QueueMicrosoftPMwCAS.QueueWithMicrosoftPMwCAS.Push | src/queue/queue_microsoft_pmwcas.hpp:139-169 | the value is appended to the contents, the caller's slot ends null and every other slot is kept |
| QueueMicrosoftPMwCAS.QueueWithMicrosoftPMwCAS.PushNode | src/queue/queue_microsoft_pmwcas.hpp:143-168 | the made node is appended, the slot cleared and every other slot kept |
| QueueMicrosoftPMwCAS.QueueWithMicrosoftPMwCAS.LinkNode | src/queue/queue_microsoft_pmwcas.hpp:153-168 | the retried descriptor leaves the memory its first attempt gives |
| QueueMicrosoftPMwCAS.QueueWithMicrosoftPMwCAS.Pop | src/queue/queue_microsoft_pmwcas.hpp:175-210 | none from an empty queue, with only the slot nulled; otherwise the first value, removed, the old dummy in the slot and every other slot kept |
| PriorityList.Insert | src/queue/priority_queue_pmwcas.hpp:131-149 | inserting before the first value that is not greater adds one element |
| PriorityList.InsertMultiset | src/queue/priority_queue_pmwcas.hpp:131-149 | inserting adds the value and removes nothing |
| PriorityList.InsertAt | src/queue/priority_queue_pmwcas.hpp:135-138 | the search's stopping index is where Insert puts the value |
| PriorityList.InsertBounded | src/queue/priority_queue_pmwcas.hpp:131-149 | inserting a value no greater than a bound keeps every value within it |
| PriorityList.InsertKeepsOrder | src/queue/priority_queue_pmwcas.hpp:131-149 | inserting keeps the list sorted from the largest value down |
| PriorityList.DropKeepsOrder | src/queue/priority_queue_pmwcas.hpp:176-192 | removing the first value keeps the list sorted |
| PriorityList.FrontIsMaximum | src/queue/priority_queue_pmwcas.hpp:192 | the first value of a sorted list is a largest one |
| PriorityList.InsertedValues | src/queue/priority_queue_pmwcas.hpp:131-149 | the list after a push holds the old values with the new one inserted, sorted, with one more copy of it |
| PriorityList.InsertStep | src/queue/priority_queue_pmwcas.hpp:142-149 | the insert descriptor succeeds and puts the new node at the search's index, clearing the slot |
| PriorityList.InsertSucceeds | src/queue/priority_queue_pmwcas.hpp:147-149 | the insert descriptor read from memory succeeds and changes only the link word and the slot |
| PriorityList.PushStep | src/queue/priority_queue_pmwcas.hpp:118-153 | a whole push keeps the list sorted, inserts the value, clears the slot and keeps every other slot |
| PriorityList.RemoveStep | src/queue/priority_queue_pmwcas.hpp:166-194 | a whole pop drops the first value and leaves the removed node in the slot, or finds the queue empty |
| PriorityQueuePMwCAS.PriorityQueueWithPMwCAS.constructor | src/queue/priority_queue_pmwcas.hpp:236-254 | a new pool has a null head, an empty queue and every slot free |
| PriorityQueuePMwCAS.PriorityQueueWithPMwCAS.ReserveNodeAddress | src/queue/priority_queue_pmwcas.hpp:291-311 | the caller's slot is the cached one, or a newly claimed one; memory is unchanged |
| PriorityQueuePMwCAS.PriorityQueueWithPMwCAS.Push | src/queue/priority_queue_pmwcas.hpp:112-154 | the contents become the old ones with the value inserted in order, still sorted; every other slot is kept |
| PriorityQueuePMwCAS.PriorityQueueWithPMwCAS.PushNode | src/queue/priority_queue_pmwcas.hpp:118-153 | the made node is inserted in order and the slot cleared, and every other slot kept |
| PriorityQueuePMwCAS.PriorityQueueWithPMwCAS.LinkNode | src/queue/priority_queue_pmwcas.hpp:128-153 | the node is linked in after every greater value and before the first that is not |
| PriorityQueuePMwCAS.PriorityQueueWithPMwCAS.TryLink | src/queue/priority_queue_pmwcas.hpp:141-149 | one attempt succeeds, changing only the new node's `next`, the link word and the slot, when the link word still holds the node found |
| PriorityQueuePMwCAS.PriorityQueueWithPMwCAS.FindPosition | src/queue/priority_queue_pmwcas.hpp:131-139 | the search skips exactly the nodes with greater values |
| PriorityQueuePMwCAS.PriorityQueueWithPMwCAS.Pop | src/queue/priority_queue_pmwcas.hpp:160-195 | none from an empty queue, with only the slot nulled; otherwise a largest value, removed from the front, still sorted; every other slot is kept |
| PriorityQueueMicrosoftPMwCAS.PriorityQueueWithMicrosoftPMwCAS.constructor | src/priority_queue/priority_queue_microsoft_pmwcas.hpp:243-261 | a new pool has a null head, an empty queue and every slot free |
| PriorityQueueMicrosoftPMwCAS.PriorityQueueWithMicrosoftPMwCAS.ReserveNodeAddress | src/priority_queue/priority_queue_microsoft_pmwcas.hpp:329-349 | the caller's slot is the cached one, or a newly claimed one; memory is unchanged |
| PriorityQueueMicrosoftPMwCAS.PriorityQueueWithMicrosoftPMwCAS.Push | src/priority_queue/priority_queue_microsoft_pmwcas.hpp:111-160 | the contents become the old ones with the value inserted in order, still sorted; every other slot is kept |
| PriorityQueueMicrosoftPMwCAS.PriorityQueueWithMicrosoftPMwCAS.PushNode | src/priority_queue/priority_queue_microsoft_pmwcas.hpp:117-159 | the made node is inserted in order and the slot cleared, and every other slot kept |
| PriorityQueueMicrosoftPMwCAS.PriorityQueueWithMicrosoftPMwCAS.LinkNode | src/priority_queue/priority_queue_microsoft_pmwcas.hpp:132-159 | the node is linked in after every greater value and before the first that is not |
| PriorityQueueMicrosoftPMwCAS.PriorityQueueWithMicrosoftPMwCAS.TryLink | src/priority_queue/priority_queue_microsoft_pmwcas.hpp:147-155 | one attempt succeeds, changing only the new node's `next`, the link word and the slot, when the link word still holds the node found |
| PriorityQueueMicrosoftPMwCAS.PriorityQueueWithMicrosoftPMwCAS.FindPosition | src/priority_queue/priority_queue_microsoft_pmwcas.hpp:135-145 | the search skips exactly the nodes with greater values |
| PriorityQueueMicrosoftPMwCAS.PriorityQueueWithMicrosoftPMwCAS.Pop | src/priority_queue/priority_queue_microsoft_pmwcas.hpp:166-202 | none from an empty queue, with only the slot nulled; otherwise a largest value, removed from the front, still sorted; every other slot is kept |

## Left out

- The descriptor libraries: the authors' PMwCAS, Microsoft's PMwCAS, MwCAS, AOPT, their descriptor pools and epoch guards. Each descriptor is modelled by its all-or-nothing contract (`MwCAS.Execute`).
- Concurrency. Every operation runs alone. So the first attempt of a retry loop always succeeds, and no interleavings, spurious failures or linearizability are modelled.
- The `thread_local` holder of `ReserveNodeAddress`: it is modelled as one per queue object, for the single calling thread.
- Reservation.ReserveNodeAddress: when every slot is taken, the source scans until another thread frees one. The model returns no holder instead.
- The reservation flags are `std::atomic_bool` values created without initialisation. The model takes them as false.
- The epoch-based garbage collector and page reuse (`GetPageIfPossible` in the Microsoft priority queue): a pushed node is always a fresh allocation, and popped nodes are never reclaimed.
- Opening an existing queue pool and `RecoverQueuePool`, which frees the nodes left in temporary slots after a crash. Crash consistency in general is not modelled.
- Allocation and transaction failures. An exception from `make_persistent` or a transaction is not modelled; the core only prints such errors or exits.
- PriorityQueuePMwCAS.PriorityQueueWithPMwCAS.Push: the re-read of the link word after a failed descriptor is dead code, because the next loop iteration reads it again. The model leaves it out. The same holds for the Microsoft variant.
- PcasTarget.PMwCASTarget.ExecutePCAS: the `kRetryNum` spin and the sleep between rounds of retries are left out. They only affect timing.
- PcasTarget.PMwCASTarget.ExecuteRepeatedly, PcasTarget.PcasStep: PCAS counts are proved only while the target stays below the dirty flag (2^63). Past it, incrementing reads the flag back as dirty.
- Randomness (Zipf distributions, `mt19937_64`, `std::shuffle`): the values drawn are input sequences of table indices. A generator returns none exactly when its draws run out before the operations are complete. This stands for the source's unbounded redraw loop, which never ends when fewer distinct targets exist than an operation needs.
- Generate: each generator also returns the index of the first draw it did not use, and the ghost list of where each operation's draws end. The source has neither; they are there so that the contract can say which draws make which operation.
- `std::stoul` in the parsing seed validator is a parameter: a function from the seed to a value, `invalid_argument` or `out_of_range`. Its behaviour is stated only as hypotheses of the lemmas about it: digit strings convert to their value, or are out of range past 2^64 - 1, and parsing stops at the first non-digit. Leading white space and signs, which `std::stoul` also accepts, are not modelled.
- Validators.ValidatePositiveVal: it has no contract. The flag it guards, `skew_parameter`, feeds the Zipf distributions, which are part of the randomness above.
- Printing and error messages, `ShowSampledElements` of the persistent array, the benchmark drivers and the benchmarker's timing.
- The validators in `src/clo_validaters.hpp` are identical to those in `include/validaters.hpp`, so they are modelled once.
- Pool paths, layout names, directory creation and removal, and file permissions.
- Memory orderings (`memory_order_relaxed`) and cache-line flushing other than the single-word `pmem_persist` of PCAS.
