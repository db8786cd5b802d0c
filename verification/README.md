# HAL9000: locks, containers, allocators, formatting and disk structures

A Dafny model of the self-contained algorithms of the HAL9000 kernel, with proofs of what callers rely
on. An `ASSERT` of the kernel stops the system; it appears as an outcome or a program counter called
`Stopped`, and each module says exactly when one can be reached. Machine integers are written out:
where the code computes in a WORD, DWORD or QWORD, the model reduces modulo 2^16, 2^32 or 2^64.

Run `dafny verify dfyconfig.toml` to check everything.

## What is modelled

- **Basics, MachineWords, Products** - what the modules share: optional values, integer widths, and the laws
  of products and quotients by quantities that are not literals.
- **Alignment** - the alignment macros, which mask bits, against rounding to a multiple.
- **RwSpinlock** - the reader/writer spinlock as an interleaved step machine over any number of CPUs.
  Three adjacent 16-bit words are updated by 16-bit increments and by two overlapping 32-bit
  compare-exchanges. All theorems are over every schedule. The bounds are exact: a writer excludes all
  others in every run if and only if there are at most 65536 CPUs, and the words are exact counts if and
  only if there are fewer.
- **RecRwSpinlock** - the recursive wrapper: holder, depth and interrupt state, which a holder may change. Its runs are shown to be
  runs of the inner lock, so the inner theorems carry over.
- **Heap** - the allocator: address-ordered blocks, a tail pointer, and a gap search that restarts from a
  cursor and can carry a stale previous pointer past the list head. When that search misses a gap that
  fits, and when it stops, is stated exactly.
- **RingList** - the doubly linked ring list, on objects with `Flink` and `Blink`.
- **KeyOrder, HashTable** - the chained hash table with sorted buckets refines a map.
- **FirstFitBitmap** - the bitmap in a byte array, first-fit search and scan-and-flip allocation.
- **Fat** - the FAT32 cluster-chain reader against the flattened file. The chain encoding is that of
  Microsoft's *FAT: General Overview of On-Disk Format*, version 1.03, section "FAT Data Structure".
- **PrdTable** - the builder of the physical region descriptor table (*Programming Interface for Bus
  Master IDE Controller*, revision 1.0, section 1.2).
- **Mdl** - the memory descriptor list that the builder works on, and the way from a buffer's pages to the
  bytes that the controller transfers.
- **StrUtils** - number printing and parsing, down to the exclusive-or swap.
- **Format** - `vsnprintf` against a pure rendering.
- **Partitions** - the two-pass recursive walk through the MBR and the extended boot records.

Each imperative part of the kernel is a method or a class with the same loops and fields; its `ensures`
ties the result or the new state to a specification function, and lemmas prove the promised properties
of that function.

## What turned out false, and exactly when

- The reader/writer lock loses mutual exclusion from 65537 CPUs on (`RwSpinlock.MutualExclusion`), and
  its counts from 65536 on (`RwSpinlock.CountsAreExact`).
- `ClHeapAllocatePoolWithTag` reaches its assert on a NULL previous entry exactly when a gap search
  starts with the cursor on one of the last two blocks, and not on one of the first two
  (`Heap.AllocateStopsExactly`); seven calls on a fresh heap get there (`Heap.StopIsReachable`). Heap
  accounting is kept exactly when size + 36 fits in a DWORD (`Heap.ConservationNeedsDword`); a request of
  almost 4 GiB loses it (`Heap.ConservationIsLost`). Freeing the cursor's block leaves the cursor outside
  the list, and only that does (`Heap.FreeAndCursor`). The next gap search then walks through the freed
  block, and exactly then (`Heap.AllocateIsWildExactly`); eight calls on a fresh heap get there
  (`Heap.WildIsReachable`). A search looks at the gaps of `Heap.Examined` and no others
  (`Heap.SearchFailsExactly`), so it misses no gap in any list of n blocks exactly when it starts at the
  list head or n <= 1 (`Heap.MissesNoGapExactly`); after the five calls of `Heap.SearchFromEntryIsNot` a request
  fails beside a gap that takes it.
- The alignment macro yields multiples of the alignment for every address exactly when the alignment is a
  power of two (`Alignment.AlignsExactly`); the heap does not check what its callers ask for.
- `cl_rmemcmp` of no bytes starts 4 GiB above its buffers (`KeyOrder.ScanStaysInside`).
- `HashFuncUniversal` is reduced modulo 10007 before it is spread over the buckets: however many buckets
  there are, keys with equal numbers modulo 10007 collide, and from 10007 buckets on no others
  (`HashTable.CollidesExactly`).
- `HashTableInsert` of an entry that is linked already makes it its own successor
  (`HashTable.Table.InsertAgain`).
- The guard of `BitmapSetBitsValue` wraps when the count is larger than the bitmap
  (`FirstFitBitmap.GuardIsEnough`).
- `FatReadFile` moves whole clusters even when it starts inside one, so a read from inside a cluster is
  the file's only under the condition of `Fat.ReadsTheFile`; `Fat.ReadThatIsNotTheFile` is one that
  succeeds with bytes of another cluster. A read that starts exactly at the end of a
  file stops in an ASSERT, one that starts beyond fails (`Fat.StartsPastTheEnd`). The ASSERT on the base
  sector needs an aligned data region (`Fat.BaseIsAligned`).
- `RecRwSpinlockRelease` stops exactly when the holder enabled interrupts (`RecRwSpinlock.StopsExactly`).
- `_AtaPrepareDmaTransfer` reaches its assert on the page of the table exactly for more than 256 pairs
  (`PrdTable.OnOnePageExactly`), however small and valid they are (`PrdTable.SeparatePagesAreStopped`): for a
  buffer whose pages have 256 breaks or more (`Mdl.BufferStopsExactly`). Pages in one run, on the other hand,
  are refused from 64 KiB on (`Mdl.ContiguousBufferIsRefused`).
- The PRD table is wrong as soon as one pair, cut to what is left of the transfer, is empty or ends above
  4 GiB (`PrdTable.TableTransfersTheList`); validation checks neither (`PrdTable.ValidationIsNotEnough`).
  The list of a buffer has no empty pairs, so there 4 GiB is all that matters (`Mdl.BufferIsTransferred`).
- `itoa` prints the least signed 32-bit number as a number near 2^64 (`StrUtils.PrintsTheNumber`), though
  `atoi` still reads it back. Above base 36 some digits have no character of their own, and reading back
  fails (`StrUtils.RoundTripExactly`); in base 1 the digit loop ends for zero only
  (`StrUtils.DigitLoopEndsExactly`). The comment in CommonLib/inc/strutils.h about a minimum number of digits
  describes a parameter that the function does not have.
- A number that `vsnprintf` pads is no longer readable by `atoi`, unless zeros are added in front of a number
  without a sign (`Format.PaddedNumberParsesBack`).
- `%S` asks for room for the text that it cuts off (`Format.CutTextNeedsItsWholeLength`). A whole format asks
  for more than it writes exactly when what is written from some cut text on is shorter than that text
  (`Format.DemandIsTheLengthExactly`). The sums in the two checks are DWORDs; beyond the sizes of
  `Format.OverrunsExactly` they wrap.
- The partition walk does not end on a cyclic chain of boot records (`Partitions.WalkEndsExactly`). It stops
  in an ASSERT exactly when the master boot record has a link that starts at LBA 0
  (`Partitions.StopsExactly`). The size of the layout is a DWORD and is too small exactly when it wraps
  (`Partitions.RoomForAllExactly`).

## Model

| member | source | states |
|---|---|---|
| RwSpinlock.MutualExclusion | CommonLib/src/rw_spinlock.c:31-97 | over every schedule a writer in the lock excludes all other writers and all readers, if and only if there are at most 65536 CPUs |
| RwSpinlock.CountsAreExact | CommonLib/src/rw_spinlock.c:33-96 | in every reachable state the three words are the numbers of announced writers, of writers plus pretending readers, and of counted readers, if and only if there are at most 65535 CPUs |
| RwSpinlock.StepInv | CommonLib/src/rw_spinlock.c:31-97 | one atomic step keeps the invariant: words count CPUs modulo 2^16, ActiveWriter is at most 1, no reader is counted while a writer writes |
| RwSpinlock.ReachableInv | CommonLib/src/rw_spinlock.c:7-14 | the invariant holds from the zeroed lock on after every schedule |
| RwSpinlock.AssertsHold | CommonLib/src/rw_spinlock.c:63-85 | neither assert on ActiveWriter is ever reached with another value than 1 |
| RwSpinlock.WriterPriority | CommonLib/src/rw_spinlock.c:33-87 | over any run inside one writer's window, readers admitted at the end plus readers that released equal readers admitted at the start: none is let in |
| RwSpinlock.ReaderRefused | CommonLib/src/rw_spinlock.c:52-58 | from a writer's announcement to its release a reader's compare-exchange changes nothing |
| RwSpinlock.NoDeadlock | CommonLib/src/rw_spinlock.c:36-58 | unless every CPU is idle some busy CPU can make a step that changes the state |
| RwSpinlock.TooManyReaders | CommonLib/src/rw_spinlock.c:61 | with more than 65536 CPUs a schedule exists that lets a writer in beside 65536 readers |
| RwSpinlock.ReadersEnterTogether | CommonLib/src/rw_spinlock.c:46-68 | readers that enter one after the other are counted modulo 2^16 |
| RwSpinlock.SharedLock.constructor | CommonLib/src/rw_spinlock.c:7-14 | a new lock is the initial state |
| RwSpinlock.SharedLock.Advance | CommonLib/src/rw_spinlock.c:31-97 | the update of the fields in memory is the step of the machine |
| RecRwSpinlock.RefinesInnerLock | CommonLib/src/rec_rw_spinlock.c:62-101 | every run of the recursive lock is, for the inner lock, one of its own runs |
| RecRwSpinlock.HolderIsExclusive | CommonLib/src/rec_rw_spinlock.c:47-71 | Holder names a CPU only while it holds the lock exclusively and all others are outside; at every step of that CPU the depth counts its acquires and is at most the maximum, and it is 0 only while the last release empties Holder |
| RecRwSpinlock.StopsExactly | CommonLib/src/rec_rw_spinlock.c:51-93 | two asserts can fire and no others: the depth limit exactly on re-entry at the maximum depth, the interrupt state exactly on a release with interrupts enabled |
| RecRwSpinlock.SharedReleaseErasesNothing | CommonLib/src/rec_rw_spinlock.c:96-101 | whenever a shared release clears Holder there is no holder |
| RecRwSpinlock.NoDeadlock | CommonLib/src/rec_rw_spinlock.c:44-102 | in every reachable state with a CPU in the middle of an acquire or a release, some such CPU can change the state or a CPU has the lock |
| RecRwSpinlock.SoloNesting | CommonLib/src/rec_rw_spinlock.c:44-101 | a CPU alone on a free lock reaches depth j with j exclusive acquires, in 7 + 3j steps, for every j up to the maximum, is stopped by one more, and as many releases restore lock and CPU exactly |
| RecRwSpinlock.SoloShares | CommonLib/src/rec_rw_spinlock.c:60-65 | a CPU alone takes a lock that is free or held by readers shared in 8 steps |
| RecRwSpinlock.SoloUnshares | CommonLib/src/rec_rw_spinlock.c:86-101 | and 5 steps of a release restore lock and CPU exactly |
| RecRwSpinlock.SoloRun | CommonLib/src/rec_rw_spinlock.c:10-101 | the same as runs from initialisation, where depth 0 stands for a maximum of 2 |
| RecRwSpinlock.InterruptsRestored | CommonLib/src/rec_rw_spinlock.c:44-101 | the outermost release restores the state from before the outermost acquire, whatever the holder does to it; a holder that leaves interrupts alone has them off throughout and is not stopped |
| RecRwSpinlock.EnablingHolderIsStopped | CommonLib/src/rec_rw_spinlock.c:86 | from any reachable state a holder that enables interrupts and releases is stopped with the lock still held |
| RecRwSpinlock.TogglesExactly | CommonLib/src/rec_rw_spinlock.c:44-86 | a CPU that holds nothing, or the lock, changes its interrupt flag and nothing else |
| RecRwSpinlock.StepInv | CommonLib/src/rec_rw_spinlock.c:44-102 | one step of one CPU keeps the invariant of holder, depth, nesting and interrupts |
| RecRwSpinlock.ReachableInv | CommonLib/src/rec_rw_spinlock.c:10-26 | the invariant holds from initialisation on after every schedule |
| RecRwSpinlock.SharedLock.constructor | CommonLib/src/rec_rw_spinlock.c:10-26 | a new lock is the initial state; depth 0 means the default maximum |
| RecRwSpinlock.SharedLock.AdvanceAcquire | CommonLib/src/rec_rw_spinlock.c:44-71 | the field updates of an acquire are steps of the machine |
| RecRwSpinlock.SharedLock.AdvanceRelease | CommonLib/src/rec_rw_spinlock.c:86-102 | the field updates of a release are steps of the machine |
| Alignment.AlignUpNear | CommonLib/inc/base.h:45 | for any alignment the masked address is at or above the address, by less than the alignment |
| Alignment.MaskIsRemainder | CommonLib/inc/base.h:46 | for a power of two the mask is the remainder, so the test is divisibility |
| Alignment.AlignsExactly | CommonLib/inc/base.h:45 | the masked address is a multiple of the alignment for every address if and only if the alignment is a power of two |
| Heap.BlocksAreApart | CommonLib/src/cl_heap.c:391-451 | any two live blocks, from header to tail, are disjoint and inside the heap |
| Heap.BeforeFreeIsTotalGaps | CommonLib/src/cl_heap.c:219-233 | the space computed before the gap search is the total of all gaps, and 0 for an empty list |
| Heap.AllocateIsSound | CommonLib/src/cl_heap.c:168-299 | a success adds one block of that size wholly between neighbours or behind the last, aligned if the alignment is a power of two, and keeps validity; a failure changes nothing |
| Heap.RefusedRequests | CommonLib/src/cl_heap.c:168-182 | the two status codes for no bytes and for no tag, exactly then, with the heap unchanged |
| Heap.ConservationNeedsDword | CommonLib/src/cl_heap.c:415-447 | remaining bytes plus bytes of live blocks stay constant exactly when size + 36 fits in a DWORD |
| Heap.ConservationIsLost | CommonLib/src/cl_heap.c:415-447 | witness: a fresh heap and a request that breaks the sum |
| Heap.AllocateStopsExactly | CommonLib/src/cl_heap.c:233-247 | an allocation stops in an assert exactly when it searches gaps from a cursor near the end of the list |
| Heap.StopIsReachable | CommonLib/src/cl_heap.c:233-247 | a run of seven calls from a fresh heap after which an allocation stops in the assert |
| Heap.AllocateIsWildExactly | CommonLib/src/cl_heap.c:233-289 | an allocation walks through a freed entry exactly when it searches gaps while the cursor is not in the list |
| Heap.WildIsReachable | CommonLib/src/cl_heap.c:233-371 | a run of eight calls from a fresh heap after which an allocation does |
| Heap.SearchFailsExactly | CommonLib/src/cl_heap.c:235-295 | from any position the search comes back empty exactly when no gap between the position and the end, and none behind the first up to three before the position, takes the block |
| Heap.SearchFromHeadIsComplete | CommonLib/src/cl_heap.c:235-295 | from the list head the search fails only when no gap takes the block |
| Heap.FoundGapFits | CommonLib/src/cl_heap.c:235-295 | a gap that is found is one of those, and takes the block |
| Heap.FirstOnTheWalk | CommonLib/src/cl_heap.c:235-289 | the gap that is found is the first that takes the block on the walk from the cursor around the list head, and every such gap is found unless the walk stops in the assert before it |
| Heap.GapFitsExactly | CommonLib/src/cl_heap.c:249-268 | a gap takes a block if and only if the aligned block with its tail ends before the next header |
| Heap.PlacesAtEndExactly | CommonLib/src/cl_heap.c:199-212 | the space behind the last block takes a block if and only if the aligned block with its tail leaves room for one more header |
| Heap.AllocateTakesTheFirst | CommonLib/src/cl_heap.c:199-297 | the address of a new block is the aligned one behind the last block if it fits there, else behind the block before the first gap on the walk, and then the cursor moves there |
| Heap.MissesNoGapExactly | CommonLib/src/cl_heap.c:235-295 | the search at position k finds a gap in every list of n blocks that has one, if and only if k is the list head or n is at most 1 |
| Heap.AllocateFailsExactly | CommonLib/src/cl_heap.c:205-299 | with the cursor in the list, memory runs out exactly when the tail does not take the block and either the gaps together are too small or no gap that is looked at takes it |
| Heap.AllocateFromHeadIsComplete | CommonLib/src/cl_heap.c:205-299 | with the cursor at the list head, memory runs out exactly when neither the tail nor any gap takes the block |
| Heap.SearchFromEntryIsNot | CommonLib/src/cl_heap.c:235-295 | a run of five calls from a fresh heap after which an allocation fails although a gap takes it |
| Heap.FreeUndoesAllocate | CommonLib/src/cl_heap.c:345-386 | freeing what was just allocated gives the old heap back, but for the cursor |
| Heap.FreeExactly | CommonLib/src/cl_heap.c:345-386 | freeing a live block is done if and only if the tag is its own, and stops otherwise |
| Heap.FreeAndCursor | CommonLib/src/cl_heap.c:285-371 | the cursor stays in the list exactly when another block than its own is freed |
| Heap.AllocateKeepsCursor | CommonLib/src/cl_heap.c:275 | an allocation leaves the cursor in the list |
| Heap.FreeValid | CommonLib/src/cl_heap.c:352-386 | a free keeps order, disjointness, counters and the tail pointer right |
| Heap.EveryHistoryIsValid | CommonLib/src/cl_heap.c:120-387 | every history of allocations and frees keeps the heap valid |
| Heap.InitValid | CommonLib/src/cl_heap.c:93-113 | a fresh heap of at least the minimum size is valid |
| Heap.HeapHeader.constructor | CommonLib/src/cl_heap.c:103-113 | a new heap is the empty heap |
| Heap.HeapHeader.ClHeapInit | CommonLib/src/cl_heap.c:80-118 | NULL and less than the minimum size are refused with their status, in that order; otherwise a fresh valid heap |
| Heap.HeapHeader.TryGap | CommonLib/src/cl_heap.c:249-268 | a pair of neighbours is taken exactly when the aligned block fits; a stale previous block behind the current one never |
| Heap.HeapHeader.WalkGaps | CommonLib/src/cl_heap.c:235-289 | the pointer walk with its stale pointer finds the gap that first fit from the cursor finds, and terminates |
| Heap.HeapHeader.AllocateBetween | CommonLib/src/cl_heap.c:214-297 | the second half of an allocation, on the fields |
| Heap.HeapHeader.AllocatePool | CommonLib/src/cl_heap.c:168-299 | the fields change as the specification says |
| Heap.HeapHeader.AllocatePoolWithTag | CommonLib/src/cl_heap.c:303-308 | with the panic flag a failure stops the system |
| Heap.HeapHeader.InitHeapEntry | CommonLib/src/cl_heap.c:410-450 | the header of a new block at the masked address, and the two counters |
| Heap.HeapHeader.FreePoolWithTag | CommonLib/src/cl_heap.c:345-386 | the fields change as the specification says, and stay valid |
| RingList.RingEntriesAreValid | CommonLib/src/list.c:11-30 | in a ring Flink and Blink are mutually inverse at every entry |
| RingList.InitializeListHead | CommonLib/src/list.c:33-38 | a lone head is a ring |
| RingList.IsListEmpty | CommonLib/src/list.c:42-51 | TRUE exactly when only the head is in the ring |
| RingList.RemoveEntryList | CommonLib/src/list.c:54-70 | the ring without the entry; TRUE exactly when at most one other entry is left; also for the head, and a lone head stays a ring |
| RingList.RemoveHeadList | CommonLib/src/list.c:73-89 | the first entry leaves the ring |
| RingList.RemoveTailList | CommonLib/src/list.c:94-110 | the last entry leaves the ring |
| RingList.InsertTailList | CommonLib/src/list.c:114-130 | the entry goes before the given position |
| RingList.InsertHeadList | CommonLib/src/list.c:134-150 | the entry is linked after the given position; inserted behind itself it becomes its own neighbour |
| RingList.InsertOrderedList | CommonLib/src/list.c:153-178 | the entry goes before the first greater one |
| RingList.InsertOrderedSorted | CommonLib/src/list.c:153-178 | ordered insertion keeps a sorted list sorted |
| RingList.InsertOrderedStable | CommonLib/src/list.c:153-178 | a new element goes behind all with an equal key |
| RingList.InsertAllSortsStably | CommonLib/src/list.c:153-178 | a list filled by ordered insertion is the stable sort of its arrivals |
| RingList.SameKeyExactly | CommonLib/src/list.c:153-178 | the elements of one key, as used above, are those that compare equal to it, each as often as it is in the list |
| RingList.GetListElemByIndex | CommonLib/src/list.c:182-215 | the entry at the index, or NULL past the end |
| RingList.ListSize | CommonLib/src/list.c:219-247 | the number of entries as a DWORD |
| RingList.ListSearchForElement | CommonLib/src/list.c:296-335 | the first entry that compares equal, or NULL when there is none |
| KeyOrder.HighestDifferenceDecides | CommonLib/src/cl_memory.c:168-174 | of two keys the one greater in the highest differing byte is the greater little-endian number |
| KeyOrder.ReverseCompare | CommonLib/src/cl_memory.c:148-177 | the sign of the result is that of the difference of the two little-endian numbers; the size for a NULL buffer; no bytes are scanned outside the buffers, exactly when there are any |
| KeyOrder.ToIntInNumbers | CommonLib/src/cl_memory.c:159-162 | the size returned for a NULL buffer is the INT32 with the same bits |
| KeyOrder.ScanStaysInside | CommonLib/src/cl_memory.c:168 | the scan starts inside the buffers for every size but 0 |
| KeyOrder.ValueIsInjective | CommonLib/src/cl_memory.c:168-176 | keys of one length are equal exactly when their numbers are |
| KeyOrder.ValueIsQword | CommonLib/src/hash_table.c:309-310 | a key of at most 8 bytes stands for a QWORD |
| KeyOrder.BytesOfValue | CommonLib/src/cl_memory.c:168-174 | byte i of the number a key stands for is byte i of the key |
| HashTable.HashDoesNotOverflow | CommonLib/src/hash_table.c:334-347 | for keys of at most 8 bytes the overflow assert of HashFuncUniversal holds and nothing wraps |
| HashTable.UniversalInNumbers | CommonLib/src/hash_table.c:340-347 | with at least 10007 buckets the bucket number is 1701 times the key plus 59, modulo 10007 |
| HashTable.HashesIntoBuckets | CommonLib/src/hash_table.c:297-348 | a table with either function has what the table's theorems ask of its hash |
| HashTable.CollidesExactly | CommonLib/src/hash_table.c:340-347 | keys whose numbers are equal modulo 10007 share a bucket, and with at least 10007 buckets no others do |
| HashTable.SharesBucketExactly | CommonLib/src/hash_table.c:297-312 | two keys share a bucket if and only if the number of buckets divides the difference of their numbers |
| HashTable.RingsApart | CommonLib/src/hash_table.c:113-116 | no entry is in two buckets |
| HashTable.Added | CommonLib/src/hash_table.c:182-191 | an insertion behind the placeholder represents the map with one more key, in its own bucket, sorted |
| HashTable.Replaced | CommonLib/src/hash_table.c:182-187 | an exchange at the placeholder represents the map with that key's entry replaced |
| HashTable.Removed | CommonLib/src/hash_table.c:226-228 | an unlinked entry leaves the map without its key |
| HashTable.Absent | CommonLib/src/hash_table.c:64-75 | a key that the bucket search does not find is not in the map |
| HashTable.Table.constructor | CommonLib/src/hash_table.c:109-116 | a new table stands for the empty map |
| HashTable.Table.SearchKeyInBucket | CommonLib/src/hash_table.c:49-75 | whether the key is there, and the entry before the place where it belongs |
| HashTable.Table.Lookup | CommonLib/src/hash_table.c:233-255 | the map's entry for the key, or NULL |
| HashTable.Table.Insert | CommonLib/src/hash_table.c:157-194 | the map is updated at the key; the entry that was there before is returned; the count is the map's size |
| HashTable.Table.InsertAgain | CommonLib/src/hash_table.c:157-194 | an entry that is linked already becomes its own successor, with its predecessor still pointing at it; the bucket is no ring any more |
| HashTable.Table.RemoveEntry | CommonLib/src/hash_table.c:218-229 | the map loses the entry's key |
| HashTable.Table.Remove | CommonLib/src/hash_table.c:198-215 | the map loses the key, and its entry is returned |
| HashTable.Table.Size | CommonLib/src/hash_table.c:145-153 | the number of keys in the map, below 2^32 |
| FirstFitBitmap.ChangedByte | CommonLib/src/bitmap.c:263-273 | writing one bit of a byte changes exactly that bit of the bitmap |
| FirstFitBitmap.FirstRunIsLeast | CommonLib/src/bitmap.c:332-360 | the scan's answer is the least start of a run inside the window, and there is none exactly when no run fits |
| FirstFitBitmap.GuardIsEnough | CommonLib/src/bitmap.c:131-132 | the guard keeps every written bit inside the bitmap exactly when the count is not larger than the bitmap |
| FirstFitBitmap.EveryRunIsSound | CommonLib/src/bitmap.c:213-248 | over every run of scan-and-flip allocations and matching frees live ranges are disjoint and the taken bits are exactly theirs |
| FirstFitBitmap.TakenBitsAreConserved | CommonLib/src/bitmap.c:213-291 | over every run the number of taken bits changes as the total length of the live ranges does |
| FirstFitBitmap.EveryHistory | CommonLib/src/bitmap.c:61-75 | from an initialised bitmap both hold, and the taken bits are the total length of the live ranges |
| FirstFitBitmap.AllocatesTheLowestFreePlace | CommonLib/src/bitmap.c:238-247 | an allocation takes the lowest place of the window that meets no live range, and fails only when there is none |
| FirstFitBitmap.AllocateExactly | CommonLib/src/bitmap.c:213-248 | a well-formed allocation takes the lowest place of the window that meets no live range, fills it and records it, or changes nothing when there is none |
| FirstFitBitmap.ReleaseGoesThrough | CommonLib/src/bitmap.c:123-135 | in a sound history every matching free passes the guard and clears its range |
| FirstFitBitmap.Bitmap.constructor | CommonLib/src/bitmap.c:44-75 | all bits have the initial value |
| FirstFitBitmap.Bitmap.ChangeBit | CommonLib/src/bitmap.c:252-274 | one bit of the bitmap is written |
| FirstFitBitmap.Bitmap.ChangeBits | CommonLib/src/bitmap.c:278-291 | a run of bits is written and no other |
| FirstFitBitmap.Bitmap.GetBit | CommonLib/src/bitmap.c:295-309 | the bit at the index |
| FirstFitBitmap.Bitmap.ScanInternal | CommonLib/src/bitmap.c:314-361 | the nested loops find the first run, or MAX_DWORD |
| FirstFitBitmap.Bitmap.ScanFromTo | CommonLib/src/bitmap.c:162-186 | MAX_DWORD exactly for a malformed window, an empty request or when no run fits; else the least start of a run in the window |
| FirstFitBitmap.Bitmap.ScanFromToAndFlip | CommonLib/src/bitmap.c:213-248 | the first run is found and flipped, or nothing changes |
| FirstFitBitmap.Bitmap.SetBitsValue | CommonLib/src/bitmap.c:123-135 | stops exactly when the guard does not pass, writes the run exactly when it fits the bitmap; what else passes the guard is a count larger than the bitmap |
| Fat.ClusterOfSectorExact | FAT32/src/fat_utils.c:178-199 | a cluster is found exactly for the sectors of the data region, in spite of underflow |
| Fat.FirstSectorExact | FAT32/src/fat_utils.c:151-174 | the first sector of a valid cluster, inside the data region and without wrapping |
| Fat.NoSuchCluster | FAT32/src/fat_utils.c:151-174 | any other number than those of the volume's clusters, from 2 on, is an invalid cluster |
| Fat.NoSuchSector | FAT32/src/fat_utils.c:178-199 | any sector outside the data region is in an invalid cluster |
| Fat.ClusterOfItsSectors | FAT32/src/fat_utils.c:160-197 | every sector of a cluster leads back to the cluster |
| Fat.SectorLiesInItsCluster | FAT32/src/fat_utils.c:160-197 | every sector of the data region lies in the cluster found for it |
| Fat.EntryInItsSector | FAT32/src/fat_utils.c:113-116 | for every cluster of a volume the FAT entry read is at byte ReservedSectors * BytesPerSector + 4 * cluster, without wrapping |
| Fat.NoEntryStraddles | FAT32/src/fat_utils.c:113-140 | no entry straddles two sectors exactly when the sector size is a multiple of 4 |
| Fat.FetchedEntryFits | FAT32/src/fat_utils.c:113-140 | for any cluster number at all the fetched entry lies inside the sector that was read |
| Fat.DwordIsHeld | FAT32/src/fat_utils.c:140 | the DWORD read is the one number whose bytes, lowest first, are the four on the volume |
| Fat.NextClusterInChain | FAT32/src/fat_utils.c:93-147 | the number whose bytes stand in the FAT entry of any cluster number, or the device's failure |
| Fat.LinkExactly | FAT32/src/fat_utils.c:61-82 | from any sector of a cluster the low 28 bits of the DWORD in its FAT entry name the next cluster, unless they are 0 or from 0x0FFFFFF7 on, or the device fails |
| Fat.NextSectorInClusterChain | FAT32/src/fat_utils.c:37-89 | the first sector of the next cluster, 0 at the end of the chain, or a failure |
| Fat.BaseIsAligned | FAT32/src/fat_operations.c:304 | for power-of-two clusters the assert accepts the start of a cluster exactly when the data region starts aligned |
| Fat.StartsPastTheEnd | FAT32/src/fat_operations.c:319-333 | an offset exactly at the end of the chain stops, one beyond fails with an invalid cluster |
| Fat.FileIsInTheVolume | FAT32/src/fat_utils.c:37-89 | a file whose chain ends has at most as many clusters as the volume |
| Fat.DeliversUpToTheEnd | FAT32/src/fat_operations.c:339-385 | the sectors read are the request, cut at the end of the chain |
| Fat.DeliversWhenNothingFails | FAT32/src/fat_operations.c:339-385 | a read inside the file is delivered when the device does not fail |
| Fat.FailureExcludesDelivery | FAT32/src/fat_operations.c:339-385 | a read that fails at some transfer delivers nothing, so the outcome is determined |
| Fat.TransfersAddUp | FAT32/src/fat_operations.c:361-384 | each transfer moves at most a cluster, and together they move the request and no more |
| Fat.FailsExactly | FAT32/src/fat_operations.c:341-376 | a read fails at a transfer exactly when the device fails on just that many bytes, or the lookup of the next cluster does, with their status |
| Fat.TransfersFollowTheFile | FAT32/src/fat_operations.c:335-385 | the transfers of a read from the middle of a cluster follow the file's chain, each after the first from the start of its cluster |
| Fat.ReadsTheFile | FAT32/src/fat_operations.c:335-385 | the bytes read are those of the flattened file from the offset on exactly under the stated alignment condition |
| Fat.ReadThatIsNotTheFile | FAT32/src/fat_operations.c:335-385 | witness: a volume that is mounted, a file and a read that succeeds with a byte that is not the file's |
| Fat.AlignedReadIsTheFile | FAT32/src/fat_operations.c:319-385 | from a whole number of clusters, or within one, exactly min(request, length - offset) sectors of the file are read |
| Fat.FatReadFile | FAT32/src/fat_operations.c:277-388 | outcome, count and every byte of the buffer, from any base sector and on any chain, also a cyclic one |
| Fat.EveryOffsetOfAFile | FAT32/src/fat_operations.c:319-333 | on a chain that ends the counter of the skip loop does not wrap before the loop is left, for any offset |
| Fat.ReadClusters | FAT32/src/fat_operations.c:339-385 | the second loop: transfers up to the end of chain or request, or the first failure |
| PrdTable.EntriesForPair | Ata/src/ata_operations.c:392-417 | a valid pair becomes one entry, or two cut at the 64 KiB boundary |
| PrdTable.PairTransfers | Ata/src/ata_operations.c:392-417 | the entries of one pair transfer its bytes exactly when it is non-empty and ends below 4 GiB |
| PrdTable.TableTransfersTheList | Ata/src/ata_operations.c:378-423 | the controller meets a flagged entry and transfers exactly the first bytes of the scatter list if and only if every clipped pair is non-empty and ends below 4 GiB |
| PrdTable.ValidationIsNotEnough | Ata/src/ata_operations.c:386-390 | witnesses: valid lists whose table does not transfer them, one above 4 GiB and one with an empty pair |
| PrdTable.EntriesAreWellFormed | Ata/src/ata_operations.c:400-412 | no entry is empty, misaligned or crosses 64 KiB exactly when no pair is empty |
| PrdTable.NoEntryIsLast | Ata/src/ata_operations.c:400-417 | before the end no entry is flagged as last, and there are at most two entries a pair |
| PrdTable.MarksTheLast | Ata/src/ata_operations.c:423 | exactly the last entry is flagged; addresses and counts stay |
| PrdTable.ClipTakesThePrefix | Ata/src/ata_operations.c:392-415 | the clipped pairs are the first bytes of the scatter list |
| PrdTable.WholeListIsUsed | Ata/src/ata_operations.c:392-415 | a list no longer than the transfer is used as it is |
| PrdTable.FirstInvalidIsFirst | Ata/src/ata_operations.c:386-390 | the status is that of the first invalid pair |
| PrdTable.ValidateExactly | Ata/src/ata_operations.c:476-504 | which pairs are refused, with which status, in the order of the tests |
| PrdTable.OnOnePageExactly | Ata/src/ata_operations.c:364-376 | a table that starts on a page lies on one page if and only if it is for at most 256 pairs |
| PrdTable.SeparatePagesAreStopped | Ata/src/ata_operations.c:364-376 | witness: 257 valid, describable pairs of the right length, for which the assert fires wherever the table is |
| PrdTable.PrepareDmaTransfer | Ata/src/ata_operations.c:364-423 | stops exactly for an empty transfer or list, more than 256 pairs, or a valid list that is too short; else the array holds the table with exactly its last entry flagged, or the status is that of the first invalid pair |
| Mdl.PairsAreTheBuffer | HAL9000/src/mdl.c:71-152 | the pairs, taken one after the other, are the physical bytes behind the buffer in order |
| Mdl.RunsOfPages | HAL9000/src/mdl.c:71-97 | no pair is empty or wraps, each page that does not follow the one before it starts a pair and no other does, and all pairs but the last end before the last page |
| Mdl.BufferStopsExactly | Ata/src/ata_operations.c:359-420 | for a buffer the transfer stops exactly when its pages have 256 breaks or more; its list is never too short |
| Mdl.BufferIsTransferred | Ata/src/ata_operations.c:349-423 | for a buffer whose pairs are valid the controller transfers exactly its physical bytes, in order, if and only if they all lie below 4 GiB |
| Mdl.ContiguousBufferIsRefused | Ata/src/ata_operations.c:493-496 | an aligned contiguous buffer below 4 GiB is valid if and only if its pages end less than 64 KiB behind its start |
| Mdl.WalksAllPagesExactly | HAL9000/src/mdl.c:44-77 | the loops reach every page of the buffer if and only if its end, rounded up to a page, fits in a DWORD |
| Mdl.MdlAllocateEx | HAL9000/src/mdl.c:71-156 | the counting loop and the filling loop agree, and the array holds the pairs |
| StrUtils.Swap | CommonLib/src/strutils.c:6-14 | exchanges two different bytes; one byte with itself becomes 0 |
| StrUtils.ReversePrefix | CommonLib/src/strutils.c:113-117 | the text is reversed in place, never swapping a byte with itself |
| StrUtils.Itoa | CommonLib/src/strutils.c:17-118 | the buffer holds the printed number and its terminator, and is otherwise unchanged, in every base; base 0 stops |
| StrUtils.Atoi | CommonLib/src/strutils.c:121-193 | the parsed number, or stopped at a character that is no digit of the base |
| StrUtils.AtoiUndoesItoa | CommonLib/src/strutils.c:36-192 | parsing what was printed gives the value back, for all 32- and 64-bit values, signed or not, in every base from 2 to 36 |
| StrUtils.RoundTripExactly | CommonLib/src/strutils.c:36-192 | parsing what was printed gives every value back if and only if the base is at most 36 |
| StrUtils.DigitLoopEndsExactly | CommonLib/src/strutils.c:85-102 | dividing by the base reaches 0 if and only if the value is 0 or the base is not 1 |
| StrUtils.ParsedIgnoresCase | CommonLib/src/strutils.c:155-171 | texts that differ only in the case of letters are read alike, in every base |
| StrUtils.DigitsInNumbers | CommonLib/src/strutils.c:153-173 | which printable characters are digits, and their values |
| StrUtils.NothingParsed | CommonLib/src/strutils.c:136-149 | base 0 stops; the empty text and a lone minus sign are 0 |
| StrUtils.PrintsTheNumber | CommonLib/src/strutils.c:36-73 | the printed text denotes the number exactly when it is not the least signed 32-bit number |
| StrUtils.CanonicalIsPrinted | CommonLib/src/strutils.c:77-117 | every numeral without a leading zero is the one printed for its value |
| StrUtils.NoLeadingZero | CommonLib/src/strutils.c:85-102 | no printed positive number starts with a zero |
| StrUtils.PrintedCharacters | CommonLib/src/strutils.c:85-108 | a minus sign in front of negative numbers, and otherwise digits and capital letters only |
| StrUtils.PrintedLength | CommonLib/src/strutils.c:85-111 | how many bytes a printed number takes |
| Format.Vsnprintf | CommonLib/src/string.c:392-572 | the outcome; on success the buffer is the rendering and a terminator, shorter than buffSize; otherwise nothing is written from buffSize on before the outcome is reached |
| Format.SucceedsExactly | CommonLib/src/string.c:429-571 | where no check wraps it succeeds exactly when every conversion is sound and the demand fits, returns the number of conversions, and never overruns |
| Format.FirstFailureDecides | CommonLib/src/string.c:429-557 | the first piece that cannot be written decides the status: a parse error, a stop or too small a buffer |
| Format.OverrunsExactly | CommonLib/src/string.c:516-532 | at some offset a conversion passes both checks and does not fit, exactly when one of the two sums can wrap and something is written |
| Format.DemandIsTheLength | CommonLib/src/string.c:519-544 | what is written is never longer than the demand, and as long when %S cuts nothing off |
| Format.DemandIsTheLengthExactly | CommonLib/src/string.c:515-544 | the demand is the length of the rendering if and only if each text that %S cuts is no longer than what is rendered from it on |
| Format.CutTextNeedsItsWholeLength | CommonLib/src/string.c:519-525 | a cut text is refused for want of room that it would not use exactly when there is room for what is shown but not for all of it |
| Format.LiteralsRenderThemselves | CommonLib/src/string.c:552-565 | a format without conversions is its own rendering |
| Format.NumbersMean | CommonLib/src/string.c:456-500 | b, u, d, x and their capitals print texts that denote the unsigned or signed 32- or 64-bit number in base 2, 10, 10 and 16, but for the least signed 32-bit number |
| Format.TextsMean | CommonLib/src/string.c:506-544 | with any width s shows the whole string and S no more of it than the width, both padded on the left |
| Format.CharactersMean | CommonLib/src/string.c:501-505 | c shows the character |
| Format.NullStringStops | CommonLib/src/string.c:506-514 | a NULL string stops in the assert on its length, for s and S and any width |
| Format.OtherLettersFail | CommonLib/src/string.c:511-514 | after a width any other letter, or the end of the format, is a parse error |
| Format.PaddedNumberParsesBack | CommonLib/src/string.c:527-544 | a number printed into a field is read back by atoi exactly when nothing is added, or zeros in front of a number without a sign |
| Format.ReadWidth | CommonLib/src/string.c:433-455 | the decimal width in a DWORD, and the fill character |
| Format.ConvertArgument | CommonLib/src/string.c:458-514 | the text of the argument, inside the 65 bytes of the temporary buffer |
| Format.PutConversion | CommonLib/src/string.c:516-544 | asserted, refused or overrun exactly as the checks in DWORDs say; else the padded text stands at the offset |
| Format.ConvertPiece | CommonLib/src/string.c:431-550 | one conversion advances format, arguments and output by one piece |
| Format.Strlen | CommonLib/src/string.c:330-349 | the length of the text |
| Format.Strncpy | CommonLib/src/string.c:306-326 | a prefix of the text and a terminator, nothing else |
| Partitions.LinkIsTheFirstExtended | Disk/src/disk.c:403-449 | a boot record leads on by its first extended entry, and nothing counts behind it |
| Partitions.PartitionsAreReached | Disk/src/disk.c:403-469 | the partitions of a record are its valid, not extended entries before a terminator or a link |
| Partitions.RolesInNumbers | Disk/src/disk.c:402-430 | which entries end a record, are passed over, lead on or are partitions, and how many a record has |
| Partitions.LinksAreRelativeToTheFirst | Disk/src/disk.c:435-441 | every link is counted from the first extended partition, which the master boot record names |
| Partitions.LinkIsFollowed | Disk/src/disk.c:427-441 | an extended entry that is reached leads to the record at its address, counted from the first extended partition |
| Partitions.NoLinkEnds | Disk/src/disk.c:402-441 | a record in which none is reached is the last |
| Partitions.WalkEndsExactly | Disk/src/disk.c:441 | the walk is finite exactly when no boot record is reached twice |
| Partitions.StopsExactly | Disk/src/disk.c:360-441 | the ASSERT on the LBA fires exactly when the first extended entry that is reached in the master boot record starts at LBA 0 |
| Partitions.SlotsOfLevel | Disk/src/disk.c:455-468 | each boot record fills the slots behind those of the records before it, in its own order |
| Partitions.AllSlots | Disk/src/disk.c:468-474 | the slots of all records are all slots |
| Partitions.ErrorInNumbers | Disk/src/disk.c:360-400 | when a record is not looked at, and why: its arguments, the device, or its signature |
| Partitions.EntryHasItsSlot | Disk/src/disk.c:451-468 | each partition of each record has the slot behind those before it, which holds its boot flag, its offset counted from its own record, its size and its type |
| Partitions.SlotHasItsEntry | Disk/src/disk.c:451-468 | every slot is that of a partition of a record on the chain |
| Partitions.LastRecordDecides | Disk/src/disk.c:388-400 | the status is decided by the last record: its arguments, whether it can be read, and its signature |
| Partitions.RoomForAllExactly | Disk/src/disk.c:303-307 | the allocated structure has room for the counted partitions exactly when there are none or its size fits in a DWORD |
| Partitions.RetrieveStartingAtOffset | Disk/src/disk.c:333-486 | status and count, and with a layout exactly the found partitions in the slots from the old count to the new |
| Partitions.DiskObject.RetrievePartitionsFromDisk | Disk/src/disk.c:269-331 | both passes agree: on success the layout holds every partition once and its length is the count; on failure nothing changes; it overruns the structure exactly when its size does not fit in a DWORD |

## Left out

- Devices and heap calls of the drivers: a device is a content function with a fault predicate, and an allocation of scratch memory does not fail.
- Mdl.MdlAllocateEx: requires pages that are mapped, and takes their physical addresses as given.
- Logging, NULL-parameter checks, magic numbers, and the patterns written over new or freed memory.
- The plain spinlock, events, monitor locks and reference counts: easier than the reader/writer locks.
- RwSpinlock: interrupt disabling of the plain lock; it is modelled in RecRwSpinlock.
- RecRwSpinlock: callers that break the annotations of the header (a shared acquire while holding the lock). A CPU may change its interrupt flag while it holds nothing or the lock, and not in the middle of an acquire or release.
- Heap.HeapHeader.WalkGaps: the intrusive list appears as a sequence and a pointer as a position, so the relinking of Flink and Blink is shown in RingList and not again here; requires that the cursor is in the list, as the lemmas about the cursor explain.
- Heap.AllocateIsSound: requires that size + 36 fits in a DWORD, beyond which ConservationNeedsDword shows the accounting to break.
- Heap.AllocateIsSound: promises an aligned address only for alignments that are powers of two; AlignsExactly shows that no other alignment can be promised.
- Heap.HeapHeader.ClHeapInit: requires memory that ends below 2^64 and is shorter than 2^63 bytes, as any address range; a masked address does not wrap in the model.
- RingList: ForEachElementExecute runs a caller's function over a list and returns its status.
- HashTable.Table.Insert: requires an element that is not linked; InsertAgain has the one that is linked in this table.
- HashTable: clearing and the iterator rest on list iterators that are not part of this model; the five-argument list search is modelled by the contract that its caller relies on, and hash functions by any function into the buckets.
- HashTable.HashesIntoBuckets: requires keys of at most 8 bytes; the functions copy longer ones past an 8-byte variable.
- FirstFitBitmap.Bitmap.SetBitsValue: what is written outside the bitmap in the outcome Overrun is not modelled.
- FirstFitBitmap: BitmapScan, BitmapScanFrom and their flipping forms only fix the window of the modelled ones.
- Fat.FatReadFile: requires, for an offset in the last cluster below 2^64 sectors, that the chain fails before it; there the skip loop's counter wraps and on a cyclic chain the loop does not end. EveryOffsetOfAFile shows that a chain that ends meets this.
- Fat.BaseIsAligned: requires a power of two of sectors in a cluster, as FAT prescribes; FatReadFile itself has the mask of the assert for every number.
- Fat: directories, names, dates and cluster allocation.
- PrdTable.PrepareDmaTransfer: requires fewer than 2^28 pairs, by FewPairs far more than any transfer has.
- PrdTable: the check that the table itself lies below 4 GiB, and the DMA registers.
- StrUtils.Itoa: requires that base 1 is used for zero only, where by DigitLoopEndsExactly alone its loop ends.
- Format.Vsnprintf: requires arguments of the kinds the format names, and strings shorter than 2^32, on which the DWORD counter of strlen ends; what an Overrun writes behind the buffer is not modelled, nor the meaning of the count as a status code.
- Partitions.RetrieveStartingAtOffset: requires a chain that ends, by WalkEndsExactly the acyclic ones, and fewer than 2^32 partitions.
- Partitions.DiskObject.RetrievePartitionsFromDisk: what is written past a structure whose size wrapped is not modelled.
- Scheduler, virtual memory, ACPI, network, and hardware access.
