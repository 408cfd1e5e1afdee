# Verified models of the sqk runtime core

A Dafny 4.11 project about the four components that carry the most state in sqk: the TLSF
heap, the multi-producer ring, the coroutine scheduler and the slab cache behind coroutine
frames. `dafny verify dfyconfig.toml` checks all of it.

| part | files | main results |
|---|---|---|
| TLSF heap | `TlsfMapping`, `TlsfBits`, `TlsfHeap`, `TlsfRequests`, `TlsfTheorems`, `TlsfIndex`, `TlsfHeaders`, `TlsfSteps`, `TlsfPool`, `TlsfMetadata` | the imperative `Pool` refines an abstract heap word by word; every run keeps the heap invariant; good fit is exact; what malloc and realloc give is measured in bytes of the request; malloc then free restores every word of bookkeeping |
| ring | `RingSide`, `RingQueue`, `RingMask`, `Ring32`, `RingBoundary`, `RingCopy`, `RingSize`, `RingBuffer` | under every interleaving and every mode combination the ring refines a bounded FIFO; the 32-bit ring keeps the queue order iff no loaded head grows 2^32 positions old, and its 0 results are truthful iff none grows 2^32 - capacity old; unrolled copies are modular copies |
| scheduler | `Coroutines`, `CoroutineSafety`, `CoroutineTheorems`, `CoroutineEffects`, `CoroutineRuns`, `Scheduler` | every completed frame dies exactly once, a result reaches its parent exactly once and intact iff it is not a value of a child that finished during await_transform, a parent waits for a child that suspends, every result is the one its task finished with, no wake is lost, the run queue is exact and fair, and the invariant survives a step iff the ring does not overflow |
| slab cache | `Slab` | every block is live or in exactly one cache, requests fit whichever thread freed the block, and the exact condition under which larger requests do not |

`Arithmetic` holds powers of two and remainders, `Sequences` sequences without repetitions.

## How the model is built

**TLSF.** Addresses and sizes count 16-byte granules from the start of the pool. A header is one
granule (low word `prev_hdr`, high word the size with its flag bits); the list links of a free
block overlay the first granule of its payload. Constants are the 64-bit ones: header 16, minimum
payload 16, `sizeof(bhdr_t)` 32, control structure 6264 bytes rounded up to 392 granules.
`TlsfHeap` is the abstract heap (blocks tiling the area, and the free lists in order);
`TlsfIndex` and `TlsfHeaders` say how chains, list heads, both bitmap levels and headers
represent it; `TlsfPool.Pool` performs the source's stores one by one on a memory field that is
reassigned at each store, and every method ends in a state that represents the heap the abstract
operation gives. The 256-entry table is written as the floor of log2. The pool is a multiple of
16 bytes and at most 2^30 bytes; the rounded request is at most 2^30 - 2^24 (`BeyondMatrix`:
among requests up to 2^32 - 2^26, exactly those map to a row that exists; above that the 32-bit
parameter of `ms_bit` truncates the sum). `free_ex` is given a precondition weaker than the pool
invariant because `process_area` sets PREV_FREE on the sentinel before the block in front of it
is free.

**Ring.** One side of the ring is a state machine whose steps are the single loads, the
compare-and-swap, the copy of one element and the tail store, for any number of threads and for
the modes MT, ST and HTS; interleaving is sequentially consistent. `RingQueue` joins a producer
side and a consumer side over the slots, with positions counted without wrap-around, and `Ring32`
is the same machine with 32-bit counters and `& mask`, related to it step by step. `RingCopy` has
the unrolled loops on arrays, and `RingBuffer.Buffer` is `enqueue`/`dequeue` as one thread at a
time runs them. `of` computes a rounded `count` but passes the raw `cnt` to `init`;
`SlotsApartIff` shows that the slots of live positions are distinct exactly when `cnt` is a power
of two. Both machines record the age of a loaded head, the sequence put in (`history`) and the
sequence returned (`delivered`); a run of the 32-bit ring carries a bound on the ages. From an
age of 2^32 - capacity on a call may return 0 because its computed count is 2^32 too small, which
the unbounded ring shows as `GiveUp`. The comment at `src/common/include/ring.hpp:267-272` that
the free count never exceeds the capacity does not hold for a stale head; `SwapExact` shows that
the swap then fails.

**Scheduler.** Frames, a stack of nested resumes, the run queue and the awakers, single-threaded.
`deliveries` and `destroys` are counters, so that "exactly once" is a theorem and not a typing
accident. `await_resume` copies an exception out of the child's promise but returns a value by
reference, and `Read` says what the parent gets from it, so that a reference into a frame already
destroyed is told apart from a result. The program's side of the contract is in `Enabled`: a task
is awaited or submitted once, an awaker has one waiter and is woken at most once per suspension.
`Scheduler.SQKScheduler` makes the same steps as field updates of an object whose run queue is
the `RingBuffer.Buffer`.

**Slab.** Blocks are named by the address `operator new` returned; what `operator new` returns is
a parameter that must not overlap memory already handed out. Operations of different threads
touch different caches, so a run is any interleaving of whole operations.

Every invariant is inhabited, and each part proves it of its starting state:
`InitMemoryPool` for the heap, `InitialInv` for the ring, `Start` for the scheduler, `Empty` for
the slab cache.

## Results that go against the source

- A value of a task that completes during `await_transform` is returned as a reference into the
  frame that `await_resume` has just destroyed. What a parent receives is intact iff the result
  is not of that kind (`IntactIff`), and `SynchronousValueDangles` is a run that ends so. Deferred
  values and all exceptions arrive.
- `SQKScheduler::enqueue` ignores a full ring: the handle is lost (`OverflowLoses`), for every
  capacity a run does it (`OverflowReached`), and the scheduler's invariant survives a step iff
  that does not happen (`StepInvIff`).
- `size2ind` truncates to 32 bits: a request of 2^35 + 8 bytes can be given an eight-byte cached
  block (`TruncatedIndexMisfits`). `ExactFitsIff` is the exact condition in terms of the size and
  of the one stack the index names; `AllocFitsIff` extends it to pools that have served such
  requests, where the size of the block on top matters too.
- `Ring::of` accepts a count of 2^31 or more, for which the rounded size wraps to 0 (`CheckSize`),
  and counts that are no power of two, for which slots collide (`SlotsApartIff`, `TenCollides`)
  and the element enqueued first is not the one dequeued first (`FifoIffPowerOfTwo`). A count of 0
  is among them: mask and capacity become 2^32 - 1 while every element goes to slot 0.
- The order of the queue is kept exactly as long as no producer sleeps on a loaded head while 2^32
  positions pass (`OrderKeptIff`): at that age a swap into a full ring succeeds and the oldest
  unread element is overwritten (`StaleHeadBreaksFifo`). A returned 0 is truthful exactly as long
  as fewer than 2^32 - capacity pass (`ZeroTruthfulIff`): at that age an empty ring is found full.

## Model

| member | source | states |
|---|---|---|
| `TlsfMapping.MsBitBounds` | src/common/tlsf/tlsf.c:297-304 | the byte-wise table lookup gives the position of the highest set bit: 2^k <= x < 2^(k+1) |
| `TlsfMapping.ClassSandwich` | src/common/tlsf/tlsf.c:336-346 | MAPPING_INSERT stays inside the matrix and a size lies between the lower bound of its class and that of the next |
| `TlsfMapping.ClassGalois` | src/common/tlsf/tlsf.c:336-346 | a size's class is at or above c iff the size is at or above the lower bound of c |
| `TlsfMapping.SearchRounds` | src/common/tlsf/tlsf.c:316-334 | MAPPING_SEARCH rounds to the least class bound not below the request, keeps multiples of 16, and wastes at most (r - 32)/32 |
| `TlsfMapping.SearchUnique` | src/common/tlsf/tlsf.c:316-334 | that class is the only one with this property |
| `TlsfMapping.SearchInMatrix` | src/common/tlsf/tlsf.c:316-334 | the searched row and column exist for every request up to 2^30 - 2^24 |
| `TlsfMapping.BeyondMatrix` | src/common/tlsf/tlsf.c:316-334 | among requests up to 2^32 - 2^26, the row exists iff the request is at most 2^30 - 2^24 |
| `TlsfMapping.GoodFit` | src/common/tlsf/tlsf.c:316-365 | a free block's class is searched iff the block is at least the rounded request |
| `TlsfMapping.SearchIdempotent` | src/common/tlsf/tlsf.c:316-334 | a second MAPPING_SEARCH on the rounded size is the identity |
| `TlsfBits.LsBitLowest` | src/common/tlsf/tlsf.c:288-295 | ls_bit is the lowest set bit, and -1 exactly for 0 |
| `TlsfBits.SetBitBit` | src/common/tlsf/tlsf.c:306-309 | set_bit changes one bit and no other |
| `TlsfBits.ClearBitBit` | src/common/tlsf/tlsf.c:311-314 | clear_bit changes one bit and no other |
| `TlsfBits.FromBit` | src/common/tlsf/tlsf.c:351-351 | masking with ~0 << k keeps exactly the bits from k on |
| `TlsfBits.SameBits` | src/common/tlsf/tlsf.c:235-240 | a bitmap word is determined by its 32 bits |
| `TlsfHeap.ChosenFits` | src/common/tlsf/tlsf.c:702-738 | no block is chosen iff no free block reaches the rounded request; otherwise the head of the least non-empty class at or above it |
| `TlsfHeap.MallocCorrect` | src/common/tlsf/tlsf.c:702-761 | the heap stays well formed; NULL iff nothing fits, changing nothing; else one new live block of the rounded size or one granule more |
| `TlsfRequests.RoundedLeast` | src/common/tlsf/tlsf.c:710-710 | a request is rounded to the least multiple of 16 that is at least 16 and at least the request |
| `TlsfRequests.MallocServes` | src/common/tlsf/tlsf.c:702-761 | in bytes of the request, for u that multiple and w the least class bound at or above it: NULL iff every free block is smaller than w; else the front of the first block of the least list that holds w bytes, of w to w + 16 bytes, and at most (u - 32)/32 + 16 more than u |
| `TlsfHeap.ReleaseCorrect` | src/common/tlsf/tlsf.c:764-800 | free_ex with any combination of free neighbours keeps the heap well formed and removes exactly that live block |
| `TlsfHeap.ResizeInPlace` | src/common/tlsf/tlsf.c:827-874 | in-place shrink and grow keep the heap well formed; a shrink that absorbed a free successor ends with exactly the requested size |
| `TlsfHeap.MoveCorrect` | src/common/tlsf/tlsf.c:876-885 | the move path fails iff no free block reaches the rounded request, and then changes nothing; else the old block is replaced by another |
| `TlsfHeap.ResizeCorrect` | src/common/tlsf/tlsf.c:803-886 | success replaces one live block and no other, failure changes nothing, shrinking never moves, and the exact failure condition |
| `TlsfRequests.ReallocServes` | src/common/tlsf/tlsf.c:803-886 | in bytes, for every pointer and size: in place iff the block, or it and a free successor, hold u bytes; else moved, and NULL iff no free block has w bytes; at least the request on success; and the null and zero cases |
| `TlsfRequests.ReallocHolds` | src/common/tlsf/tlsf.c:803-886 | what realloc returns for a non-zero size is a live block of at least that size |
| `TlsfHeap.FreeNeighbours` | src/common/tlsf/tlsf.c:781-793 | in a well-formed heap a free block has used blocks on both sides |
| `TlsfTheorems.MergeSplit` | src/common/tlsf/tlsf.c:744-752 | joining a block with the remainder of its split restores the partition |
| `TlsfTheorems.ReleaseTrimmed` | src/common/tlsf/tlsf.c:764-800 | releasing a block after its tail was split off equals releasing it whole |
| `TlsfTheorems.MallocThenFree` | src/common/tlsf/tlsf.c:738-799 | malloc then free of the result restores partition, flags and list order, split or not |
| `TlsfTheorems.LayoutCanonical` | src/common/tlsf/tlsf.c:764-800 | the physical partition is a function of the live blocks alone, whatever the history |
| `TlsfTheorems.WalkTotal` | src/common/tlsf/tlsf.c:441-453 | walking GET_NEXT_BLOCK visits every block and headers plus payloads sum to the area |
| `TlsfTheorems.QuiescentHeap` | src/common/tlsf/tlsf.c:781-793 | with nothing live the area is one free block of the initial size |
| `TlsfTheorems.RunWf` | src/common/tlsf/tlsf.c:702-886 | every run of malloc, free and realloc keeps the whole heap invariant |
| `TlsfTheorems.RunSafe` | src/common/tlsf/tlsf.c:702-886 | over every run live payloads are pairwise disjoint and inside the area, and the total size is constant |
| `TlsfTheorems.RunReturns` | src/common/tlsf/tlsf.c:702-886 | a run that ends with the live blocks it began with ends with the same partition |
| `TlsfIndex.FoundInRow` | src/common/tlsf/tlsf.c:349-356 | the first bitmap search finds the least non-empty list of the row from sl on, or there is none |
| `TlsfIndex.FoundAbove` | src/common/tlsf/tlsf.c:357-363 | the second search finds the least non-empty list of the rows above, or there is none |
| `TlsfIndex.InsertOk` | src/common/tlsf/tlsf.c:399-407 | after INSERT_BLOCK chains, heads and both bitmap levels represent the lists with the block at the head |
| `TlsfIndex.ExtractOk` | src/common/tlsf/tlsf.c:382-397 | after EXTRACT_BLOCK, anywhere in a list, they represent the lists without it |
| `TlsfIndex.ExtractHead` | src/common/tlsf/tlsf.c:368-379 | at a list head EXTRACT_BLOCK_HDR equals EXTRACT_BLOCK |
| `TlsfHeaders.WordFields` | src/common/tlsf/tlsf.c:197-207 | size and both flags packed in one word are read back, set and cleared independently |
| `TlsfHeaders.ZoneKeepsLive` | src/common/tlsf/tlsf.c:774-799 | writes to headers and inside one block change no other live payload |
| `TlsfSteps.FreeNextStep` | src/common/tlsf/tlsf.c:782-786 | absorbing a free successor keeps headers and index right and every live payload |
| `TlsfSteps.FreePrevStep` | src/common/tlsf/tlsf.c:787-793 | being absorbed by a free predecessor, likewise |
| `TlsfSteps.FreeFinish` | src/common/tlsf/tlsf.c:794-799 | listing the block and flagging its successor closes the operation |
| `TlsfSteps.SplitSequence` | src/common/tlsf/tlsf.c:744-752 | the stores of a split, in the source's order, represent the trimmed heap |
| `TlsfPool.Pool.InsertBlock` | src/common/tlsf/tlsf.c:399-407 | the stores of the macro amount to the specified index |
| `TlsfPool.Pool.ExtractBlock` | src/common/tlsf/tlsf.c:382-397 | likewise |
| `TlsfPool.Pool.ExtractBlockHdr` | src/common/tlsf/tlsf.c:368-379 | likewise |
| `TlsfPool.Pool.FindSuitableBlock` | src/common/tlsf/tlsf.c:349-365 | the head of the first non-empty list at or above the class, or null iff there is none |
| `TlsfPool.Pool.MallocEx` | src/common/tlsf/tlsf.c:702-761 | the pool represents what malloc specifies, the block meets the request in bytes, no live payload changes, and failure changes no word |
| `TlsfPool.Pool.FreeEx` | src/common/tlsf/tlsf.c:764-800 | the pool represents what free specifies and no other live payload changes |
| `TlsfPool.Pool.ShrinkInPlace` | src/common/tlsf/tlsf.c:827-850 | the shrink path represents absorb-then-trim and keeps the kept part of the payload |
| `TlsfPool.Pool.GrowInPlace` | src/common/tlsf/tlsf.c:851-874 | the grow path represents absorb-then-trim and keeps the old payload |
| `TlsfPool.Pool.CopyGranules` | src/common/tlsf/tlsf.c:882-882 | the copy moves exactly the range and touches nothing else |
| `TlsfPool.Pool.MoveBlock` | src/common/tlsf/tlsf.c:876-885 | the move path keeps the old contents in the new block and all other payloads |
| `TlsfPool.Pool.ReallocEx` | src/common/tlsf/tlsf.c:803-886 | the block meets the request in bytes; on every path the first min(old, new) granules survive, other live payloads are unchanged, and failure changes no word |
| `TlsfPool.Pool.ProcessArea` | src/common/tlsf/tlsf.c:435-454 | descriptor, one block with all the rest, and a sentinel |
| `TlsfPool.Pool.InitMemoryPool` | src/common/tlsf/tlsf.c:463-507 | -1 iff the pool is too small, changing nothing; else a valid pool with one free block whose size is returned |
| `TlsfMetadata.MetadataDetermined` | src/common/tlsf/tlsf.c:197-243 | two pools that represent the same heap agree on heads, bitmaps, size words, valid prev_hdr and all links |
| `TlsfMetadata.MallocFree` | src/common/tlsf/tlsf.c:702-800 | malloc_ex then free_ex brings back every word of bookkeeping and changes no live payload |
| `TlsfMetadata.Perform` | src/common/tlsf/tlsf.c:702-886 | each operation of a run, done by the allocator, gives the next heap of the run and touches no other payload |
| `TlsfMetadata.PerformAll` | src/common/tlsf/tlsf.c:702-886 | a whole run done by the allocator, operation by operation |
| `RingSide.SideStep` | src/common/include/ring.hpp:234-399 | every step of every thread in every mode keeps reservations ordered, disjoint and inside the limit |
| `RingSide.PublisherIsOldest` | src/common/include/ring.hpp:540-562 | only the owner of the oldest reserved position can store the tail |
| `RingSide.OwnersDisjoint` | src/common/include/ring.hpp:234-303 | two threads never hold a common position |
| `RingSide.SingleInFlight` | src/common/include/ring.hpp:350-399 | in HTS and ST mode at most one thread is between head move and tail store |
| `RingSide.InFlightIff` | src/common/include/ring.hpp:314-320 | head differs from tail iff some thread is in flight |
| `RingSide.SomeoneCanMove` | src/common/include/ring.hpp:540-562 | the wait for the tail cannot deadlock |
| `RingSide.TailWaits` | src/common/include/ring.hpp:540-562 | once the tail reaches a reservation no other thread moves it, so waiting and storing may count as one step |
| `RingSide.StartsFromHead` | src/common/include/ring.hpp:245-301 | a call, and a call whose compare-and-swap was lost, goes on from the current head |
| `RingSide.AttemptSucceeds` | src/common/include/ring.hpp:245-301 | an undisturbed attempt takes n positions, or all there are, or none for a transactional ring, and returns 0 only when it gets none |
| `RingSide.RetrySucceeds` | src/common/include/ring.hpp:287-301 | after a lost compare-and-swap the next attempt succeeds unless the head moves again |
| `RingSide.NobodyStuck` | src/common/include/ring.hpp:234-399 | every thread can take a step, in exactly one way when it decides, or waits for the tail to reach it |
| `RingSide.ZeroIsTruthful` | src/common/include/ring.hpp:260-285 | a returned 0 means that, when the other tail was loaded, nothing (or too little for a transactional call) was left, stale head or not |
| `RingQueue.StepInv` | src/common/include/ring.hpp:870-935 | every step of any producer or consumer, in every mode combination, keeps the ring invariant |
| `RingQueue.RingRefinesFifo` | src/common/include/ring.hpp:870-935 | every step is a step of a bounded FIFO or invisible: elements enter at the tail store and leave at the head move |
| `RingQueue.ReadsPublished` | src/common/include/ring.hpp:630-702 | a consumer reads only slots that hold the published value of its position |
| `RingQueue.ReturnsWhatItTook` | src/common/include/ring.hpp:905-935 | a dequeue returns exactly what its head move took off the front, whatever happens in between |
| `RingQueue.EntersWhatItWasGiven` | src/common/include/ring.hpp:870-901 | what an enqueue puts in at its tail store is the first part of the elements its call began with |
| `RingQueue.RunConserves` | src/common/include/ring.hpp:870-935 | over every run nothing is lost, duplicated or reordered |
| `RingQueue.RunFromEmpty` | src/common/include/ring.hpp:221-227 | from the empty ring, what left plus what is queued is what entered, in order |
| `RingQueue.DeliveredInOrder` | src/common/include/ring.hpp:905-935 | in every reachable state what was returned is an initial part of what was put in |
| `RingQueue.CountersOrdered` | src/common/include/ring.hpp:273-299 | cons.tail <= cons.head <= prod.tail <= prod.head <= cons.tail + capacity |
| `RingQueue.InFlightSlotsApart` | src/common/include/ring.hpp:670-699 | slots being written and slots being read, and those of two writers, are different |
| `RingMask.MaskIsMod` | src/common/include/ring.hpp:221-227 | masking with size - 1 is the remainder for a power of two |
| `RingMask.SlotsApartIff` | src/common/include/ring.hpp:844-862 | for every count, 0 included, positions that can be live together have different slots iff the count is a power of two |
| `RingMask.TenCollides` | src/common/include/ring.hpp:844-862 | with ten slots positions 0 and 2 share slot 0 |
| `Ring32.FreeExact` | src/common/include/ring.hpp:267-273 | up to an age of 2^32 - capacity the wrapped free count is the true one even when a stale head makes it exceed the capacity |
| `Ring32.FreeNearly` | src/common/include/ring.hpp:267-273 | up to an age of 2^32 it is the true one or 2^32 less |
| `Ring32.SwapExact` | src/common/include/ring.hpp:287-301 | up to an age of 2^32 the wrapped comparison succeeds iff the true counters agree, and fails when the free count exceeds the capacity |
| `Ring32.SlotExact` | src/common/include/ring.hpp:401-412 | wrapping at 2^32 and masking give the slot of the true position |
| `Ring32.SideSimulates` | src/common/include/ring.hpp:234-399 | up to an age of 2^32 every 32-bit step of a side is the same step of the unbounded side, or gives up; up to 2^32 - capacity it never gives up |
| `Ring32.ProducerSimulates` | src/common/include/ring.hpp:870-901 | likewise for every producer step, copies and elements included |
| `Ring32.ConsumerSimulates` | src/common/include/ring.hpp:905-935 | likewise for every consumer step |
| `Ring32.RunSimulates` | src/common/include/ring.hpp:870-935 | every run whose loaded heads stay below the age of 2^32 is a run of the unbounded ring up to giving up; below 2^32 - capacity it is that very run |
| `Ring32.Run32FromEmpty` | src/common/include/ring.hpp:870-935 | below the age of 2^32, in every mode combination, what was returned is an initial part of what was put in, and the FIFO accounts for the rest |
| `Ring32.EnqueueZeroTruthful` | src/common/include/ring.hpp:260-285 | below the age of 2^32 - capacity a 0 of the 32-bit enqueue means a full ring, or too little room for a transactional one |
| `Ring32.DequeueZeroTruthful` | src/common/include/ring.hpp:658-683 | and a 0 of dequeue means nothing published and unclaimed, or too little |
| `RingBoundary.FifoIffPowerOfTwo` | src/common/include/ring.hpp:844-935 | for every count from 0 on, with one element per call: the first element enqueued is the first dequeued, however many follow, iff the count is a power of two; otherwise a run returns a later one |
| `RingBoundary.StaleHeadBreaksFifo` | src/common/include/ring.hpp:245-301 | for every power of two size, a run in which a head exactly 2^32 positions old is swapped in and the oldest unread element is overwritten |
| `RingBoundary.OrderKeptIff` | src/common/include/ring.hpp:245-301 | every run with loaded heads younger than a bound keeps the queue order iff the bound is at most 2^32 |
| `RingBoundary.FalseZero` | src/common/include/ring.hpp:260-285 | a run in which enqueue with a head 2^32 - capacity positions old finds the empty ring full |
| `RingBoundary.ZeroTruthfulIff` | src/common/include/ring.hpp:260-285 | every 0 of enqueue in runs with loaded heads younger than a bound is truthful iff the bound is at most 2^32 - capacity |
| `RingCopy.EnqueueElems32` | src/common/include/ring.hpp:401-446 | the eight-fold unrolled copy with fall-through and wrap branch is the modular copy |
| `RingCopy.EnqueueElems128` | src/common/include/ring.hpp:448-472 | likewise, two at a time |
| `RingCopy.EnqueueElems64` | src/common/include/ring.hpp:474-504 | likewise, four at a time |
| `RingCopy.DequeueElems64` | src/common/include/ring.hpp:704-734 | the copy out is the modular read, and the rest of the destination is untouched |
| `RingCopy.DequeueElems128` | src/common/include/ring.hpp:736-759 | likewise |
| `RingCopy.DequeueElems32` | src/common/include/ring.hpp:761-806 | likewise |
| `RingCopy.BranchRightIff` | src/common/include/ring.hpp:410-410 | the 32-bit test for the straight copy is right iff index plus count does not overflow |
| `RingCopy.PlacedModular` | src/common/include/ring.hpp:401-504 | element k lands in slot (idx + k) mod size and no other slot changes |
| `RingCopy.TakenPlaced` | src/common/include/ring.hpp:704-806 | copying out after copying in is the identity for every index and length up to the size |
| `RingCopy.WordsPlaced` | src/common/include/ring.hpp:518-529 | copying scaled words is copying elements |
| `RingCopy.WordsTaken` | src/common/include/ring.hpp:820-831 | reading scaled words is reading elements |
| `RingCopy.EnqueueElements` | src/common/include/ring.hpp:518-529 | the scaled copy places whole elements |
| `RingCopy.DequeueElements` | src/common/include/ring.hpp:820-831 | the scaled read returns whole elements |
| `RingSize.Align32Pow2` | src/common/include/ring.hpp:94-109 | the least power of two at or above x, and 0 when there is none in 32 bits |
| `RingSize.CheckSize` | src/common/include/ring.hpp:844-855 | which counts `of` accepts, and that counts from 2^31 on pass with a rounded size of 0 |
| `RingBuffer.Buffer.MoveProdHead` | src/common/include/ring.hpp:234-303 | reserves n positions, or all that are free, or none for a transactional ring |
| `RingBuffer.Buffer.MoveConsHead` | src/common/include/ring.hpp:630-702 | claims n positions, or all that are filled, or none for a transactional ring |
| `RingBuffer.Buffer.Enqueue` | src/common/include/ring.hpp:870-888 | 0 iff full, changing nothing; else the entry is appended to the contents |
| `RingBuffer.Buffer.Dequeue` | src/common/include/ring.hpp:905-923 | 0 iff empty; else the oldest entry is removed and returned |
| `RingBuffer.WindowPushed` | src/common/include/ring.hpp:870-888 | writing the slot of the next position appends to the window of live positions and disturbs none of it |
| `CoroutineTheorems.StepInv` | src/core/core.hpp:258-308 | every action that does not overflow the ring keeps the lifecycle invariant |
| `CoroutineTheorems.OverflowLoses` | src/core/core.hpp:38-49 | an enqueue into a full ring leaves a runnable frame in no queue |
| `CoroutineTheorems.StepInvIff` | src/core/core.hpp:38-49 | the invariant survives a step iff the step does not overflow the ring |
| `CoroutineTheorems.NeverStuck` | src/core/core.hpp:55-66 | a returning resume can return, an active body can act, an idle scheduler with a non-empty queue can dispatch |
| `CoroutineTheorems.DestroyedIsUnreachable` | src/core/core.hpp:351-384 | a destroyed frame is not queued, active, awaited, held by an awaker or waiting as a caller |
| `CoroutineTheorems.CompletedExactlyOnce` | src/core/core.hpp:293-305 | between dispatches a completed frame was destroyed once and delivered once; by the parent iff it finished during await_transform; and intact iff it was not a value destroyed that way |
| `CoroutineTheorems.NeverTwice` | src/core/core.hpp:351-384 | at no time was a frame destroyed or delivered twice |
| `CoroutineTheorems.WaitEndsWithChild` | src/core/core.hpp:293-305 | a waiting parent is resumed by its child's completion and nothing else, with the child's result |
| `CoroutineEffects.ParentWaits` | src/core/core.hpp:271-281 | when an awaited child suspends on its first run, the parent waits for that child, off the stack, and is its caller |
| `CoroutineEffects.ParentGoesOn` | src/core/core.hpp:271-281 | when it finishes instead, the parent goes on and the child's frame is destroyed |
| `CoroutineEffects.AwaitedIsDelivered` | src/core/core.hpp:267-305 | over every run, an awaited task that has completed by the next return to the run loop was handed to its parent once |
| `CoroutineEffects.ResultEffect` | src/core/core.hpp:310-339 | a task's result is set by its own finish, whoever its caller is, and by nothing else |
| `CoroutineEffects.ResultIsWhatItFinishedWith` | src/core/core.hpp:310-384 | over every run, a task's result is exactly what it finished with, and so is what its parent got unless it was a synchronous value |
| `CoroutineEffects.CallerEffect` | src/core/core.hpp:38-43 | a caller is set at submission and at the suspension of a first run, and at no other time |
| `CoroutineEffects.WakeIsNotLost` | src/core/core.hpp:151-183 | over every run, awaiting a checkable awaker goes on at once iff it was woken since it was made, waited on or not; otherwise the frame suspends and the awaker holds its handle |
| `CoroutineEffects.AwakerEffect` | src/core/core.hpp:93-183 | Wake sets the flag of a checkable awaker and nothing clears it once an await would see it |
| `CoroutineEffects.QueueEffect` | src/core/core.hpp:38-66 | submission, yielding and waking enqueue exactly their handle at the end, dispatch takes the front, nothing else touches the queue |
| `CoroutineEffects.ControlEffect` | src/core/core.hpp:258-305 | which frame is active after each action |
| `CoroutineTheorems.IntactIff` | src/core/core.hpp:351-384 | what the parent got is the result iff it is not a value of a child that finished during await_transform, and a dangling reference otherwise |
| `CoroutineTheorems.HandoverIntactIff` | src/core/core.hpp:351-384 | at the step of the handover: the frame is destroyed iff the parent was not suspended, and the result arrives iff the frame is there or the result was copied |
| `CoroutineRuns.SynchronousValueDangles` | src/core/core.hpp:358-366 | for every value and every ring, a run that leaves the parent with a reference into a destroyed frame |
| `CoroutineRuns.SynchronousExceptionArrives` | src/core/core.hpp:367-373 | for every exception, the run in which an awaited task throws at once ends with its parent holding it |
| `CoroutineRuns.ParentAndChildWait` | src/core/core.hpp:271-281 | a run after which a parent waits for its child and the child for an awaker |
| `CoroutineRuns.EarlyWakeIsSeen` | src/core/core.hpp:151-166 | a run in which a wake before the await lets it go on at once |
| `CoroutineRuns.OverflowReached` | src/core/core.hpp:38-49 | for every capacity, a run whose next submission is lost: runnable and in no queue |
| `CoroutineTheorems.RunInv` | src/core/core.hpp:258-308 | the invariant holds along every run |
| `CoroutineTheorems.RunSafe` | src/core/core.hpp:258-308 | from an empty scheduler no run destroys or delivers twice, none leaves a completed frame behind, and results are intact iff they are not synchronous values |
| `CoroutineTheorems.QueueExact` | src/core/core.hpp:38-66 | the queue holds each runnable handle once and nothing else |
| `CoroutineTheorems.FairQueue` | src/core/core.hpp:55-66 | a handle behind k others has k - d ahead after d dispatches, and the (k+1)-st dispatch makes it the active frame, whatever is enqueued meanwhile |
| `Scheduler.SQKScheduler.Submit` | src/core/core.hpp:38-43 | enqueue, then clear the caller: the specified step on the real ring, and the invariant unless the ring is full |
| `Scheduler.SQKScheduler.RunOnce` | src/core/core.hpp:55-66 | resumes the oldest handle, or does nothing iff the queue is empty; keeps the invariant |
| `Scheduler.SQKScheduler.AwaitTask` | src/core/core.hpp:267-271 | the first resume of an awaited task is the specified step |
| `Scheduler.SQKScheduler.AwaitAwaker` | src/core/core.hpp:151-166 | an awaker already woken does not suspend; otherwise it takes the handle |
| `Scheduler.SQKScheduler.YieldNow` | src/core/core.hpp:202-212 | a yielding frame is enqueued and suspended, and kept iff the ring has room |
| `Scheduler.SQKScheduler.Wake` | src/core/core.hpp:103-160 | a waiting handle is enqueued once, and the flag is set either way: the step whose effect `AwakerEffect` and `QueueEffect` give |
| `Scheduler.SQKScheduler.FinishWith` | src/core/core.hpp:258-305 | the result is stored and then the frame waits for its parent, dies, or hands over and resumes the parent, by its caller |
| `Scheduler.SQKScheduler.ReturnFromResume` | src/core/core.hpp:271-305 | after a nested resume the child is destroyed and its result, a reference if a value, returned to the parent; or the parent suspends on it; or the finished frame dies |
| `Slab.RoundUpMeaning` | src/common/include/allocator.hpp:81-81 | the 64-bit round-up is the least multiple of 8, and 0 for the last seven sizes |
| `Slab.HeaderFitsIff` | src/common/include/allocator.hpp:121-122 | the block obtained has room for its header except for eight sizes below 2^64 |
| `Slab.IndexExact` | src/common/include/allocator.hpp:150-155 | below 2^35 bytes the index is the request's own class |
| `Slab.StepInv` | src/common/include/allocator.hpp:112-141 | every operation of every thread, for every size, keeps ownership and at-least-8c |
| `Slab.StepExact` | src/common/include/allocator.hpp:112-141 | requests below 2^35 bytes keep every class at exactly 8c bytes |
| `Slab.AllocFits` | src/common/include/allocator.hpp:112-129 | after any history a request below 2^35 bytes gets a block not in use and large enough |
| `Slab.AllocFitsIff` | src/common/include/allocator.hpp:112-129 | after any history and for every size, the block is large enough iff rounding does not wrap and the truncated index hits no cached block that is too small |
| `Slab.ExactFitsIff` | src/common/include/allocator.hpp:112-129 | after requests below 2^35 bytes only, iff it hits no cached block at all |
| `Slab.OwnCacheOnly` | src/common/include/allocator.hpp:149-149 | an operation leaves the caches of every other thread alone |
| `Slab.TruncatedIndexMisfits` | src/common/include/allocator.hpp:153-155 | a run after which 2^35 + 8 bytes are answered with an eight-byte block |
| `Slab.OnePlace` | src/common/include/allocator.hpp:131-141 | a block is live iff in no cache, and in at most one place, that of its header |
| `Slab.LiveApart` | src/common/include/allocator.hpp:112-129 | live blocks never share a byte |
| `Slab.FreeThenAlloc` | src/common/include/allocator.hpp:112-141 | freeing and asking for the same class on one thread returns the block and restores the pool |
| `Slab.IndexTruncated` | src/common/include/allocator.hpp:153-155 | the index of every size that does not wrap is its number of eight-byte units modulo 2^32 |
| `Slab.FreshThenReused` | src/common/include/allocator.hpp:112-141 | a block obtained for one size and freed serves the next request with the same index on that thread, truncated or not |
| `Slab.RunInv` | src/common/include/allocator.hpp:112-141 | both invariants over every interleaving of threads |
| `Slab.SlabPoolAllocator.Alloc` | src/common/include/allocator.hpp:112-129 | one step of the specification; the returned block is new to the caller and fits |
| `Slab.SlabPoolAllocator.Dealloc` | src/common/include/allocator.hpp:131-141 | one step of the specification; exactly that block stops being live |

## Left out

- `add_new_area`, the mmap and sbrk growth paths, locks, statistics, debug printers, the already-initialised signature check, the word-alignment check and the thread-local default pool of the TLSF heap.
- `calloc_ex`, which clears the block `malloc_ex` returns, and the allocators that forward to these functions.
- Pools that are not a multiple of 16 bytes, for which `src/common/tlsf/tlsf.c:496` rounds start and length separately; `initialize_tlsf` passes whole megabytes.
- TlsfPool.Pool.ReallocEx: contents are kept in whole granules of 16 bytes, which is what the source's rounded copy size moves; bytes inside a granule are not modelled separately.
- TlsfPool.Pool.CopyGranules: memory is a sequence field reassigned at each store rather than an array, so that a state of the whole pool is one value.
- C++ memory orderings, fences and `volatile` in the ring: steps interleave under sequential consistency.
- The RTS ring mode, whose bodies are empty or assert.
- RingBuffer.Buffer.MoveProdHead: one thread at a time, for which the swap succeeds at once; concurrent use is the subject of `RingQueue` and `Ring32`, which work on values and copy one element per step.
- RingBuffer.Buffer.MoveConsHead: one thread at a time, likewise.
- RingBuffer.Buffer.Enqueue: one thread at a time, and an element fills one slot; elements of several words are the subject of `RingCopy.EnqueueElements`.
- RingBuffer.Buffer.Dequeue: one thread at a time, likewise.
- RingCopy.EnqueueElements: index plus count, scaled to words, stays below 2^32; `BranchRightIff` shows that beyond this the source takes the wrong branch.
- RingCopy.DequeueElements: likewise.
- TlsfMapping.BeyondMatrix: requests above 2^32 - 2^26, for which `ms_bit` sees a truncated sum and the shift amount may be negative.
- RingBoundary.OrderKeptIff: the failing runs are those of the MT producer and ST consumer that MpscRing uses; the safe side, `Run32FromEmpty`, is for every mode combination.
- RingBoundary.ZeroTruthfulIff: likewise; the safe sides are `EnqueueZeroTruthful` and `DequeueZeroTruthful`.
- RingSize.CheckSize: what `of` does after accepting a count of 2^31 or more (a buffer of no slots) is not modelled further.
- Scheduler.SQKScheduler.RunOnce: one round of the endless loop, without the `stopped_` test after it.
- Coroutines: publication of a task to another thread before its `caller_` is written, and values carried by awakers are not modelled.
- CoroutineTheorems.WaitEndsWithChild: a program that wakes an awaker twice in one suspension, or awaits one task twice, is outside `Enabled`.
- Slab.StepInv: a request whose byte count wraps to less than a header (`HeaderFitsIff`) is outside `Enabled`, since its header store falls outside the block.
- Slab: the debug-only magic number, array forms that forward to the global operators, and failure of `operator new`.
- `src/net/fabric`, `src/io/blob`, logging, benchmarks and test programs.
