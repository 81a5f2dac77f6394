# ipctools core in Dafny

A model of the shared-memory core of ipctools, a C library that lets
processes share data in one System V shared-memory segment. The modelled
parts are:

- **Self-relative pointers.** Every link inside the segment is stored as
  the distance from the link's own address to its target, so the segment
  can be mapped at any address.
- **The segment allocator.** It keeps a first-fit free list that is ordered
  by address and coalesced on free. It also keeps a registry of named
  objects, which is how a second process finds what the first one created.
- **Structures built on the allocator:**
  - an intrusive doubly linked list;
  - a queue whose readers are woken through a named-pipe "doorbell";
  - the process monitor's table of sixteen heartbeat entries;
  - the logger's category and level masks.
- **The reactor's bookkeeping:** its tables of sixteen handler slots and
  sixteen timer slots.
- **The `timespec` arithmetic** that the reactor's timers use.

Everything is modelled as immutable values and pure functions:

- addresses and offsets are unbounded integers;
- the free list, the live blocks and the registry are sequences of
  records;
- the slot tables are sequences of records indexed from 0;
- each operation is one atomic step, as it is under the library's coarse
  process-shared lock.

Layout constants are those of an LP64 target:

| constant | value |
|---|---|
| word (`ptrdiff_t`) | 8 bytes |
| block header (`struct __node__`) | 24 bytes |
| allocator's bookkeeping area | 96 bytes |
| registry entry | 40 bytes |
| list header | 64 bytes |
| monitor's shared block | 13088 bytes |
| logger's shared block | 40 bytes |

Modules, one file each:

| file | module | C source |
|---|---|---|
| `base.dfy` | `Base` | optional values, bounded copies, first-index search |
| `offset_ptr.dfy` | `OffsetPtr` | `src/offset_ptr.h` |
| `time.dfy` | `Time` | `src/support.c` (time functions) |
| `spans.dfy` | `Spans` | free-list insertion and coalescing of `private_free` |
| `segment.dfy` | `Segment` | `src/allocator_shm.c`: state, `private_malloc`, `private_free` |
| `registry.dfy` | `Registry` | `src/allocator_shm.c`: `register_object`, `find_registered_object`, `deregister_object` |
| `shared_list.dfy` | `SharedList` | `src/shared_in_list.c` |
| `shared_queue.dfy` | `SharedQueue` | `src/shared_queue.c` |
| `reactor.dfy` | `Reactor` | `src/reactor.c` (slot tables, timers) |
| `process_monitor.dfy` | `ProcessMonitor` | `src/process_monitor.c` |
| `logger.dfy` | `Logger` | `src/logger.c` |

The environment appears as inputs:

- the clock reading and the caller's pid;
- whether a pipe `open`, `write` or `read` succeeds;
- whether the pipe becomes readable in time;
- the result of installing a signal action;
- the descriptor each handler reports.

The named pipes are a set of paths, and the bytes waiting in the doorbell
pipe are a counter.

Where the code and its documented intent disagree, the model has both
halves:

- an `...AsWritten` member that follows the code;
- a corrected member with the intended property proved about it.

The rest of the model uses the corrected member. See "## Findings".

## Model

| member | source | states |
|---|---|---|
| Base.Truncate | src/logger.c:176-190 | a bounded copy keeps the first `n` characters, or the whole string when it is shorter, and the result is a prefix of the input |
| Base.Suffixed | src/shared_queue.c:280 | a suffixed name is the name followed by the suffix, as the queue's `.sl` list name here and the logger's `.sq` queue name at `src/logger.c:305` are built |
| Base.SuffixedDistinct | src/shared_queue.c:280 | a name with a non-empty suffix differs from the name, and distinct names keep distinct suffixed names |
| Base.FirstIndex | src/process_monitor.c:110-125 | the slot tables are searched lowest index first: the result is the first slot that matches, and no slot matches when there is none |
| OffsetPtr.Drf | src/offset_ptr.h:33-37 | the address a link resolves to is the one target whose link, stored at that field, holds that offset |
| OffsetPtr.AddOffset | src/offset_ptr.h:45-49 | adding an offset is undone by subtracting it |
| OffsetPtr.AddSubInverse | src/offset_ptr.h:45-55 | `ipt_add_offset` and `ipt_sub_offset` are inverses in both orders |
| OffsetPtr.SetThenDrf | src/offset_ptr.h:27-37 | a link resolves to the target it was set to |
| OffsetPtr.DrfTranslates | src/offset_ptr.h:27-37 | when the segment is copied `d` bytes further on, a link read at its new place resolves to its target moved by `d` |
| OffsetPtr.SetDependsOnDistance | src/offset_ptr.h:27-43 | the stored offset depends only on the distance between link and target, and `ipt_op_offset` returns it unchanged |
| OffsetPtr.NullTestRelocates | src/allocator_shm.c:158-172 | a link compares equal to the segment's null sentinel after relocation exactly when its target was the sentinel |
| Time.CQuot | src/support.c:105-112 | C's truncating division: with the C remainder it rebuilds the dividend, and it agrees with floor division on non-negative operands |
| Time.CRem | src/support.c:105-112 | C's remainder takes the sign of the dividend and is smaller than the divisor in magnitude |
| Time.Compare | src/support.c:57-72 | the result is -1, 0 or 1; it is 0 exactly for equal times and -1 exactly when the first time is lexicographically before the second |
| Time.CompareOrder | src/support.c:57-72 | the comparison is antisymmetric and transitive |
| Time.CompareIsNanos | src/support.c:57-72 | on normalised times the comparison orders the instants the times denote |
| Time.Max | src/support.c:74-78 | the maximum is one of the arguments and is not before either |
| Time.Min | src/support.c:80-84 | the minimum is one of the arguments and is not after either |
| Time.MinMax | src/support.c:74-84 | the minimum is not after the maximum, and together they are the two arguments |
| Time.Diff | src/support.c:86-103 | the difference denotes the difference of the instants, and it is normalised when both inputs are |
| Time.DiffSign | src/support.c:86-103 | on normalised inputs the difference has non-negative seconds exactly when the first time is not before the second, and it is zero exactly when they are equal |
| Time.ToTimespec | src/support.c:105-112 | the conversion keeps the total nanoseconds, normalises any non-negative microsecond count, and changes nothing else for an in-range count |
| Time.NegativeMicrosNotNormal | src/support.c:105-112 | a microsecond count between minus one second and zero gives a time that is not normalised |
| Spans.Below | src/allocator_shm.c:279-287 | the insert position of an address: every span before it starts below the address, and the span at it does not |
| Spans.ScanInsertPoint | src/allocator_shm.c:279-287 | the free-list walk of `private_free` stops at the first span at or above the freed block, which is the block's insert position |
| Spans.InsertSpec | src/allocator_shm.c:288-402 | freeing a block that overlaps no free span keeps the list ordered and coalesced, adds exactly the block's bytes, leaves free exactly the bytes that were free plus the block's, and grows the list by one span less one per neighbour merged |
| Spans.InsertSplice | src/allocator_shm.c:288-402 | freeing replaces the merged neighbours (none, one or both) by one merged span and leaves every other span in place |
| Spans.InsertOrdered | src/allocator_shm.c:288-402 | freeing keeps the free list address-ordered with a gap between any two spans |
| Spans.InsertTotal | src/allocator_shm.c:288-402 | freeing adds exactly the block's size to the free bytes |
| Spans.InsertCovers | src/allocator_shm.c:288-402 | after a free, a byte is free exactly when it was free before or belongs to the block |
| Spans.MergedContains | src/allocator_shm.c:309-313 | the bytes of the merged span are those of the freed block and of the neighbours it merged with |
| Spans.MergedGaps | src/allocator_shm.c:362-389 | the merged span keeps a gap to every span left below and above it |
| Spans.InsertWithin | src/allocator_shm.c:288-402 | freeing never puts a span outside a region that holds the list and the block |
| Spans.InsertDisjoint | src/allocator_shm.c:288-402 | a block clear of every free span and of the freed block stays clear of every free span after the free |
| Spans.InsertAlone | src/allocator_shm.c:342-392 | a block contiguous with neither neighbour goes in unmerged at its address position |
| Spans.InsertJoinsPrev | src/allocator_shm.c:372-389 | a block contiguous with its predecessor only is absorbed into the predecessor |
| Spans.DisjointSides | src/allocator_shm.c:279-287 | in an ordered list, every span below a disjoint block's position ends at or before the block, and every span from that position on starts at or after its end |
| Spans.BelowAt | src/allocator_shm.c:279-287 | the insert position is the index where the addresses cross the freed address |
| Spans.CoalescingFrees | tests/allocator_shm.c:331-341 | freeing the five blocks of the coalescing test in the order 0, 2, 4, 1, 3 leaves 2, 3, 3, 2 and then 1 free spans, the last being the whole 1024-byte region |
| Segment.LiveIndex | src/allocator_shm.c:269-287 | the first live block whose payload is the given pointer, and no earlier block has that payload |
| Segment.Create | src/allocator_shm.c:604-684 | a new segment has one free span of `size` bytes right after the bookkeeping area, nothing live, nothing registered and zero counters; it satisfies both invariants |
| Segment.RemainingIsFree | src/allocator_shm.c:553-555 | the free bytes `dump_stats` computes from the counters (`size - bytes_allocated - H*blocks_allocated`) are exactly the bytes on the free list, and never negative |
| Segment.RoundUp | src/allocator_shm.c:203 | a request is rounded up to the next multiple of the word size, by less than one word |
| Segment.FirstFit | src/allocator_shm.c:208-212 | the chosen span is the first, from the head, that holds the request plus a header; every earlier span is too small |
| Segment.Malloc | src/allocator_shm.c:197-268 | malloc fails exactly when no free span holds the rounded request plus a header, and then changes nothing; on success the counters grow by one block and the rounded size, and registry, base and size stay |
| Segment.MallocFirstFit | src/allocator_shm.c:208-262 | the block is cut from the top end of the first fitting span; that span keeps its address and shrinks by the block, or leaves the list when used up; the caller gets the address just past the block's header |
| Segment.Free | src/allocator_shm.c:269-411 | free drops the block count by one and the byte count by the block's payload, and leaves registry, base and size alone |
| Segment.MallocHeap | src/allocator_shm.c:197-268 | malloc keeps the memory invariant, and a successful malloc takes exactly the block's bytes off the free list |
| Segment.MallocValid | src/allocator_shm.c:197-268 | malloc keeps both invariants; a returned pointer was not owned before and is owned after, and its block holds the rounded request plus a header |
| Segment.MallocFresh | src/allocator_shm.c:197-268 | malloc keeps the memory invariant and never hands out a pointer that is already owned |
| Segment.MallocKeepsOwned | src/allocator_shm.c:197-268 | malloc keeps every previously owned pointer owned, with the same block |
| Segment.CarveFree | src/allocator_shm.c:215-253 | carving a block leaves the free list ordered, inside the region, clear of the live blocks and of the new block, and smaller by exactly the block |
| Segment.CarveLive | src/allocator_shm.c:215-219 | the carved block joins the live blocks inside the region, overlapping none of them |
| Segment.FreeHeap | src/allocator_shm.c:269-411 | free keeps the memory invariant, returns the block's bytes to the free list, and changes its length by one minus the number of neighbours merged |
| Segment.FreeKeepsOwned | src/allocator_shm.c:269-411 | free leaves every other owned pointer owned |
| Segment.FreeDisowns | src/allocator_shm.c:269-411 | a freed pointer is no longer owned |
| Segment.FreeValid | src/allocator_shm.c:269-411 | freeing a block the registry does not hold keeps both invariants |
| Segment.InsertUndoesCarve | src/allocator_shm.c:288-402 | freeing the block just carved from a span restores that span, whether it was split or used up |
| Segment.MallocThenFree | src/allocator_shm.c:197-411 | freeing the pointer malloc just returned restores the allocator exactly: free list, live blocks and counters |
| Segment.MallocOwns | src/allocator_shm.c:197-268 | a pointer malloc returns is owned in the state it returns |
| Segment.FreeEach | tests/allocator_shm.c:102-169 | freeing a list of distinct owned pointers keeps the memory invariant and drops the block count by their number |
| Segment.NothingLive | src/allocator_shm.c:404-406 | with no block allocated, the byte count is zero and the free list is the whole region as one span |
| Segment.FreeAllInAnyOrder | tests/allocator_shm.c:102-169 | freeing every live block in any order brings both counters to zero and leaves the whole region as a single free span |
| Segment.OrderedFits | src/allocator_shm.c:288-402 | ordered, gapped spans inside a span take up at most that span: their bytes plus one per gap |
| Segment.RestAsWritten | src/allocator_shm.c:217-253 | the free list after the exact-fit test as written agrees with the corrected one unless the span is left holding exactly one more such block, or is the head and used up; a span left holding one more block is unlinked with its bytes, and when the unlinked span is the head the whole list is lost |
| Segment.MallocAsWritten | src/allocator_shm.c:197-268 | malloc as written returns the same pointer and counters as the corrected malloc; only its free list can differ |
| Segment.ExactFitAsWritten | src/allocator_shm.c:226 | on a 64-byte segment, malloc(8) as written empties the free list so that a second malloc(8) fails, where the corrected malloc serves it; a head span used up exactly takes the spans after it with it, where the corrected list keeps them |
| Segment.UsedUpHeadAsWritten | src/allocator_shm.c:217-253 | a request that uses up the head span exactly succeeds but, as written, empties the free list, where the corrected malloc keeps every span after the head |
| Segment.MallocOneSpan | src/allocator_shm.c:208-262 | from a one-span free list larger than the request, the block is the span's top and the span stays, smaller |
| Segment.CoalescingMallocs | tests/allocator_shm.c:322-329 | the five allocations of the coalescing test (11, 17, 2, 6 and 341 bytes) are cut one below the other from the top of a 1024-byte segment, and one free span of 504 bytes is left |
| Registry.Lookup | src/allocator_shm.c:522-544 | the first registry entry, from the head, under the name; no earlier entry has it |
| Registry.Find | src/allocator_shm.c:522-544 | `find_registered_object` finds nothing exactly when no entry has the name, and otherwise returns the item of an entry under the name |
| Registry.Register | src/allocator_shm.c:412-469 | registration returns 1 with nothing changed for a missing name or item, a name already registered or a failed allocation; on success it returns 0, appends the entry at the tail and counts two new blocks, the entry's and the name copy's |
| Registry.Deregister | src/allocator_shm.c:471-520 | deregistration returns the item registered under the name, or nothing with no change for an unknown name |
| Registry.RegisterFailureChangesNothing | src/allocator_shm.c:418-429 | a failed registration leaves the allocator exactly as it was, even when the entry block had already been taken |
| Registry.RegisterThenFind | src/allocator_shm.c:441-469 | after a successful registration the name finds its item, and every other name finds what it found before |
| Registry.RegisterValid | src/allocator_shm.c:412-469 | registration keeps both allocator invariants |
| Registry.RegisterShape | src/allocator_shm.c:424-464 | a successful registration took two blocks in order, the entry's and then the name copy's, and appended the entry holding them |
| Registry.RegisterFresh | src/allocator_shm.c:424-464 | a block owned before a registration, and not held by the registry, stays owned and unheld |
| Registry.MallocTwice | src/allocator_shm.c:424-429 | two successful mallocs in a row hand out two distinct owned blocks that the registry does not hold |
| Registry.AllocateAndRegister | src/allocator_shm.c:412-469 | allocating a block and registering it keeps the invariants; the block is owned and freeing it restores the allocator; a failed registration leaves the state malloc left |
| Registry.RegisterThenDeregister | src/allocator_shm.c:412-520 | registering a name and deregistering it gives the item back and restores the allocator exactly: registry, free list and counters |
| Registry.DeregisterLast | src/allocator_shm.c:495-516 | deregistering the last entry frees its name copy and then its block, and drops the entry |
| Registry.DeregisterValid | src/allocator_shm.c:471-520 | deregistration keeps both invariants, leaves the name unregistered and every other name's lookup unchanged, and a known name gives back its two blocks |
| Registry.DeregisterAt | src/allocator_shm.c:479-516 | deregistering the entry at its index removes it from the registry, then frees its name copy and its block |
| Registry.RemoveThenFreeValid | src/allocator_shm.c:495-516 | removing an entry and freeing its two blocks keeps both invariants |
| Registry.LookupRemove | src/allocator_shm.c:479-488 | after an entry is removed, its name is found nowhere and every other name is found at the same entry as before |
| Registry.RegisterAsWritten | src/allocator_shm.c:412-469 | registration as written returns the corrected status, and the corrected state whenever it succeeds or fails before allocating |
| Registry.RegisterLeaks | src/allocator_shm.c:424-429 | when the entry block is granted but the name copy is not, registration as written fails yet leaves a new block allocated that no entry holds; the corrected registration changes nothing |
| Registry.LeakedBlock | src/allocator_shm.c:424-429 | the entry block taken before the name copy fails is new, owned and unheld, and freeing it would restore the allocator |
| Registry.RegisterLeaksExample | src/allocator_shm.c:424-429 | in a 64-byte segment, registering a one-character name as written fails with one block allocated, while the corrected registration leaves the segment unchanged |
| SharedList.IndexOf | src/shared_in_list.c:299-321 | the position of a linked node: the node is there and at no earlier position |
| SharedList.Head | src/shared_in_list.c:105-108 | the head is NULL exactly for an empty list, and is otherwise the first node |
| SharedList.Tail | src/shared_in_list.c:110-113 | the tail is NULL exactly for an empty list, and is otherwise the last node |
| SharedList.Next | src/shared_in_list.c:115-120 | `next` is NULL for a NULL argument and for the last node; otherwise it is the node linked right after the argument |
| SharedList.AddTail | src/shared_in_list.c:150-175 | `add_tail` appends the node after the old nodes, in order, and adds one to the count; it keeps the list well formed, the node becomes the tail, and the head changes only when the list was empty |
| SharedList.AddHead | src/shared_in_list.h:68-75 | `add_head` as documented puts the node before the old nodes, in order, and adds one to the count; it keeps the list well formed, the node becomes the head, and the tail changes only when the list was empty |
| SharedList.AddHeadAsWritten | src/shared_in_list.c:122-149 | `add_head` as written leaves the node as the only one linked, while the count goes up by one |
| SharedList.AddHeadLosesNodes | src/shared_in_list.c:127 | on a non-empty list, `add_head` as written unlinks every node it held and breaks the count invariant |
| SharedList.Remove | src/shared_in_list.c:78-102 | `remove` takes the node out of one place and keeps the other nodes in their order; the list and the count shrink by one, and a well-formed list stays well formed without the node |
| SharedList.RemoveHead | src/shared_in_list.c:78-102 | removing the head keeps the rest in order, and the head's old successor becomes the head |
| SharedList.AddThenRemove | src/shared_in_list.c:78-175 | adding a node at either end and removing it again gives the list back |
| SharedList.HeadThenRemove | src/shared_in_list.c:78-149 | adding a node at the head, as the interface documents, and removing it again gives the list back |
| SharedList.FindNode | src/shared_in_list.c:299-321 | `find` returns the first node, from the head, that `compare` reports equal, and NULL when there is none |
| SharedList.FindShift | src/shared_in_list.c:299-321 | the search result for the nodes after an unmatched head is also the result for the whole list |
| SharedList.ForEach | src/shared_in_list.c:323-338 | the walk hands every linked node to the functor exactly once, head to tail |
| SharedList.Drain | src/shared_in_list.c:283-286 | removing head after head leaves the list empty with a zero count |
| SharedList.Create | src/shared_in_list.c:177-238 | create fails with nothing changed for an empty or registered name or a failed allocation or registration; on success the name finds the new header and both invariants hold |
| SharedList.CreateAsWritten | src/shared_in_list.c:177-238 | create as written keeps the invariants, but the handle's name is whatever the buffer held |
| SharedList.Attach | src/shared_in_list.c:240-276 | attach succeeds exactly for a registered name of 1 to 128 characters, and then hands out the registered header |
| SharedList.Destroy | src/shared_in_list.c:278-297 | destroy leaves the list empty and the handle's name unregistered, and keeps the invariants |
| SharedList.CreateThenDestroy | src/shared_in_list.c:177-297 | a created list can be attached to by name, and destroying it restores the allocator exactly |
| SharedList.CreateShape | src/shared_in_list.c:201-225 | a successful create allocated the header and registered it under the name |
| SharedList.CreateKeepsNames | src/shared_in_list.c:201-225 | a create leaves every other name's lookup alone |
| SharedList.CreateKeepsOwned | src/shared_in_list.c:201-225 | a create keeps every owned, unheld block owned and unheld, and the new header is none of them |
| SharedList.CreateUndone | src/shared_in_list.c:288-290 | deregistering the list's name gives back the state right after its header was allocated |
| SharedList.CreateAfterHeader | src/shared_in_list.c:210-215 | once the header is allocated, create as written hands out a handle whatever registration reports |
| SharedList.CreateAfterHeaderCorrected | src/shared_in_list.c:210-215 | the corrected create hands out a handle exactly when registration succeeds |
| SharedList.DestroyLeavesStaleEntry | src/shared_in_list.c:289-290 | destroying a list made as written deregisters the unset name: the list's entry survives, pointing at the header destroy freed |
| SharedList.HeaderFillsSegment | src/shared_in_list.c:201-215 | when the only free span just fits the header, registration finds no room and changes nothing |
| SharedList.UnregisteredListCreated | src/shared_in_list.c:210-215 | there, create as written hands out a list that is not registered, so attach can never find it |
| SharedList.FailedRegistrationRefused | src/shared_in_list.c:210-215 | there, the corrected create refuses and leaves the state as it was |
| SharedList.FreshSegmentFits | src/allocator_shm.c:604-684 | a fresh 88-byte segment is a state in which the header just fits |
| SharedQueue.UpdateDoorbell | src/shared_queue.c:102-119 | a byte is written exactly when no doorbell is active, the list holds something and the write succeeds; it sets the flag and counts one write and one byte of high water |
| SharedQueue.Enqueue | src/shared_queue.c:121-130 | the node is appended at the tail; with a doorbell already active nothing is written |
| SharedQueue.Dequeue | src/shared_queue.c:137-172 | a failed read returns NULL and changes nothing; otherwise a read is counted and the head is removed and returned, or NULL is returned for an empty list |
| SharedQueue.DequeueTimed | src/shared_queue.c:174-182 | NULL with no change when the pipe is not readable in time, otherwise a dequeue |
| SharedQueue.Prime | src/shared_queue.c:355-357 | priming clears the flag and reruns the doorbell check: the list is untouched, and a byte is written only when the list holds something and the write succeeds |
| SharedQueue.InitialState | src/shared_queue.c:290 | the state create leaves is consistent, armed and single-signal |
| SharedQueue.OperationsConsistent | src/shared_queue.c:98-172 | every operation keeps high water equal to writes minus reads and to the bytes in the pipe, whatever the I/O results |
| SharedQueue.OperationsArmed | src/shared_queue.c:102-172 | with writes that succeed, no operation loses a wakeup: whenever the list holds something, a doorbell byte is waiting |
| SharedQueue.OperationsSingle | src/shared_queue.c:102-172 | with writes that succeed and no attach, one byte is in the pipe exactly while the list holds something |
| SharedQueue.PrimeWritesSecondByte | src/shared_queue.c:355-357 | attaching while a doorbell is active writes a second byte, so the single-signal state does not survive an attach |
| SharedQueue.EnqueueAll | src/shared_queue.c:121-130 | successive enqueues append their nodes in order |
| SharedQueue.EnqueuesCoalesce | src/shared_queue.c:102-130 | any number of enqueues on an idle queue write exactly one doorbell byte |
| SharedQueue.ActiveEnqueuesSilent | src/shared_queue.c:102-130 | once a doorbell is active, further enqueues write nothing |
| SharedQueue.DequeueAll | src/shared_queue.c:137-172 | `k` dequeues on an armed queue return the first `k` nodes in order, and the queue stays consistent and armed |
| SharedQueue.Fifo | src/shared_queue.c:121-172 | nodes enqueued on an empty queue come out of as many dequeues in the order they went in |
| SharedQueue.EnqueueAllKeeps | src/shared_queue.c:102-130 | enqueues with writes that succeed keep the queue consistent and armed |
| SharedQueue.DoorbellPath | src/shared_queue.c:236 | the pipe's path holds the queue's name between a five-character prefix and a three-character suffix |
| SharedQueue.NamesDistinct | src/shared_queue.c:236-280 | a queue's list is never registered under the queue's own name, and distinct queues get distinct list names and pipes |
| SharedQueue.Create | src/shared_queue.c:215-301 | create fails for a bad name, an existing pipe, a failed open, a registered name or list name, and then leaves allocator and pipes as they were; on success both names find their blocks and the pipe exists |
| SharedQueue.CreateList | src/shared_queue.c:280-290 | the list is created after the registration, or the registration and allocation are undone |
| SharedQueue.CreateAsWritten | src/shared_queue.c:215-301 | the queue's own error handling as written, over the corrected registration and list create: a failure can leave the pipe behind, and on success the list's name finds the list |
| SharedQueue.Destroy | src/shared_queue.c:192-214 | destroy unregisters both names, removes the pipe and keeps the invariants |
| SharedQueue.Attach | src/shared_queue.c:303-368 | attach succeeds exactly when the name is valid, the pipe exists and opens, and the name and list name are registered; it never changes the allocator, keeps the queue consistent, and keeps it armed when writes succeed |
| SharedQueue.AttachAsWritten | src/shared_queue.c:342-347 | attach as written agrees with the corrected attach on the handle and queue, and changes the allocator only when the list fails to attach |
| SharedQueue.CreateShape | src/shared_queue.c:254-288 | a successful create allocated the shared data, registered it, created the list and made the pipe |
| SharedQueue.CreateOwnsData | src/shared_queue.c:254-278 | the shared data of a created queue is owned and not held by the registry |
| SharedQueue.CreateKeepsNames | src/shared_queue.c:273-288 | a successful create leaves the lookup of every name other than the queue's and its list's as it was |
| SharedQueue.CreateThenDestroy | src/shared_queue.c:192-301 | destroying what create made, whatever nodes the list holds, restores the allocator and the pipes exactly |
| SharedQueue.DestroySteps | src/shared_queue.c:192-214 | destroy is the list's destroy, then the deregistration, then the free of the shared data |
| SharedQueue.CreateThenAttach | src/shared_queue.c:303-368 | after a create, attach finds the same data and list exactly when the name leaves room for the list's suffix |
| SharedQueue.CreateLeaksOnListFailure | src/shared_queue.c:283-288 | create as written, when the list cannot be created, leaves the name registered to a freed block and the pipe behind, so no later create under that name succeeds; the corrected create changes nothing |
| SharedQueue.AttachFreesLiveQueue | src/shared_queue.c:342-347 | attach as written, when the list does not attach, frees the creator's live shared data, while the corrected attach leaves the allocator alone |
| Reactor.FindByHandler | src/reactor.c:514-529 | the slot found is in use for the handler, and none is found exactly when no in-use slot holds it |
| Reactor.FindBySignum | src/reactor.c:531-546 | the slot found is in use for the signal, and none is found exactly when no in-use slot holds it |
| Reactor.NextAvailable | src/reactor.c:548-563 | the lowest free slot, every slot below it in use; none exactly when all are in use |
| Reactor.RegisterHandler | src/reactor.c:605-630 | registration fails with -1 and no change exactly when the handler has no slot and the table is full; it never touches timers and keeps handlers unique |
| Reactor.RegisterHandlerSlot | src/reactor.c:605-630 | a successful registration changes only its slot, which then holds the handler in use with at least the requested bits |
| Reactor.ReRegisterMergesMask | src/reactor.c:612-616 | re-registering a handler takes no new slot and only adds the new bits to its mask |
| Reactor.NewHandlerTakesLowestSlot | src/reactor.c:618-629 | a new handler takes the lowest free slot with exactly the given mask |
| Reactor.SlotUpdateUnique | src/reactor.c:605-630 | writing a slot keeps handlers unique when the new contents are free or name a handler no other in-use slot holds |
| Reactor.FoundSlot | src/reactor.c:514-529 | with unique handlers, the slot a handler is in use in is the one found for it |
| Reactor.RegisterSigHandler | src/reactor.c:565-603 | a new handler is refused for a signal already held or a full table; any change is to one slot, which then holds the handler, the signal number and the signal bit; handlers stay unique |
| Reactor.ExistingHandlerGainsSignal | src/reactor.c:571-580 | an existing handler just gains the signal bit and number, even when another slot holds that signal |
| Reactor.RemoveHandler | src/reactor.c:402-428 | removal returns -1 with no change exactly when the handler has no slot; otherwise it clears that one slot, and `handle_close` is called unless the DONT_CALL bit is set |
| Reactor.RegisterThenRemove | src/reactor.c:402-630 | registering a new handler in a clear slot and removing it gives the table back |
| Reactor.FindMaxHandle | src/reactor.c:256-275 | the result is at least every descriptor of a slot with read or write interest, and is such a descriptor or 0 |
| Reactor.Expiry | src/reactor.c:690-699 | the expiry denotes the clock reading plus the delay, and is normalised when the nanoseconds are non-negative |
| Reactor.NextTimer | src/reactor.c:681-707 | the lowest free timer slot, every slot below it in use |
| Reactor.ScheduleTimer | src/reactor.c:649-711 | -1 with no change when neither delay is given, the clock fails or no slot is free; otherwise only the lowest free slot changes, expiring after the one-shot delay if given, else after the interval, and keeping the interval when given |
| Reactor.RemoveTimer | src/reactor.c:632-647 | -1 with no change when the handler has no timer; otherwise the lowest-numbered of its timers is cleared and nothing else changes |
| Reactor.Earliest | src/reactor.c:232-244 | the earliest expiry among in-use timers is one of them and is not after any; there is none exactly when no timer is in use |
| Reactor.ScanKeepsEarliest | src/reactor.c:229-244 | the scan keeps the earliest in-use expiry when it is earlier than the starting value, and the starting value otherwise |
| Reactor.ExpireTimeAsWritten | src/reactor.c:222-254 | the wait as written is the sentinel or a non-negative time |
| Reactor.ExpireTime | src/reactor.c:222-254 | the wait is the sentinel exactly when no timer is in use; otherwise it is the time until the earliest expiry, or zero when that has passed |
| Reactor.ExpireTimeAgrees | src/reactor.c:229-250 | while every timer expires before the sentinel, the code as written computes the intended wait |
| Reactor.LateTimerIgnored | src/reactor.c:229-250 | a timer expiring after the sentinel is invisible to the scan: the code reports the sentinel although the timer is due sooner |
| Reactor.Cleared | src/reactor.c:734 | both cleared tables have sixteen free slots |
| Reactor.Create | src/reactor.c:729-783 | a new reactor has its notification handler in slot 0 for reading, every other slot free and no timer in use |
| ProcessMonitor.U32 | src/process_monitor.c:192-193 | storing into an `unsigned int` reduces modulo 2^32 and leaves values in range unchanged |
| ProcessMonitor.Match | src/process_monitor.c:70-73 | the entry found is the lowest in use under the name; none exactly when the name is not in use |
| ProcessMonitor.FreeSlot | src/process_monitor.c:65-68 | the lowest entry not in use, every entry below it in use; none exactly when all are in use |
| ProcessMonitor.Overlay | src/process_monitor.c:187-190 | copying arguments over an entry overwrites the first ones and leaves later old arguments in place |
| ProcessMonitor.Register | src/process_monitor.c:147-199 | -1 with no change exactly for a bad name or path or a full table with the name not in use; otherwise 0; the table keeps its size |
| ProcessMonitor.RegisterSlotWritten | src/process_monitor.c:165-198 | a successful registration writes only its entry, now in use under the name with the caller's pid and the current time and with its old interval |
| ProcessMonitor.ReRegisterRefreshes | src/process_monitor.c:165-172 | registering a name in use only refreshes that entry's time and pid |
| ProcessMonitor.NewNameTakesLowestFree | src/process_monitor.c:174-198 | a new name takes the lowest free entry, keeping that entry's interval and any arguments beyond the new ones |
| ProcessMonitor.FullTableRefuses | src/process_monitor.c:175-181 | with all entries in use and the name new, registration fails and changes nothing |
| ProcessMonitor.RegisterKeepsNamesUnique | src/process_monitor.c:165-198 | registration keeps the names in use unique, and a successful one adds exactly its name |
| ProcessMonitor.WriteFreeEntry | src/process_monitor.c:183-194 | filling a free entry adds its name, keeping names unique when that name is new |
| ProcessMonitor.WriteSameName | src/process_monitor.c:167-169 | rewriting an entry without changing its name keeps the names and their uniqueness |
| ProcessMonitor.ReleaseEntry | src/process_monitor.c:140 | releasing the only entry under a name removes exactly that name |
| ProcessMonitor.Remove | src/process_monitor.c:127-145 | removal releases the entry in use under the name and leaves every other entry alone, or returns -1 with no change for an unknown name |
| ProcessMonitor.RemoveForgets | src/process_monitor.c:127-145 | with unique names, removal drops exactly the removed name |
| ProcessMonitor.RegisterThenRemove | src/process_monitor.c:127-199 | registering a new name and removing it leaves the same names in use as before |
| ProcessMonitor.ExpireOf | src/process_monitor.c:200-226 | a name has an interval exactly when it is in use |
| ProcessMonitor.SetExpireInterval | src/process_monitor.c:200-226 | 0 exactly for a valid name in use, changing only that entry's interval; -1 with no change otherwise |
| ProcessMonitor.SetThenRead | src/process_monitor.c:200-226 | after a successful set the name's interval reads back as set, and every other name keeps its own |
| ProcessMonitor.SameMatches | src/process_monitor.c:110-125 | tables differing at most in one entry's interval find every name at the same entry |
| ProcessMonitor.HandleTimeout | src/process_monitor.c:227-257 | the heartbeat records the current time in the named entry only, and changes nothing for a bad or unknown name |
| ProcessMonitor.HeartbeatKeepsInterval | src/process_monitor.c:227-257 | a heartbeat keeps every name's interval |
| ProcessMonitor.Fresh | src/process_monitor.c:293-308 | a new table has sixteen entries, none in use, each with the default interval of 16 |
| ProcessMonitor.Create | src/process_monitor.c:265-316 | create fails with nothing changed for a bad or registered name or a failed allocation or registration; on success the name finds the block, which holds a fresh table |
| ProcessMonitor.CreateAsWritten | src/process_monitor.c:297-302 | create as written keeps the invariants and hands out a fresh table whatever registration reports |
| ProcessMonitor.Attach | src/process_monitor.c:318-361 | attach succeeds exactly for a valid registered name, and hands out the registered block |
| ProcessMonitor.CreateThenAttach | src/process_monitor.c:265-361 | attaching to a created monitor finds the block create registered |
| ProcessMonitor.BlockFillsSegment | src/process_monitor.c:287-297 | when the only free span just fits the shared block, registration finds no room and changes nothing |
| ProcessMonitor.CreateAfterBlock | src/process_monitor.c:297-302 | once the block is allocated, create as written hands out the monitor whatever registration reports, and the corrected one gives the block back when it fails |
| ProcessMonitor.UnregisteredMonitorCreated | src/process_monitor.c:297-302 | there, create as written hands out a monitor nobody can attach to, while the corrected create refuses and changes nothing |
| Logger.Severity | src/logger.c:98-129 | the severity is below 8, 0 for EMERG and 7 for DEBUG |
| Logger.SeverityInjective | src/logger.c:98-129 | distinct levels have distinct severities |
| Logger.Priority | src/logger.c:90-133 | the priority lies in 8..15, is 15 with no level set, and is 8 plus the severity of the most severe level set |
| Logger.PriorityMonotone | src/logger.c:98-132 | adding a less severe level keeps the priority, and adding a more severe one raises it to that level's |
| Logger.IsCategorySet | src/logger.c:224-228 | the result is the enabled categories among those asked about |
| Logger.IsLevelSet | src/logger.c:230-234 | the result is the enabled levels among those asked about |
| Logger.SetCategory | src/logger.c:236-240 | the given categories become enabled, and no other changes |
| Logger.SetLevel | src/logger.c:242-246 | the given levels become enabled, and no other changes |
| Logger.UnsetCategoryAsWritten | src/logger.c:247-251 | as written, the given categories stay as enabled as they were |
| Logger.UnsetLevelAsWritten | src/logger.c:252-256 | as written, the given levels stay as enabled as they were |
| Logger.UnsetCategory | src/logger.c:247-251 | the given categories become disabled and every other one stays |
| Logger.UnsetLevel | src/logger.c:252-256 | the given levels become disabled and every other one stays |
| Logger.UnsetHasNoEffect | src/logger.c:247-256 | after setting and unsetting as written a message still passes the filter, while the corrected unset stops it |
| Logger.SetThenUnset | src/logger.c:236-256 | unsetting what was just set restores the masks, when those bits were clear before |
| Logger.Originator | src/logger.c:181-190 | the originator is `"unknown"` for NULL, otherwise the prefix of the name of exactly 31 characters, or the whole name when it fits |
| Logger.Enqueue | src/logger.c:135-197 | 0 exactly when a category and a level of the message are enabled and the record is allocated, and then the record is appended with its masks, originator and text cut to 255 characters; otherwise -1 with no change |
| Logger.KeepsLive | src/logger.c:147 | an allocation keeps every queued record a live block |
| Logger.SilentDropsAll | src/logger.c:141-145 | a freshly created logger drops every message |
| Logger.SetEnables | src/logger.c:141-145 | once a category and a level are set, a message carrying them passes the filter |
| Logger.QueueNamesDistinct | src/logger.c:304-305 | a logger's queue is never registered under the logger's name, and distinct loggers get distinct queues |
| Logger.Create | src/logger.c:276-335 | create fails with nothing changed for a bad or registered name or a failed allocation, registration or queue; on success both names find their blocks and the queue's pipe exists |
| Logger.CreateInBlock | src/logger.c:295-312 | once the block is allocated, registration and queue creation either both succeed or leave everything as it was |
| Logger.CreateQueue | src/logger.c:304-312 | the queue is created after the registration, or the registration and allocation are undone |
| Logger.QueueKeepsName | src/logger.c:297-312 | the logger's own registration survives the creation of its queue |
| Logger.CreateAsWritten | src/logger.c:276-335 | the logger's own error handling as written, over the corrected registration and queue create: a failure adds no pipe, and a handle it returns carries the name |
| Logger.CreateLeavesDanglingName | src/logger.c:307-312 | create as written, when the queue cannot be created, returns NULL but leaves the name registered to the freed block; the corrected create changes nothing |
| Logger.DanglingAsWritten | src/logger.c:307-312 | the as-written half of the dangling registration |
| Logger.QueueFailureRefused | src/logger.c:307-312 | the corrected half: a queue failure leaves allocator and pipes as they were |
| Logger.Attach | src/logger.c:337-389 | attach succeeds exactly for a valid registered name whose queue attaches, hands out the registered block, and changes no queue state on failure |
| Logger.CreateThenAttach | src/logger.c:276-389 | attaching to a created logger, when the name leaves room for every suffix, finds the same block and queue |
| Logger.QueueAttaches | src/logger.c:363-369 | the queue of a created logger attaches to the queue create made |

## Left out

- Shared-memory mapping (`shmget`, `shmat`, `shmdt`, allocator attach and destroy at `src/allocator_shm.c:586-724`) is OS work. A segment is its state after create, and attach does not change it.
- Process-shared semaphores are not modelled, because every operation is one atomic step. Three defects that only show with the lock are left out for that reason:
  - the early return in `deregister_object` (`src/allocator_shm.c:490-493`) never releases the lock;
  - monitor create never calls `sem_init`;
  - queue create leaks the block when `sem_init` fails.
- The link-level bookkeeping of `private_free` is left out, because the free list is an address-ordered sequence. `Spans.CoalescingFrees` and `Segment.CoalescingMallocs` check that sequence against the allocator's coalescing test. The code has three stale links after a free that absorbs a span:
  - the successor's `prev` still names the absorbed span (`src/allocator_shm.c:311-313` and `364-365`);
  - `free_list_tail` names a block that was absorbed into its predecessor (332-339).

  So a later free can go wrong: the head test at 290 reads a stale `prev`, and the link write at 355 goes through one.
- `deregister_object` does not move the head or tail when it unlinks an end entry among several (`src/allocator_shm.c:496-508`). This is left out for the same reason: the registry is a sequence. It has two consequences in the code:
  - After the tail entry goes, the tail still names the freed entry. Later registrations are linked after it (`src/allocator_shm.c:445-463`), so a search from the head never reaches them.
  - After the head entry goes, the head still names it, so the search still reaches it and can find its name.
- Segment.CoalescingMallocs, Spans.CoalescingFrees: they state the coalescing test at the level of the free list (`Insert`), not through `Free` on the allocator state, which would be too costly to unfold.
- `free_blocks` and `bytes_remaining`, which the tests call but the allocator interface lacks, are the free list's length and `Total` of its spans.
- Create with size 0 gives an empty free list. The code would link a zero-sized span.
- Segment.RoundUp: `size_t` wrap-around is not modelled. In the code, rounding a request of `2^64 - 7` bytes or more up to a multiple of 8 (`src/allocator_shm.c:203`) wraps to a small value.
- Segment.Malloc: `size_t` wrap-around is not modelled. The fit test `cur_ptr->size < sizeof(struct __node__) + size` (`src/allocator_shm.c:212`) wraps for requests within 24 bytes of `SIZE_MAX`. So the code grants such a request from a small span, where `Malloc` refuses it.
- Segment.Free: the `int tmp_size` copy of the block size (`src/allocator_shm.c:277`) is not modelled. It truncates blocks of 2^31 bytes or more. `bytes_allocated` (406) then ends off by a multiple of 2^32, so for such blocks the code does not restore the counter as `Segment.MallocThenFree` and `Segment.FreeAllInAnyOrder` state.
- Segment.Free: freeing a pointer the allocator does not own is undefined in the C code. `Free` requires ownership, and the destroy functions leave the allocator unchanged for such a pointer.
- The byte layout of C objects is abstract. This leaves out the following buffer overflows:
  - the 64-byte name check against the 32-byte `name` field (`src/process_monitor.c:154`);
  - the unbounded `argv` copy (`src/process_monitor.c:187-190`);
  - `remove` on the head node of a shared list: the node's `prev` names the header's `__null__` byte at offset 56. The unguarded write to its `next` (`src/shared_in_list.c:94`) lands at bytes 64-71, past the 64-byte header, in the header of the next block of the segment. Every dequeue takes this path. The fix would guard the sentinel, as `private_malloc` does at `src/allocator_shm.c:240-248`. `SharedList.Remove` models the intended unlink.
- `dump_stats` printing and its floating-point efficiency figure (`src/allocator_shm.c:563`) are not modelled. Only the `remaining` arithmetic is.
- The reactor's dispatch loop (`src/reactor.c:305-501`) is I/O and signal handling: `pselect`, signal masks, callbacks and the notify pipe.
- Reactor.Create: the failure of `pipe()` (`src/reactor.c:744-748`), which makes create return NULL, is not modelled. The notify pipe is I/O, so `Create` always succeeds.
- The reactor's `active_timers` counter (`src/reactor.c:654`) is not modelled, and neither is the `memset` made before the NULL check in create (`src/reactor.c:734-738`).
- Descriptor I/O in `src/support.c` is left out: `recv_n`, `send_n`, `handle_is_*_ready` and the `fcntl` helpers.
- The doorbell's `mkfifo`, `open`, `read`, `write` and `unlink` are abstracted: the pipes are a set of paths, their bytes are a counter, and each call's success is an input.
- Logger time stamps (`gettimeofday`, `localtime`, `strftime`) and `vsnprintf` formatting are left out. The formatted text is an input.
- `logger.h` is not part of this model. So level bits are taken to be the eight syslog severities and categories are bit positions, and the size of a message record is a parameter of `Logger.Enqueue`.
- The process monitor's `still_alive` check has no implementation in the code, so it is not modelled.
- `remove_process` with a NULL name is not modelled: the name is a string, and `strcmp` on NULL is undefined.
- Monitor attach leaks its handle when the name is not found, and frees the shared block when `sem_init` fails. Only attach's result is modelled, because the handle lives on the process heap.
- SharedList.Create: the failure paths at `src/shared_in_list.c:212-213` and `219-220` call `free(this)` and then read `this->sd_ptr` to free the shared block. That use-after-free concerns the process heap and is not modelled: the block is freed.
- SharedQueue.CreateAsWritten: only the queue's own error handling is as written. It is built on the corrected `Registry.Register` and `SharedList.Create`, so it does not show how the registration leak and the unchecked list registration of the lower layers add up. Each of those is stated on its own layer.
- Logger.CreateAsWritten: likewise, it is built on the corrected `Registry.Register` and `SharedQueue.Create`. So it does not show the pipe a failing queue create would leave behind, or an unregistered list handed out from below.
- Registry.Register, SharedList.Create, SharedQueue.ValidName, Logger.ValidName, ProcessMonitor.Register and Base.Truncate take names and strings to be ASCII text without NUL, so one character is one byte and `strlen` is the length of the sequence. Multibyte characters and names cut short by an embedded NUL are not modelled.
- SharedQueue.Create: names of 126 to 128 characters are accepted by create, but the list's name is then longer than list attach allows, so such a queue can never be attached. `SharedQueue.CreateThenAttach` states this; it is not treated as a finding.
- ProcessMonitor.Register: pids and heartbeat times are reduced modulo 2^32 (`U32`), and the fixed widths of the entry's strings are not modelled.
- OffsetPtr.Drf: `ptrdiff_t` overflow is not modelled. Addresses are unbounded integers.
- Time.Diff: `long` overflow near its limits is not modelled.
- `src/acceptor_handler.c`, the programs under `examples/`, and the heap allocator of `src/allocator_malloc.h` (whose implementation is not part of this model) are outside the core.

## Findings

| source | as written | input that shows it | evidently intended | confidence | as-written member | corrected member |
|---|---|---|---|---|---|---|
| src/allocator_shm.c:226 | the exact-fit test compares what is left of the span with the request, not with zero, and unlinking the head sets the head to its null predecessor (250-253) | a fresh 64-byte segment: malloc(8) leaves 32 bytes, the list is cut off, and a second malloc(8) fails; a free list whose head span holds exactly 32 bytes: malloc(8) uses it up and the spans after it are lost | unlink exactly the span that is used up | high (not executed) | Segment.MallocAsWritten, Segment.ExactFitAsWritten, Segment.UsedUpHeadAsWritten | Segment.Malloc, Segment.MallocThenFree |
| src/allocator_shm.c:425-428 | when the name copy cannot be allocated, `register_object` returns 1 without freeing the entry block it took | a 64-byte segment and the name "x": the 40-byte entry takes the only span | give the entry block back, so a failed registration changes nothing | high (not executed) | Registry.RegisterAsWritten, Registry.RegisterLeaks | Registry.Register, Registry.RegisterFailureChangesNothing |
| src/shared_in_list.c:210 | create tests `register_object(...) < 0`, but registration reports failure with 1 | a segment with one 88-byte free span: the header fits, registration fails, and the list is still returned | give up when registration returns non-zero | high (not executed) | SharedList.CreateAsWritten, SharedList.UnregisteredListCreated | SharedList.Create, SharedList.FailedRegistrationRefused |
| src/shared_in_list.c:289-290 | destroy deregisters `this->name`, which create never fills in | any created list whose name buffer does not spell a registered name | deregister the list's own name | high (not executed) | SharedList.DestroyLeavesStaleEntry | SharedList.CreateThenDestroy |
| src/shared_in_list.c:127 | both guards of `add_head` compare a link with the value just stored in it (also at line 141) | `add_head` on any non-empty list | insert before the current head, as the interface documents | high (not executed) | SharedList.AddHeadAsWritten, SharedList.AddHeadLosesNodes | SharedList.AddHead, SharedList.HeadThenRemove |
| src/shared_queue.c:283-288 | when the list cannot be created, create frees the shared data but keeps its registration and the named pipe | a queue name whose list name is already registered | deregister the name and remove the pipe before freeing | high (not executed) | SharedQueue.CreateAsWritten, SharedQueue.CreateLeaksOnListFailure | SharedQueue.Create, SharedQueue.CreateThenDestroy |
| src/shared_queue.c:342-347 | when the list does not attach, attach frees the shared data it found, which belongs to the creator | a queue created under a 126-character name, then attached | return NULL without freeing | high (not executed) | SharedQueue.AttachAsWritten, SharedQueue.AttachFreesLiveQueue | SharedQueue.Attach |
| src/reactor.c:229 | `get_expire_time` starts its scan from the sentinel {0xffffff, 0xffffff}, so a later timer is never seen | a single timer that expires after 0xffffff seconds of monotonic time, and is due soon | the sentinel only when no timer is in use | medium (not executed) | Reactor.ExpireTimeAsWritten, Reactor.LateTimerIgnored | Reactor.ExpireTime, Reactor.ExpireTimeAgrees |
| src/process_monitor.c:297 | create tests `register_object(...) < 0`, but registration reports failure with 1 | a segment whose only free span just fits the 13088-byte block | give the block back and fail when registration returns non-zero | high (not executed) | ProcessMonitor.CreateAsWritten, ProcessMonitor.UnregisteredMonitorCreated | ProcessMonitor.Create, ProcessMonitor.CreateThenAttach |
| src/logger.c:247-256 | `unset_category` and `unset_level` compute `mask & ~arg` and discard it | set a category and a level, then unset them: messages still pass | store the cleared mask | high (not executed) | Logger.UnsetCategoryAsWritten, Logger.UnsetHasNoEffect | Logger.UnsetCategory, Logger.SetThenUnset |
| src/logger.c:307-312 | when the queue cannot be created, create frees the shared block but keeps its registration | a logger name with more than 125 characters, or a pipe that does not open | deregister the name before freeing | high (not executed) | Logger.CreateAsWritten, Logger.CreateLeavesDanglingName | Logger.Create, Logger.QueueFailureRefused |
