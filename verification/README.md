# Zer0S kernel: a verified model

Zer0S is a small 64-bit kernel. This project models its stateful core in Dafny and proves what
that core keeps over every run:

- **Kernel heap** (`bytes.dfy`, `blocks.dfy`, `heap.dfy`, `heapruns.dfy`). `kmalloc`, `kfree` and
  `kcalloc` work on byte-addressed RAM; the 24-byte headers are little-endian words inside the
  arena. The class `KernelHeap.Heap` is proved to move the memory and the list of blocks exactly as
  the pure functions `Kmalloc`, `Kfree` and their `...Image` counterparts say. On those functions the
  heap's laws are proved: tiling, first fit, capacity, isolation of live payloads over whole runs.
- **What freeing undoes** (`nesting.dfy`) and **uniform stacks** (`stacks.dfy`). LIFO programs leave
  no trace exactly on the lists without two adjacent free blocks; forward-only coalescing keeps the
  list coalesced exactly when the block before the freed one is in use; with 8192-byte requests only,
  an allocation fails exactly when 1021 are live.
- **Frame allocator** (`frames.dfy`). The byte-packed bitmap stands for a set of frame numbers and
  the two counters count it.
- **Process manager and scheduler** (`queues.dfy`, `scheduler.dfy`, `procspec.dfy`, `procruns.dfy`,
  `processes.dfy`, `stackbytes.dfy`). Slots, the ready queue threaded through `next`, the current
  process and the PID counter form a state machine over the heap. A `process_t*` is the index of its
  slot, -1 is NULL. Process stacks are heap blocks, which gives the end-to-end results: stacks never
  overlap, their bytes survive what other processes do, and with the heap used for stacks only,
  `process_create` fails exactly when all 256 slots are occupied.
- **Library and console** (`strings.dfy`, `printer.dfy`, `keyboard.dfy`, `typing.dfy`, `shell.dfy`,
  `commands.dfy`). Overlapping copies, substring search, comparison, the hexadecimal printer and
  decimal reader, the line editor and exactly which lines can be typed, the tokenizer it feeds and the
  dispatch of a line, down to the heap for `kmalloc`. A plain `char` is a signed byte (`schar`).

64-bit arithmetic is written out with `% WORD` wherever the code can wrap (rounding in `kmalloc`, the
product in `kcalloc`, page counters, `next_pid`, the decimal loop).

`process.c` holds each function twice; the two copies differ in console output and one tick counter,
so one copy is modelled.

## Calling discipline

The operations require what their callers must respect: `kfree` gets NULL or a live pointer;
`process_destroy` gets NULL or an occupied slot that is not queued. In legal runs `process_exit` and
`process_sleep` are called while the current process still has its slot and is not on the queue.

Calls that break the state without breaking such a rule have contracts too: `scheduler_add` of a slot
already on the list closes a cycle, `process_init` while a process is queued leaves a cleared slot at
the head of the queue, an exit or sleep of a queued process does not park it (`LeaveExactly`), and
`kcalloc` of a product that rounds to 0 zeroes memory up to the end of the mapped 64 MiB.

## Where the code differs from what one expects

- `kmalloc` of a size above 2^64 - 8 rounds to 0 and hands out a block without the requested room;
  `Capacity` says this is the only way to get too little, `WrappedSizeIsEmpty` gives an input.
- `kcalloc` multiplies in 64 bits, so a non-NULL result can be shorter than `num * size`:
  `KcallocCapacity` says it is long enough exactly when the product is at most 2^64 - 8, and
  `WrappedProductIsShort` gives arguments for which 8 bytes are granted and 2^64 + 8 were asked for.
- Two adjacent free blocks can remain: `ForwardOnlyLeavesNeighbours` is a concrete run.
- `memory_init` does not reset `used_pages`; the counters count exactly when it was 0 before.
- Frame 0 is handed out first and its address is NULL; `FrameZeroIsLost`, `NullExactly` and
  `FrameSpec.AllocThenFree` say what follows. `free_frame` gives frame 0 back exactly for an
  address between 1 and 4095 (`FrameZeroFreedExactly`).
- `memory_init` does not reserve the heap arena; `HeapFramesExactly` says when a frame inside it is
  handed out, and `HeapFrameReached` that 5375 allocations without a free get there.
- `process_exit` and `process_sleep` return to their caller when nobody else is ready, and the caller
  stays current. Woken then, it is queued while it still runs, and an exit dispatches it again:
  `ExitedRunsOn` is the run, `LeaveExactly` the exact condition.
- After 2^64 - 1 creations the next PID is 0 (`PidZeroAfterWrap`, reached in `PidZeroReached`), and a
  new PID can be in use by an older process: `CreatedFoundExactly` says when a lookup then misses the
  new one, `StalePidReached` is a run that gets there.
- The accent keys 0x2C and 0x2D displace z and x, and the key 0x27 displaces the semicolon, so no line
  contains them (`TypedExactly`) and the command `hex` cannot be typed (`HexNeverTyped`).
- The shell's `kmalloc` reports a NULL as an allocation at 0x0, and its size wraps at 2^64.
- `keyboard_init` announces accented letters, but an accented character constant does not fit a
  `char`: it becomes negative and is never stored (`AccentedLetterVanishes`). The constants are those
  of a compiler that packs the UTF-8 bytes of a character constant into an `int`; the acute accent
  key (0xC2B4) is then never recognised as a dead key.

## Model

| member | source | states |
|---|---|---|
| `HeapBlocks.Tiling` | kernel/arch/x86_64/memory.c:165-207 | every kmalloc and kfree keeps the blocks covering the arena from HEAP_START to HEAP_START + 24 + 8 MiB without gap or overlap, sizes multiples of 8 |
| `HeapBlocks.Conservation` | kernel/arch/x86_64/memory.c:219-230 | the sum of (24 + size) over a tiling list is always 24 + 8 MiB |
| `HeapBlocks.RoomyKept` | kernel/arch/x86_64/memory.c:165-207 | requests that do not wrap never create a block smaller than 8 bytes |
| `HeapBlocks.WalkBound` | kernel/arch/x86_64/memory.c:176-191 | the first-fit walk visits at most 349526 headers, and at most 262144 when every block has 8 bytes |
| `HeapBlocks.FirstFitComplete` | kernel/arch/x86_64/memory.c:165-195 | NULL exactly when the size is 0 or no free block has the rounded size; otherwise the lowest-address fitting block |
| `HeapBlocks.Capacity` | kernel/arch/x86_64/memory.c:166-188 | the block handed out has room for the request exactly when the size is at most 2^64 - 8, wastes less than 56 bytes, and any other new block is a free remainder of at least 32 bytes |
| `HeapBlocks.FirstAllocation` | kernel/arch/x86_64/memory.c:165-188 | the first allocation, in numbers: the pointer 0x2000018, a block of the rounded size at 0x2000000 and the rest of the 8 MiB behind it |
| `HeapBlocks.SmallestSplit` | kernel/arch/x86_64/memory.c:180-188 | kmalloc(8) splits a hole exactly when it has 64 bytes or more; from one of 64 the next kmalloc(8) gets 0x2000038 |
| `HeapBlocks.FreeAddsUp` | kernel/arch/x86_64/memory.c:219-230 | the free total takes each free block for its size and each used one for 0, the total takes every block for its size |
| `HeapBlocks.WrappedSizeIsEmpty` | kernel/arch/x86_64/memory.c:165-188 | kmalloc(2^64 - 1) on the fresh heap returns HEAP_START + 24 with a block of size 0 |
| `HeapBlocks.KcallocCapacity` | kernel/arch/x86_64/memory.c:209-210 | the block kcalloc hands out has room for the unwrapped num * size exactly when that is at most 2^64 - 8 |
| `HeapBlocks.WrappedProductIsShort` | kernel/arch/x86_64/memory.c:209-210 | kcalloc(2^63 + 4, 2) on the fresh heap is granted 8 bytes |
| `HeapBlocks.KmallocKeeps` | kernel/arch/x86_64/memory.c:165-195 | kmalloc adds one pointer that was not live and leaves every used block where and as large as it was |
| `HeapBlocks.KfreeKeeps` | kernel/arch/x86_64/memory.c:197-207 | kfree removes exactly its pointer and leaves every other used block as it was |
| `HeapBlocks.PayloadsDisjoint` | kernel/arch/x86_64/memory.c:156-207 | two blocks are 8-aligned, inside the arena and disjoint |
| `HeapNesting.AllocThenFree` | kernel/arch/x86_64/memory.c:176-207 | kfree of a fresh allocation restores the list unless the block was taken whole and a free block follows, in which case exactly those two end up merged |
| `HeapNesting.NestedUndoes` | kernel/arch/x86_64/memory.c:165-207 | from any tiling list without two adjacent free blocks, whatever holes it has, every LIFO program restores the list |
| `HeapNesting.Unsettle` | kernel/arch/x86_64/memory.c:176-207 | from any tiling list with two adjacent free blocks some LIFO program ends in a shorter list |
| `HeapNesting.RestoredExactly` | kernel/arch/x86_64/memory.c:165-207 | every LIFO program restores the list exactly when no two adjacent blocks are free |
| `HeapNesting.NestedFromBoot` | kernel/kernel_main.c:105-113 | from boot, every LIFO program, such as the start-up test allocation, ends in the single 8 MiB free block |
| `HeapNesting.KmallocKeepsCoalesced` | kernel/arch/x86_64/memory.c:179-188 | kmalloc never creates two adjacent free blocks |
| `HeapNesting.KfreeCoalescedExactly` | kernel/arch/x86_64/memory.c:200-206 | kfree keeps a coalesced list coalesced exactly when the block before is used or there is none |
| `HeapNesting.ForwardOnlyLeavesNeighbours` | kernel/arch/x86_64/memory.c:203-206 | a concrete run after which two adjacent blocks are free |
| `UniformStacks.WholeMeans` | kernel/arch/x86_64/memory.c:171-186 | the recursive span predicates mean a positive multiple of 8216, and 96 modulo 8216 |
| `UniformStacks.AllocUniform` | kernel/arch/x86_64/memory.c:165-195 | kmalloc(8192) keeps every non-last block a positive multiple of 8216 bytes and the last one 8216 m + 96 |
| `UniformStacks.FreeUniform` | kernel/arch/x86_64/memory.c:197-207 | so does kfree |
| `UniformStacks.FullExactly` | kernel/arch/x86_64/memory.c:176-194 | kmalloc(8192) fails exactly when 1021 stacks are live |
| `UniformStacks.NoFragmentation` | kernel/arch/x86_64/memory.c:165-207 | the above in every interleaving of kmalloc(8192) and kfree from boot |
| `HeapMemory.KmallocHolds` | kernel/arch/x86_64/memory.c:165-195 | after kmalloc the headers in memory spell out exactly the new block list, each next being the following block's address |
| `HeapMemory.KfreeHolds` | kernel/arch/x86_64/memory.c:197-207 | so they do after kfree |
| `HeapMemory.AllocImageElsewhere` | kernel/arch/x86_64/memory.c:178-188 | kmalloc writes the header of the block it takes and, when it splits, one header inside that block; nothing else |
| `HeapMemory.FreeImageElsewhere` | kernel/arch/x86_64/memory.c:200-206 | kfree writes the freed block's header only |
| `HeapMemory.HeaderLayout` | kernel/arch/x86_64/memory.c:156-160 | size, used and next lie at offsets 0, 8 and 16 of the 24-byte header, least significant byte first |
| `HeapMemory.KcallocZeroes` | kernel/arch/x86_64/memory.c:212-214 | every byte asked of kcalloc, up to the end of the mapped 64 MiB, is zero after it |
| `HeapMemory.PayloadWriteHolds` | kernel/arch/x86_64/memory.c:212-214 | writing inside a payload disturbs no header |
| `KernelHeap.Heap.Kmalloc` | kernel/arch/x86_64/memory.c:165-195 | the loop over in-memory headers returns the pointer and leaves the memory and block list of the pure step, for every 64-bit size |
| `KernelHeap.Heap.Kfree` | kernel/arch/x86_64/memory.c:197-207 | the same for kfree of NULL or a live pointer |
| `KernelHeap.Heap.Kcalloc` | kernel/arch/x86_64/memory.c:209-217 | kmalloc of the product modulo 2^64, then exactly that many zero bytes at the pointer; a page fault, with every byte from the pointer to the end of the mapped 64 MiB zero, exactly when that number is above 2^64 - 8 and a block was found |
| `KernelHeap.Heap.HeapStatus` | kernel/arch/x86_64/memory.c:219-230 | the walk counts all blocks, bytes and free bytes; bytes + 24 * blocks is the arena |
| `HeapRuns.InitialState` | kernel/arch/x86_64/memory.c:162-162 | the untouched arena with a NULL list head satisfies the invariant, whatever the memory holds |
| `HeapRuns.StepKeeps` | kernel/arch/x86_64/memory.c:165-217 | every call that does not fault and every client write inside its allocation keeps headers, tiling, live pointers and, for every client that asked for at most 2^64 - 8 bytes (num * size unwrapped for kcalloc), the room it asked for |
| `HeapRuns.Run` | kernel/arch/x86_64/memory.c:165-217 | the invariant holds in every reachable state |
| `HeapRuns.Isolation` | kernel/arch/x86_64/memory.c:165-217 | over any run, a block in use keeps place, size and every payload byte until its owner writes to it or frees it |
| `HeapRuns.LiveDisjoint` | kernel/arch/x86_64/memory.c:165-217 | live allocations of at most 2^64 - 8 bytes (num * size unwrapped for kcalloc) are 8-aligned, inside the arena, as large as asked for and pairwise disjoint |
| `HeapRuns.ReadsBack` | kernel/arch/x86_64/memory.c:165-217 | over every run, until it frees an allocation, a client reads back at each offset what it last wrote there |
| `HeapRuns.CallocReadsZero` | kernel/arch/x86_64/memory.c:209-217 | over every run, what kcalloc handed out reads as zero where its client has not written |
| `HeapRuns.WalkBoundInRuns` | kernel/arch/x86_64/memory.c:176-191 | in every run the list never exceeds 349526 blocks, and 262144 when no request wraps |
| `FrameBits.SetBitTests` | kernel/arch/x86_64/memory.c:17-27 | setting a bit of the packed bitmap changes the test of that bit only |
| `FrameBits.ClearBitTests` | kernel/arch/x86_64/memory.c:21-27 | so does clearing it |
| `FrameBits.MaskTable` | kernel/arch/x86_64/memory.c:17-27 | bit i of the bitmap is bit i modulo 8 of its byte, least significant first |
| `FrameAllocator.MemberSet` | kernel/arch/x86_64/memory.c:17-19 | on the set of frames, setting a bit adds one element |
| `FrameAllocator.MemberClear` | kernel/arch/x86_64/memory.c:21-23 | clearing a bit removes one element |
| `FrameSpec.InitCountedExactly` | kernel/arch/x86_64/memory.c:44-91 | after memory_init the counters count the bitmap exactly when used_pages was 0 before |
| `FrameSpec.InitExactly` | kernel/arch/x86_64/memory.c:44-91 | memory_init takes the frames 256 to 3072 and adds 2817 to used_pages |
| `FrameSpec.AllocExactly` | kernel/arch/x86_64/memory.c:102-115 | alloc_frame takes exactly the lowest frame not in use and returns its address; with 16384 in use it changes nothing |
| `FrameSpec.FreeExactly` | kernel/arch/x86_64/memory.c:117-128 | free_frame gives back exactly the frame that contains the address, whatever else is in use; NULL and addresses from 64 MiB on change nothing |
| `FrameSpec.HeldUntilFreed` | kernel/arch/x86_64/memory.c:102-128 | over every run, a frame in use is not handed out again before an address inside it is freed |
| `FrameSpec.FreedIsNext` | kernel/arch/x86_64/memory.c:102-128 | a frame freed while every lower one is in use is the next one handed out |
| `FrameSpec.CountersCount` | kernel/arch/x86_64/memory.c:102-128 | every run keeps used_pages the size of the set and used + free = 16384, so neither underflows |
| `FrameSpec.CountedFromInit` | kernel/arch/x86_64/memory.c:38-128 | so they are in every state reached from memory_init |
| `FrameSpec.Pigeonhole` | kernel/arch/x86_64/memory.c:29-36 | the least free index is at most used_pages; exhaustion exactly when free_pages is 0 |
| `FrameSpec.HeapFramesExactly` | kernel/arch/x86_64/memory.c:9-10 | the frame handed out meets the heap arena exactly when frames 0..8191 are in use and one of 8192..10240 is not; never while used_pages < 8192 |
| `FrameSpec.FillFromInit` | kernel/arch/x86_64/memory.c:44-115 | n allocations after memory_init, 256 <= n <= 13567, leave exactly the frames below 3073 + n - 256 in use |
| `FrameSpec.HeapFrameReached` | kernel/arch/x86_64/memory.c:9-10 | the allocation after 5375 others returns HEAP_START, the first page of the heap arena |
| `FrameSpec.FrameZeroFreedExactly` | kernel/arch/x86_64/memory.c:117-128 | a free releases frame 0 exactly for an address between 1 and 4095 |
| `FrameSpec.FrameZeroIsLost` | kernel/arch/x86_64/memory.c:105-118 | once an allocation happened, frame 0 stays taken in every run that frees no address between 1 and 4095 |
| `FrameSpec.AllocThenFree` | kernel/arch/x86_64/memory.c:102-128 | freeing the frame just allocated restores the state exactly when frame 0 was already taken |
| `FrameSpec.NullExactly` | kernel/arch/x86_64/memory.c:105-114 | NULL exactly on exhaustion or when frame 0 is the one taken |
| `FrameAllocator.Allocator.MemoryInit` | kernel/arch/x86_64/memory.c:38-100 | the two loops leave frames 256..3072 set and the counters of Init |
| `FrameAllocator.Allocator.FindFreeFrame` | kernel/arch/x86_64/memory.c:29-36 | the least clear bit, or 2^64 - 1 |
| `FrameAllocator.Allocator.AllocFrame` | kernel/arch/x86_64/memory.c:102-115 | the bitmap and counters follow Alloc on the set; NULL and no change before memory_init |
| `FrameAllocator.Allocator.FreeFrame` | kernel/arch/x86_64/memory.c:117-128 | the bitmap and counters follow Free on the set |
| `ProcessTable.FindLast` | kernel/core/scheduler.c:49-50 | the walk along next ends at the last element of the list |
| `ProcessTable.FullTurn` | kernel/core/scheduler.c:44-54 | n rotations of n nodes are the identity |
| `RoundRobin.FullRound` | kernel/core/scheduler.c:44-54 | as many calls of scheduler_yield as there are nodes leave the list, its head, every link and every slot as they were |
| `ProcessTable.RotationsPermute` | kernel/core/scheduler.c:44-54 | every number of rotations is a permutation |
| `RoundRobin.Scheduler.Add` | kernel/core/scheduler.c:16-24 | the slot becomes READY, links to the old head and becomes the head, every other slot is unchanged; the list stays well formed exactly when the slot was not on it, and otherwise `next` spells out no finite list |
| `RoundRobin.Scheduler.Remove` | kernel/core/scheduler.c:26-38 | deletion through the pointer to the link removes exactly that node, keeps the order of the rest, and is nothing for an absent node |
| `RoundRobin.Scheduler.Yield` | kernel/core/scheduler.c:44-54 | the list rotates by one; no slot contents change |
| `RoundRobin.AddThenRemove` | kernel/core/scheduler.c:16-38 | scheduler_add followed by scheduler_remove gives back the list, its head and every link, and leaves the slot READY with a NULL link |
| `ProcessSpec.StepQueue` | kernel/core/process.c:220-303 | every legal operation keeps: queue duplicate-free and READY only; READY means queued, or orphaned without a stack; RUNNING means current and not queued |
| `ProcessSpec.StepPids` | kernel/core/process.c:220-225 | every legal operation keeps the PIDs of created slots distinct and between 1 and the number of creations |
| `ProcessSpec.StepStacks` | kernel/core/process.c:237-262 | every legal operation keeps each occupied slot's stack a used block of its own with rsp at its end |
| `ProcessSpec.StepInv` | kernel/core/process.c:220-303 | the three together |
| `ProcessRuns.Safety` | kernel/core/process.c:220-303 | they hold in every reachable state |
| `ProcessRuns.DispatchBound` | kernel/core/process.c:272-303 | a process at queue index i stands at i + p - d after p pushes in front and d dispatches, and is dispatched by exactly the (i + 1 + p)-th dispatch |
| `ProcessRuns.PushedInFront` | kernel/core/process.c:224-246 | create and wakeup put their process at the head and move the others one place; a created one is READY with a stack nobody had |
| `ProcessRuns.LeaveParks` | kernel/core/process.c:265-303 | exit and sleep park a current process that is not queued as ZOMBIE or SLEEPING, whether it was running or not and whether or not another takes over; waking a sleeper makes it READY at the head |
| `ProcessRuns.OrphanLeft` | kernel/core/process.c:220-239 | a creation without memory for the stack returns NULL and leaves a READY slot with a PID, without a stack, outside the queue |
| `ProcessRuns.OrphanStays` | kernel/core/process.c:220-303 | over every run such a slot stays as it is until it is destroyed |
| `ProcessRuns.OrphanReached` | kernel/core/process.c:220-239 | a legal run from boot that leaves one |
| `ProcessRuns.LeaveExactly` | kernel/core/process.c:265-295 | exit and sleep park the current process exactly when it is not queued; they keep the queue invariant exactly then or when it heads the queue, and in that case it runs on |
| `ProcessRuns.ExitedRunsOn` | kernel/core/process.c:265-303 | create, yield, sleep, wakeup and exit of the only process leave it RUNNING and current |
| `ProcessRuns.ParkedExactly` | kernel/core/process.c:220-303 | an operation changes an exited or sleeping slot exactly when it destroys it, wakes it, or is its own exit or sleep while it is still current |
| `ProcessRuns.ParkedStays` | kernel/core/process.c:265-303 | over any run without such an operation an exited process never runs again and a sleeping one stays asleep |
| `ProcessRuns.RoundRobin` | kernel/core/process.c:272-287 | with only yields, a running process and n queued ones are back in the same state after n + 1 yields |
| `ProcessRuns.LookupUnique` | kernel/core/process.c:311-318 | a lookup returns the first created slot with that PID, NULL exactly when there is none; until the counter wraps it is the only one, and 0 is never found |
| `ProcessRuns.CreatedFoundExactly` | kernel/core/process.c:220-225 | the PID of a new process leads back to it exactly when no slot below carries it, always so before the counter wraps |
| `ProcessRuns.PidZeroAfterWrap` | kernel/core/process.c:225-225 | the 2^64-th creation gets PID 0 and a lookup of 0 then finds it |
| `ProcessRuns.Lives` | kernel/core/process.c:220-262 | any number of processes can be created, dispatched and destroyed one after the other in one slot, leaving queue and other slots as they were |
| `ProcessRuns.PidZeroReached` | kernel/core/process.c:224-225 | a legal run from boot after which a lookup of PID 0 finds a process |
| `ProcessRuns.StalePidReached` | kernel/core/process.c:224-225 | a legal run from boot after which two READY processes carry PID 1 and a lookup finds the older one |
| `ProcessRuns.OldPidsNeverRevive` | kernel/core/process.c:24-31 | over any run, a PID handed out before it is carried by the same process in the same slot or by none |
| `ProcessRuns.StacksDisjoint` | kernel/core/process.c:237-243 | distinct occupied slots own disjoint 8192-byte stacks inside the arena |
| `StackBytes.StackSurvives` | kernel/core/process.c:237-262 | over every run, until its process is destroyed, a stack keeps its place and, as long as nobody writes to it, all its 8192 bytes, whatever else is created, destroyed, allocated, zeroed, written and freed |
| `StackBytes.HeadersHold` | kernel/core/process.c:220-262 | over every such run the headers in memory spell out the heap of the process manager's state |
| `ProcessRuns.NeverOutOfStacks` | kernel/core/process.c:238-239 | under exclusive heap use there are as many used blocks as occupied slots and a further stack always fits |
| `ProcessRuns.CreateFailsExactly` | kernel/core/process.c:220-255 | under exclusive heap use process_create returns NULL exactly when all 256 slots are occupied |
| `ProcessRuns.NoStackFailure` | kernel/core/process.c:220-303 | exclusive use and the invariant hold after every legal run from boot whose operations leave the heap to the stacks |
| `Processes.Manager.ProcessInit` | kernel/core/process.c:210-217 | the loop clears every slot and link and leaves the head of the queue alone; the state invariant holds again exactly when nothing was queued |
| `Processes.Manager.FindFreeProcess` | kernel/core/process.c:24-31 | the first slot that is UNUSED or DEAD, or NULL |
| `Processes.Manager.Create` | kernel/core/process.c:220-255 | table, links, PID counter, heap list and RAM follow the pure step, including the orphan left by a failed stack allocation |
| `Processes.Manager.Destroy` | kernel/core/process.c:258-262 | the stack is freed and the slot is DEAD, nothing else |
| `Processes.Manager.Yield` | kernel/core/process.c:272-287 | the relinked list and the states follow the pure step, also when the current process has just stopped while still queued |
| `Processes.Manager.Exit` | kernel/core/process.c:265-269 | in every valid state the current process becomes ZOMBIE and the next one is dispatched, if any; the state stays valid when the current process has its slot and is not queued |
| `Processes.Manager.Sleep` | kernel/core/process.c:290-295 | the same with SLEEPING |
| `Processes.Manager.Wakeup` | kernel/core/process.c:298-303 | a SLEEPING process goes to the head of the queue; otherwise nothing happens |
| `Processes.Manager.GetProcessByPid` | kernel/core/process.c:311-318 | the loop finds the first created slot with the PID |
| `CStrings.Memcpy` | kernel/arch/x86_64/string.c:10-15 | for every overlap, destination byte k is the old source byte Origin(k); nothing else changes |
| `CStrings.OriginModulo` | kernel/arch/x86_64/string.c:10-15 | Origin(k) is k modulo the distance when the destination starts behind the source, and k otherwise |
| `CStrings.Memmove` | kernel/arch/x86_64/string.c:17-28 | for every overlap the destination holds the old source bytes and nothing else changes |
| `CStrings.ForwardCopyExactly` | kernel/arch/x86_64/string.c:10-28 | memcpy agrees with memmove exactly when dest <= src, the ranges are disjoint, or the source repeats with that period |
| `CStrings.Strstr` | kernel/arch/x86_64/string.c:84-95 | the leftmost occurrence, NULL exactly when there is none |
| `CStrings.Strcmp` | kernel/arch/x86_64/string.c:59-65 | the difference of the first bytes that differ |
| `CStrings.DiffZeroExactly` | kernel/arch/x86_64/string.c:59-65 | zero exactly on equal strings |
| `CStrings.DiffAtFirst` | kernel/arch/x86_64/string.c:59-65 | the result is the difference of the bytes at the first place where the strings differ or end |
| `CStrings.DiffAntisymmetric` | kernel/arch/x86_64/string.c:59-65 | swapping the arguments negates the result |
| `CStrings.DiffTransitive` | kernel/arch/x86_64/string.c:59-65 | the order is transitive |
| `Printer.PrintHex` | kernel/kernel_main.c:60-74 | "0x" and the hexadecimal numeral, for every 64-bit value |
| `Printer.DigitsSpelled` | kernel/kernel_main.c:60-74 | the digits are 0 to 9 and A to F |
| `Printer.HexRoundTrip` | kernel/kernel_main.c:60-74 | the numeral has no leading zero and evaluates to the value |
| `Printer.MinimalUnique` | kernel/kernel_main.c:60-74 | it is the only such numeral |
| `Printer.PrintInjective` | kernel/kernel_main.c:60-74 | distinct values print differently |
| `Printer.ReadDecimal` | kernel/arch/x86_64/shell.c:57-61 | the value of the leading digits modulo 2^64 |
| `Printer.DecRoundTrip` | kernel/arch/x86_64/shell.c:57-61 | the decimal numeral of v reads as v |
| `Printer.DigitsEnd` | kernel/arch/x86_64/shell.c:58-58 | reading stops at the first character that is not 0 to 9, and at no other |
| `Printer.CmdHex` | kernel/arch/x86_64/shell.c:57-65 | `hex` prints the hexadecimal of its argument's leading digits modulo 2^64 |
| `Keyboard.AccentedIsNegative` | kernel/arch/x86_64/keyboard.c:69-116 | whenever an accent changes a letter the result is negative |
| `Keyboard.Layout` | kernel/arch/x86_64/keyboard.c:11-16 | the keys without shift spell the rows of the keyboard |
| `Keyboard.ShiftedSigns` | kernel/arch/x86_64/keyboard.c:18-23 | so do the digit keys with shift |
| `Keyboard.ShiftedUpperRow` | kernel/arch/x86_64/keyboard.c:18-23 | and the upper letter row |
| `Keyboard.ShiftedLowerRows` | kernel/arch/x86_64/keyboard.c:18-23 | and the lower letter rows |
| `Keyboard.AccentKeys` | kernel/arch/x86_64/keyboard.c:27-45 | the keys 0x29, 0x2C and 0x2D give the accents, 0x27 and the keys without a character nothing one can store |
| `Keyboard.AccentTable` | kernel/arch/x86_64/keyboard.c:69-116 | which lower-case letters each accent changes, and into which byte |
| `Keyboard.ModifierKeys` | kernel/arch/x86_64/keyboard.c:123-155 | shift, control and alt hold while down, the locks change on each press, and neither they nor a release touch the line |
| `Keyboard.ControlKeys` | kernel/arch/x86_64/keyboard.c:157-204 | what Enter, Escape, Backspace and Tab do to the line; nothing but Enter submits |
| `Keyboard.OrdinaryKey` | kernel/arch/x86_64/keyboard.c:206-265 | a key adds its character, a letter in upper case under caps lock without shift; an accent key waits instead |
| `Keyboard.AccentThenLetter` | kernel/arch/x86_64/keyboard.c:227-238 | a letter that the pending accent does not change is added behind the accent |
| `Keyboard.AccentThenOther` | kernel/arch/x86_64/keyboard.c:227-265 | any other character is added alone and the accent stays pending |
| `Keyboard.BackspaceUndoes` | kernel/arch/x86_64/keyboard.c:167-177 | whatever key added one character, Backspace takes that character away |
| `Keyboard.ScanOk` | kernel/arch/x86_64/keyboard.c:123-266 | one scancode keeps the line within 255 characters, tab or printable ASCII only |
| `Keyboard.LineSafe` | kernel/arch/x86_64/keyboard.c:123-266 | so does every stream of scancodes |
| `Keyboard.RubOutUndoes` | kernel/arch/x86_64/keyboard.c:168-177 | backspace takes back what was typed exactly when the line was not full |
| `Keyboard.AccentedLetterVanishes` | kernel/arch/x86_64/keyboard.c:227-244 | an accent followed by a letter it applies to leaves no trace in the line |
| `Keyboard.Driver.KeyboardHandler` | kernel/arch/x86_64/keyboard.c:123-266 | buffer, position, dead key and modifiers follow the push/pop line model; Enter passes on the line with a NUL right behind it |
| `Typing.OnlyTypable` | kernel/arch/x86_64/keyboard.c:11-45 | no stream of scancodes puts a colon, a semicolon or one of X Z x z into the line |
| `Typing.TypedExactly` | kernel/arch/x86_64/keyboard.c:123-266 | a line can be typed exactly when it has at most 255 characters, all of them tab or printable ASCII other than these six |
| `Shell.SubmittedText` | kernel/arch/x86_64/keyboard.c:160-161 | the string the shell receives is exactly the edited line |
| `Shell.Tokenize` | kernel/arch/x86_64/shell.c:110-128 | the loops stay inside cmd[32] and args[224] and leave the command and the arguments there |
| `Shell.TokensExactly` | kernel/arch/x86_64/shell.c:117-128 | input = command + spaces + arguments exactly when at most 223 characters follow the spaces |
| `Shell.WholeWord` | kernel/arch/x86_64/shell.c:117-121 | the command is the whole first word exactly when that has at most 31 characters, and always a prefix of it |
| `Commands.StringCompare` | kernel/arch/x86_64/shell.c:7-13 | the difference of the first characters that differ, read as unsigned bytes |
| `Commands.ZeroExactly` | kernel/arch/x86_64/shell.c:7-13 | it is zero exactly on equal strings |
| `Commands.NamesSpelled` | kernel/arch/x86_64/shell.c:130-164 | the command words, spelled out |
| `Commands.Dispatch` | kernel/arch/x86_64/shell.c:130-169 | the chain of comparisons selects a handler exactly when the command word is its name |
| `Commands.CmdKmalloc` | kernel/arch/x86_64/shell.c:93-108 | `kmalloc` moves heap and memory by one kmalloc of its argument's leading digits modulo 2^64, and reports size and address |
| `Commands.AllocatedSays` | kernel/arch/x86_64/shell.c:98-107 | the usage line for size 0; otherwise the size first and the address second, both as numerals that read back |
| `Commands.HandleCommand` | kernel/arch/x86_64/shell.c:110-169 | from the line to the heap and the numeral: tokenizer, comparisons, decimal loop, kmalloc and printer together, for every line |
| `Commands.NumberOf` | kernel/arch/x86_64/shell.c:57-61 | an argument that starts with the numeral of v stands for v modulo 2^64 |
| `Commands.HexNeverTyped` | kernel/arch/x86_64/shell.c:157-159 | no stream of scancodes makes `hex` the command word |
| `Commands.CommandTypedExactly` | kernel/arch/x86_64/shell.c:130-164 | a command can be typed exactly when it is not `hex` |
| `Commands.KmallocTyped` | kernel/arch/x86_64/shell.c:93-143 | for every 64-bit number some stream of scancodes makes a line that asks kmalloc for it |

## Left out

- What happens after the page fault of an oversized `kcalloc`: the contract gives the memory at that point, and `HeapRuns` covers runs in which no call faults.
- `scheduler_remove` and `scheduler_yield` on a list that `scheduler_add` has closed into a cycle.
- Writes to RAM that belongs to no block in use: in the runs of `StackBytes` and `HeapRuns` clients write inside blocks in use.
- The same `next` field used by both ready lists at once: a slot is on one of them, as the kernel uses them.
- Process names, flags, priorities, sleep deadlines, tick counts and statistics: stored, never consulted by a scheduling decision.
- Context switching: the C code never calls `switch_context`, so a yield is the change of queue, states and current process.
- VGA text, scrolling, echo, status texts and the output of the shell commands other than `hex` and `kmalloc`: console output.
- Port and interrupt hardware, descriptor tables, boot and switch assembly, IPC stubs, syscall dispatch, and functions declared but not defined.
- `memcmp`, `strncmp`, `strchr`, `strcpy`, `strncpy`, `strlen`, `memset`: loops of the same kind that would only add easy members.
