# Verified models of AdrOS

AdrOS is a small Unix-like kernel written in C. This project models the parts of it where state is spread over
several operations and where a slip would stay unnoticed for long: the kernel heap, the scheduler, semaphores,
mutexes and mailboxes, shared address spaces, the boot image (an archive, compressed on the host and unpacked by
the kernel), the FAT and ext2 file systems, and the wildcard matcher of the C library. For each part the model does
what the code does, step by step, and the theorems are about all inputs, all runs or all reachable states.

`dafny verify dfyconfig.toml` checks everything.

## How the models are built

Code that changes things in place is modelled by classes and methods with the same loops and branches; each method
is proved against a specification on values, and what the code is for is proved about that specification. Pointers
into the kernel's own objects become indices; 32-bit arithmetic is unbounded except where a wrap-around changes the
outcome, and there it is written out. Concurrency is modelled by state machines whose steps are the sections of code
run under one lock.

| file | part of the system |
|---|---|
| Bits, Seqs, Words, Rings, Lists | bit masks, sequences, bytes and words, the two kinds of linked list |
| BuddyLayout, BuddyHeap | the buddy allocator of the kernel heap |
| Semaphore, SemaphoreRuns, Mailbox | counting semaphores, mutexes, bounded mailboxes, and all their interleavings |
| RunQueues, TimerQueue, Loads, Scheduler, Rounds | run queues, the sleep queue, load counters, the scheduling steps, fairness |
| AddressSpaces | reference counts of address spaces shared by threads |
| Lz4Format, Lz4Compress, Lz4Decompress, Lz4Frame | the block format, the host's compressor, the kernel's decompressor, the frame |
| TarFields, TarHeader, TarArchive | the archive the host writes and the kernel walks |
| InitrdPaths, InitrdTree, Initrd, InitrdContents, InitrdImage | the tree built from the archive, and the boot image end to end |
| FatTable, FatChains, FatVolume, FatFiles, FatSpace | FAT entries as bytes on a disk, cluster chains, the operations on them, and on a volume of files |
| Ext2Blocks, Ext2Tree, Ext2Map, Ext2Inode, Ext2Free | ext2 block bitmaps, index blocks, the map of a file and its release |
| Ext2Records, Ext2Dir | ext2 directory records, lookup, linking, unlinking and renaming |
| Fnmatch | matching with `*` and `?` |

## Main results

* Heap: blocks always tile the heap, coalescing is complete, an allocation fails exactly when no aligned free region
  of the needed order exists, and the layout is a function of what is held alone, so freeing undoes allocating.
* Semaphores: over every run of any number of threads, with timeouts, kills and spurious wake-ups, permits are
  neither made nor lost and no wake-up is lost; a mutex excludes and is not left stuck.
* Mailboxes: what is posted goes in, comes out once and in order under every interleaving, and no ring is overrun.
* Scheduler: every step keeps the lists, bitmaps, homes and states consistent; with N processes on a CPU each of them
  is chosen again within 2N expired slices and 6N ticks, and is one priority lower for every slice it used up.
* Boot image: for every list of files with normal paths the image the host builds is accepted by the kernel, a path
  leads to a file exactly when it was packed and no packed file stands in the way, and what is read is what was packed.
* FAT: entries of all three widths are written and read back independently of each other across sector borders, in all
  copies of the table; on a volume of files, allocating, extending, freeing and truncating keep all of them disjoint
  chains with the data they had, and extending fails exactly when too few clusters are free.
* ext2: setting a block changes the file's map there and nowhere else, index trees never share blocks, and releasing a
  file gives back exactly what it holds unless it has a triple-indirect tree; a directory behaves as a table of names
  under linking, unlinking and renaming, within one directory and between two.
* From end to end: a file packed by the host, booted and read by the kernel has the bytes it had
  (`InitrdImage.PackAndRead`); calls of `schedule` give every process its turn (`Scheduler.Scheduler.Ticks`).

## Properties the code does not have

For each of them there is the exact condition under which the code does have it, and an input at which it does not.

* A request of more than 8 MB less a header gets a heap block too small for it (`BuddyLayout.PayloadSuffices`,
  `BuddyHeap.ClampedRequest`).
* `kmbox_trypost` and `kmbox_tryfetch` take no permit for what they move, though they signal the other side, so mixed
  with the blocking calls they upset the balance whenever they move a message (`Mailbox.TryInsertUpsets`,
  `Mailbox.TryRemoveUpsets`, `Mailbox.TryPostOverflows`, `Mailbox.TryFetchUnderflows`).
* A shared clone is counted exactly if the table of 64 entries has room; otherwise the space is destroyed while in use
  (`AddressSpaces.ShareNeedsRoom`, `AddressSpaces.FullTableDestroysEarly`, `AddressSpaces.SixtyFifthSpace`).
* Moving a process to another CPU keeps every process on the CPU it runs on exactly if the process to be moved is not
  the one its CPU has yet to switch away from (`Scheduler.Scheduler.Balance`, `Scheduler.TornAway`). The comment above
  the loop says running processes are skipped; the code tests only the state.
* The load counter of a CPU, which is meant to be the number of its ready processes (include/sched_pcpu.h:25), stays
  right over a scheduling step exactly if the step does not end a slice while somebody waits
  (`Scheduler.Scheduler.Schedule`, `Loads.Expires`, `Scheduler.ThirdRuns`); waking, moving and leaving keep it right.
* Extending an empty FAT chain ends one cluster short of any request above one (`FatFiles.ReachedSuffices`,
  `FatFiles.TwoClustersAskedOneGot`).
* Truncating keeps the clusters needed exactly if length plus cluster size does not wrap (`FatFiles.KeptSuffices`,
  `FatFiles.LargeFileLost`).
* A write that extends a FAT file leaves it its chain exactly if enough clusters are free (`FatSpace.WriteExtends`,
  `FatSpace.FullVolumeLosesFile`, `FatSpace.SmallVolumeLosesFile`).
* Freeing an ext2 block keeps the free count right exactly if the block was in use or the call ignores it, as it does
  block 0 and blocks beyond the groups (`Ext2Blocks.Allocator.FreeBlock`, `Ext2Blocks.FreedTwice`,
  `Ext2Blocks.SecondFreeMiscounts`); the last group is searched one bit too far when block numbers start at 1
  (`Ext2Blocks.LowestFreeOnDevice`, `Ext2Blocks.PastTheEnd`, `Ext2Blocks.PastTheEndOfFour`).
* Releasing an inode gives back all it holds exactly if it has no triple-indirect tree or an empty one
  (`Ext2Free.ReleasesAllIff`, `Ext2Free.TripleFileLeaks`).
* Renaming keeps names unique exactly if the new name is not another one of the same file (`Ext2Dir.Directory.Rename`,
  `Ext2Dir.TwinRename`), and the file keeps a name exactly if there is space for the new entry once the old ones are
  struck out, or a block can be added (`Ext2Dir.Directory.Rename`, `Ext2Dir.FullRename`, `Ext2Dir.CrowdedRename`).
* An unlink that fails leaves the directory alone exactly if the name is not that of a directory: the entry is removed
  before that is tested (`Ext2Dir.Directory.UnlinkFile`, `Ext2Dir.UnlinkedDirectory`).

Three exact conditions hold for every call there is in the kernel. A name of 256 bytes or more would be linked under a
shorter one (`Ext2Dir.Directory.Link`), but names come from buffers of 128 bytes (src/kernel/fs.c:507, 520, 580, 593,
608 and 736). A read of a boot file would leave it if offset plus size wrapped to a value within it
(`InitrdImage.ReadStaysInside`), but callers ask for at most the length of the file or a small chunk
(src/kernel/syscall.c:2956 and 4562, src/arch/x86/elf.c:334, src/kernel/kconsole.c:405), and no file exceeds 256 MB.
A signal would upset the permits of a semaphore whose count is at its largest 32-bit value (`SemaphoreRuns.StepKeeps`,
`SemaphoreRuns.CountComesRound`), but counts start at 255 or less (src/kernel/sync.c:144, 173 and 174,
src/drivers/e1000.c:270, src/net/lwip_port/sys_arch.c:41-45) and 2147483392 signals without a wait would have to follow.

Two comments disagree with the code beside them, and the model follows the code: the heap's block header is 16 bytes,
not 8 (src/mm/heap.c:26 and 40-46), and see the note on moving processes above.

## Model

| member | source | states |
|---|---|---|
| `Rings.AddedRing` | src/mm/heap.c:71-76 | the writes of `fl_add` put a node at the front of one circular list and leave every other link alone |
| `Rings.DeletedRing` | src/mm/heap.c:77-80 | the writes of `fl_del` take a node out of its circular list wherever it stands and leave every other link alone |
| `BuddyHeap.Heap.FlAdd` | src/mm/heap.c:71-76 | all free lists stay well linked; the list of the given order gains the block at its front |
| `BuddyHeap.Heap.FlDel` | src/mm/heap.c:77-80 | all free lists stay well linked; exactly that block is no longer listed |
| `BuddyLayout.BuddyOfIsBuddy` | src/mm/heap.c:90-97 | the XOR of the offset is the other half of the enclosing block, for every block below the top order |
| `BuddyLayout.BuddyIsBlock` | src/mm/heap.c:236-243 | the buddy address is always the start of a block of at most the same order, so the header read there is a header |
| `BuddyHeap.Heap.SizeToOrder` | src/mm/heap.c:99-105 | the order chosen is the one the specification calls for, including the clamp and the wrap of 32-bit sums |
| `BuddyLayout.OrderIsLeast` | src/mm/heap.c:99-105 | no smaller order has a payload that large |
| `BuddyLayout.PayloadSuffices` | src/mm/heap.c:99-105 | the payload holds the request if and only if the request is at most the heap size less a header |
| `BuddyHeap.ClampedRequest` | src/mm/heap.c:99-105 | a request for the whole heap gets a payload too small for it |
| `BuddyHeap.Heap.constructor` | src/mm/heap.c:109-142 | the heap starts as one free block of the top order, all invariants established |
| `BuddyHeap.Heap.SplitOff` | src/mm/heap.c:181-193 | splitting keeps tiling, completeness of coalescing, headers and lists, and what others hold |
| `BuddyHeap.Heap.Serve` | src/mm/heap.c:166-198 | taking the first block of the smallest sufficient list and splitting it down grants a best-fit block of the right order, and the pointer is the byte after its header |
| `BuddyHeap.Heap.Kmalloc` | src/mm/heap.c:144-199 | NULL if and only if the size is 0 or no aligned free region of its order exists anywhere; otherwise a best-fit block not held before, all else held unchanged, and the bytes asked for lie 16-byte aligned between its header and its end unless the request was clamped |
| `BuddyLayout.FreeRegionInFreeBlock` | src/mm/heap.c:152-164 | with coalescing complete, every unused aligned region lies inside one free block, so looking at list heads is enough |
| `BuddyHeap.NoneFree` | src/mm/heap.c:152-164 | empty lists from an order up mean no unused region that large |
| `BuddyHeap.Heap.Absorb` | src/mm/heap.c:245-253 | joining a free buddy keeps all invariants and what others hold |
| `BuddyHeap.Heap.Return` | src/mm/heap.c:232-257 | giving back a block removes it from what is held and nothing else, with coalescing complete afterwards |
| `BuddyHeap.Heap.Kfree` | src/mm/heap.c:201-260 | a held block is given back; a free block and a pointer to no block are detected and change nothing |
| `BuddyHeap.FreeUndoesMalloc` | src/mm/heap.c:144-260 | freeing what was just allocated restores the layout the allocation found, whatever was split |
| `BuddyHeap.MallocThenFree` | src/mm/heap.c:144-260 | whatever `kmalloc` returns can be given to `kfree`, which frees it, or ignores NULL, and the layout is as before |
| `BuddyLayout.LayoutIsCanonical` | src/mm/heap.c:144-260 | two heaps with the same blocks held have the same layout, whatever calls led there |
| `BuddyLayout.AllFreed` | src/mm/heap.c:201-260 | once nothing is held the heap is the single block it started as |
| `BuddyHeap.HeldPayloads` | src/mm/heap.c:144-199 | payloads are 16-byte aligned, inside the heap, and end before the header of any later block |
| `BuddyHeap.Heap.Store` | src/mm/heap.c:39-66 | writing anything anywhere in a held payload, over old headers and links, keeps the heap consistent |
| `Semaphore.KSem.constructor` | src/kernel/sync.c:24-31 | count as given, nobody waiting |
| `Semaphore.KSem.RemoveSlot` | src/kernel/sync.c:80-82 | shifting the later waiters down removes exactly one of them and keeps their order |
| `Semaphore.KSem.WaitEnter` | src/kernel/sync.c:40-66 | takes a permit, parks the caller at the end of the list, or fails when the list is full, as the specification of the step says |
| `Semaphore.EnterDoes` | src/kernel/sync.c:41-65 | a waiter goes to the end of the list and sleeps if and only if its wait is timed; otherwise a permit is taken or nothing changes |
| `Semaphore.KSem.WaitLeave` | src/kernel/sync.c:69-101 | reports a timeout if and only if the caller is still listed, and takes it off the list |
| `Semaphore.KSem.Signal` | src/kernel/sync.c:103-136 | hands the permit to the first waiter still blocked or sleeping, else adds it to the count |
| `Semaphore.EnterKeeps` | src/kernel/sync.c:40-66 | entering keeps: listed exactly the waiting threads, once each; a listed sleeper only while there is no permit |
| `Semaphore.LeaveKeeps` | src/kernel/sync.c:69-101 | leaving keeps both |
| `Semaphore.OtherKeeps` | src/kernel/sync.c:74-136 | wake-ups and sleeps elsewhere keep both |
| `Semaphore.SignalKeeps` | src/kernel/sync.c:103-136 | a signal keeps both, and either serves one dormant waiter with the count unchanged or adds one to the count |
| `SemaphoreRuns.StepKeeps` | src/kernel/sync.c:33-136 | every step of every thread keeps listing, no lost wake-up, and the balance of permits, if and only if it is not a signal with the count at its largest 32-bit value |
| `SemaphoreRuns.RunKeeps` | src/kernel/sync.c:33-136 | so does every run in which no signal finds the count there |
| `SemaphoreRuns.FewPermits` | src/kernel/sync.c:103-136 | no signal does while initial permits and posts fit the 32-bit count |
| `SemaphoreRuns.CountComesRound` | src/kernel/sync.c:103-136 | a semaphore that starts at the largest value is out of balance after one signal |
| `SemaphoreRuns.InitInv` | src/kernel/sync.c:24-31 | a fresh semaphore satisfies the invariant |
| `SemaphoreRuns.SleepsIffTimed` | src/kernel/sync.c:55-64 | in every run a waiting thread is asleep, for the timer to wake, if and only if its last wait was timed |
| `SemaphoreRuns.MutexExclusion` | src/kernel/sync.c:142-155 | at most one thread is inside a mutex in every reachable state |
| `SemaphoreRuns.MutexNotStuck` | src/kernel/sync.c:142-155 | a thread sleeps on a mutex only while some thread holds it or has just been handed it |
| `Mailbox.PutAppends` | src/kernel/sync.c:185-196 | an insert appends to the contents of the ring |
| `Mailbox.TakeRemoves` | src/kernel/sync.c:215-231 | a removal takes the first of the contents |
| `Mailbox.KMailbox.constructor` | src/kernel/sync.c:161-176 | an empty ring of the given capacity |
| `Mailbox.KMailbox.Insert` | src/kernel/sync.c:185-196 | the locked section of a post, on the ring as a value |
| `Mailbox.KMailbox.Remove` | src/kernel/sync.c:215-231 | the locked section of a fetch, on the ring as a value |
| `Mailbox.StepIsSafe` | src/kernel/sync.c:185-231 | in every reachable state no insert meets a full ring and no removal an empty one |
| `Mailbox.StepKeeps` | src/kernel/sync.c:185-231 | every step keeps the balance of slots, of messages, their order, and the waiting lists |
| `Mailbox.MailboxFifo` | src/kernel/sync.c:161-231 | over every interleaving what goes into the ring is, insertion by insertion, what each thread was last asked to post; messages come out once and in order, within capacity, and nobody is about to overrun the ring |
| `Mailbox.FetchDelivers` | src/kernel/sync.c:215-231 | whoever makes the k-th removal gets the first message of the ring, which is the k-th posted |
| `Mailbox.NoMissedWork` | src/kernel/sync.c:185-231 | when all is quiet a poster sleeps only on a full ring and a fetcher only on an empty one |
| `Mailbox.TryInsertUpsets` | src/kernel/sync.c:198-213 | `kmbox_trypost` keeps slot permits in balance if and only if the ring was full |
| `Mailbox.TryRemoveUpsets` | src/kernel/sync.c:233-250 | `kmbox_tryfetch` keeps message permits in balance if and only if the ring was empty |
| `Mailbox.TryPostOverflows` | src/kernel/sync.c:198-213 | one thread and one slot: a trypost and a post are about to overwrite an unread message |
| `Mailbox.TryFetchUnderflows` | src/kernel/sync.c:233-250 | one thread and one slot: a post, a tryfetch and a fetch are about to read a message that is not there |
| `AddressSpaces.RefTable.constructor` | src/kernel/scheduler.c:12-14 | an empty table of 64 slots |
| `AddressSpaces.InitInv` | src/kernel/scheduler.c:12-14 | one process in its own space and an empty table satisfy the invariant |
| `AddressSpaces.RefTable.FindSlot` | src/kernel/scheduler.c:18-20 | the first slot of the space |
| `AddressSpaces.RefTable.Increment` | src/kernel/scheduler.c:16-24 | raises the count of the space or claims the first free slot with the right start count; a full table is left as it was |
| `AddressSpaces.RefTable.Decrement` | src/kernel/scheduler.c:36-47 | lowers the count, empties the slot at the end, and returns what is left |
| `AddressSpaces.ShareKeeps` | src/kernel/scheduler.c:868-885 | a shared clone keeps the count of every space equal to its number of users |
| `AddressSpaces.ShareFailsKeeps` | src/kernel/scheduler.c:941-957 | so does a clone that fails after sharing |
| `AddressSpaces.ReapKeeps` | src/kernel/scheduler.c:407-423 | a reap destroys the space if and only if the process was its last user |
| `AddressSpaces.StepKeeps` | src/kernel/scheduler.c:407-423 | every step keeps counts equal to users and live spaces equal to used ones |
| `AddressSpaces.ShareNeedsRoom` | src/kernel/scheduler.c:16-24 | sharing keeps the books if and only if the table has an entry or a free slot for the space |
| `AddressSpaces.FullTableDestroysEarly` | src/kernel/scheduler.c:407-423 | without room, reaping the thread destroys the space its parent still runs in |
| `AddressSpaces.SixtyFifthSpace` | src/kernel/scheduler.c:16-24 | 64 shared spaces and everything in order: a thread in a 65th, once reaped, takes with it the space its parent runs in |
| `AddressSpaces.DestroyedOnce` | src/kernel/scheduler.c:407-423 | over every run each space is destroyed exactly once per creation, and only without users |
| `Lists.LinkedList` | src/kernel/scheduler.c:211-220 | the pointer writes that insert an element make exactly the longer list, forwards and backwards |
| `Lists.UnlinkedList` | src/kernel/scheduler.c:222-232 | the pointer writes that remove an element make exactly the shorter list |
| `Scheduler.Scheduler.constructor` | src/kernel/scheduler.c:1004-1018 | every CPU starts with its idle process running and a full slice; all others are blocked |
| `Scheduler.Scheduler.Enqueue` | src/kernel/scheduler.c:211-220 | the process goes to the end of one list; all lists, homes and bitmaps stay right |
| `Scheduler.Scheduler.Dequeue` | src/kernel/scheduler.c:222-232 | the process leaves its list wherever it stands; the bit is cleared if and only if the list is empty |
| `Scheduler.Scheduler.RemoveIfQueued` | src/kernel/scheduler.c:234-252 | the process is taken off the lists of its CPU if it is on one, nothing else changes |
| `RunQueues.LowestBit` | src/kernel/scheduler.c:207-209 | the trailing-zero count is the lowest bit set |
| `Scheduler.Scheduler.PickNext` | src/kernel/scheduler.c:316-331 | the longest waiting process of the most urgent list; the arrays change places if and only if the active one is empty; NULL if and only if both are |
| `Scheduler.Scheduler.EnqueueReady` | src/kernel/scheduler.c:333-347 | a process made ready joins the list of its priority and CPU and leaves the sleep queue, whose order need not count its own tick, cleared before |
| `Scheduler.Scheduler.Wake` | src/kernel/scheduler.c:482-492 | a signal makes a blocked or sleeping process ready, at the end of its list in the active array; others are left alone |
| `Scheduler.Scheduler.MakeReady` | src/kernel/scheduler.c:487-492 | a process that becomes ready joins the end of its list in the active array and is counted; the load counters stay right |
| `Scheduler.Scheduler.RunOut` | src/kernel/scheduler.c:1228-1231 | the used-up process is ready, one priority lower up to the lowest, at the end of that list of the expired array |
| `Scheduler.BoostUndoesDecay` | src/kernel/scheduler.c:1230 | between the ends of the range waking up on time makes good for one used-up slice; the ends stay |
| `Scheduler.Scheduler.Choose` | src/kernel/scheduler.c:1240-1272 | whoever is chosen is on no list any more, belongs to this CPU, and nobody left in the active array is more urgent |
| `Scheduler.Scheduler.Install` | src/kernel/scheduler.c:1274-1283 | the process chosen is the running one with a full slice |
| `Scheduler.Scheduler.Schedule` | src/kernel/scheduler.c:1204-1283 | every step keeps all invariants, with one running process per CPU on no list; a tick of a running process is a step of the round model; right load counters stay right if and only if it is not the end of a slice with somebody waiting |
| `Scheduler.Scheduler.ViewIsSane` | src/kernel/scheduler.c:1204-1283 | in every valid state nobody waits twice or waits while running, and no slice exceeds two ticks |
| `Rounds.Nearer` | src/kernel/scheduler.c:316-331 | every expired slice brings every process nearer to its turn, whoever is chosen |
| `Rounds.EveryoneRuns` | src/kernel/scheduler.c:1222-1279 | with N processes each is chosen within 2N expired slices and 6N ticks, in every trace of the round model |
| `Scheduler.Scheduler.Ticks` | src/kernel/scheduler.c:1204-1283 | n calls of `schedule` are a trace of the round model, with 6N or more of them every process of the CPU has been chosen, and each is as many priorities lower as it has used up slices, up to the lowest |
| `Scheduler.Scheduler.Rouse` | src/kernel/scheduler.c:1354-1361 | a sleeper whose time has come is ready again, one priority higher, in the active array |
| `Scheduler.Scheduler.WakeCheck` | src/kernel/scheduler.c:1348-1362 | exactly the sleepers that are due leave the queue and become ready; nobody else changes |
| `Scheduler.Extremes` | src/kernel/scheduler.c:1445-1452 | the CPUs with the largest and the smallest load |
| `Scheduler.Scheduler.Victim` | src/kernel/scheduler.c:1459-1480 | the process the specification names: the first one that is not the idle process, of the least urgent list with one, expired array first; NULL if and only if none waits |
| `Scheduler.Scheduler.Balance` | src/kernel/scheduler.c:1438-1487 | moves exactly that process, and its count, if and only if the load counters differ by two or more and there is one; keeps every process on the CPU it runs on if and only if the process so named before the call is not the current one of its CPU |
| `Scheduler.WokenTooEarly` | src/kernel/scheduler.c:482-492 | a process that blocks and is woken before its CPU has switched is current and is the one its CPU would give away |
| `Scheduler.TornAway` | src/kernel/scheduler.c:1438-1487 | two CPUs whose counters have come to 2 and 0: that process is moved while its CPU still runs it |
| `Scheduler.ThirdRuns` | src/kernel/scheduler.c:1226-1247 | after the first slice has ended, a process waits and its CPU counts none |
| `Loads.Joins` | src/kernel/sched_pcpu.c:47-50 | a process that starts to wait and is counted keeps the counters right, or wrong |
| `Loads.Leaves` | src/kernel/sched_pcpu.c:52-57 | one that is picked and no longer counted keeps them right |
| `Loads.Expires` | src/kernel/scheduler.c:1226-1247 | the end of a slice, which counts who leaves and not who joins, keeps them right if and only if nobody waited |
| `Loads.Migrates` | src/kernel/scheduler.c:1482-1487 | a move to another CPU keeps them right |
| `TimerQueue.Queue.Insert` | src/kernel/scheduler.c:257-273 | the process lands behind all that are due earlier and before all others; the queue stays sorted |
| `TimerQueue.Queue.Remove` | src/kernel/scheduler.c:275-283 | takes the process out if it is in, the others keep their order |
| `TimerQueue.Queue.Arm` | src/kernel/scheduler.c:1320-1332 | a process put to sleep is queued once, at its new time, wherever it was before |
| `TimerQueue.Queue.PopDue` | src/kernel/scheduler.c:1351-1353 | the head if it is due, else nothing |
| `Lz4Format.DecodeInvertsEncode` | src/kernel/lz4.c:36-98 | decoding the encoding of any valid list of sequences replays it |
| `Lz4Format.KnownBlock` | tools/mkinitrd.c:84-130 | the ten bytes of one known block: literal count in the high half of the token, match length less four in the low half, offset low byte first |
| `Lz4Format.CopyReproduces` | tools/mkinitrd.c:65-74 | copying a match reproduces the data, also where the copy reads what it has just written |
| `Lz4Decompress.ReadExtra` | src/kernel/lz4.c:52-60 | the run of length bytes ends at the first below 255 or fails at the end of input, as the format says |
| `Lz4Decompress.CopyMatch` | src/kernel/lz4.c:89-94 | the byte-wise copy equals the overlapping copy of the format |
| `Lz4Decompress.DecompressBlock` | src/kernel/lz4.c:36-98 | for every input and capacity: -1 exactly when the format is violated, else the decoded bytes and nothing written outside |
| `Lz4Compress.Hash4` | tools/mkinitrd.c:30-34 | the hash is always an index of the table |
| `Lz4Compress.ExtendMatch` | tools/mkinitrd.c:71-74 | the longest match: it repeats what stands there, ends before the last literals, and no longer one does |
| `Lz4Compress.SequencePays` | tools/mkinitrd.c:76-81 | a sequence never takes more than its share of n + n/255 |
| `Lz4Compress.LastPays` | tools/mkinitrd.c:116-120 | the final literals fit in n + n/255 + 16 |
| `Lz4Compress.CompressBlock` | tools/mkinitrd.c:40-135 | a successful result is a block for exactly the source that obeys the end rules; with the worst-case buffer it never fails, for 1 to 0x7E000000 bytes |
| `Lz4Compress.SizeFieldIsPlain` | tools/mkinitrd.c:313-316 | the size field of the frame has bit 31 clear |
| `Lz4Frame.BlockRoundTrip` | src/kernel/lz4.c:36-98 | decompressing a compressed block gives back exactly the source |
| `Lz4Frame.FrameReadsBack` | src/kernel/lz4.c:116-217 | a frame around a block is read back as its content, both checksums accepted |
| `Lz4Frame.AcceptedFrame` | src/kernel/lz4.c:116-217 | an accepted frame has the magic, version 1 and independent blocks, the checksum of its descriptor behind it, and where announced the length of its content and a word that is its checksum |
| `Lz4Frame.DecompressBlocks` | src/kernel/lz4.c:169-202 | the loop over data blocks equals its specification for every input |
| `Lz4Frame.DecompressFrame` | src/kernel/lz4.c:116-217 | the whole frame decoder equals its specification for every input |
| `Lz4Frame.WriteImage` | tools/mkinitrd.c:313-375 | an archive of admissible size is wrapped in an image that decodes to it and carries its size where the kernel looks for it; any other is written as it is |
| `TarFields.WriteOctal` | tools/mkinitrd.c:171-186 | the field holds the last digits of the number, padded with zeros and ended by NUL |
| `TarFields.ParseOctal` | src/drivers/initrd.c:90-98 | reads up to a NUL, skips what is no octal digit, in 32 bits |
| `TarFields.OctalReadsBack` | src/drivers/initrd.c:90-98 | a number that fits its field is read back, whatever follows |
| `TarFields.ReadChecksum` | src/drivers/initrd.c:459-469 | adds up the header with its own field as spaces |
| `TarHeader.AddUp` | tools/mkinitrd.c:188-195 | adds up all bytes |
| `TarHeader.BuildHeader` | tools/mkinitrd.c:270-290 | lays out the header with the checksum in its field |
| `TarHeader.HeaderLayout` | tools/mkinitrd.c:272-289 | name, size, checksum, type and magic stand at their offsets |
| `TarHeader.HeaderReadsBack` | src/drivers/initrd.c:425-474 | a header is read back as name, size and kind, and its checksum agrees |
| `TarHeader.TakenIsChecked` | src/drivers/initrd.c:442-474 | a header that is taken has a right checksum, its own field counted as spaces, and an acceptable size |
| `TarArchive.Pack` | tools/mkinitrd.c:230-309 | headers, contents and padding of all files in order, then two zero blocks |
| `TarArchive.AdvanceIs` | src/drivers/initrd.c:453 | a member takes its header and the fewest whole blocks that hold its content |
| `TarArchive.ScanFinds` | src/drivers/initrd.c:421-457 | for any header code with an inverse, the walk finds exactly the members written |
| `TarArchive.ArchiveReadsBack` | src/drivers/initrd.c:421-514 | the archive of any list of files is accepted; names, places and bytes are found again, and nothing else |
| `Initrd.SkipSlashes` | src/drivers/initrd.c:183 | skips slashes |
| `Initrd.Component` | src/drivers/initrd.c:187-192 | the next path component, cut to 127 bytes |
| `InitrdPaths.SplitJoin` | src/drivers/initrd.c:177-207 | taking apart a joined path gives back its components |
| `InitrdPaths.NormalSurvives` | src/drivers/initrd.c:476-489 | a normal path is not changed by the stripping of `./` and of a last slash |
| `InitrdTree.PathInjective` | src/drivers/initrd.c:148-169 | different entries have different paths |
| `InitrdTree.AddedRepresents` | src/drivers/initrd.c:157-169 | a new child adds exactly its path to what the table stands for |
| `InitrdTree.FiledRepresents` | src/drivers/initrd.c:503-508 | making an entry a file changes the meaning of its path and of no other |
| `Initrd.Table.FindChild` | src/drivers/initrd.c:148-155 | finds the child of that name if and only if its path exists |
| `Initrd.Table.AddChild` | src/drivers/initrd.c:157-169 | puts the child at the front of the list of its parent |
| `Initrd.Table.EnsureDir` | src/drivers/initrd.c:171-175 | the directory exists afterwards; an existing entry is kept |
| `Initrd.Table.EnsurePath` | src/drivers/initrd.c:177-207 | all directories above the last component exist afterwards; fails if and only if there is no component |
| `Initrd.Table.Place` | src/drivers/initrd.c:476-511 | one member changes the map of paths as specified |
| `Initrd.Examine` | src/drivers/initrd.c:422-474 | a header block is classified as the specification says |
| `Initrd.Table.Load` | src/drivers/initrd.c:404-514 | the archive is taken in whole, as the fold over its members, or not at all |
| `InitrdContents.FoundIff` | src/drivers/initrd.c:225-240 | a path leads to a file if and only if it was packed and no packed path is a proper part of it |
| `InitrdContents.ArchiveContents` | src/drivers/initrd.c:404-514 | for every list of files with normal paths: accepted, found exactly as packed, byte for byte |
| `InitrdImage.Unpack` | src/drivers/initrd.c:320-402 | frame, older block format or plain archive, as specified |
| `InitrdImage.OlderUnpacks` | src/drivers/initrd.c:366-396 | an image of the older format whose block decodes to the announced length yields that content |
| `InitrdImage.BuildImage` | tools/mkinitrd.c:213-375 | the image unpacks to an archive in which every packed file is found and no other; one too large for the compressor does unless it starts like something compressed |
| `InitrdImage.Boot` | src/drivers/initrd.c:320-521 | loads an image if and only if it unpacks and its archive is accepted |
| `InitrdImage.Walk` | src/kernel/fs.c:357-386 | following a path from the root finds its entry if and only if it is reachable through directories |
| `InitrdImage.ReadStaysInside` | src/drivers/initrd.c:217-222 | a read stays inside the file if and only if the 32-bit sum does not wrap to a value within it |
| `InitrdImage.Read` | src/drivers/initrd.c:209-223 | the bytes of the file at that offset, cut at its end, whenever the read stays inside |
| `InitrdImage.PackAndRead` | tools/mkinitrd.c:213-375 | packed, compressed, booted, looked up and read: a path leads to a file if and only if it was packed and nothing stands in the way, and the bytes read are those packed |
| `FatTable.TypeSeparates` | src/kernel/fat.c:1310-1317 | cluster numbers and end marks never meet, exactly as long as a FAT32 volume stays below the first mark |
| `FatTable.Entry12Is` | src/kernel/fat.c:132-180 | two 12-bit entries share three bytes, the even one having the low half of the middle one |
| `FatTable.Entry16Is` | src/kernel/fat.c:132-180 | a 16-bit entry is two bytes, low first |
| `FatTable.Entry32Is` | src/kernel/fat.c:132-180 | a 32-bit entry is the low 28 bits of four bytes, low first |
| `FatTable.EntryOfUpdate` | src/kernel/fat.c:182-249 | an entry reads back as what was written, cut to its width |
| `FatTable.SharedByte` | src/kernel/fat.c:208-232 | neighbouring 12-bit entries share a byte without disturbing each other |
| `FatTable.OtherEntries` | src/kernel/fat.c:182-249 | writing an entry changes no other entry |
| `FatTable.ReservedKept` | src/kernel/fat.c:239-244 | an update of a 32-bit entry keeps its four reserved bits and every other byte |
| `FatVolume.MixedBytes` | src/kernel/fat.c:209-231 | updating the two bytes of a straddling entry one by one equals updating them as a word |
| `FatVolume.Volume.Mount` | src/kernel/fat.c:1191-1317 | where the first table and cluster 2 start, how many clusters there are, and which type that makes; the tables lie before the data and cover all clusters |
| `FatVolume.Volume.GetEntry` | src/kernel/fat.c:132-180 | reads the entry of the first table from the sectors of the disk, straddling entries included |
| `FatVolume.Volume.SetEntry` | src/kernel/fat.c:182-249 | every copy of the table gets the new entry and stays like the others; nothing outside the tables is written, the root directory behind them included |
| `FatFiles.ZeroCluster` | src/kernel/fat.c:313-319 | the bytes of the cluster are zero, every other byte of the disk is as it was |
| `FatFiles.AllocCluster` | src/kernel/fat.c:308-324 | the first free cluster is marked as an end and zeroed, 0 if there is none; nothing is written but the tables and clusters that were free |
| `FatFiles.ClusterKept` | src/kernel/fat.c:308-324 | such a write leaves the data of every cluster that was not free as it was |
| `FatFiles.AddCluster` | src/kernel/fat.c:355-361 | one zeroed cluster that was free goes behind the last one, or there is none and nothing has changed |
| `FatFiles.FollowChain` | src/kernel/fat.c:285-293 | the n-th cluster of the chain, or 0 past its end |
| `FatFiles.ExtendChain` | src/kernel/fat.c:329-364 | the chain grows by free clusters, all zeroed, to the specified length; it fails if and only if fewer are free, and then has taken all of them; nothing is written but the tables and clusters that were free |
| `FatFiles.ReachedSuffices` | src/kernel/fat.c:329-364 | the length asked for is reached if and only if there was a chain or at most one cluster was asked for |
| `FatFiles.TwoClustersAskedOneGot` | src/kernel/fat.c:329-364 | on any volume with a free cluster: an empty chain extended to two clusters succeeds and has one |
| `FatFiles.FreeChain` | src/kernel/fat.c:367-383 | exactly the clusters of the chain become free, and nothing outside the tables is written |
| `FatFiles.Truncate` | src/kernel/fat.c:1128-1156 | the chain is cut after the clusters kept and the rest is free, and nothing outside the tables is written |
| `FatFiles.KeptSuffices` | src/kernel/fat.c:1136-1137 | the clusters kept are those the length needs if and only if the 32-bit sum does not wrap |
| `FatFiles.ClustersLeast` | src/kernel/fat.c:1136-1137 | the clusters a length needs hold it, and one fewer would not |
| `FatFiles.LargeFileLost` | src/kernel/fat.c:1136-1137 | a length just below 4 GB in clusters of one sector: the sum wraps and no cluster is kept |
| `FatFiles.TruncateKeepsFiles` | src/kernel/fat.c:1128-1156 | truncating one file leaves all files disjoint chains |
| `FatFiles.ExtendKeepsFiles` | src/kernel/fat.c:329-364 | extending one file leaves all files disjoint chains |
| `FatFiles.ChainIsShort` | src/kernel/fat.c:285-293 | a chain has at most as many clusters as the volume, so every walk ends |
| `FatChains.DropFile` | src/kernel/fat.c:367-383 | freeing the chain of one file leaves the others as they are |
| `FatChains.AddFile` | src/kernel/fat.c:308-324 | a free cluster marked as an end is a new file, disjoint from all others |
| `FatChains.AddGrown` | src/kernel/fat.c:329-364 | free clusters that have become a chain are a new file, disjoint from all others |
| `FatSpace.NewFile` | src/kernel/fat.c:308-324 | on a volume of disjoint files: a new file of one cluster of zeros, 0 if and only if none is free; the data of all files is as it was |
| `FatSpace.SparedFiles` | src/kernel/fat.c:308-324 | a write to tables and free clusters leaves the data of every file as it was |
| `FatSpace.DeleteFile` | src/kernel/fat.c:367-383 | the other files stay disjoint chains and exactly the clusters of this one are free; nothing outside the tables is written |
| `FatSpace.GrowFile` | src/kernel/fat.c:329-364 | whether or not the free clusters suffice, all files stay disjoint chains with their data, the new clusters hold zeros, and no cluster is lost to the count |
| `FatSpace.ShrinkFile` | src/kernel/fat.c:1128-1162 | the file keeps the first clusters of its chain or none, the others stay as they are; nothing outside the tables is written |
| `FatSpace.WriteExtends` | src/kernel/fat.c:650-656 | a write that must extend the file keeps its chain if and only if enough clusters are free; if not, the first-cluster field is 0 and the chain, grown by all free clusters, is no file any more; the data of all files is as it was |
| `FatSpace.FullVolumeLosesFile` | src/kernel/fat.c:650-656 | on any empty volume: a file that has filled it and is written once more at its end is lost |
| `FatSpace.SmallVolumeLosesFile` | src/kernel/fat.c:650-656 | a newly formatted volume of sixteen clusters on which this happens |
| `Ext2Blocks.Allocator.FindClear` | src/kernel/ext2.c:510-517 | the first clear bit of a group within its limit |
| `Ext2Blocks.Allocator.AllocBlock` | src/kernel/ext2.c:497-533 | the lowest free block is taken, or all are in use; counts stay right |
| `Ext2Blocks.Allocator.FreeBlock` | src/kernel/ext2.c:535-555 | for every block number: that block becomes free and no other; the counts stay right if and only if it is ignored, being 0 or beyond the groups, or was in use |
| `Ext2Blocks.FreedBit` | src/kernel/ext2.c:547-551 | clearing and counting the bit of a block, past the limit of the last group or not, leaves a right count if and only if the block was in use |
| `Ext2Blocks.FreedTwice` | src/kernel/ext2.c:535-555 | on any device: a block allocated, freed and freed again leaves a wrong count |
| `Ext2Blocks.SecondFreeMiscounts` | src/kernel/ext2.c:535-555 | a device of four blocks on which this happens to block 3 |
| `Ext2Blocks.LowestFreeOnDevice` | src/kernel/ext2.c:510-514 | the block found is on the device if and only if one of the device is free; else it is the one past the end |
| `Ext2Blocks.PastTheEnd` | src/kernel/ext2.c:510-514 | one full group with block numbers from 1: the lowest free block is the one past the end |
| `Ext2Blocks.PastTheEndOfFour` | src/kernel/ext2.c:510-514 | a device of four blocks is such a group |
| `Ext2Map.PlaceInjective` | src/kernel/ext2.c:405-492 | different logical blocks are found in different places |
| `Ext2Map.PlaceRecovers` | src/kernel/ext2.c:412-480 | every logical block is twelve direct pointers, then p, then p times p, then p times p times p, counted in the order of the index blocks |
| `Ext2Map.MapSingle` | src/kernel/ext2.c:412-431 | the direct pointers, then pointer i of the single index block |
| `Ext2Map.MapDouble` | src/kernel/ext2.c:434-455 | then pointer j of index block i of the double one |
| `Ext2Map.MapTriple` | src/kernel/ext2.c:457-490 | then one level deeper |
| `Ext2Map.SetSingle` | src/kernel/ext2.c:639-655 | setting a pointer of the single tree changes the map at that block only |
| `Ext2Map.SetDouble` | src/kernel/ext2.c:658-699 | setting a pointer two levels down changes the map at that block only |
| `Ext2Map.NewRoot` | src/kernel/ext2.c:614-624 | a fresh index block maps nothing new and shares no block |
| `Ext2Inode.Ext2.BlockMap` | src/kernel/ext2.c:405-492 | reads the map of the file, which `Ext2Map.MapSingle`, `MapDouble` and `MapTriple` spell out pointer by pointer |
| `Ext2Inode.Ext2.BlockMapSet` | src/kernel/ext2.c:628-703 | on success the map is set at that block and nowhere else; it fails only in the triple range or with every block of the device in use, and then the map is unchanged |
| `Ext2Free.FreeInodeBlocks` | src/kernel/ext2.c:706-761 | frees exactly the blocks listed for the inode, once each, and clears its pointers |
| `Ext2Free.GivenIsReachable` | src/kernel/ext2.c:706-761 | of a tree exactly its index and data blocks are freed |
| `Ext2Free.GivenAllIsHeld` | src/kernel/ext2.c:706-761 | what is freed: of the direct pointers and the single and double trees all index and data blocks, of the triple tree its top |
| `Ext2Free.ReleasesAllIff` | src/kernel/ext2.c:706-761 | everything the inode holds down to the third level is freed if and only if it has no triple tree or one whose top points nowhere |
| `Ext2Free.TripleFileLeaks` | src/kernel/ext2.c:706-761 | blocks of 1024 bytes or more, a file with one block in the triple range, no block held twice: that block and two index blocks stay in use |
| `Ext2Free.TripleDisk` | src/kernel/ext2.c:706-761 | there is a disk with such a file for every block size |
| `Ext2Records.SplitRecord` | src/kernel/ext2.c:1140-1150 | a split keeps the old entry, adds the new one behind it, and keeps the block exactly tiled |
| `Ext2Records.ReuseRecord` | src/kernel/ext2.c:1131-1138 | a deleted record is taken over, all other entries stay |
| `Ext2Records.FreshBlock` | src/kernel/ext2.c:1170-1178 | a new block holds exactly the new entry |
| `Ext2Records.DotRecord` | src/kernel/ext2.c:1419-1424 | the twelve bytes of the entry for `.` of inode 2, and what they are read as |
| `Ext2Records.ClearRecord` | src/kernel/ext2.c:1218-1220 | emptying the first record removes its entry only and frees its bytes |
| `Ext2Records.MergeRecord` | src/kernel/ext2.c:1221-1225 | merging into the record before removes one entry, keeps the block tiled, and puts its bytes behind that record |
| `Ext2Records.FreedTakes` | src/kernel/ext2.c:1218-1225 | a struck record makes room for any record of its size |
| `Ext2Records.FreedTakesNoMore` | src/kernel/ext2.c:1218-1225 | and for no longer one than that plus what was left over around it |
| `Ext2Dir.InsertUnique` | src/kernel/ext2.c:1097-1179 | names stay unique if and only if the name added is new |
| `Ext2Dir.WithoutTable` | src/kernel/ext2.c:1182-1236 | taking an entry away takes its name out of the table and no other |
| `Ext2Dir.Directory.constructor` | src/kernel/ext2.c:1415-1432 | a new directory holds `.` and `..` |
| `Ext2Dir.Directory.Find` | src/kernel/ext2.c:1239-1281 | the first entry of that name among all records up to the first bad one |
| `Ext2Dir.Directory.Add` | src/kernel/ext2.c:1097-1179 | one entry is added and all others stay, in any blocks; fails if and only if no record has room and no block can be had |
| `Ext2Dir.Directory.Remove` | src/kernel/ext2.c:1182-1236 | the first entry of that name is removed and all others stay, in any blocks; the new blocks are those of the specification, with room for a name of that size |
| `Ext2Dir.Directory.Unlink` | src/kernel/ext2.c:1182-1236 | the name leaves the table, all other names keep their files |
| `Ext2Dir.Directory.UnlinkFile` | src/kernel/ext2.c:1467-1486 | the name is gone whatever the result; a call that fails leaves the names alone if and only if the name is not that of a directory |
| `Ext2Dir.UnlinkedDirectory` | src/kernel/ext2.c:1472-1478 | any directory entry: unlinking it fails and the name is gone |
| `Ext2Dir.Directory.Link` | src/kernel/ext2.c:1652-1660 | a new name is put into the table once, with its inode and type; it can be found again if and only if it is shorter than 256 bytes |
| `Ext2Dir.Directory.Rename` | src/kernel/ext2.c:1535-1574 | the name moves to the new one if and only if the two do not name the same file; the file loses its name if and only if no block has room once the old entries are struck and none can be added, which does not happen to a name that needs no more space; the new entry has the inode of the file and the type given |
| `Ext2Dir.Directory.Move` | src/kernel/ext2.c:1535-1574 | the same between two directories: the name leaves one and replaces what it named in the other, with the exact conditions for no space and for a name twice; the new entry has the inode of the file and the type given |
| `Ext2Dir.TwinRename` | src/kernel/ext2.c:1535-1574 | any two names of one file: the rename leaves the new name twice |
| `Ext2Dir.FullTiles` | src/kernel/ext2.c:1097-1179 | records just long enough for their names tile a block, hold exactly the entries and leave room for nothing |
| `Ext2Dir.FullRename` | src/kernel/ext2.c:1535-1574 | any directory of one full block: a rename to a new name loses the file if and only if the new name needs more space |
| `Ext2Dir.CrowdedRename` | src/kernel/ext2.c:1535-1574 | `.`, `..` and ten names of 92 bytes fill a block: one renamed to 96 bytes is lost |
| `Fnmatch.NewestStarSuffices` | newlib/libgloss/adros/posix_stubs.c:803-819 | if moving an older star could succeed, so can the newest |
| `Fnmatch.TooShort` | newlib/libgloss/adros/posix_stubs.c:803-819 | with the subject used up, moving a star leaves too few characters |
| `Fnmatch.Fnmatch` | newlib/libgloss/adros/posix_stubs.c:803-819 | 0 if and only if the string is in the language of the pattern; always terminates |

## Left out

- BuddyHeap.Heap.Kfree: a pointer into a payload that happens to hold the header magic cannot be told from a block and is not covered; the killing of the caller on corruption is not modelled.
- Semaphore.KSem.WaitEnter: wake-up ticks are not computed; a timeout may strike at any time.
- Semaphore.KSem.WaitLeave: the two failure codes, timed out and interrupted, are not told apart.
- Scheduler.Scheduler.Schedule: address-space, stack and FPU switching are not modelled; every CPU is taken to have an idle process.
- Scheduler.Scheduler.Balance: the counters are taken to stay below the largest 32-bit value; the CPU a new process starts on is not chosen here.
- TimerQueue.Queue.Insert: ticks do not wrap; the re-arming of repeating alarms is not modelled.
- Lz4Decompress.DecompressBlock: pointer sums do not wrap.
- Lz4Frame.DecompressFrame: the checksum xxHash32 is an arbitrary function, the same on both sides.
- InitrdImage.Unpack: memory for the output is always found; the size check of the older block format is taken without 32-bit wrap.
- Initrd.Table.AddChild: the table grows without running out of memory.
- InitrdImage.BuildImage: names longer than 99 bytes, which the host cuts, and paths with empty or `.` components are not covered.
- FatVolume.Volume.Mount: the boot sector's own sanity checks are preconditions.
- FatFiles.ExtendChain: the two loops that walk to the end of the chain are one; a start number beyond the volume is not covered.
- Ext2Inode.Ext2.BlockMap: blocks beyond the triple range, whose indices exceed a block, are not covered.
- Ext2Inode.Ext2.BlockMapSet: bitmaps and descriptors are kept apart from data blocks; the block past the end of the device is taken to be marked.
- Ext2Dir.Directory.Add: the blocks of a directory are a list, as the map of a file provides; where a header would reach past the end of a block it counts as bad; `room` says whether a block can be had at the moment the entry is added.
- Semaphore.KSem.Signal: the clearing of the wake-up tick is not modelled here; `Scheduler.Scheduler.EnqueueReady` allows for it.
- InitrdImage.Read: a read that leaves the file, which `InitrdImage.ReadStaysInside` tells apart, is not covered.
- FatFiles.Truncate: a file whose chain is shorter than its length says is not covered.
- Ext2Free.FreeInodeBlocks: an inode that lists a block twice or one that is not in use is not covered.
- Ext2Dir.Directory.Move: as for `Rename`; the `..` entry of a moved directory and the link counts of inodes are not modelled.
- Ext2Dir.Directory.Rename: `room` is the state of the device when the new entry is added, after the blocks of a replaced file may have been freed, so it cannot be read off before the call; link counts are not modelled.
- Ext2Dir.Directory.UnlinkFile: which inodes are directories is a parameter; link counts and the release of the file are not modelled.
- FatSpace.WriteExtends: the number of clusters is a parameter; the code computes it as truncation does, and `FatFiles.KeptSuffices` says when that is right. The copying of the data is not modelled.
- Condition variables, pipes, signals, exec and the system-call layer.
- Device drivers, interrupts, paging, and I/O errors of the disk.
- FAT directories and long names; ext2 inodes other than their block pointers.
- The network stack, the shell and the user programs.
