# Verified models of the PlenjOS kernel

This project models the parts of the kernel and its C library that carry the hardest invariants and
proves them in Dafny. `dafny verify dfyconfig.toml` checks everything.

| file | what it models |
|---|---|
| `RwLock.dfy` | the reader/writer lock: two words, announced writers, an upgrade that lets go first, an atomic downgrade; any number of threads, one step per atomic operation |
| `FsCache.dfy` | the shared tree of cached directories under any number of concurrent lookups of any paths, each node with its lock word; linking a child is four separate stores; the exit at the parent of the root gives its lock back twice |
| `FsCacheLocks.dfy` | what the lock words count in that model, which lookups take the exit and what its second release does |
| `FsCacheNames.dfy` | which node a lookup stands on: the names from the root down to it against the path the lookup was given |
| `FsCacheProgress.dfy`, `FsCacheDeadlock.dfy` | lookups that also wait for announced writers: which ones always end, and which ones can wait for each other in a circle |
| `PageTables.dfy`, `PhysicalMemory.dfy`, `VirtualMemory.dfy` | four-level page tables, the frame table with its intrusive free list, mapping and finding pages |
| `UserCopy.dfy`, `SharedFrame.dfy`, `MemMap.dfy`, `MemProtect.dfy` | page-by-page copies between kernel and user, `memmap`, `memmap_from_buffer` and `memprotect` over any number of address spaces |
| `FixedSizeAllocator.dfy` | the slot allocator with its sorted intrusive free list and packed page words |
| `SegmentList.dfy`, `KernelHeap.dfy`, `LibcHeap.dfy`, `LibcAlignment.dfy`, `LibcReuse.dfy` | the segment lists of the kernel heap and of `malloc`/`calloc`/`realloc`/`free`, the alignment of what the latter hand out, and how given-back memory is used again |
| `TimerRing.dfy`, `TimerRuns.dfy` | timer slots, tick handler and the ring of kernel tasks as one state machine; what a caller gets, told by the events of a run |
| `PathNormalise.dfy` | `collapse_path`, `handle_relative_path` and the working directory |
| `KernelFs.dfy`, `CacheLookup.dfy`, `LookupMeaning.dfy` | kernelfs directories and cursors; lookup through the cache against a plain walk; where a walk ends and why |
| `BinarySearchTree.dfy` | removal and rotation |
| `Fat12.dfy` | sector translation and the 12-bit table |
| `Common.dfy`, `Arithmetic.dfy` | shared constants and the option type; multiplication and division facts |

How the models are built:

- Concurrent code (the lock, the cache tree, the timers and the ring) is a step relation over program
  counters; theorems quantify over every schedule. Atomic operations are sequentially consistent.
- Code that changes memory in place is a class whose fields are the words, headers, tables or nodes
  it changes; raw memory is a map from addresses to words, bytes or records. Each method is proved
  against a function or predicate on values, and the laws are lemmas about those.
- Ghost state (the intended tree of a directory, the place of a page table, the set of live blocks,
  the book kept on a timer slot) is never read by a step of the program.
- Frames, the bytes of a drive, the answer of a path lookup and the moment a weak compare-and-swap
  fails for no reason are inputs. Printing, interrupts, TLB flushes and IPIs have no effect here.

Where the code does not meet a natural property, the exact condition is proved:

- Copying out to a user range and back in returns the same bytes for every content if and only if the range
  reaches every physical byte at most once (`UserCopy.CopyOutThenIn`, over arbitrary tables);
  `SharedFrame.SharedFrameLosesBytes` gives well-formed tables and a range that fail.
- A timeout of `ms` started at tick `start` never fires early if and only if `start + ms <= 2^64`,
  because the counter skips 0 when it wraps (`TimerRing.NoEarlyExpiry`).
- The callback of an expired timeout runs in no continuation whatsoever if and only if the timeout met a full
  ring, or no core runs tasks (`TimerRing.LostIffRingIsFull`); from every initial state with an arming thread a
  run leads to a full ring (`TimerRing.TimeoutsCanBeLost`).
- Sibling names in kernelfs stay unique after a successful creation if and only if the name has at
  most 255 characters or its first 255 are not taken (`KernelFs.UniqueAfterCreate`, with the
  family of failing inputs in `KernelFs.LongNameTwice`).
- A left rotation keeps the search order if and only if the two keys it exchanges differ
  (`BinarySearchTree.RotationsAndOrder`).
- A lookup releases its lock twice if and only if the part of its path walked so far climbs above the
  root (`FsCacheLocks.ExitIffPathClimbs`). The second release shuts the lock for good if and only if
  nobody holds it at that moment (`RwLock.UnbalancedReleaseWedges`,
  `FsCacheLocks.SecondReleaseWedgesIffUnheld`); one lookup of ".." alone shuts the whole cache
  (`FsCacheLocks.DotDotShutsTheCache`). With a reader inside, a writer can then enter beside it
  (`RwLock.WriterBesideReader`, `RwLock.ReaderAndWriterTogether`); with a writer inside, that writer's
  own release repairs the word (`RwLock.WriterHeals`). The directory lists survive even so
  (`FsCache.EveryInterleavingKeepsTheTree`).
- After any history a lookup hangs if and only if an earlier one climbed above the root; otherwise the
  cache answers as the plain walk does (`CacheLookup.CacheIsTransparent`).
- Lookups of a path p, beside any lookups without "..", never bring the cache to a standstill if and only if
  p has no ".." (`FsCacheDeadlock.NeverStuckIffNoDotDot`). With a name before the first "..", four lookups wait
  for each other in a circle (`FsCacheDeadlock.FourLookups`); without one, the lookup shuts the root.
- The working directory after a successful `chdir` is a directory if and only if the lookup of the new
  path with a slash behind it succeeds (`CacheLookup.CwdIsDirectoryIff`); every file in the root is a
  failing input (`CacheLookup.ChdirToFile`).
- A FAT12 volume is read back right on every sound drive if and only if its sector size divides the
  drive's (`Fat12.ReadsRightIffDivides`).
- The free list of the slot allocator fits into its slots if and only if items have at least 8 bytes,
  which the code does not enforce (`FixedSizeAllocator.LinksApartIff`).
- The pointers of `malloc` and `realloc` are 16-byte aligned in every run of a program that asks for sizes z and
  multiples of 16 if and only if z is below 16 or such a multiple itself (`LibcAlignment.PointersAlignedIff`,
  with the requests 17 and 1 in `LibcAlignment.SeventeenMisaligns`).
- For an unaligned address `memmap` and `memprotect` visit exactly one page more than the rounding
  asks for (`MemMap.VisitedPagesCover`).

## Model

| member | source | states |
|---|---|---|
| `RwLock.StateCountsHolders` | src/lib/lock.c:31-111 | after every run of any number of threads, `state` is -1 exactly when there is one writer and no reader and is otherwise the number of readers, and `writers_waiting` is the number of threads between announcing and retracting |
| `RwLock.MutualExclusion` | src/lib/lock.c:31-111 | in every run, while a thread holds the lock for writing no other thread holds it in any way |
| `RwLock.GrantsRespectHolders` | src/lib/lock.c:44-47 | the step that enters for reading happens only without a writer, the one for writing only without any holder |
| `RwLock.BoundedOvertaking` | src/lib/lock.c:34-50 | while one thread stays announced, however long the run, a thread enters by read-locking at most once and only if it was already past the waiting check; the total is bounded by the number of such threads |
| `RwLock.EveryWaiterCanAcquire` | src/lib/lock.c:57-107 | from every reachable state, with any mix of holders, writers and simultaneous upgraders, a run exists in which a given waiting thread acquires the lock |
| `RwLock.StepKeepsInv` | src/lib/lock.c:31-111 | every atomic step keeps both words equal to the counts of threads they stand for |
| `RwLock.HeldUntilReleased` | src/lib/lock.c:31-111 | in every run a thread that holds the lock and does not release it holds it at the end: a reader for reading, a writer for writing unless it has downgraded |
| `RwLock.AsksUntilServed` | src/lib/lock.c:31-75 | in every run a thread that has asked for the lock goes on asking in the same mode until it has taken it |
| `RwLock.DowngradeKeepsLock` | src/lib/lock.c:109-111 | after a downgrade the thread reads, and in every run no thread enters for writing before its own release |
| `RwLock.DowngradeLetsReadersIn` | src/lib/lock.c:109-111 | after a downgrade with no writer announced, any thread at rest can enter for reading beside it |
| `RwLock.NoWriterBesideHolder` | src/lib/lock.c:57-75 | no thread takes the lock for writing in a run during which another one keeps it |
| `RwLock.WedgedForever` | src/lib/lock.c:31-75 | a lock whose `state` is negative while no thread holds it for writing is never acquired again in any run |
| `RwLock.UnbalancedReleaseWedges` | src/vfs/fscache.c:192-197 | from every lawful state with a thread at rest: after one release too many, no run whatsoever acquires the lock if and only if nobody held it |
| `RwLock.WedgesIffUnheld` | src/vfs/fscache.c:192-197 | the extra release makes `state` negative without a writer if and only if nobody holds the lock |
| `RwLock.WriterBesideReader` | src/lib/lock.c:31-75 | with readers inside, a run after the extra release lets any thread at rest in for writing while a reader is still there |
| `RwLock.ReaderAndWriterTogether` | src/lib/lock.c:31-75 | a concrete run of two threads that ends with one reading and the other writing |
| `RwLock.WriterHeals` | src/lib/lock.c:77-111 | with a writer inside, nobody enters until it stores 0 or 1, and then the lock is lawful again |
| `FsCache.EveryInterleavingKeepsTheTree` | src/vfs/fscache.c:116-298 | in every interleaving of any number of lookups of any paths, second releases included, no directory has two children with one name, each sibling chain is acyclic and complete, and wherever nobody holds the directory for writing the backward and parent links are exact |
| `FsCache.ListChangesUnderWriteLock` | src/vfs/fscache.c:87-102 | a child list changes only by the linking thread while it alone has the node for writing, by putting one new node in front whose name no listed child has |
| `FsCache.ListsOnlyGrow` | src/vfs/fscache.c:218-269 | over any run what was listed stays listed, in order, at the end of the list |
| `FsCache.StepKeepsInv` | src/vfs/fscache.c:66-102 | each single step, including the four stores of linking, the claim and clearing of a node and the two-phase upgrade, keeps the tree and what every thread relies on |
| `FsCache.RunKeepsInv` | src/vfs/fscache.c:301-372 | the same along whole runs, with nodes claimed from and returned to the pool |
| `FsCache.UnlockedIsExact` | src/vfs/fscache.c:93-101 | half-made backward and parent links exist only under a write lock |
| `FsCacheNames.LookupStandsOnItsPrefix` | src/vfs/fscache.c:146-283 | in every interleaving, second releases included, a lookup that still has to consume the rest of the path it was given stands on the one node whose names from the root down are the consumed part with "." and ".." resolved |
| `FsCacheNames.WholePathIsFound` | src/vfs/fscache.c:272-298 | a lookup that has consumed its whole path can only return, with the node whose own path is the given one resolved |
| `FsCacheNames.ResultIsOnThePath` | src/vfs/fscache.c:116-298 | whatever made a lookup stop, the node it returns is where some beginning of its path leads |
| `FsCacheNames.StepPlaced` | src/vfs/fscache.c:164-271 | every step keeps each lookup on the node its consumed tokens lead to, and the child it is about to enter has the wanted name |
| `FsCacheNames.OneStep` | src/vfs/fscache.c:187-271 | "." stays, ".." leads to the directory that lists the node, a name leads to the child of that name |
| `FsCacheNames.SpellsOneNode` | src/vfs/fscache.c:66-85 | no two nodes of the tree have the same path |
| `FsCacheNames.SpellsOneWay` | src/vfs/fscache.c:87-102 | and no node has two |
| `FsCacheNames.SpellsKept` | src/vfs/fscache.c:87-102 | linking more nodes changes the path of none that is in the tree |
| `FsCacheNames.InUseIffNamed` | src/vfs/fscache.c:301-372 | no node is lost: in every run, whenever no insertion is half done, the nodes that are not free are exactly those some path from the root leads to |
| `FsCacheNames.TypeIsWhatWasLoaded` | src/vfs/fscache.c:228-255 | in every run the type of a node of the tree is the one the file system gave when that node was last loaded |
| `FsCacheNames.WantedIsGiven` | src/vfs/fscache.c:116-146 | the path a lookup works on is the one of its thread's last call |
| `FsCacheLocks.StepKeepsClean` | src/vfs/fscache.c:32-57 | every step but the second release keeps each lock word equal to the holders it counts, and nobody else knows a node whose parent pointer is not yet set |
| `FsCacheLocks.Exclusion` | src/vfs/fscache.c:32-57 | while the words count right, a directory held for writing is held by nobody else in any mode |
| `FsCacheLocks.ListChangesAlone` | src/vfs/fscache.c:87-102 | and then a child list changes only while no other lookup holds the directory at all |
| `FsCacheLocks.ExitIffPathClimbs` | src/vfs/fscache.c:187-208 | in every run up to the first second release, a lookup standing at a token takes the exit without a parent if and only if its path up to and with that token climbs above the root |
| `FsCacheLocks.NoLookupClimbsAboveRoot` | src/vfs/fscache.c:187-208 | so a lookup whose whole path stays below the root never takes it, whatever the others do |
| `FsCacheLocks.SecondReleaseWedgesIffUnheld` | src/vfs/fscache.c:284-288 | the second release is one of the root's lock, and shuts it if and only if nobody holds it |
| `FsCacheLocks.WedgedRootForever` | src/vfs/fscache.c:116-146 | once the root's lock is shut, no lookup gets into the tree again in any run |
| `FsCacheLocks.DotDotShutsTheCache` | src/vfs/vfs.c:242-244 | one lookup of ".." alone, from the initial state of any pool and any number of threads, is such a run |
| `FsCacheProgress.PlainLookupsAreNeverStuck` | src/vfs/fscache.c:146-283 | with waiting writers announced, in every run of lookups without "..", as long as one is under way some thread can move |
| `FsCacheProgress.SomebodyCanMove` | src/vfs/fscache.c:146-283 | the same from every state with right lock words in which nobody waits for a parent |
| `FsCacheProgress.PlainLookupsEnd` | src/vfs/fscache.c:146-283 | from every state that lookups without ".." reach, a run in which none begins ends them all; every such run is bounded and goes on until all have ended, however it is scheduled |
| `FsCacheProgress.StepSinks` | src/vfs/fscache.c:146-283 | every step but the beginning of a lookup brings the acting lookup, of whatever path, nearer to its end: tokens left, place in the sibling list, stage of linking |
| `FsCacheProgress.BoundedSteps` | src/vfs/fscache.c:146-283 | under every schedule the lookups under way, of whatever paths, take boundedly many steps |
| `FsCacheDeadlock.NeverStuckIffNoDotDot` | src/vfs/fscache.c:187-208 | for every path p: in no run of the code with lookups of p and of paths without ".." is every lookup under way blocked, if and only if p has no ".." |
| `FsCacheDeadlock.FourLookups` | src/vfs/fscache.c:200-266 | for every path with a name before its first "..", a run of the code from the initial state ends with four lookups that all wait: for a parent, for a child, and two for sole possession |
| `FsCacheDeadlock.ClimbsAndWaits` | src/vfs/fscache.c:192-197 | for every path with nothing but "." before its first "..", one lookup of it leaves the next one waiting for ever |
| `FsCacheDeadlock.DotDotCanDeadlock` | src/vfs/fscache.c:200-266 | the lookups "c/..", "c", "x" and "c/y" in a fresh cache are such a case |
| `FsCacheDeadlock.WalksAndMakes` | src/vfs/fscache.c:146-269 | a lookup alone walks the part of its path before the first ".." and makes a chain of its directories |
| `PageTables.AddrSplitIsIdx` | src/memory/mm_page.c:34-39 | the four shifts and masks are the base-512 digits of the page number |
| `PageTables.GetPhysaddrIsLookup` | src/memory/mm_page.c:228-253 | the unrolled walker gives the frame of the recursive walk of the tree plus the offset, and 0 where the walk finds nothing |
| `PageTables.LeafSlotIsPrivate` | src/memory/mm_page.c:139-141 | one leaf slot belongs to one page of one address space |
| `PageTables.LookupElsewhere` | src/memory/mm_page.c:213-215 | a store into a slot a page does not use leaves its translation alone |
| `PageTables.LookupFlags` | src/memory/mm_page.c:109-113 | or-ing flags into a directory entry changes no translation |
| `PageTables.LookupGrow` | src/memory/mm_page.c:180-184 | hanging a zeroed table under an absent entry changes no translation |
| `PageTables.GrowKeepsPlaces` | src/memory/mm_page.c:73-82 | the tables stay a forest of unshared nodes when one is added |
| `PageTables.FlagsKeepPlaces` | src/memory/mm_page.c:186-189 | the tables stay a forest of unshared nodes when flags or leaf entries change |
| `PageTables.NewRootKeepsPlaces` | src/proc/proc.c:96-101 | a fresh pml4 keeps the forest |
| `PhysicalMemory.FramePtrRoundTrip` | src/memory/detect.h:45-61 | index, record address and physical address convert into each other without loss |
| `PhysicalMemory.FrameAllocator.constructor` | src/memory/detect.h:33-43 | starts from any well-formed list of usable, unreferenced frames without frame 0 |
| `PhysicalMemory.FrameAllocator.FindNextFreeFrame` | src/memory/mm_phys.c:48-103 | hands out the head of the list with one reference and cleared links, keeps the rest linked, changes no other frame's flags; without a frame it returns 0 and leaves the mutex held |
| `PhysicalMemory.FrameAllocator.UnrefFrame` | src/memory/mm_phys.c:30-38 | drops one reference, never below zero, and never puts the frame back on the list |
| `PhysicalMemory.FrameAllocator.NeverHandedOutTwice` | src/memory/mm_phys.c:48-103 | what the invariant that FindNextFreeFrame keeps says of a caller's frames: pairwise different, and none still on the list |
| `PhysicalMemory.PoppedKeepsList` | src/memory/mm_phys.c:70-98 | unlinking the head leaves a well-formed list of the rest and no other frame's flags change |
| `VirtualMemory.Machine.constructor` | src/memory/mm_page.c:72-82 | an empty machine meets the invariant |
| `VirtualMemory.Machine.NewRoot` | src/proc/proc.c:96-101 | a new address space maps nothing and no other one notices |
| `VirtualMemory.Machine.NextTable` | src/memory/mm_page.c:103-113 | one level of the walk: follows or creates a table; no translation changes; absent only if the page is unmapped; takes no frame when the page is mapped |
| `VirtualMemory.Machine.HangTable` | src/memory/mm_page.c:180-184 | the new table is unused, zeroed and reached from the root, and no translation changes |
| `VirtualMemory.Machine.EnterTable` | src/memory/mm_page.c:186-189 | following a present entry, widened for the user, reaches the next table and changes no translation |
| `VirtualMemory.Machine.DirectoryTable` | src/memory/mm_page.c:103-125 | two levels of the walk |
| `VirtualMemory.Machine.LeafTable` | src/memory/mm_page.c:178-211 | three levels: the table that holds the page's leaf slot |
| `VirtualMemory.Machine.MapPage` | src/memory/mm_page.c:173-219 | exactly one page gets the given entry; out of frames changes no translation and cannot happen to a mapped page |
| `VirtualMemory.Machine.SetLeaf` | src/memory/mm_page.c:213-215 | the leaf store sets one page's entry and nothing else |
| `VirtualMemory.Machine.MapRange` | src/memory/mm_page.c:160-222 | page k of the range maps to frame k of the physical range, every other translation of every address space is unchanged, and running out of frames leaves exactly the first n pages mapped |
| `VirtualMemory.PhysaddrAfterMapping` | src/memory/mm_page.c:228-253 | after mapping an aligned, non-wrapping range, `get_physaddr` gives `phys + (v - virt)` inside it and its old answer for every other address of every address space |
| `VirtualMemory.Machine.LeafFrame` | src/memory/mm_phys.c:105-110 | the page becomes present and writable at a frame taken off the list, or at frame 0 when there is none |
| `VirtualMemory.Machine.FindPage` | src/memory/mm_page.c:84-153 | without autocreate no translation changes and the slot is found exactly if the page is mapped; with it the slot is found unless frames run out and at most this page changes, from unmapped to an unused frame |
| `VirtualMemory.NewRootView` | src/proc/proc.c:96-101 | translations of all address spaces before and after a pml4 is added |
| `UserCopy.CopyToUser` | src/syscall/syscall_helpers.c:17-57 | equals storing the bytes one at a time through the page tables; stops exactly at the first byte whose page fails its checks, with the bytes before it stored and nothing else touched; no translation changes |
| `UserCopy.CopyToKernel` | src/syscall/syscall_helpers.c:59-95 | equals loading the bytes one at a time; stops exactly at the first byte whose page fails, with the prefix copied and the rest of the buffer kept |
| `UserCopy.CopyOutThenIn` | src/syscall/syscall_helpers.c:17-95 | copy-out then copy-in gives back every content if and only if the range reaches no physical byte twice |
| `UserCopy.DistinctRoundTrip` | src/syscall/syscall_helpers.c:17-95 | the round trip for every source on distinct cells |
| `UserCopy.SharedCellBreaksRoundTrip` | src/syscall/syscall_helpers.c:17-95 | a content that a range with a shared byte does not give back |
| `SharedFrame.SharedFrameLosesBytes` | src/syscall/syscall_helpers.c:17-95 | well-formed tables with two writable user pages on one frame, and a content that copy-out and copy-in over both do not give back |
| `SharedFrame.OneFrameTwice` | src/syscall/syscall_helpers.c:17-95 | so does every address space whose first two pages are user pages on one frame |
| `UserCopy.CopyTouchesNothingElse` | src/syscall/syscall_helpers.c:40-53 | every byte outside the range's cells keeps its value, and no frame appears, vanishes or changes size |
| `UserCopy.OtherFrameUntouched` | src/syscall/syscall_helpers.c:40-53 | a frame outside the range keeps all its bytes |
| `UserCopy.OnePageWrite` | src/syscall/syscall_helpers.c:43-52 | one block copy into a page is the byte-by-byte store |
| `UserCopy.OnePageRead` | src/syscall/syscall_helpers.c:81-90 | one block copy out of a page is the byte-by-byte load |
| `UserCopy.ChunkFits` | src/syscall/syscall_helpers.c:18-54 | each of the three branches makes progress, stays inside one page and ends at the next boundary, for every alignment and length |
| `UserCopy.CheckedPage` | src/syscall/syscall_helpers.c:26-38 | a page passes exactly if it is mapped, for users, and writable where that is demanded |
| `UserCopy.NextChunk` | src/syscall/syscall_helpers.c:23-54 | one round: a failing check stops at the first bad byte, otherwise the share of one page |
| `UserCopy.StoreChunk` | src/syscall/syscall_helpers.c:40-53 | a chunk extends the stored prefix |
| `UserCopy.StoreNext` | src/syscall/syscall_helpers.c:23-54 | one round of copying out: stops with memory as it was, or extends the stored prefix by the share of one page |
| `UserCopy.LoadChunk` | src/syscall/syscall_helpers.c:78-91 | a chunk extends the loaded prefix |
| `UserCopy.LoadNext` | src/syscall/syscall_helpers.c:65-92 | one round of copying in: stops with the buffer as it was, or extends the loaded prefix by the share of one page |
| `MemMap.UserMemory.MemMap` | src/syscall/mem/memmap.c:10-41 | whatever the outcome the first n pages, all unmapped before, are mapped to new zeroed frames with the flags asked for; no other translation of any address space and no older byte changes; -EEXIST exactly at a page that was mapped, -ENOMEM only with the list empty |
| `MemMap.UserMemory.MemMapFromBuffer` | src/syscall/mem/memmap.c:43-62 | on success the new pages show the buffer from `addr` on and zero in every other byte, and nothing visible through an older mapping changes |
| `MemMap.UserMemory.PagesKeptApart` | src/syscall/mem/memmap.c:10-41 | in every reachable state pages obtained by memmap in any address space have frames of their own, none of them a page table or on the free list |
| `MemMap.UserMemory.MapPages` | src/syscall/mem/memmap.c:19-38 | the loop over the range |
| `MemMap.UserMemory.MapNextPage` | src/syscall/mem/memmap.c:19-38 | one round keeps the pages already mapped new and zero and every older page as it was |
| `MemMap.UserMemory.MapFreshPage` | src/syscall/mem/memmap.c:20-37 | one page: refused exactly if mapped, otherwise a cleared frame nobody uses |
| `MemMap.UserMemory.ClearedFrame` | src/syscall/mem/memmap.c:27-32 | the frame is new and all zero |
| `MemMap.UserMemory.NewAddressSpace` | src/proc/proc.c:96-101 | a new address space keeps every promise made to the others |
| `MemMap.UserMemory.FillFresh` | src/syscall/mem/memmap.c:55-59 | the copy into new pages never stops short |
| `MemMap.VisitedPagesCover` | src/syscall/mem/memmap.c:11-19 | the visited pages cover the range, with exactly one extra page for an unaligned address |
| `MemMap.CopyShows` | src/syscall/mem/memmap.c:57-59 | the copied bytes show at their addresses, the rest of the pages stays zero, older frames keep their bytes |
| `MemMap.FreshCellsApart` | src/syscall/mem/memmap.c:27-37 | different addresses of new pages are different physical bytes |
| `MemMap.FreshCopyCompletes` | src/syscall/mem/memmap.c:57-59 | with the write check overridden no page of a new mapping is refused |
| `MemMap.CopyFits` | src/syscall/mem/memmap.c:50-55 | the clamped length fits the mapping and is the whole buffer when that is no longer than the range |
| `MemMap.CopyStopsAtLastPage` | src/syscall/mem/memmap.c:50-55 | a buffer that is cut short is copied exactly up to the end of the last page of [addr, addr + length); none is copied past a page boundary behind that range |
| `MemProtect.MemProtect` | src/syscall/mem/memmap.c:64-129 | returns 0 if and only if every page visited is a user page with its own frame that has each right asked for, write and execute; otherwise it stops at the first page that has not, with -EINVAL exactly if only a right is missing and -EFAULT if not; the pages before it have the permissions asked for, no other page of any address space changes, no frame is taken and every promise of memmap survives |
| `MemProtect.ProtectPages` | src/syscall/mem/memmap.c:73-126 | the loop, also over ranges that wrap around the 48-bit space |
| `MemProtect.ProtectNext` | src/syscall/mem/memmap.c:73-126 | one round: the verdict is that of the page as it was at the start of the call |
| `MemProtect.ProtectPage` | src/syscall/mem/memmap.c:74-125 | one page: its verdict, and only its two permission bits change |
| `MemProtect.OnlyTakesAway` | src/syscall/mem/memmap.c:104-123 | an access is allowed afterwards if and only if it was before and is not a write to a page that lost the write permission; no address moves |
| `MemProtect.OnlyTakesAwayExecution` | src/syscall/mem/memmap.c:104-123 | a page is executable afterwards if and only if it was before and did not lose the right to be executed |
| `MemProtect.SucceedsIff` | src/syscall/mem/memmap.c:73-129 | the loop gets through if and only if every page visited has the rights asked for, also when the range comes round the 48-bit space to pages it has changed already |
| `MemProtect.ProtectedPagesRefuseCopies` | src/syscall/syscall_helpers.c:35-38 | after write permission is gone `copy_to_user_buf` stops before its first byte there |
| `MemProtect.PromisesSurvive` | src/syscall/mem/memmap.c:125-125 | frames, ownership and user access survive a change of permissions |
| `FixedSizeAllocator.Allocator.constructor` | src/lib/special_mem/fixed_size_allocator.c:242-261 | an empty allocator for any item size from 8 bytes to what fits before the page-prev word |
| `FixedSizeAllocator.Allocator.Alloc` | src/lib/special_mem/fixed_size_allocator.c:139-183 | returns the first unallocated slot in page-creation-then-index order, adds a page only when every slot is live, fails exactly without a frame, and leaves every word of every live block alone |
| `FixedSizeAllocator.Allocator.TakeFirst` | src/lib/special_mem/fixed_size_allocator.c:154-179 | taking the head keeps links, list end and packed index right |
| `FixedSizeAllocator.Allocator.Free` | src/lib/special_mem/fixed_size_allocator.c:185-240 | makes exactly this block free and leaves every word of the blocks still live alone; null and pointers behind the last slot change nothing |
| `FixedSizeAllocator.Allocator.LinkBack` | src/lib/special_mem/fixed_size_allocator.c:214-236 | relinking keeps links, list end and packed index right |
| `FixedSizeAllocator.Allocator.FindFreePredecessor` | src/lib/special_mem/fixed_size_allocator.c:119-137 | the search back over pages and indices finds the last free slot before the block, or null |
| `FixedSizeAllocator.Allocator.ScanPage` | src/lib/special_mem/fixed_size_allocator.c:123-133 | within one page, the nearest free slot below a position |
| `FixedSizeAllocator.Allocator.OnFreeList` | src/lib/special_mem/fixed_size_allocator.c:128-132 | a slot is met on the list exactly if it is not live |
| `FixedSizeAllocator.Allocator.AddPage` | src/lib/special_mem/fixed_size_allocator.c:47-85 | the new page's slots join the end of the list in order |
| `FixedSizeAllocator.Allocator.SetupPage` | src/lib/special_mem/fixed_size_allocator.c:27-45 | chains the slots of a page upwards, ends the chain, writes nowhere else |
| `FixedSizeAllocator.LinksApartIff` | src/lib/special_mem/fixed_size_allocator.c:32-43 | the link words of a page's slots are disjoint if and only if items have at least 8 bytes |
| `FixedSizeAllocator.Allocator.ClientWrite` | src/lib/special_mem/fixed_size_allocator.c:139-183 | a client may write anything anywhere in a block it holds: the invariant and the other blocks survive |
| `FixedSizeAllocator.Allocator.FreeListIsUnallocatedSlots` | src/lib/special_mem/fixed_size_allocator.c:139-240 | following the links visits exactly the unallocated slots in order, and `last_free` is the last of them |
| `FixedSizeAllocator.Allocator.PackedWordOf` | src/lib/special_mem/fixed_size_allocator.c:11-25 | each page-prev word holds the page added before and the least free index, 0xFFF if there is none |
| `FixedSizeAllocator.Allocator.LiveBlocksApart` | src/lib/special_mem/fixed_size_allocator.c:139-183 | live blocks share no byte with each other or with any page-prev word |
| `FixedSizeAllocator.ListDependsOnLiveSetOnly` | src/lib/special_mem/fixed_size_allocator.c:185-240 | two allocators with the same pages and the same live blocks have the same list, ends and packed words, whatever the order of calls was |
| `FixedSizeAllocator.Taken` | src/lib/special_mem/fixed_size_allocator.c:154-179 | the state after an allocation is the one described by the larger live set |
| `FixedSizeAllocator.GivenBack` | src/lib/special_mem/fixed_size_allocator.c:214-236 | the state after a free is the one described by the smaller live set |
| `FixedSizeAllocator.PageAdded` | src/lib/special_mem/fixed_size_allocator.c:60-84 | the state after a page is added is the one described by the longer slot sequence |
| `FixedSizeAllocator.FreeIndex` | src/lib/special_mem/fixed_size_allocator.c:87-117 | the index is 0xFFF exactly for pointers behind the last slot |
| `KernelHeap.AllocationIsSound` | src/memory/kmalloc.c:173-239 | the block is new, aligned and big enough, every live block stays, nothing else becomes live, and the heap grows exactly when no free segment fits |
| `KernelHeap.EveryRunTiles` | src/memory/kmalloc.c:80-262 | after any run of allocations and frees the segments with their headers tile the heap exactly, are 16-byte aligned and do not overlap |
| `KernelHeap.StepTiles` | src/memory/kmalloc.c:173-262 | every operation keeps the tiling |
| `KernelHeap.SplitTiles` | src/memory/kmalloc.c:137-161 | splitting keeps the tiling |
| `KernelHeap.FreeFreesOne` | src/memory/kmalloc.c:241-262 | freeing a block frees that block; every other block, and every address and size, is as it was |
| `KernelHeap.FreedIsReused` | src/memory/kmalloc.c:173-262 | after a free, a request the block can hold does not make the heap grow and is met there or below |
| `KernelHeap.MallocFreeMalloc` | src/memory/kmalloc.c:173-262 | allocating, freeing and allocating the same size again gives the same pointer |
| `KernelHeap.LittleIsWasted` | src/memory/kmalloc.c:137-221 | a block taken from a free one is less than a header and a least block larger than the rounded request, a new segment less than a page; what a split cuts off is free and ends where the old block ended |
| `KernelHeap.InitialIsFree` | src/memory/kmalloc.c:80-101 | the initial heap is wholly free and one page longer than its initial size |
| `KernelHeap.GrowTiles` | src/memory/kmalloc.c:103-135 | appending pages keeps the tiling and gives at least the size asked for |
| `KernelHeap.SegmentHeap.constructor` | src/memory/kmalloc.c:80-101 | the initial two segments tile the initial heap |
| `KernelHeap.SegmentHeap.AddSegment` | src/memory/kmalloc.c:103-135 | links the new segment behind the last one; next, prev and last links stay consistent |
| `KernelHeap.SegmentHeap.Split` | src/memory/kmalloc.c:137-161 | the header writes realise the split of the block sequence, or nothing if the rest is too small |
| `KernelHeap.SegmentHeap.FindFit` | src/memory/kmalloc.c:184-221 | finds the lowest-addressed free segment that fits, or none |
| `KernelHeap.SegmentHeap.Take` | src/memory/kmalloc.c:187-214 | the segment found is cut to size and marked used |
| `KernelHeap.SegmentHeap.Malloc` | src/memory/kmalloc.c:173-239 | the header-level allocation equals the first-fit step on block sequences; size 0 gives null |
| `KernelHeap.SegmentHeap.Free` | src/memory/kmalloc.c:241-262 | marks exactly this block free; null and a second free change nothing |
| `SegmentList.SplitAllHeaders` | src/memory/kmalloc.c:145-158 | the stores of a split give the header list of the split sequence |
| `SegmentList.AppendAllHeaders` | src/memory/kmalloc.c:121-130 | the stores of an append give the header list of the longer sequence |
| `SegmentList.CarveKeeps` | src/memory/kmalloc.c:187-193 | taking a free block disturbs no live one and adds exactly itself |
| `LibcHeap.AllocationIsSound` | usr/libc/src/stdlib/alloc.c:123-159 | the block is new and big enough, every live block stays, and the heap grows exactly when no free segment fits |
| `LibcHeap.EveryRunIsSound` | usr/libc/src/stdlib/alloc.c:68-227 | after any run of malloc, realloc and free blocks lie inside mapped pages and do not overlap |
| `LibcAlignment.PointersAlignedIff` | usr/libc/src/stdlib/alloc.c:96-159 | for every size z: in every run of malloc, realloc and free with sizes z or multiples of 16 all live payloads are 16-byte aligned, if and only if z < 16 or 16 divides z |
| `LibcAlignment.RunAligned` | usr/libc/src/stdlib/alloc.c:68-119 | with such sizes every segment, free ones included, starts at a multiple of 16 after any run |
| `LibcAlignment.SeventeenMisaligns` | usr/libc/src/stdlib/alloc.c:121-147 | after malloc(17) on a fresh heap the next pointer lies 81 bytes behind its start |
| `LibcReuse.FreeFreesOne` | usr/libc/src/stdlib/alloc.c:207-227 | freeing a block frees that block; every other block, and every address and size, is as it was |
| `LibcReuse.FreedIsReused` | usr/libc/src/stdlib/alloc.c:123-227 | after a free, a request the block can hold does not make the heap grow and is met there or below |
| `LibcReuse.MallocFreeMalloc` | usr/libc/src/stdlib/alloc.c:123-227 | allocating, freeing and allocating the same size again gives the same pointer |
| `LibcReuse.LittleIsWasted` | usr/libc/src/stdlib/alloc.c:96-147 | a block handed out is less than a header and a least block larger than asked for; what a split cuts off is free and ends where the old block ended |
| `LibcReuse.ReallocMovesIff` | usr/libc/src/stdlib/alloc.c:188-204 | realloc leaves the heap alone if and only if the block is large enough; otherwise the old block is free and a large enough one is taken |
| `LibcReuse.ReallocIsMallocOrFree` | usr/libc/src/stdlib/alloc.c:178-187 | without a pointer realloc is malloc, with size 0 it is free, and malloc of size 0 does nothing |
| `LibcHeap.CallocCheck` | usr/libc/src/stdlib/alloc.c:161-167 | the division rejects exactly the products of 2^64 or more |
| `LibcHeap.PayloadIsNoHeader` | usr/libc/src/stdlib/alloc.c:96-119 | header stores never reach a payload |
| `LibcHeap.UserHeap.constructor` | usr/libc/src/stdlib/alloc.c:59-66 | before initialisation there is no block |
| `LibcHeap.UserHeap.Init` | usr/libc/src/stdlib/alloc.c:59-66 | the first segment |
| `LibcHeap.UserHeap.AddSegment` | usr/libc/src/stdlib/alloc.c:68-94 | appends a block of the length asked for in new pages; only header bytes change |
| `LibcHeap.UserHeap.Split` | usr/libc/src/stdlib/alloc.c:96-119 | realises the split of the block sequence; only header bytes change |
| `LibcHeap.UserHeap.FindFit` | usr/libc/src/stdlib/alloc.c:130-152 | finds the lowest-addressed free block that fits, or none |
| `LibcHeap.UserHeap.Take` | usr/libc/src/stdlib/alloc.c:133-147 | the block found is cut to size and marked used; only header bytes change |
| `LibcHeap.UserHeap.Malloc` | usr/libc/src/stdlib/alloc.c:123-159 | equals the first-fit step, and every live block keeps all its bytes |
| `LibcHeap.UserHeap.Calloc` | usr/libc/src/stdlib/alloc.c:161-175 | null exactly on overflow, zero size or no heap; otherwise all bytes are zero and every other live block keeps its bytes |
| `LibcHeap.UserHeap.Realloc` | usr/libc/src/stdlib/alloc.c:178-205 | the result holds all bytes the old block had, is big enough, and every other live block keeps its bytes; size 0 frees, null allocates |
| `LibcHeap.UserHeap.Resize` | usr/libc/src/stdlib/alloc.c:188-204 | stays in place exactly if the block is large enough |
| `LibcHeap.UserHeap.Move` | usr/libc/src/stdlib/alloc.c:200-202 | copy and free preserve the moved bytes and all bystanders |
| `LibcHeap.UserHeap.Free` | usr/libc/src/stdlib/alloc.c:207-227 | marks exactly this block free; null and a second free change nothing; other live blocks keep their bytes |
| `LibcHeap.AfterMove` | usr/libc/src/stdlib/alloc.c:195-202 | after malloc, memcpy and free in this order every old byte is at its new place |
| `TimerRing.StepKeepsInv` | src/timer/timer.c:11-42 | every step of arming threads, tick handler and cores keeps the slot protocol |
| `TimerRing.RunKeepsInv` | src/proc/scheduler.c:186-201 | the same along whole runs |
| `TimerRing.FiresWhatWasPublishedAndNotEarly` | src/timer/pit.c:26-51 | in every run the handler compares only fully published slots, and marks one only after its ticks have passed, as long as the counter does not wrap before it is due |
| `TimerRing.NoEarlyExpiry` | src/timer/pit.c:27-38 | no tick shows a timeout expired early if and only if `start + ms <= 2^64` |
| `TimerRing.AfterStep` | src/timer/pit.c:27-29 | the closed form of the counter follows the two increments: up to 2^64-1, then 1 |
| `TimerRing.CallbackAtMostOnce` | src/timer/pit.c:15-24 | in every run each arming has its callback called at most once |
| `TimerRing.CallbackExactlyOnceWhenDrained` | src/proc/scheduler.c:189-199 | once the ring is drained and the cores are idle every accepted timeout has run exactly once |
| `TimerRing.ReclaimedOnlyAfterCallback` | src/timer/pit.c:22-24 | a slot that can be claimed again is not being filled, fired, queued or called by anyone |
| `TimerRing.RingIsFifo` | src/proc/scheduler.c:260-292 | in every run tasks dequeued followed by tasks waiting are the tasks accepted, in order |
| `TimerRing.EnqueueAppends` | src/proc/scheduler.c:272-281 | storing at head appends to the waiting sequence, across the wrap |
| `TimerRing.DequeueDropsFirst` | src/proc/scheduler.c:190-194 | advancing tail drops the oldest task, across the wrap |
| `TimerRing.LostForever` | src/timer/timer.c:33-38 | a slot armed with 2^64-1, or refused, is never free again in any run and its callback never runs |
| `TimerRing.RefusedNeverRuns` | src/proc/scheduler.c:272-277 | a timeout refused by a full ring never runs and its slot never comes back |
| `TimerRing.LostIffRingIsFull` | src/proc/scheduler.c:272-281 | after the handler has passed an expired timeout on, no run whatsoever calls its callback if and only if the ring was full or no core runs tasks |
| `TimerRing.AcceptedCanRun` | src/proc/scheduler.c:186-201 | from every state with a core, a run exists in which a given accepted timeout has its callback called |
| `TimerRing.Drains` | src/proc/scheduler.c:186-201 | one core alone can empty the ring from every state, finishing what it has begun, and accepts nothing new meanwhile |
| `TimerRing.TimeoutsCanBeLost` | src/timer/pit.c:26-51 | from every initial state with an arming thread and the counter below its maximum a run arms a timeout, fills the ring and hands the expired timeout to it, whose callback then runs in no continuation |
| `TimerRuns.ServedAsAskedAndNotEarly` | src/timer/timer.c:28-42 | in every run, for whatever slot the handler marks, dispatches or wakes up for and whatever callback a core is at: the thread that last claimed the slot made a last call before, the slot holds that call's callback and data, its start time is the counter at the first store after the claim, and since then at least the milliseconds of that call have ticked, as long as `start + ms <= 2^64` |
| `TimerRuns.MarkIsDue` | src/timer/pit.c:35-38 | the same count of ticks at the moment the handler finds the timeout expired |
| `TimerRuns.TraceStep` | src/timer/timer.c:11-42 | every step keeps each arming thread at work on its last call with that call's arguments, and each slot in use tied to the call that claimed it |
| `TimerRuns.DueIsMarkedInOnePass` | src/timer/pit.c:33-51 | a timeout that is due when the tick handler starts its loop is marked before the handler comes to rest, however threads and cores interfere |
| `TimerRuns.GivesUpOnlyWhenAllAreTaken` | src/timer/timer.c:31-41 | a call returns without a slot only after it has tried each of the slots and found it taken |
| `TimerRuns.NoSlotLeaks` | src/timer/pit.c:22-48 | in every run, whenever nothing is in progress, a slot is free, or armed, or was given up by a refusal of the full ring or by a timeout of 2^64-1 |
| `TimerRuns.WorkIsDoneInOrder` | src/proc/scheduler.c:186-292 | in every run the callbacks and delegated arguments that cores take off the ring, followed by those still on it, are the ones put on it by the handler and by delegation, in order |
| `TimerRuns.CallbackIsCalled` | src/timer/pit.c:15-20 | a core that has taken a timer's task calls its callback |
| `TimerRuns.RunHasTrace` | src/timer/pit.c:26-54 | every run of the state machine has the sequence of states these laws speak of |
| `TimerRing.RingFillsUp` | src/proc/scheduler.c:260-292 | from every reachable state delegated tasks alone fill the ring |
| `PathNormalise.CollapsePath` | src/syscall/syscall_helpers.c:165-226 | the output is the component-stack normal form of the input; input and output may be one buffer |
| `PathNormalise.CollapseInto` | src/syscall/syscall_helpers.c:174-221 | the scan leaves exactly the normal form in the temporary buffer |
| `PathNormalise.ComponentRound` | src/syscall/syscall_helpers.c:189-213 | one round at a component resolves it on the stack the buffer spells |
| `PathNormalise.SlashRound` | src/syscall/syscall_helpers.c:178-187 | one round at slashes leaves exactly one slash |
| `PathNormalise.PopComponent` | src/syscall/syscall_helpers.c:199-205 | the backward loop removes the last component |
| `PathNormalise.DotTests` | src/syscall/syscall_helpers.c:190-196 | the character tests recognise "." and ".." and nothing else |
| `PathNormalise.Idempotent` | src/syscall/syscall_helpers.c:165-226 | normalising twice changes nothing; the result is absolute |
| `PathNormalise.NeverLonger` | src/syscall/syscall_helpers.c:165-226 | the normal form is never longer than the path |
| `PathNormalise.RenderedIsNormal` | src/syscall/syscall_helpers.c:216-221 | a rendered stack of plain names is its own normal form |
| `PathNormalise.NormalInSteps` | src/syscall/syscall_helpers.c:165-226 | a path may be normalised up to any slash first: the whole means the same |
| `PathNormalise.UpUndoesDown` | src/syscall/syscall_helpers.c:189-213 | a name followed by ".." and a final "." change nothing; the parent of the root is the root |
| `PathNormalise.Process.constructor` | src/proc/proc.c:84-85 | a first process starts at the root, a proper working directory |
| `PathNormalise.Process.HandleRelativePath` | src/syscall/syscall_helpers.c:127-163 | the absolute path meant, cut off if absolute and too long, -ENAMETOOLONG if the joined one does not fit |
| `PathNormalise.JoinPaths` | src/syscall/syscall_helpers.c:156-159 | two copies, the slash over the first one's terminator, leave directory, slash, rest |
| `PathNormalise.Process.Chdir` | src/syscall/fs/cwd.c:6-45 | the new directory and return value for every path and every answer of the lookup; errors leave the directory alone |
| `PathNormalise.ChdirKeepsCwd` | src/syscall/fs/cwd.c:6-45 | one chdir keeps the working directory absolute, normalised and short enough |
| `PathNormalise.EveryRunKeepsCwd` | src/syscall/fs/cwd.c:6-45 | so does any run of chdir calls |
| `PathNormalise.RelativeMeansFromCwd` | src/syscall/syscall_helpers.c:127-163 | chdir to a relative path is chdir to the working directory, a slash and that path; if this does not fit it is -ENAMETOOLONG |
| `PathNormalise.ThereAndBack` | src/syscall/fs/cwd.c:6-45 | chdir to a name and then to "..", when both succeed, ends where it began |
| `KernelFs.FileSystem.constructor` | src/vfs/kernelfs.c:412-415 | the tree with the root alone |
| `KernelFs.FileSystem.Search` | src/vfs/kernelfs.c:156-161 | the loop finds the first child of that name, or none |
| `KernelFs.FileSystem.CreateNode` | src/vfs/kernelfs.c:340-410 | new tree and return value for every input: appended at the end, or refused with the tree unchanged |
| `KernelFs.FileSystem.ReadDir` | src/vfs/kernelfs.c:83-141 | fails exactly for a non-directory or a length that is no multiple of an entry, moving nothing; otherwise returns the next entries of the listing that fit and advances by their number |
| `KernelFs.StoredCompare` | src/vfs/kernelfs.c:157-157 | comparing 256 characters with a stored name is plain equality |
| `KernelFs.UniqueAfterCreate` | src/vfs/kernelfs.c:348-377 | after a successful creation names are unique if and only if the name is short enough or its stored form was not there |
| `KernelFs.LongNameTwice` | src/vfs/kernelfs.c:376-377 | creating any too long name twice succeeds and gives two children of one name |
| `KernelFs.CreatedIsFound` | src/vfs/kernelfs.c:340-410 | creation fails, changing nothing, exactly for an empty name, a taken one and a parent that is no directory, each with its own code; otherwise the new node has the given type, owner, mode and parent, and its stored name leads to it if and only if it did not lead anywhere before |
| `KernelFs.FindAfterCreate` | src/vfs/kernelfs.c:394-405 | a name found before a creation anywhere is found as the same node afterwards |
| `KernelFs.CreateGrowsListing` | src/vfs/kernelfs.c:394-405 | creation extends one listing at the end and leaves all others |
| `KernelFs.CursorReadsAPrefix` | src/vfs/kernelfs.c:83-141 | under any interleaving of reads and creations with short names, the entries read through a handle are the names and types of the first children, in order and without repeats |
| `KernelFs.ReadsWhatFits` | src/vfs/kernelfs.c:109-138 | a read fills at most the buffer and stops only at the end of the directory or when no further entry fits |
| `KernelFs.ReadsReachTheEnd` | src/vfs/kernelfs.c:83-141 | reads with room for one entry or more, as many as children are left, return the whole directory |
| `CacheLookup.CacheIsTransparent` | src/vfs/fscache.c:116-298 | after every history of lookups and creations a lookup through the cache hangs if and only if an earlier lookup climbed above the root; otherwise it returns the same code and the same kernelfs node as a plain walk, or -ENOMEM with no free node left |
| `CacheLookup.OneLookup` | src/vfs/fscache.c:116-298 | one lookup from any state: when it hangs, what it returns, and that it makes the root's lock negative exactly if it climbs |
| `CacheLookup.ShutIffSomeoneClimbed` | src/vfs/fscache.c:192-197 | after a history the root's lock is negative if and only if it was before or some lookup climbed |
| `CacheLookup.BelowRootNeverShuts` | src/vfs/fscache.c:187-208 | histories whose paths stay below the root never shut the cache, whatever the tree |
| `CacheLookup.BelowRootNeverClimbs` | src/vfs/fscache.c:187-208 | a path that stays below the root by its components alone never asks for the parent of the root on any tree |
| `CacheLookup.CachedWalkIsPlain` | src/vfs/fscache.c:146-283 | with whatever is cached and however many nodes are free, the walk ends as the plain one or with -ENOMEM and leaves the cache in order |
| `CacheLookup.CachedStepIsPlain` | src/vfs/fscache.c:164-271 | the same for one component: found in the cache, loaded, absent, refused, or out of nodes |
| `CacheLookup.CreateKeepsCache` | src/vfs/kernelfs.c:340-410 | creating a node invalidates nothing that is cached |
| `CacheLookup.LinkKeepsCache` | src/vfs/fscache.c:228-255 | a loaded and linked child stands for the node kernelfs finds |
| `CacheLookup.NextKeeps` | src/vfs/vfs.c:251-341 | every event keeps cache and tree in agreement: lookups, creations by the kernel, and creations through the virtual file system, which take a cache node for good |
| `CacheLookup.InitialCache` | src/vfs/fscache.c:376-393 | the cache with the root alone is in agreement |
| `CacheLookup.NodeCache.constructor` | src/vfs/fscache.c:376-393 | so is the cache after initialisation |
| `CacheLookup.NodeCache.FindInChildren` | src/vfs/fscache.c:66-85 | prefix comparison and terminator test find the first cached child of exactly that name |
| `CacheLookup.NodeCache.Descend` | src/vfs/fscache.c:164-271 | one token does what the walk does for one component, for every rest of the path, and moves the one lock held along; on the exit without a parent it holds none |
| `CacheLookup.NodeCache.LoadChild` | src/vfs/fscache.c:217-269 | under the write lock: -ENOMEM exactly without a free node, otherwise the child is loaded and linked or reported missing |
| `CacheLookup.NodeCache.RequestNode` | src/vfs/fscache.c:116-298 | the whole lookup with the caller's final release: result, cache, free nodes and every lock word for every path, hanging included |
| `CacheLookup.NodeCache.WalkTokens` | src/vfs/fscache.c:146-283 | the token loop computes the cached walk, with the result for trailing slashes, and ends holding exactly the last node's lock or, after climbing, none |
| `CacheLookup.OneComponent` | src/vfs/fscache.c:150-165 | cutting at the next slash takes one component, and the path ends there exactly if it was the last |
| `CacheLookup.CwdIsDirectoryIff` | src/syscall/fs/cwd.c:31-44 | after a successful chdir the working directory is found, and is a directory if and only if it is also found with a slash behind it |
| `CacheLookup.DirectoryIffSlashAccepted` | src/vfs/fscache.c:274-283 | a path that is found names a directory if and only if it is found with a slash behind it |
| `CacheLookup.ChdirToFile` | src/syscall/fs/cwd.c:31-44 | chdir to any file in the root succeeds and makes it the working directory |
| `LookupMeaning.WalkEnds` | src/vfs/fscache.c:146-283 | a walk ends on the node whose own path its consumed components resolve to; it consumes all of them unless the next one meets something that is no directory, a directory closed to the user, the parent of the root or a missing name, with the code for each |
| `LookupMeaning.LookupReaches` | src/vfs/fscache.c:116-298 | a lookup that succeeds reaches the node whose own path is the given one resolved; one that misses only the last name reaches the directory that name is missing from |
| `LookupMeaning.ClosedTo` | src/lib/mode.c:5-42 | by the octal digits of its mode, a directory stops a lookup with -EACCES: its owner when the owner's digit is even, root when all three are, everybody else when the last is |
| `LookupMeaning.CwdIsOwnPath` | src/syscall/fs/cwd.c:31-44 | after a successful chdir the working directory is the own path of the node it names |
| `BinarySearchTree.RemovalDeletesOne` | src/lib/structures/bstree.c:72-107 | removing by data pointer deletes one occurrence of it from the in-order sequence and nothing else |
| `BinarySearchTree.FoundIffPresent` | src/lib/structures/bstree.c:78-104 | in an ordered tree the search meets the data exactly if it is there, with any duplicates of its key |
| `BinarySearchTree.NotFoundUnchanged` | src/lib/structures/bstree.c:72-107 | otherwise the tree stays as it is |
| `BinarySearchTree.RemovalKeepsOrder` | src/lib/structures/bstree.c:36-107 | removal keeps left < parent <= right |
| `BinarySearchTree.RootKeepsOrder` | src/lib/structures/bstree.c:36-70 | replacing a node by its successor keeps the order |
| `BinarySearchTree.MinIsFirst` | src/lib/structures/bstree.c:109-133 | remove-first deletes the first element of the sequence |
| `BinarySearchTree.MaxIsLast` | src/lib/structures/bstree.c:135-159 | remove-last deletes the last element of the sequence |
| `BinarySearchTree.MinKeepsOrder` | src/lib/structures/bstree.c:109-133 | remove-first keeps the order |
| `BinarySearchTree.MaxKeepsOrder` | src/lib/structures/bstree.c:135-159 | remove-last keeps the order |
| `BinarySearchTree.RotationsKeepSequence` | src/lib/structures/bstree.c:161-215 | both rotations keep the in-order sequence |
| `BinarySearchTree.RotationsUndoEachOther` | src/lib/structures/bstree.c:161-215 | a rotation makes the child the root and the root its other child, and the opposite rotation undoes it |
| `BinarySearchTree.RotationsAndOrder` | src/lib/structures/bstree.c:161-215 | a right rotation keeps the order; a left one if and only if the two keys differ |
| `BinarySearchTree.BsTree.Successor` | src/lib/structures/bstree.c:47-51 | the loop finds the least node of the right subtree and its parent |
| `BinarySearchTree.BsTree.RemoveNode` | src/lib/structures/bstree.c:36-70 | the pointer stores realise the removal of a subtree's root, touch no node outside it and decrement the size |
| `BinarySearchTree.BsTree.Unlink` | src/lib/structures/bstree.c:80-90 | hanging the replacement where the node hung changes the tree at that place only |
| `BinarySearchTree.BsTree.RemoveExactData` | src/lib/structures/bstree.c:72-107 | realises removal by data on the nodes, returns the removed node or null exactly if not found, size follows the sequence |
| `BinarySearchTree.BsTree.RemoveFirst` | src/lib/structures/bstree.c:109-133 | realises removal of the least node, null exactly for the empty tree |
| `BinarySearchTree.BsTree.RemoveLast` | src/lib/structures/bstree.c:135-159 | realises removal of the greatest node, null exactly for the empty tree |
| `BinarySearchTree.BsTree.LeftRotate` | src/lib/structures/bstree.c:161-187 | the stores realise the rotation and touch no node outside |
| `BinarySearchTree.BsTree.RightRotate` | src/lib/structures/bstree.c:189-215 | the stores realise the rotation and touch no node outside |
| `Fat12.DriveRead` | src/vfs/fat/fat12.c:12-63 | what reading n FAT sectors gives on every volume the setup accepts: a division by zero, a failure exactly if some drive sector involved is unreadable, or the pieces of the drive sectors it copies |
| `Fat12.FitsGivesSlice` | src/vfs/fat/fat12.c:12-63 | where the FAT sector size divides the drive's, that is the contiguous slice of the partition |
| `Fat12.ReadsRightIffDivides` | src/vfs/fat/fat12.c:378-382 | for every pair of sizes and the factor the setup computes: every read on every sound drive returns the slice it should if and only if the FAT sector size divides the drive's |
| `Fat12.MisfitReadsWrong` | src/vfs/fat/fat12.c:378-382 | for every other pair a drive and a sector that is read wrongly |
| `Fat12.ReadRound` | src/vfs/fat/fat12.c:35-58 | one round copies the pieces of one drive sector, and fails exactly if it is unreadable |
| `Fat12.OneRound` | src/vfs/fat/fat12.c:36-54 | consecutive FAT sectors of one drive sector are one contiguous copy |
| `Fat12.PiecesAreSlice` | src/vfs/fat/fat12.c:36-54 | on a volume that fits the pieces of any stretch join to the slice of the partition |
| `Fat12.RoundCopies` | src/vfs/fat/fat12.c:36-54 | the part of a drive sector at the FAT offset is that stretch |
| `Fat12.ReadSectors` | src/vfs/fat/fat12.c:20-23 | the drive interface: consecutive whole sectors |
| `Fat12.TableSector` | src/vfs/fat/fat12.c:91-93 | one sector of the table, byte by byte |
| `Fat12.TableWord` | src/vfs/fat/fat12.c:95-106 | the two bytes at an offset, from one sector or straddling two, and exactly when reading fails |
| `Fat12.NextCluster` | src/vfs/fat/fat12.c:75-125 | fails exactly for clusters below 2 or unreadable sectors; otherwise the 12 bits of the entry in the table's bytes, and on a volume that holds a packed table exactly that table's entry |
| `Fat12.PackedEntry` | src/vfs/fat/fat12.c:110-116 | every entry of a table packed two to three bytes is extracted again |
| `Fat12.TableReadsBack` | src/vfs/fat/fat12.c:75-125 | on a volume that holds a packed table the bytes `fat12_next_cluster` reads give back every entry |

## Left out

- Inline assembly, TLB flushes, IPIs, interrupt masking, printing and the device drivers: hardware effects.
- C11 memory orders: atomic steps are sequentially consistent.
- Large pages and the effective permissions of directory entries: the theorems on page tables are about leaf entries and translation.
- Building the frame list at boot: the frame allocator starts from any well-formed list without frame 0.
- Returning frames: `free_page_table` and process exit unreference frames the process does not own, so there is no exact reference count to state.
- The ready-thread list: it shares a link field with the per-process list.
- `bstree_insert_node` has no way out of its loop on the right-hand side; trees are given laid out. The red-black tree and segment merging are stubs.
- Cache eviction, growing the node pool and the ISO9660 mount point: unfinished or unsynchronised in the source; the pool of cache nodes has a fixed, arbitrary size.
- `loadelf`, the dynamic linker, FAT16/FAT32/exFAT, ISO9660, the shell and the system call wrappers.
- Null arguments and out-of-memory returns of `kmalloc_heap` inside path, cache and FAT functions, except that a lookup may find no free cache node.
- FsCacheLocks.ExitIffPathClimbs: up to the first second release; after it a reader may see a directory that is being linked, and only the tree itself is kept (FsCache.EveryInterleavingKeepsTheTree).
- CacheLookup.CacheIsTransparent: one lookup at a time, no eviction, and copying the path does not fail; the interleaving of lookups is the subject of FsCache.
- PhysicalMemory.FrameAllocator.FindNextFreeFrame: the branches that halt on a corrupt list are unreachable from a well-formed one.
- VirtualMemory.Machine.FindPage: on running out of frames for a table the kernel writes through a null table; the model stops there instead.
- VirtualMemory.Machine.MapRange: lengths up to the 48-bit space; on running out of frames the kernel writes through a null table, which the model turns into a stop with the first n pages mapped.
- MemMap.UserMemory.MemMap: addr + length is at most two pages below 2^64, so the padded range does not wrap; no page is mapped to frame 0.
- MemMap.UserMemory.MemMapFromBuffer: same bounds, also for addr + buffer_length.
- MemProtect.MemProtect: same bounds.
- FixedSizeAllocator.Allocator.constructor: item sizes of at least 8, because the rounding promised in src/lib/special_mem/fixed_size_allocator.h is not done and the links of smaller items overlap (FixedSizeAllocator.LinksApartIff).
- FixedSizeAllocator.Allocator.Free: live blocks, null, or pointers behind the last slot; freeing anything else is a client's fault the code does not detect. Consistency messages do not change the state and are not modelled.
- KernelHeap.SegmentHeap.Malloc: sizes that keep the heap end three pages below 2^64, so that rounding does not wrap; pages are assumed to be mapped.
- KernelHeap.SegmentHeap.Free: null or a block of this heap.
- LibcHeap.UserHeap.Malloc: sizes that keep the heap end below 2^64; `mmap` is assumed to succeed, as in the source, which ignores its result.
- LibcHeap.UserHeap.Realloc: null or a live block.
- LibcAlignment.PointersAlignedIff: heap ends and sizes are numbers without a bound, so for sizes near 2^64 it says nothing about the code.
- TimerRing.FiresWhatWasPublishedAndNotEarly: times past the wrap of the counter fire one tick early (see `TimerRing.NoEarlyExpiry`); a timeout of 0 frees its slot at once.
- PathNormalise.CollapsePath: absolute inputs shorter than PATH_MAX, which is what its callers pass.
- KernelFs.FileSystem.CreateNode: child lists are sequences; the prev and next pointers behind them are not modelled.
- Fat12.NextCluster: volumes whose sector size divides the drive's, since reads on others are wrong already (Fat12.ReadsRightIffDivides).
