# DarkForest, verified

A Dafny model of the parts of the DarkForest kernel and libc whose correctness depends on state, loops or arithmetic, with proofs of what they promise. `dafny verify dfyconfig.toml` checks all of it. There are five parts; `Common` holds `Option` and a few functions on sequences.

**The heap allocator** (`Bytes`, `HeapShape`, `HeapCalls`, `HeapAllocator`). `HeapAllocator` is the class over a byte-addressed memory: a block header is four little-endian words, the free list is a chain of such headers, and every method reads and writes those bytes. `HeapShape` is the abstract heap it represents: node headers that stay in place, regions that move, live blocks. The main result, `HeapAlwaysTiled`, says that after any sequence of calls the three kinds of piece cover the heap exactly once. `RunSucceeds` says exactly which sequences fail no assertion when every free names a live block: the retry after an expansion is not enough when the size modulo 4096 is 4064 or more. `HeapCalls` says which block a call hands out, when the heap grows, and that `free` undoes `allocate`. At the level of memory, `Free` takes any address and its assertion reads the magic word.

**Frames and page tables** (`Bits`, `FrameBitmap`, `TableEntry`, `Paging`, `AddressSpaces`, `FrameRuns`, `Sharing`, `MemoryMap`, `TempSlot`, `Cloning`, `MemoryManager`). Physical memory is a map from frame numbers to pages of 1024 entries; `Walk` is what the processor does with a virtual page (section 4.3 of the Intel SDM, volume 3A), and the rights it reports are those granted by directory and table entry together (section 4.6). The class `MemoryManager` reaches every table through the virtual memory that the tables themselves describe: directories through the identity window, page tables through the one temporary slot. Its methods are proved to refine a flat map from pages to entries, and the bookkeeping (which frame is a table, for which directory index, and which entry holds which frame) is carried through every operation, including `clone_page_directory` and `duplicate`. The main results over whole runs and many address spaces are `FrameRuns.NeverHandedOutTwice`, `Sharing.KernelEditsShared` and `Sharing.PrivateForever`.

**FAT32** (`Fat32Slots`, `Fat32Decoding`, `Fat32Volume`, `Fat32Directory`, `Fat32Paths`, `Fat32Files`, `Fat32FS`). The disk is an array of 512-byte sectors, updated in place by the class `Fat32FS`. The table, the clusters, the chains and the 32-byte slots are functions of those sectors, so that "nothing else changed" is a statement about the disk. `Fat32Decoding` says what slots mean, whoever wrote them, and `Fat32Paths` what `find` finds. The main results are `CreateThenReadDir` with `FindPathCreated`, `FindMeaning`, and `WriteThenReadFile`. A name is storable exactly when it has at most 819 characters, does not begin with a space and its short form is not taken for "." or "..".

**Scheduler and messages** (`LinkedList`, `Timer`, `Scheduling`, `SchedulerInvariant`, `Wakeups`, `BoundedWaiting`, `Messages`, `SleepPunctuality`, `Scheduler`). The scheduler is a state machine over timer ticks and the calls of the current process, in which the assertions of the scheduler, the blockers and the calls that block are possible faults; `StepKeeps` says which of them can occur. The class `Scheduler` refines it over two doubly linked lists of heap nodes. `TickWakes` says exactly who is woken and in which order. `BoundedWait`, `OnePlace`, `MessagesInOrder` and `NeverWokenEarly` are results about all runs.

**Numbers and text** (`Division`, `Checksum`, `IpV4`, `Text`, `Parsing`, `Formatting`, `Directives`, `IPv4Text`). Shift-subtract division, the Internet checksum (section 1 of RFC 1071) in an IPv4 header (section 3.1 of RFC 791), formatted printing, and parsing of integers and addresses, each as the loop of the source proved against an independent definition.

Where a promise of the code or its comments does not hold, the model keeps what the code does and states the exact condition:

- `allocate` asserts that one expansion is enough; once its pages are mapped, that is so exactly when `size % 4096 < 4064` (`HeapShape.ExpansionSuffices`).
- The room check of `create_entry` divides by 4 instead of the slot size, so it accepts up to eight times what fits (`Fat32Directory.RoomCheckIsLax`, with a witness in `RoomCheckOverruns`).
- A short name with a base of eight characters and an extension of one or two comes back with the extension in it twice (`Fat32Decoding.ShortName`, with a witness in `PaddedExtension`): the space searched for is the one that pads the extension.
- Long names of 64 parts or more do not come back (`Fat32Slots.TruncatedName`): an ordinal then carries the last-entry bit.
- The comment in the sleep blocker says that at most one second can be skipped. That holds for all runs that start `n` processes if and only if `n` is at most 200 (`SleepPunctuality.ExactBound`); `RelayOversleeps` is a run with 201 in which it fails. `StepKeeps` gives the condition in a single state.
- The comment above `clone_page_directory` relies on kernel directory entries being locked. The condition that should enforce it, at kernel/MM/MemoryManager.cpp:182, can never hold; `AddressSpaces.SeenElsewhere` states when a new kernel page is visible elsewhere.
- The assertion on the index in `syscall_block_until_pending` fails for a call without files that is woken by a message (`Scheduler.FinishPending`).
- `map_page` returns its error for a taken page with the temporary slot still in use (`MemoryManager.MapPage`).
- `from_string` also accepts one dot after the fourth number (`IPv4Text.FromStringMeaning`).
- `__divdi3` of the minimum by -1 gives the minimum (`Division.SDiv`), and `atoi` of the printed minimum passes through an overflow (`Parsing.ItoaThenAtoi`).

Conventions. A failed assertion of the code is a result value (`ok` false, `Panic`, `Failed`, `Halted`, `None`), and the contracts say when it occurs; after it the machine halts, so the state is not always described. Sequences and maps stand for `Vector`, `String` and `BigBuffer`. Addresses of pages and frames are page and frame numbers. Machine integers are unbounded unless wrap-around is written out.

## Model

| member | source | states |
|---|---|---|
| `HeapShape.FirstFit` | libc/HeapAllocator.cpp:46-53 | the first node strictly larger than the request plus a header, or the list length when every node is too small |
| `HeapShape.CarveWellFormed` | libc/HeapAllocator.cpp:61-75 | cutting a block off the front of a region, with the node header left where it was, keeps headers, regions and live blocks tiling the heap |
| `HeapShape.AddNodeKeeps` | libc/HeapAllocator.cpp:96-117 | merging a block into the region right after it, or making it the first node, keeps every pair of pieces apart |
| `HeapShape.ReleaseWellFormed` | libc/HeapAllocator.cpp:128-141 | after any `free` of a live block the pieces tile the heap again |
| `HeapShape.ExpandAddsNode` | libc/HeapAllocator.cpp:78-94 | an expansion never merges: no region can start at the new end of the heap, so a node is always added |
| `HeapShape.ExpandWellFormed` | libc/HeapAllocator.cpp:78-94 | an expansion keeps the tiling, over the longer heap |
| `HeapShape.ExpansionSuffices` | libc/HeapAllocator.cpp:43-59 | when nothing fits, the second search succeeds if and only if the pages of the expansion can be mapped and the size modulo 4096 is below 4064 |
| `HeapShape.AllocateWellFormed` | libc/HeapAllocator.cpp:29-76 | a successful `allocate` keeps the tiling, leaves the old live blocks as they were and adds one of exactly the requested size |
| `HeapShape.RunWellFormed` | libc/HeapAllocator.cpp:29-141 | every sequence of calls keeps the tiling |
| `HeapShape.RunSucceeds` | libc/HeapAllocator.cpp:43-59 | when every free names a live block, a whole sequence of calls fails no assertion if and only if every request is below the maximum and fits at its point, at once or after the expansion |
| `HeapShape.EveryByteOwnedOnce` | libc/HeapAllocator.cpp:18-141 | each byte of the heap lies in exactly one header, free region or live block, and no byte outside it in any |
| `HeapShape.HeapAlwaysTiled` | libc/HeapAllocator.cpp:18-168 | from a fresh heap, after any sequence of calls: exact tiling, and free bytes plus 16 per node plus size+16 per live block equal end minus start |
| `HeapCalls.AllocateUsesFirstFit` | libc/HeapAllocator.cpp:43-76 | when a node fits, the heap does not grow, the block is the front of the first such node, and every other node stays as it was |
| `HeapCalls.AllocateExpandsOnce` | libc/HeapAllocator.cpp:54-59 | when none fits and the call succeeds, the heap has grown by size/4096+1 pages and the block lies right behind the new node's header |
| `HeapCalls.FreeMerges` | libc/HeapAllocator.cpp:96-113 | a freed block with a region right behind it joins that region; no node is added, and the header stays where it was |
| `HeapCalls.FreePrepends` | libc/HeapAllocator.cpp:114-117 | any other freed block becomes the first node |
| `HeapCalls.FreeUndoesAllocate` | libc/HeapAllocator.cpp:29-141 | freeing the block that `allocate` just cut off a node restores the heap exactly |
| `HeapCalls.StepKeepsRegions` | libc/HeapAllocator.cpp:29-141 | no call leaves an empty region behind, as long as no block of size 0 is freed |
| `HeapAllocator.HeapAllocator.constructor` | libc/HeapAllocator.cpp:18-27 | the memory holds one free node covering all but its own header |
| `HeapAllocator.HeapAllocator.InitBlock` | libc/HeapAllocator.cpp:152-162 | writes the four words of a header and no other byte |
| `HeapAllocator.HeapAllocator.FindFit` | libc/HeapAllocator.cpp:46-53 | walks the list in memory and stops at the header of the first fitting node, null if there is none |
| `HeapAllocator.HeapAllocator.AddMemBlock` | libc/HeapAllocator.cpp:96-117 | the list in memory becomes the abstract list with the block merged or first; only one header is written |
| `HeapAllocator.HeapAllocator.ExpandHeap` | libc/HeapAllocator.cpp:78-94 | fails exactly when one of its pages cannot be mapped, with the heap as it was; otherwise the memory represents the expanded heap; no live byte changes |
| `HeapAllocator.HeapAllocator.CarveBlock` | libc/HeapAllocator.cpp:61-76 | writes the used header and moves the node's region; the memory represents the carved heap |
| `HeapAllocator.HeapAllocator.Allocate` | libc/HeapAllocator.cpp:29-76 | fails exactly when the abstract allocation does; otherwise the memory represents it, the result is the payload in the first node that fits, with the heap as long as before, or behind the new node when none does, and no byte of any live block, header or payload, was written |
| `HeapAllocator.HeapAllocator.Free` | libc/HeapAllocator.cpp:128-141 | its assertion fails, and nothing changes, exactly when the magic word does not say used; otherwise the memory represents the released heap, the remaining live blocks are untouched, and the mark says free |
| `HeapAllocator.HeapAllocator.LiveMarkedUsed` | libc/HeapAllocator.cpp:138 | every live block carries the used mark, so freeing it never fails |
| `HeapAllocator.StillMarkedFree` | libc/HeapAllocator.cpp:97-117 | merged or not, a freed block keeps its free mark, so freeing it again fails the assertion |
| `HeapAllocator.HeapAllocator.SizeOfBlock` | libc/HeapAllocator.cpp:143-150 | the requested size of any live block |
| `HeapAllocator.HeapAllocator.CurrentFreeSpace` | libc/HeapAllocator.cpp:119-126 | the reported bytes and node count, with the live blocks, account for the whole heap |
| `HeapAllocator.PayloadWriteKeeps` | libc/HeapAllocator.cpp:61-76 | a program that writes any bytes inside its payload cannot disturb the allocator |
| `Bits.SetBitReads` | libc/bits.h:8-19 | setting one bit changes that bit and no other |
| `Bits.GetOnBitIdx` | libc/bits.h:21-34 | the lowest set bit, or no bit exactly for 0 |
| `FrameBitmap.WithFrameSet` | kernel/MM/MemoryManager.cpp:110-123 | marking a frame changes the set of available frames by exactly that frame |
| `FrameBitmap.FrameBitmap.SetFrame` | kernel/MM/MemoryManager.cpp:110-123 | the available set gains or loses exactly that frame |
| `FrameBitmap.FrameBitmap.GetFreeFrame` | kernel/MM/MemoryManager.cpp:68-85 | takes the lowest available frame out of the set; fails exactly when the set is empty |
| `FrameBitmap.FrameBitmap.IsFrameAvailable` | kernel/MM/MemoryManager.cpp:125-133 | membership in the available set |
| `TableEntry.Filled` | kernel/MM/MM_types.h:77-127 | after the four setters every getter returns what its setter was given |
| `TableEntry.WordParts` | kernel/MM/MM_types.h:81-86 | `addr()` and `flags()` take a packed word apart exactly |
| `TableEntry.WordBits` | kernel/MM/MM_types.h:97-127 | bits 0, 1 and 2 of the word are the present, writable and user flags, and the bits from 12 up the frame, where the processor looks for them |
| `TableEntry.SetAddrWord` | kernel/MM/MM_types.h:88-91 | masking and or-ing an address replaces the frame and keeps the flags |
| `TableEntry.SetFlagsWord` | kernel/MM/MM_types.h:92-95 | masking and or-ing flags replaces the flags and keeps the frame |
| `TableEntry.IndexDecidesPage` | kernel/MM/PageDirectory.cpp:18-20 | two addresses select the same directory and table entry exactly when they are on the same page |
| `Paging.EnsureTableKeeps` | kernel/MM/MemoryManager.cpp:172-217 | a table created for a directory entry keeps the invariant, in which every directory entry outside the window is writable and open to users, so that the table entry alone decides the rights |
| `Paging.EnsureTableWalk` | kernel/MM/MemoryManager.cpp:172-217 | creating a zeroed table changes no translation in any directory |
| `Paging.MapPageEffect` | kernel/MM/MemoryManager.cpp:301-315 | mapping an unmapped page gives it the frame and exactly the rights asked for, as granted by directory and table entry together, and leaves every other page of the directory as it was, also when a table is created |
| `Paging.MapPageElsewhere` | kernel/MM/MemoryManager.cpp:301-315 | other directories keep every translation when the page lies in private memory, and every translation of other pages in any case |
| `Paging.MapPageLosesNothing` | kernel/MM/MemoryManager.cpp:301-315 | no directory loses or changes a translation it had |
| `Paging.AllocateEffect` | kernel/MM/MemoryManager.cpp:246-257 | the page leads to a frame that leaves the available set, with exactly the rights asked for by both entries, is held by that entry alone, and every other page is unchanged |
| `Paging.DeallocateEffect` | kernel/MM/MemoryManager.cpp:317-333 | exactly that page is unmapped, its entry holds no frame any more, and the frame it held is available again if the caller gives it back |
| `Paging.DeallocateElsewhere` | kernel/MM/MemoryManager.cpp:317-333 | other directories keep every translation when the page lies in private memory, and every translation of other pages in any case |
| `Paging.SetTempSlot` | kernel/MM/MemoryManager.cpp:136-159 | whatever the temporary slot contains, the invariant holds and no page outside the identity window and its alias is affected |
| `FrameRuns.BootInv` | kernel/boot.S:36-61 | the tables built at boot satisfy the invariant, for any available frames from 5 MB up |
| `FrameRuns.ApplyKeeps` | kernel/MM/MemoryManager.cpp:246-457 | every operation (allocate, map, deallocate, clone, use of the slot, writing a page one holds) keeps the invariant |
| `FrameRuns.TakenAreAvailable` | kernel/MM/MemoryManager.cpp:68-85 | the frames handed out by an operation are exactly those that were available before it and are not afterwards |
| `FrameRuns.RunKeeps` | kernel/MM/MemoryManager.cpp:246-457 | the invariant holds in every state of every sequence of operations over any number of address spaces |
| `FrameRuns.NeverHandedOutTwice` | kernel/MM/MemoryManager.cpp:68-133 | a frame held by a page is handed out to nobody, as page, table or cloned table, until that page is deallocated |
| `FrameRuns.TableNeverHandedOut` | kernel/MM/MemoryManager.cpp:188-213 | a frame that became a page table is never handed out again nor held by a page |
| `FrameRuns.WriteDataKeeps` | kernel/MM/MemoryManager.cpp:246-257 | programs writing the pages they hold change no translation |
| `AddressSpaces.ClonedWalk` | kernel/MM/MemoryManager.cpp:372-457 | the clone translates kernel pages and the first 8 MB like the original, and user pages not at all or, when copied, like the original |
| `AddressSpaces.OriginalWalk` | kernel/MM/MemoryManager.cpp:372-457 | the original and all other directories translate as before the clone |
| `AddressSpaces.ClonedKeeps` | kernel/MM/MemoryManager.cpp:372-457 | the clone keeps the invariant: its user tables are its own |
| `Sharing.PdeStays` | kernel/MM/MemoryManager.cpp:172-457 | no operation changes a directory entry once it is present |
| `Sharing.SharedForever` | kernel/MM/MemoryManager.cpp:416-421 | directories that share a table translate its pages alike after any further operations |
| `Sharing.KernelEditsShared` | kernel/MM/MemoryManager.cpp:416-421 | over any run after a clone, both directories translate every page alike whose table was there and is not copied: all later edits, through any directory, are seen by both |
| `Sharing.PrivateForever` | kernel/MM/MemoryManager.cpp:422-438 | over any run, what a directory sees at a page of private memory changes only by editing that page through that directory |
| `Sharing.CopiesArePrivate` | kernel/MM/MemoryManager.cpp:430-438 | copied user pages translate like the original in both directories, each until its own first edit of the page, whatever is done through the other |
| `AddressSpaces.UserEditsPrivate` | kernel/MM/MemoryManager.cpp:430-438 | editing a user page through one directory is seen through no other |
| `AddressSpaces.SeenElsewhere` | kernel/MM/MemoryManager.cpp:176-199 | a newly mapped page is seen by another directory if and only if both already shared its table; a table created later is not propagated, in kernel space either |
| `TempSlot.WindowWalk` | kernel/boot.S:36-61 | in every directory the identity window maps to itself and the slot maps what its entry says; the kernel can write there and user programs have no access |
| `TempSlot.StepThenSlot` | kernel/MM/MemoryManager.cpp:136-159 | an operation followed by a change of the slot is two steps of a run, so that results about runs cover the methods below |
| `MemoryManager.MemoryManager.constructor` | kernel/MM/MemoryManager.cpp:471-478 | takes over the boot tables in a valid state, with no frame available and the slot free |
| `MemoryManager.MemoryManager.MarkRegion` | kernel/MM/MemoryManager.cpp:57-63 | exactly the whole frames of the region above 5 MB become available; fails exactly when one of them is not aligned |
| `MemoryManager.MemoryManager.DisableNullPage` | kernel/MM/MemoryManager.cpp:235-243 | page 0 is unmapped in every directory, through the slot, which is released |
| `MemoryMap.FramesOfMap` | kernel/MM/MemoryManager.cpp:34-63 | the frames made available are exactly those from 5 MB up that lie in an available region |
| `MemoryMap.WholeFrames` | kernel/MM/MemoryManager.cpp:57-63 | for an aligned region, these are the frames all of whose bytes lie in it |
| `MemoryManager.MemoryManager.Init` | kernel/MM/MemoryManager.cpp:30-66 | exactly the frames of the available regions become available and page 0 is disabled; fails exactly for a region above 4 GB or an unaligned frame |
| `MemoryManager.MemoryManager.Select` | kernel/MM/MemoryManager.cpp:460-469 | edits another directory without changing the memory |
| `MemoryManager.MemoryManager.TempMap` | kernel/MM/MemoryManager.cpp:136-149 | fails exactly when the slot is in use; otherwise the slot maps the frame |
| `MemoryManager.MemoryManager.UnTempMap` | kernel/MM/MemoryManager.cpp:151-159 | the slot is released and nothing else changes |
| `MemoryManager.MemoryManager.EnsurePte` | kernel/MM/MemoryManager.cpp:172-217 | opens the slot on the table of the page, creating and zeroing it through the slot when missing; fails exactly when the slot is in use or no frame is left |
| `MemoryManager.MemoryManager.MapPage` | kernel/MM/MemoryManager.cpp:301-315 | refines the flat map: exact outcome in each case, exactly that page changes, the slot is released on success and left open when the page was taken |
| `MemoryManager.MemoryManager.Allocate` | kernel/MM/MemoryManager.cpp:246-257 | the assertions hold exactly when the slot is free, the page unmapped and the frames suffice; then the lowest frame is mapped and held, nothing else changes and the slot is released |
| `MemoryManager.MemoryManager.Deallocate` | kernel/MM/MemoryManager.cpp:317-333 | succeeds exactly for a mapped page with the slot free; exactly that page is unmapped, in private memory for this directory alone, a held frame becomes available, the slot is released |
| `MemoryManager.MemoryManager.ReadPte` | kernel/MM/MemoryManager.cpp:219-233 | reads the entry of a page in any directory through the slot and releases it |
| `MemoryManager.MemoryManager.Map` | kernel/MM/MemoryManager.cpp:273-299 | both error codes exactly; succeeds exactly when the slot is free, no page of the range is mapped and the frames suffice for the new tables; then the range translates to consecutive frames and the rest is unchanged |
| `MemoryManager.MemoryManager.Duplicate` | kernel/MM/MemoryManager.cpp:493-516 | on success every destination page leads to the frame of its source page, for any page count; no directory loses a translation, none but the edited one changes when the destination is private, and the slot is as before. Between two directories with a private destination it succeeds exactly when the sources are readable and the destination can be mapped |
| `MemoryManager.MemoryManager.CopyFrame` | kernel/MM/MemoryManager.cpp:335-356 | copies a frame through the one slot and releases it |
| `MemoryManager.MemoryManager.CopyTables` | kernel/MM/MemoryManager.cpp:398-439 | the first pass: each present user entry gets a copy of its table in a fresh frame, kernel entries keep theirs, or user entries are marked for deletion |
| `MemoryManager.MemoryManager.WriteEntries` | kernel/MM/MemoryManager.cpp:441-453 | the second pass writes the planned entries of the new directory through the slot |
| `MemoryManager.MemoryManager.Clone` | kernel/MM/MemoryManager.cpp:372-457 | the two passes produce exactly the abstract clone in the next directory frame, with the slot released; fails exactly for a used slot, a full directory region, or fewer frames than tables to copy |
| `Fat32Slots.WholeName` | kernel/FileSystem/Fat32FS.cpp:616-642 | up to 63 parts, the backward walk over the reversed 13-character slots collects the whole name |
| `Fat32Slots.TruncatedName` | kernel/FileSystem/Fat32FS.cpp:618-622 | from 64 parts on, an ordinal reaches the last-entry bit and the name comes back truncated |
| `Fat32Slots.NoSpaceNotFake` | kernel/FileSystem/Fat32FS.cpp:456-495 | a short slot whose name has no space is never taken for "." or ".." |
| `Fat32Slots.CreateThenScan` | kernel/FileSystem/Fat32FS.cpp:91-135 | writing the new slots over the end of a directory makes the scan return the old entries followed by exactly the new one, if and only if the name is storable |
| `Fat32Slots.ScanResize` | kernel/FileSystem/Fat32FS.cpp:728-730 | rewriting one size field changes the size of the matching entry and nothing else the scan returns |
| `Fat32Decoding.ShortName` | kernel/FileSystem/Fat32FS.cpp:456-474 | the name of an 8.3 slot is the base in lower case, with a dot and the extension exactly when the extension does not start with a space; this fails if and only if a base of eight characters meets an extension padded with spaces, which then appears twice |
| `Fat32Decoding.PaddedExtension` | kernel/FileSystem/Fat32FS.cpp:456-474 | "ABCDEFGH.MD" is listed as "abcdefghmd.md " |
| `Fat32Decoding.FakeIsDotSlot` | kernel/FileSystem/Fat32FS.cpp:492-495 | which name fields are taken for "." and ".." |
| `Fat32Decoding.LongText` | kernel/FileSystem/Fat32FS.cpp:427-454 | a long slot that holds up to thirteen ASCII characters, a zero and padding, by whomever written, is read as these characters |
| `Fat32Decoding.UnitsReadable` | kernel/FileSystem/Fat32FS.cpp:427-446 | reading a long slot fails exactly at a character outside ASCII |
| `Fat32Decoding.EntryFields` | kernel/FileSystem/Fat32FS.cpp:474-500 | kind, size and start cluster of an entry, on the bytes of its slot |
| `Fat32Decoding.ShortEntry` | kernel/FileSystem/Fat32FS.cpp:511-543 | an 8.3 slot that is not behind a long slot has its short name; as the first slot of a directory it fails the assertion |
| `Fat32Decoding.LongEntry` | kernel/FileSystem/Fat32FS.cpp:511-543 | an entry behind the slots of a long name has that name, all parts of it in order |
| `Fat32Decoding.ScanLists` | kernel/FileSystem/Fat32FS.cpp:91-135 | the scan lists exactly the slots before the end mark that are no part of a long name, not free, not "." or "..", in order; it fails exactly when one of them has no name or a short name starts with a space |
| `Fat32Decoding.NoEndFails` | kernel/FileSystem/Fat32FS.cpp:97-105 | without an end mark the scan fails |
| `Fat32Volume.SetFatEntryReads` | kernel/FileSystem/Fat32FS.cpp:696-708 | writing one table entry changes that entry and no other |
| `Fat32Volume.FatEntryBytes` | kernel/FileSystem/Fat32FS.cpp:64-76 | a table entry is the number in its four bytes of the table |
| `Fat32Volume.ClustersInRow` | kernel/FileSystem/Fat32FS.cpp:59-62 | clusters lie in a row behind the two tables, from number 2 on |
| `Fat32Volume.SetFatEntryFrame` | kernel/FileSystem/Fat32FS.cpp:696-708 | writing the table leaves every data cluster alone |
| `Fat32Volume.OnlyClusterFrame` | kernel/FileSystem/Fat32FS.cpp:84-88 | writing one cluster leaves every other cluster and the whole table alone |
| `Fat32Volume.ChainUnique` | kernel/FileSystem/Fat32FS.cpp:174-188 | the start cluster determines the chain |
| `Fat32Volume.ChainDistinct` | kernel/FileSystem/Fat32FS.cpp:174-188 | a chain that reaches an end mark visits no cluster twice |
| `Fat32Volume.ChainFrame` | kernel/FileSystem/Fat32FS.cpp:138-158 | a chain depends only on the entries of its own clusters |
| `Fat32Directory.CreateEffect` | kernel/FileSystem/Fat32FS.cpp:660-672 | `create_entry` changes one table entry, the cluster of the slots and the new cluster, which is zeroed, and nothing else |
| `Fat32Directory.CreateKeepsChains` | kernel/FileSystem/Fat32FS.cpp:660-672 | the new cluster was on no chain, every existing chain is unchanged, and the new cluster is a chain of its own |
| `Fat32Directory.CreatedSlots` | kernel/FileSystem/Fat32FS.cpp:610-658 | the parent's slots afterwards: the new ones from the end mark on, all others as before |
| `Fat32Directory.CreateThenReadDir` | kernel/FileSystem/Fat32FS.cpp:578-672 | after `create_entry`, `read_directory` returns the old entries and then exactly the new one with name, type and cluster, if and only if the name is storable |
| `Fat32Directory.OtherDirKept` | kernel/FileSystem/Fat32FS.cpp:660-672 | a directory without the slot cluster reads the same before and after |
| `Fat32Directory.CreatedEmpty` | kernel/FileSystem/Fat32FS.cpp:660-672 | what was created is one cluster of zeros, a chain of its own, and as a directory it lists nothing |
| `Fat32Directory.FindFromCreated` | kernel/FileSystem/Fat32FS.cpp:195-266 | the walk of `find` from any directory on the way reaches the parent as before, and then the new entry |
| `Fat32Directory.FindPathCreated` | kernel/FileSystem/Fat32FS.cpp:195-266 | `find` resolves the full path of the new entry, at any depth, when no older sibling has its name |
| `Fat32Paths.FindMeaning` | kernel/FileSystem/Fat32FS.cpp:195-266 | `find` returns an entry if and only if it has the kind wanted and ends a chain of directories in which each is the first entry with its part of the path as name; the empty path gives the root whatever is wanted; it fails if and only if the path leads into a directory that cannot be read |
| `Fat32Directory.RoomCheckIsLax` | kernel/FileSystem/Fat32FS.cpp:606-613 | the room check accepts exactly up to eight times the slots that fit |
| `Fat32Directory.RoomCheckOverruns` | kernel/FileSystem/Fat32FS.cpp:606-613 | at the last slot of any cluster a 14-character name passes the check and does not fit |
| `Fat32Files.LongEnoughMeans` | kernel/FileSystem/Fat32FS.cpp:321-328 | the write loop never leaves the chain exactly when the data is no longer than the chain |
| `Fat32Files.WriteChainEffect` | kernel/FileSystem/Fat32FS.cpp:321-338 | the data replaces the front of the chain's bytes; no other cluster and no table entry changes |
| `Fat32Files.WriteChainFills` | kernel/FileSystem/Fat32FS.cpp:321-338 | where the chain is too short, the loop has filled it with the front of the data, and nothing else has changed |
| `Fat32Files.ResizedEffect` | kernel/FileSystem/Fat32FS.cpp:710-734 | updating a size changes the size bytes of one slot and nothing else on the disk |
| `Fat32Files.WriteThenReadFile` | kernel/FileSystem/Fat32FS.cpp:314-342 | the file then reads as the data followed by its old tail, the parent differs only in that file's size, both chains and all other clusters are unchanged |
| `Fat32Files.WrittenEntries` | kernel/FileSystem/Fat32FS.cpp:314-342 | the parent lists the same entries, the written file, found by its cluster, with its new size |
| `Fat32FS.Fat32FS.EntryInFat` | kernel/FileSystem/Fat32FS.cpp:64-76 | the table entry of a cluster, from the disk sectors |
| `Fat32FS.Fat32FS.NumClustersInEntry` | kernel/FileSystem/Fat32FS.cpp:174-188 | terminates and counts exactly the clusters of the chain |
| `Fat32FS.Fat32FS.ReadWholeEntry` | kernel/FileSystem/Fat32FS.cpp:138-172 | reads exactly the bytes of exactly the clusters counted, in order |
| `Fat32FS.Fat32FS.CreateEntryFrom` | kernel/FileSystem/Fat32FS.cpp:511-543 | the backward loop decodes the entry that ends at a short slot, with the name that `Fat32Decoding` describes, or fails its assertion |
| `Fat32FS.Fat32FS.ReadDirectory` | kernel/FileSystem/Fat32FS.cpp:91-135 | the forward loop returns the entries that `Fat32Decoding.ScanLists` describes, or fails where the scan does |
| `Fat32FS.Fat32FS.FindInDirectory` | kernel/FileSystem/Fat32FS.h:193-222 | the two loops find the first matching slot of the whole chain, with its cluster and offset |
| `Fat32FS.Fat32FS.Find` | kernel/FileSystem/Fat32FS.cpp:195-266 | resolves a path exactly as the walk whose results `Fat32Paths.FindMeaning` describes, failing where reading a directory fails |
| `Fat32FS.Fat32FS.FindFreeCluster` | kernel/FileSystem/Fat32FS.cpp:674-694 | the first zero entry of the table |
| `Fat32FS.Fat32FS.UpdateFat` | kernel/FileSystem/Fat32FS.cpp:696-708 | sets one entry of the first table |
| `Fat32FS.Fat32FS.FillSlots` | kernel/FileSystem/Fat32FS.cpp:613-658 | the loop from the short slot backwards writes the slots of the new entry and leaves the rest of the cluster |
| `Fat32FS.Fat32FS.CreateEntry` | kernel/FileSystem/Fat32FS.cpp:578-672 | says which outcome occurs; on success the disk is exactly the created one, otherwise it is unchanged |
| `Fat32FS.Fat32FS.UpdateFileSize` | kernel/FileSystem/Fat32FS.cpp:710-734 | rewrites the size in the first slot with the cluster index, or reports that there is none |
| `Fat32FS.Fat32FS.WriteToExistingFile` | kernel/FileSystem/Fat32FS.cpp:314-342 | refuses exactly the sizes that are not whole sectors; halts exactly when the chain is too short, having written what fits, or when the parent has no slot for the file; otherwise the disk is exactly the written one |
| `LinkedList.List.Append` | libc/types/list.h:77-88 | the contents gain the value at the end and the links stay consistent |
| `LinkedList.List.Find` | libc/types/list.h:96-104 | the node of the first equal value, null exactly when there is none |
| `LinkedList.List.RemoveNode` | libc/types/list.h:115-133 | unlinking one node removes exactly that position |
| `LinkedList.List.Remove` | libc/types/list.h:106-113 | removes the first equal value and says whether there was one |
| `LinkedList.List.PopFront` | libc/types/list.h:62-69 | returns the first value and removes it |
| `Timer.SleepIsExact` | kernel/sleep.cpp:6-19 | for every start and duration the blocker says no exactly while fewer than the requested milliseconds have passed, and its assertion fails exactly when asked in a second more than one after the deadline |
| `Timer.WakesOnTime` | kernel/TaskBlocker.cpp:8-23 | asked at every timer interrupt, it allows waking at the first one that completes the time |
| `SchedulerInvariant.BootInv` | kernel/Scheduler.cpp:17-21 | the state before the first tick is good |
| `SchedulerInvariant.UnblockKeeps` | kernel/Scheduler.cpp:100-117 | walking the blocked list fails exactly on an overslept sleeper and otherwise keeps the invariant and only moves processes; which ones, `Wakeups.TickWakes` says |
| `SchedulerInvariant.TickKeeps` | kernel/Scheduler.cpp:30-77 | exactly when a tick fails, and what it keeps otherwise |
| `SchedulerInvariant.BlockKeeps` | kernel/Scheduler.cpp:129-136 | blocking the current process keeps every process in one place and chooses the head of the runnable list |
| `SchedulerInvariant.TerminateKeeps` | kernel/Scheduler.cpp:150-163 | termination keeps the invariant and puts the head of the runnable list in charge |
| `SchedulerInvariant.WaiterReleased` | kernel/process.cpp:45-51 | a process waiting for the terminated one stays blocked until the next walk, which may wake it |
| `SchedulerInvariant.WaitKeeps` | kernel/process.cpp:156-172 | waiting keeps the invariant; it fails exactly for a second waiter |
| `SchedulerInvariant.StepKeeps` | kernel/Scheduler.cpp:23-163 | in a good state a step fails if and only if it meets an overslept sleeper, a message of another size, a second waiter, or a wake-up for input where no file was given; otherwise the next state is good. No other assertion of the scheduler, the blockers and the blocking calls can fail |
| `SchedulerInvariant.ConsumerHasMessage` | kernel/process.cpp:375-391 | a process woken from the message blocker finds a message |
| `Wakeups.TickWakes` | kernel/Scheduler.cpp:30-117 | a tick that reschedules and does not fail moves exactly the blocked processes whose condition holds to the end of the line, in their old order, leaves the others as they were, and puts the head of the line in charge |
| `Wakeups.WokenExactly` | kernel/TaskBlocker.cpp:8-82 | a process leaves the blocked list at such a tick if and only if it waits for a message and has one, for a process that ended, for a file that is ready, for either of message and file, or slept until now |
| `Wakeups.OnlyTicksWake` | kernel/Scheduler.cpp:119-163 | nothing but a tick wakes a process, and nothing but the end of the process waited for changes what it waits for |
| `Wakeups.CallBlocks` | kernel/process.cpp:156-172 | a call that blocks puts its caller at the end of the blocked list, waiting for exactly what it asked for; a sleeper's deadline lies exactly its milliseconds ahead, and a process waited for knows its waiter |
| `Wakeups.NeverWokenEarly` | kernel/TaskBlocker.cpp:8-23 | in every run a sleeping process stays asleep until its milliseconds have passed |
| `BoundedWaiting.RunsKeepInv` | kernel/Scheduler.cpp:23-163 | every state reached from boot is good |
| `BoundedWaiting.OnePlace` | kernel/Scheduler.cpp:23-163 | in every reachable state each live process but idle is in exactly one of runnable list, blocked list or current, and its state field and blocker agree |
| `Messages.MessagesInOrder` | kernel/process.cpp:351-438 | over any run, the messages a process took, followed by those still queued, are exactly those that the events of the run sent to it since its start while it was in a list, each with its sender, in order |
| `Messages.StepTakes` | kernel/process.cpp:364-426 | a message is taken exactly by the calls that receive one, by the caller only, and it is the first of its queue |
| `Messages.WhoLives` | kernel/Scheduler.cpp:23-163 | processes come and go only by starting and terminating; termination removes the current one only |
| `BoundedWaiting.StepServes` | kernel/Scheduler.cpp:28-136 | no step worsens a place in the runnable list and every tick brings the turn closer |
| `BoundedWaiting.BoundedWait` | kernel/Scheduler.cpp:28-136 | a process at index k of the runnable list becomes current within 6*(k+1) ticks, whatever is interleaved |
| `SleepPunctuality.SleepersOnTime` | kernel/TaskBlocker.cpp:14-22 | in any run that starts at most 200 processes the assertion of the sleep blocker never fails |
| `SleepPunctuality.RelayOversleeps` | kernel/TaskBlocker.cpp:14-22 | a run that starts 201 processes in which it fails |
| `SleepPunctuality.ExactBound` | kernel/TaskBlocker.cpp:14-22 | all runs that start n processes are safe if and only if n is at most 200 |
| `Scheduler.Scheduler.AddProcess` | kernel/Scheduler.cpp:23-26 | refines the step on the two linked lists |
| `Scheduler.Scheduler.PickNextAndSwitch` | kernel/Scheduler.cpp:79-98 | refines the choice; its three assertions are proved |
| `Scheduler.Scheduler.GetProcess` | kernel/Scheduler.cpp:170-181 | finds a process exactly when it is in one of the lists |
| `Scheduler.Scheduler.AskInput` | kernel/TaskBlocker.cpp:54-73 | the answer, the reason and the first ready file; the index names one of the files exactly when there is at least one |
| `Scheduler.Scheduler.TryUnblockTasks` | kernel/Scheduler.cpp:100-117 | refines the walk over the blocked list, whose result `Wakeups.TickWakes` states; its assertions on state and blocker are proved |
| `Scheduler.Scheduler.OnTimer` | kernel/drivers/PIT.cpp:18-29 | counters and `tick` refine the abstract tick; fails exactly when it does |
| `Scheduler.Scheduler.BlockCurrent` | kernel/Scheduler.cpp:129-136 | refines blocking |
| `Scheduler.Scheduler.TerminateCurrent` | kernel/Scheduler.cpp:150-163 | refines termination |
| `Scheduler.Scheduler.SendMessage` | kernel/process.cpp:351-362 | refines sending, which `Messages.MessagesInOrder` describes; not found exactly when the receiver is in neither list |
| `Scheduler.Scheduler.ConsumeMessage` | kernel/process.cpp:387-407 | the assertion that there is a message is proved; fails exactly on a size mismatch |
| `Scheduler.Scheduler.GetMessage` | kernel/process.cpp:364-379 | takes the first message or blocks |
| `Scheduler.Scheduler.BlockUntilPending` | kernel/process.cpp:464-484 | blocks until a message or a readable file |
| `Scheduler.Scheduler.FinishPending` | kernel/process.cpp:485-487 | the assertion on the index fails exactly when no file was given |
| `Scheduler.Scheduler.WaitForProcess` | kernel/process.cpp:156-172 | refines waiting, whose effect `Wakeups.CallBlocks` states; not found exactly when the process is in neither list, and a failure exactly for a second waiter |
| `Scheduler.Scheduler.SleepMs` | kernel/sleep.cpp:6-19 | blocks with the deadline the code computes |
| `Division.UDivMod` | libc/stdio.cpp:117-146 | quotient and remainder are exact for every 64-bit pair; a trap exactly for divisor 0 |
| `Division.SDiv` | libc/stdio.cpp:105-115 | truncation toward zero for every signed pair, except that the minimum by -1 gives the minimum |
| `Division.TruncatedUnique` | libc/stdio.cpp:105-115 | there is only one quotient truncated toward zero |
| `Checksum.FoldedIsResidue` | kernel/Network/Checksum.h:12-27 | the folded running sum equals the representative of the true sum modulo 65535 in 1..65535, or 0 for 0, from any start |
| `Checksum.SumMeaning` | kernel/Network/Checksum.h:12-27 | congruent to the true sum modulo 65535, and 0 if and only if all words are 0 |
| `Checksum.Compute` | kernel/Network/Checksum.h:8-30 | the loop over an array computes the complement of that sum |
| `Checksum.StoredChecksumVerifies` | kernel/Network/Checksum.h:8-30 | stored into a word-aligned field that was 0, the checksum makes the recomputed one 0 |
| `Checksum.OneWordChanged` | kernel/Network/Checksum.h:8-30 | changing one word of data that verifies goes unnoticed if and only if all bits clear and all bits set are exchanged (and other words are not all 0 in one direction) |
| `Checksum.ByteOrderDoesNotMatter` | kernel/Network/Checksum.h:14-20 | data verifies in the byte order of this machine exactly when it verifies in network order |
| `IpV4.Sender.BuildPacket` | kernel/Network/IpV4.cpp:42-72 | the fields in network order, the payload behind them, the next identifier, and a header checksum that verifies in either byte order |
| `Text.CountDigits` | libc/printf.h:23-30 | the number of digits and the highest power, without 32-bit overflow |
| `Text.PrintInt` | libc/printf.h:12-45 | exactly the numeral, after sign and filler, for every value, base up to 16, width and fill character, and the reported count |
| `Parsing.Atoi10` | libc/stdlib.cpp:8-21 | the value of the string before its NUL, wrapped to 32 bits |
| `Parsing.Atoi16` | libc/stdlib.cpp:23-43 | the same for hexadecimal; fails exactly at a character that is no digit |
| `Parsing.NumeralValue` | libc/printf.h:38-43 | reading a numeral gives the number back, through sums that never exceed it |
| `Parsing.ItoaThenAtoi` | libc/stdlib.cpp:59-78 | `atoi` undoes `itoa` for every int; no intermediate overflow if and only if the number is not the minimum |
| `Parsing.HexThenAtoi` | libc/stdlib.cpp:23-43 | hexadecimal printing is undone if and only if the value is below 2^31 |
| `Formatting.GetFillData` | libc/printf.h:82-123 | the backward and forward loops find the width and fill character; fails exactly for more than 14 digits |
| `Formatting.Printf` | libc/printf.h:126-174 | the loop prints what the format means, with the reported count; fails exactly at an unknown specifier, a width of too many digits or a percent sign without specifier |
| `Formatting.DecimalFormat` | libc/stdlib.cpp:59-70 | `%d` prints the text of the number, and the count is its length |
| `Directives.NumberThen` | libc/printf.h:134-149 | `%d`, `%i` and `%x` print sign, filler and the digits of a numeral without leading zeros whose value is the argument, in base 10 or 16, and report the length without the filler; they fail exactly when the fill information does |
| `Directives.NumberShown` | libc/printf.h:12-45 | what `print_int` prints, taken apart: sign, then filler up to the width, then the digits; zero is never filled up |
| `Directives.SpaceFill` | libc/printf.h:82-123 | a width without leading zero fills with spaces; more than fourteen digits fail |
| `Directives.ZeroFill` | libc/printf.h:82-123 | a dot or a zero in front of the width fills with zeros |
| `Directives.PointerThen` | libc/printf.h:150-153 | `%p` prints a hexadecimal numeral behind "0x", whatever the fill information |
| `Directives.TextThen` | libc/printf.h:154-164 | `%s`, `%c` and `%%` print the string, the character with the low byte as its code, and a percent sign that uses no argument |
| `Directives.OthersFail` | libc/printf.h:165-168 | any other specifier fails, and so does a format that ends before one; a percent sign at the very end stands for itself |
| `Formatting.Itoa` | libc/stdlib.cpp:59-78 | text and terminator when they fit, otherwise the part that fits and 0; `atoi` of the buffer gives the number back |
| `Formatting.Snprintf` | libc/stdio_shared.cpp:5-33 | never writes past the buffer, always terminates a non-empty one, and returns the full length of the formatted text |
| `Formatting.BoundedString` | libc/stdio_shared.cpp:5-33 | the buffer then holds, as a C string, the text cut to leave room for the terminator |
| `IPv4Text.ToNumber` | libc/NetworkTypes.cpp:32-45 | `from_u32` undoes `to_u32` |
| `IPv4Text.FromNumber` | libc/NetworkTypes.cpp:32-45 | `to_u32` undoes `from_u32` |
| `IPv4Text.NumberOrder` | libc/NetworkTypes.cpp:42-45 | the first octet is the most significant: numbers are ordered like addresses |
| `IPv4Text.FormatPrints` | libc/NetworkTypes.cpp:24-30 | the format string prints the four numbers with dots between them |
| `IPv4Text.ToString` | libc/NetworkTypes.cpp:24-30 | the full text through the bounded buffer; 20 characters always suffice |
| `IPv4Text.FromString` | libc/NetworkTypes.cpp:47-78 | the loop stores what the scan says and reports whether it succeeds |
| `IPv4Text.FromStringMeaning` | libc/NetworkTypes.cpp:47-78 | accepts exactly four non-empty pieces between dots, each read as 0 to 255, with at most one more dot at the end |
| `IPv4Text.TextRoundTrip` | libc/NetworkTypes.cpp:24-78 | `from_string(to_string(ip))` succeeds with the same address, for every address |

## Left out

- Device drivers, port I/O and assembly: `read_sectors` and `write_sectors` are accesses to the sector array, a switch is an atomic change of the current process, and flushing the TLB is not modelled.
- Interrupt disabling and the message lock: steps are atomic.
- `allocate_range`, `get_contigous_free_physical_frames` and `get_on_bit_idx_consecutive`: further callers of what is modelled, with easier properties.
- Pages of the identity window and its alias at 0xC0000000: the manager's methods require other pages, because the slot itself lies there.
- The lock on kernel directory entries, whose check can never fail.
- Mirroring of the second FAT, deletion and chain growth: not implemented in the code.
- `Path`, `VFS`, `CharFile`, `BigBuffer`, `shared_ptr`, and the raw memory of `Vector` and `String`: paths are sequences of components.
- Conformance of the written long-name ordinals and checksums to the FAT specification is not claimed; names are decoded as the code does, without looking at either.
- Window server, GUI, terminals, shell, ELF loading, GDT and IDT, ARP, ICMP and sockets, system call dispatch.
- LinkedList.List.Append: does not model the sanity check that stops lists of more than 10000 elements; a process needs one of 254 page directories, so the lists of the scheduler never come near it.
- Scheduler.Scheduler.TryUnblockTasks: reads the successor of a node before removing it, where the code reads it from the node it has just deleted.
- Scheduler.Scheduler.OnTimer: does not model the 32-bit wrap-around of the second counter, nor of process identifiers.
- HeapAllocator.HeapAllocator.Allocate: pages can be mapped up to a fixed address below 4 GB, which stands for the first page that `allocate_page` cannot map.
- HeapAllocator.HeapAllocator.Free: requires that a used mark before the address is that of a live block; the code cannot tell a forged mark.
- MemoryManager.MemoryManager.Deallocate: a page may give its frame back only if it was mapped by `allocate`; the code does not check this.
- MemoryManager.MemoryManager.Duplicate: states its exact condition between two directories with a destination in private memory, the only use in the code; for a destination that the source shares, pages mapped earlier in the loop can become readable sources.
- MemoryManager.MemoryManager.Init: requires that regions end neither past the last frame with a bit nor before 4096, where the 32-bit bound of the loop would wrap around.
- Fat32FS.Fat32FS.CreateEntry: requires that slots passing the room check fit, since the code would otherwise write past its buffer, and that the chains of the directories on the way end.
- Fat32FS.Fat32FS.WriteToExistingFile: requires that the end mark of the chain is one in its lower 28 bits, as the masked comparison in the loop supposes.
- Checksum.Compute: covers odd lengths as the code computes them; that this last word agrees with RFC 1071 is not claimed.
