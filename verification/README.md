# A verified model of the kernel's memory, heap, file system, scheduler and number printing

The project models five parts of a small x86-64 kernel and proves what the rest of the kernel relies on.

- **Page tables** (`PageTables`, `Mapping`, `Ranges`, `Cloning`, `CloneCost`, `Permissions`, `Directories`, `Mmu`). Directories and their tables are raw 64-bit
  words in flat memory above a bump allocator. The proofs are about what the four-level walk (Intel SDM Vol. 3A section 4.5) makes
  of those words: mapping is a finite-map update, cloning preserves meaning and separates, and over any run the tables of all
  directories form a forest in which each table has one owner.
- **Boot** (`MemoryMap`, `Frames`, `RamBytes`, `Boot`, `FirmwarePages`). Merging of the firmware memory map, the bitmap frame allocator, and the
  cleared bitmaps and identity-mapped kernel directory that `initializeMMU` leaves behind.
- **Heap** (`HeapSpec`, `HeapMemory`). First fit over headers inside the arena. The list of chunks is the specification; memory is a
  map from addresses to headers, stale ones included.
- **FAT16** (`Fat`, `FatRanges`, `FatBuffers`, `FatFiles`, `FatDirectories`, `FatPaths`, `FatRoot`, `FatNames`). Byte ranges of a cluster chain, directory search, paths and 8.3 names.
- **Scheduler** (`SchedulerSpec`, `Scheduler`). One timer tick over linked threads, and runs of ticks, sleeps, joins, exits and new
  threads.
- **Number printing** (`Printing`). Digits written backwards into a fixed buffer and reversed in place.

State that the kernel changes in place is a class (`MemoryManager`, `FrameAllocator`, `Heap`, `Fat16`, `RoundRobin`) whose methods keep
the kernel's loops and are proved to compute functions on values; the properties are lemmas about those functions.

## Lines that are modelled twice

Some lines do not do what the code around them needs. Each is modelled both ways, chosen by `Readings.Text`: `Written` is the line
as it stands, `Corrected` the line the surrounding code needs. For each there is a lemma saying exactly when the written line is right,
and, in brackets where there is one, a lemma with a concrete input on which it is not.

| line | as written | right exactly when |
|---|---|---|
| kernel/src/Heap.cpp:17 | the operands of the new entry's size are swapped and the difference wraps | the request does not split: `WrittenMallocTiles` (`WrittenSplitFails`) |
| kernel/src/Heap.cpp:51-66 | `free` is not looked at again after the search stops at the last block, and `size + 24` can wrap | `Agrees`: `WrittenMallocExact`, `WrittenReuses` (`WrittenReuseFails`, `WrittenWrapFails`) |
| kernel/src/MMU.cpp:46 | the shift count is the page index; the machine takes it modulo 32 and the result is cut to a byte (in C++ a count of 32 or more is undefined) | index modulo 32 is below 8: `ReserveWorks`, for the kernel image at boot `WrittenKernelExact` (`WrittenReserveFails`, `WrittenKernelFails`) |
| kernel/src/MMU.cpp:60 | the same when a page is freed | index modulo 32 is below 8: `ReleaseWorks` (`WrittenReleaseFails`) |
| kernel/src/FAT16.cpp:14 | the entry index is taken modulo the sectors of a FAT | that equals the index modulo 256: `PutEntryExact` (`WrittenEntryFails`) |
| kernel/src/FAT16.cpp:91 | `>` instead of `>=` | the position is 0 or no multiple of the cluster size, or nothing is read: `WrittenSeekExact`, `WrittenReadExact` (`WrittenSeekFails`) |
| kernel/src/FAT16.cpp:125-134 | the search loops of `write` do not advance, so they end or never run | the range lies in the first cluster: `WrittenSearchEnds` (`WrittenSearchHangs`) |
| kernel/src/FAT16.cpp:137 | the buffer has 512 bytes for each byte of the request | the request has at least as many bytes as a cluster has sectors and the heap has a free block of 512 times that size, on a fresh heap at most 127 bytes: `WrittenBufferExact`, `FreshGrants` (`WrittenBufferFails`, `WrittenBufferRefused`) |
| kernel/src/FAT16.cpp:144 | the place in the source moves on by the offset in the cluster, not by the bytes copied | the range lies in one cluster, or starts in the middle of one and ends in the next: `WrittenAdvanceExact` (`WrittenAdvanceFails`) |
| kernel/src/FAT16.cpp:161 | 32 entries per sector are looked at, twice what was read | the first cluster settles the search: `WrittenSearchExact` (`WrittenSearchFails`) |
| kernel/src/FAT16.cpp:164 | a signed `char` is compared with 0xE5, so deleted entries are not skipped | the name does not start with that byte: `SkipExact` |
| kernel/src/FAT16.cpp:189-190 and :201-202 | the name buffer is cleared up to byte 11 only, and the length wraps for 12 characters | `NameSafe`: `WrittenNameExact` (`WrittenNameFails`) |
| kernel/src/FAT16.cpp:21-25 and :218-220 | the reserved sectors are left out of the addresses | there are 2c - 1 of them for data clusters of c sectors, c for the root: `AddressesStandard` (`AddressesFail`) |

One more departure is not a matter of a single line. `searchDirectory` reads the root directory as one cluster, kernel/src/FAT16.cpp:19-22
and :158-171, and then follows FAT entry 1. It finds what the root's n entries say, whatever the entries are that it leaves out or reads
behind them, exactly when n is 16 for each sector of a cluster or the terminator comes earlier: `RootSearchExact`, `RootOutcome`
(`RootSearchFails`).

## Model

| member | source | states |
|---|---|---|
| PageTables.WalkAgree | kernel/src/MMU.cpp:107-136 | the four-level walk depends only on the tables below its start, so memory outside the tables cannot change a translation |
| PageTables.TableOwned | kernel/src/MMU.cpp:119-133 | a walk that starts at a directory stays among the owned tables and passes through the parent and entry recorded as the owner of each |
| PageTables.PathUnique | kernel/src/MMU.cpp:107-136 | two walks share a table only if they start at the same directory and agree on every index above it |
| PageTables.AddChild | kernel/src/MMU.cpp:113-132 | hanging a fresh page on a vacant entry keeps the ownership forest |
| PageTables.EntryWord | kernel/src/MMU.cpp:117-119 | frame and flags put together with `\|` read back through `MMU_PRESENT` and `MMU_ADDR` |
| Bits.OrBits | kernel/src/MMU.cpp:117-134 | `\|` works bit by bit |
| Mapping.EnsureWalk | kernel/src/MMU.cpp:113-132 | creating an intermediate table changes no translation of any directory |
| Mapping.EnsureTable | kernel/src/MMU.cpp:113-132 | creating an intermediate table extends exactly the walks through its entry and moves no other table |
| Mapping.SetLeafWalk | kernel/src/MMU.cpp:133-134 | writing a leaf entry changes exactly the walks that end in it |
| Mapping.DescendEffect | kernel/src/MMU.cpp:109-133 | whichever of the three tables had to be created: the forest is kept, no walk changes, the walks gained are those with the same prefixes, and the memory spent is one page for each table that was missing |
| Mapping.MapPageEffect | kernel/src/MMU.cpp:107-136 | `mapPage` is a finite-map update: the page of `virt` leads to `phys \| flags`; every other page and every other directory translates as before; the forest is kept |
| Permissions.MapPageRights | kernel/src/MMU.cpp:107-136 | what `mapPage` grants: the page gets write or user access exactly when the leaf entry and every upper entry that was there have it, created ones having that of the flags; no other page gains or loses any |
| Permissions.GrantedExact | kernel/src/MMU.cpp:107-136 | the access granted is the one asked for unless it asks for more than an upper entry already there allows |
| Permissions.MapPageStuck | kernel/src/MMU.cpp:113-132 | what an upper entry withholds no later `mapPage` grants |
| Permissions.CloneUser | kernel/src/MMU.cpp:217-259 | no page of a clone is for user mode, whatever its source was |
| Ranges.MapRangeEffect | kernel/src/MMU.cpp:137-143 | `map` over n pages, also round the end of the 48-bit space and more than once round it: page d of the range leads to the last frame that falls on it, frame d if the range does not meet itself, and nothing else changes |
| Ranges.MapAllEffect | kernel/src/MMU.cpp:70-143 | any run of mappings from an empty directory means exactly the finite map of its requests and costs one page for each distinct `virt>>39`, `virt>>30` and `virt>>21` |
| Ranges.RemapIsFree | kernel/src/MMU.cpp:107-143 | mapping a page again allocates nothing |
| Cloning.CopyLevelEffect | kernel/src/MMU.cpp:217-259 | the copying loops, from any state of an unfinished copy: every address of the entries still to come walks in the copy as in the source, and nothing that existed is written |
| Cloning.CloneEffect | kernel/src/MMU.cpp:214-261 | `clone` gives a fresh directory under which every address resolves as in the source; no existing translation changes; source and copy are parts of one forest |
| CloneCost.CloneExact | kernel/src/MMU.cpp:214-261 | `clone` allocates one page for the directory and one for each table below its source |
| CloneCost.TablesWalked | kernel/src/MMU.cpp:217-259 | the tables so counted are exactly those that the walk of some address passes through |
| Directories.StepSound | kernel/src/MMU.cpp:64-143 | every operation of the memory manager keeps the forest with exactly the directories as roots, and leaves the meaning of directories it does not map into |
| Directories.StepMeans | kernel/src/MMU.cpp:64-261 | address by address, what each operation does to every directory and how much memory it hands out |
| Directories.RunSound | kernel/src/MMU.cpp:64-261 | so does every run over any number of directories |
| Directories.RunSpares | kernel/src/MMU.cpp:107-143 | a run that never maps into a directory leaves all its translations alone |
| Directories.CloneSeparates | kernel/src/MMU.cpp:214-261 | after a clone, whichever of source and copy a later run does not map into still means what the source meant |
| Directories.TableOnce | kernel/src/MMU.cpp:70-136 | in every sound state a reached table is page-aligned between `kmallocStart` and `kmallocAddr`, has one level, and belongs to one directory and one prefix |
| Directories.OneEntry | kernel/src/MMU.cpp:113-132 | no two present entries of reached tables point to the same table, and none to a directory |
| Directories.BootSound | kernel/src/MMU.cpp:166-167 | the state before the first directory is sound |
| Mmu.MemoryManager.Kmalloc | kernel/src/MMU.cpp:64-69 | the address returned is the old end, and the end moves by the size |
| Mmu.MemoryManager.KmallocAligned | kernel/src/MMU.cpp:70-80 | the same from the next page boundary |
| Mmu.MemoryManager.EnsureTable | kernel/src/MMU.cpp:113-118 | the block that `mapPage` repeats for each level, in place, with every access inside RAM |
| Mmu.MemoryManager.MapPage | kernel/src/MMU.cpp:107-136 | memory afterwards is the specified function of memory before; the forest is kept and the current directory stays |
| Mmu.MemoryManager.Map | kernel/src/MMU.cpp:137-143 | the same for a range |
| Mmu.MemoryManager.NewDirectory | kernel/src/MMU.cpp:198-199 | a fresh cleared directory becomes a root |
| Mmu.MemoryManager.CopyEntries | kernel/src/MMU.cpp:217-259 | the three nested loops, one level at a time, compute the specified copy |
| Mmu.MemoryManager.CloneDirectory | kernel/src/MMU.cpp:214-261 | memory afterwards is the specified clone, with one more root |
| MemoryMap.MergeExact | kernel/src/MMU.cpp:168-187 | the blocks have the same pages with the same types in the same order as the descriptors, no two neighbours could still merge, and there is one for each maximal run |
| MemoryMap.MergeIdempotent | kernel/src/MMU.cpp:168-187 | merging merged blocks changes nothing |
| MemoryMap.UsableExact | kernel/src/MMU.cpp:16-35 | the types the kernel takes are those numbered 2, 3, 4 and 7 in the UEFI specification and those beyond the list |
| MemoryMap.NumberExact | kernel/src/MMU.cpp:16-35 | types and their numbers in the specification correspond |
| MemoryMap.MergeHolds | kernel/src/MMU.cpp:168-187 | the blocks hold exactly the pages of the descriptors, each with its type |
| MemoryMap.MergeRuns | kernel/src/MMU.cpp:168-187 | there is one block for each descriptor that does not continue the one before it, and no block continues the one before it |
| Frames.TouchFree | kernel/src/MMU.cpp:36-63 | reserving removes from the free set exactly the pages whose bit the line reaches, and freeing returns exactly those |
| Frames.ScanFirst | kernel/src/MMU.cpp:83-96 | the scan finds the free page that is first in block order |
| Frames.GrantedScan | kernel/src/MMU.cpp:81-97 | the page found is clear in the bitmap of a block of a type that the kernel may use, at its address; none is found when there is none |
| Frames.AllocateExact | kernel/src/MMU.cpp:81-97 | a page is returned exactly when one is free; it is the first one and leaves the free set, which otherwise stays |
| Frames.HeldUntilReleased | kernel/src/MMU.cpp:36-97 | over every run a page that is not free, handed out or reserved, is not handed out until some `freePage` reaches it |
| Frames.Conserved | kernel/src/MMU.cpp:36-97 | over every run the pages free at the end, handed out and reserved are as many as those free at the start and freed |
| Frames.PageAlternates | kernel/src/MMU.cpp:36-97 | the same for every single page: it is taken and freed in turns |
| Frames.AllocateAll | kernel/src/MMU.cpp:81-97 | a run of allocations hands out a page each time until none is left |
| Frames.ReserveWorks | kernel/src/MMU.cpp:45-46 | a free page is taken by `reservePage` as written exactly when its index modulo 32 is below 8 |
| Frames.WrittenReserveFails | kernel/src/MMU.cpp:45-46 | page 8 of a block, reserved as written, is then handed out |
| Frames.ReleaseWorks | kernel/src/MMU.cpp:59-60 | a used page is freed by `freePage` as written exactly when its index modulo 32 is below 8 |
| Frames.WrittenReleaseFails | kernel/src/MMU.cpp:59-60 | page 8 of a full block, freed as written, stays lost and the next allocation fails |
| Frames.AddressUnique | kernel/src/MMU.cpp:92 | with disjoint blocks different pages have different addresses |
| Frames.FrameAllocator.KmallocPage | kernel/src/MMU.cpp:81-97 | returns the address of the first free page of a block whose type is one the kernel may use, or -1 when there is none, with the bitmap changed accordingly |
| Frames.FrameAllocator.ReservePage | kernel/src/MMU.cpp:36-49 | the bitmaps of all blocks that contain the address change as specified, under either reading |
| Frames.FrameAllocator.FreePage | kernel/src/MMU.cpp:50-63 | likewise for freeing |
| Boot.FindLargest | kernel/src/MMU.cpp:153-167 | the first usable descriptor with the most pages |
| Boot.LargestUsable | kernel/src/MMU.cpp:153-167 | by type number: it is one the kernel may use, and none of those has more pages |
| Boot.MergeMap | kernel/src/MMU.cpp:168-187 | the merging loop computes the specified blocks, at most 64 |
| Boot.IdentityEffect | kernel/src/MMU.cpp:200-205 | mapping the blocks onto themselves makes the directory exactly the identity on their pages |
| RamBytes.ClearExact | kernel/src/SmartOS.cpp:156-159 | `memset` with zero clears exactly the bytes of the range, in RAM kept as words |
| Boot.MergeAligned | kernel/src/MMU.cpp:168-187 | merging page-aligned descriptors gives page-aligned blocks over the same pages |
| Boot.BitmapsSize | kernel/src/MMU.cpp:188-197 | the bitmaps take one bit for each page of the blocks that the kernel may use |
| Boot.BootIdentity | kernel/src/MMU.cpp:188-205 | after boot every page of every block translates to itself, nothing else is mapped, and the state is sound |
| Boot.BootDescriptors | kernel/src/MMU.cpp:168-205 | the same for the pages of the firmware's descriptors |
| Boot.BootMemory | kernel/src/MMU.cpp:188-205 | every byte of every descriptor is reached at its own address by a walk whose four entries all allow writing and not user mode; no other address is mapped |
| Permissions.MapRangeRights | kernel/src/MMU.cpp:137-143 | mapping a range into a directory that withholds nothing gives its pages the rights of the flags and no other page any |
| Boot.BitmapsClear | kernel/src/MMU.cpp:188-205 | building the directory has not touched the bitmaps, whose bytes in RAM are all zero |
| Boot.KernelReserved | kernel/src/MMU.cpp:206-211 | under either reading of line 46, after the reservations exactly the pages that they reach are no longer free |
| Boot.KernelPageExact | kernel/src/MMU.cpp:206-211 | with page-aligned blocks and image these are, corrected, exactly the pages that hold a byte of the image |
| Boot.WrittenKernelExact | kernel/src/MMU.cpp:46-211 | as written, every page of the image is reserved exactly when all of them have an index modulo 32 below 8 |
| Boot.WrittenKernelFails | kernel/src/MMU.cpp:46-211 | the ninth page of an image at the start of a block stays free |
| Boot.EmptyFree | kernel/src/MMU.cpp:188-197 | with cleared bitmaps every usable page is free |
| Boot.TablesReachable | kernel/src/MMU.cpp:166-205 | every reached table that lies in a mapped block, such as the one tables are allocated from, is reached at its own address through the tables |
| Boot.InitializeMMU | kernel/src/MMU.cpp:144-213 | the whole boot sequence: the bump allocator starts in the largest descriptor that the kernel may use; for page-aligned descriptors below 2^48 the state is sound, every byte of them is mapped onto itself, writable and not for user mode, nothing else is mapped, and the bitmaps in RAM are clear before the reservations; the free pages are all usable ones but those that the reservations reach |
| FirmwarePages.BootHandsOut | kernel/src/MMU.cpp:16-97 | over every run after boot whatever is handed out is a page of a descriptor whose type number is 2, 3, 4, 7 or beyond the list |
| FirmwarePages.BootReaches | kernel/src/MMU.cpp:16-97 | enough allocations hand out every such page that the reservations do not reach |
| HeapSpec.LiveDisjoint | kernel/src/Heap.cpp:43-71 | live payloads are disjoint, with room for a header between them |
| HeapSpec.LiveInside | kernel/src/Heap.cpp:4-71 | live payloads lie inside the arena |
| HeapSpec.CleanExact | kernel/src/Heap.cpp:22-36 | one `clean` pass turns every maximal run of k free blocks into ceil(k/2) free blocks and leaves the allocated ones between them |
| HeapSpec.CleanLive | kernel/src/Heap.cpp:22-36 | it moves no live payload and keeps the tiling |
| HeapSpec.CleanHalves | kernel/src/Heap.cpp:22-36 | it at least halves the number of adjacent free pairs |
| HeapSpec.MallocExact | kernel/src/Heap.cpp:43-71 | either no free block is large enough and nothing changes, or one payload of n to n + 24 bytes, apart from all live ones, is added and nothing else changes |
| HeapSpec.MallocPlain | kernel/src/Heap.cpp:43-71 | the first free block of at least n bytes is taken, whole when at most 24 bytes would be left and otherwise cut into n bytes and a free rest behind a header |
| HeapSpec.MallocNothing | kernel/src/Heap.cpp:43-71 | when no free block has n bytes nothing changes |
| HeapSpec.FreeExact | kernel/src/Heap.cpp:37-42 | `free` removes exactly the freed payload and keeps the tiling |
| HeapSpec.FreeAgain | kernel/src/Heap.cpp:37-42 | freeing a block that is free already is one more `clean` pass, which moves no live payload |
| HeapSpec.RunInvariant | kernel/src/Heap.cpp:22-71 | over every run the blocks take exactly the arena, at most one pair of free blocks is adjacent, and a live payload keeps place and size until it is released |
| HeapSpec.OnePair | kernel/src/Heap.cpp:22-42 | so there are never three free blocks in a row, nor two places with two |
| HeapMemory.CleanChain | kernel/src/Heap.cpp:22-36 | on memory the pass, which goes on from stale headers, leaves a correctly linked list of the cleaned blocks and rewrites only headers of free blocks |
| HeapMemory.MallocChain | kernel/src/Heap.cpp:43-71 | on memory `malloc` leaves a correctly linked list of the specified blocks and returns the payload granted |
| HeapMemory.CallersWriteSafely | kernel/src/Heap.cpp:4-71 | whatever callers write into live payloads, the list stays as it is |
| HeapMemory.WrittenMallocExact | kernel/src/Heap.cpp:12-71 | `malloc` as written does what it should exactly on a free entry that need not be split or on one that is too small |
| HeapMemory.WrittenMallocTiles | kernel/src/Heap.cpp:12-21 | as written the arena stays tiled exactly when the request does not split |
| HeapMemory.WrittenSplitFails | kernel/src/Heap.cpp:12-21 | the first small allocation on a fresh 64 KiB heap already breaks the tiling |
| HeapMemory.WrittenReuses | kernel/src/Heap.cpp:51-66 | as written memory in use is handed out exactly when no free block fits and the last block is allocated and large enough, or larger than the wrapped `size + 24` |
| HeapMemory.WrittenReuseFails | kernel/src/Heap.cpp:51-60 | on a fresh 64 KiB heap a request for all of it and then one for a byte get the same address |
| HeapMemory.WrittenWrapFails | kernel/src/Heap.cpp:61-66 | on a full 64 KiB heap a request for 2^64 - 1 bytes gets the address in use |
| HeapMemory.Heap.constructor | kernel/src/Heap.cpp:4-11 | one free block that takes the arena; an arena smaller than a header gets a block of almost 2^64 bytes |
| HeapMemory.Heap.Malloc | kernel/src/Heap.cpp:43-71 | memory and result under either reading; corrected, the heap stays valid and the result is the payload granted, or null when no free block fits |
| HeapMemory.Heap.SplitEntry | kernel/src/Heap.cpp:12-21 | the six assignments turn the list from the entry on into the same list with the entry replaced by the block granted and a free block of the rest; as written they give the headers that `WrittenMallocTiles` is about |
| HeapMemory.Heap.Clean | kernel/src/Heap.cpp:22-36 | the loop over headers computes the specified memory |
| HeapMemory.Heap.Free | kernel/src/Heap.cpp:37-42 | the heap stays valid; the block is released, or for a block already free or a stale header the heap is only cleaned |
| Fat.ContentAt | kernel/src/FAT16.cpp:17-26 | byte j of the k-th cluster of a chain is byte k * size + j of the file |
| Fat.ContentConcat | kernel/src/FAT16.cpp:17-26 | a file is the concatenation of its clusters |
| Fat.ClusterApart | kernel/src/FAT16.cpp:17-37 | different data clusters do not overlap |
| Fat.ChainOne | kernel/src/FAT16.cpp:2-26 | a cluster is a chain of its own exactly when it is at least 2, has an entry in the FAT and lies on the disk |
| Fat.ChainMore | kernel/src/FAT16.cpp:91-102 | a chain goes on with a cluster exactly when the last entry names it and it is a new one |
| Fat.TableApart | kernel/src/FAT16.cpp:2-37 | no data cluster overlaps the allocation table |
| Fat.PutEntryExact | kernel/src/FAT16.cpp:2-16 | a written FAT entry reads back exactly when the slot is its own, and then no other entry changes |
| Fat.WrittenEntryFails | kernel/src/FAT16.cpp:14 | with 9 sectors to a FAT entry 300 is stored in the place of entry 259 |
| Fat.AddressesStandard | kernel/src/FAT16.cpp:17-26 | where the computed cluster and root addresses agree with the FAT specification |
| Fat.AddressesFail | kernel/src/FAT16.cpp:17-26 | four reserved sectors and one sector to a cluster |
| Fat.MountedEntry | kernel/src/FAT16.cpp:2-8 | FAT entry e of a mounted volume is the two bytes, low one first, at (start + reserved) * 512 + 2e |
| FatFiles.ClusterSplice | kernel/src/FAT16.cpp:140-143 | rewriting part of one cluster rewrites that part of the file and no byte outside the file |
| FatFiles.OtherFileKept | kernel/src/FAT16.cpp:121-154 | a file whose clusters are disjoint from those written keeps its chain and content |
| FatFiles.ChainKept | kernel/src/FAT16.cpp:121-154 | every chain survives a write |
| FatRanges.WrittenSeekExact | kernel/src/FAT16.cpp:91-95 | the written search of `read` stops at the right cluster exactly at position 0 and off cluster multiples, and otherwise one cluster early |
| FatRanges.WrittenSeekFails | kernel/src/FAT16.cpp:91-95 | position 512 with 512-byte clusters |
| FatRanges.LastLengthWraps | kernel/src/FAT16.cpp:91-119 | after an early start the length of the last `memcpy` is negative exactly when the size is no multiple of the cluster size |
| FatRanges.WrittenReadExact | kernel/src/FAT16.cpp:87-120 | `read` as written delivers the right bytes of every file exactly at position 0, off cluster multiples, and for size 0 |
| FatRanges.WrittenSearchEnds | kernel/src/FAT16.cpp:125-134 | a search loop of `write` ends exactly when it advances or need not run |
| FatRanges.WrittenSearchHangs | kernel/src/FAT16.cpp:125-128 | position 512 with 512-byte clusters |
| FatBuffers.GrantsExact | kernel/src/Heap.cpp:43-71 | `malloc` grants a request exactly when some free block fits |
| FatBuffers.WrittenBufferExact | kernel/src/FAT16.cpp:137 | `write` as written gets a buffer that holds a cluster exactly when the request has at least as many bytes as a cluster has sectors and some free block of the heap has 512 times that size |
| FatBuffers.FreshGrants | kernel/src/FAT16.cpp:137 | on a fresh 64 KiB heap that size is at most 127 |
| FatBuffers.WrittenBufferFails | kernel/src/FAT16.cpp:137 | one byte on a volume with two sectors to a cluster |
| FatBuffers.WrittenBufferRefused | kernel/src/FAT16.cpp:137 | 128 bytes at position 0 with one sector to a cluster: a fresh heap returns NULL under both its readings |
| FatBuffers.WrittenWriteExact | kernel/src/FAT16.cpp:125-140 | all lines as written, `write` returns and has a buffer that holds a cluster exactly inside the first cluster, for a request of that size that the heap can grant |
| FatBuffers.WrittenWriteFresh | kernel/src/FAT16.cpp:125-140 | on a fresh heap that leaves requests between the sectors of a cluster and 127 bytes |
| FatBuffers.CorrectedWriteExact | kernel/src/FAT16.cpp:125-140 | all lines corrected, exactly when the heap has a free block of a cluster's size |
| FatBuffers.BuffersFit | kernel/src/FAT16.cpp:105-137 | the buffers, which are never freed, fit the heap together with their headers, however often the kernel reads or writes |
| FatBuffers.FreshExhausted | kernel/src/FAT16.cpp:105-137 | with one sector to a cluster a fresh heap refuses at the latest the 123rd buffer |
| FatRanges.CopiedCorrected | kernel/src/FAT16.cpp:138-153 | with the corrected advance the copying loop puts the source into the range |
| FatRanges.WrittenAdvanceExact | kernel/src/FAT16.cpp:138-153 | with the written advance it does so, for every file and source, exactly when the range lies in one cluster, or starts in the middle of one and ends in the next |
| FatRanges.WrittenAdvanceFails | kernel/src/FAT16.cpp:144 | of two clusters written from position 0 the second gets the beginning of the source again |
| FatFiles.Memcpy | kernel/src/SmartOS.cpp:160-163 | the range is copied and the rest of the destination kept |
| FatFiles.Fat16.ReadFAT | kernel/src/FAT16.cpp:2-8 | the little-endian entry of the table |
| FatFiles.Fat16.WriteFAT | kernel/src/FAT16.cpp:9-16 | reading the sector, changing a slot and writing it back changes the entry, and when the slot is the entry's own it reads back and no other entry changes |
| FatFiles.Fat16.ReadCluster | kernel/src/FAT16.cpp:17-26 | the bytes of the cluster |
| FatFiles.Fat16.WriteCluster | kernel/src/FAT16.cpp:27-37 | the cluster reads back as the buffer and no byte outside it changes |
| FatFiles.Fat16.Follow | kernel/src/FAT16.cpp:91-102 | the search loops reach the cluster of the chain at which the bound falls |
| FatFiles.Fat16.CopyOut | kernel/src/FAT16.cpp:103-119 | the copying loop ends and delivers the range, at and off cluster boundaries |
| FatFiles.Fat16.Read | kernel/src/FAT16.cpp:87-120 | `dest` becomes exactly the bytes position to position + size of the file, or as written, at a positive cluster multiple, those one cluster before; the rest of it is kept |
| FatFiles.Fat16.CopyIn | kernel/src/FAT16.cpp:135-153 | the writing loop ends and, under either advance, leaves the file that `Copied` describes and nothing outside it changed |
| FatFiles.Fat16.Write | kernel/src/FAT16.cpp:121-154 | under any reading of its searches, buffer and advance with which it returns and the heap grants a buffer that holds a cluster: the range of the file becomes the source, or with the written advance what `Copied` says, every other byte stays, no byte outside the file's clusters changes, the chain is kept, and the buffer stays allocated |
| FatFiles.Fat16.WriteThenRead | kernel/src/FAT16.cpp:87-154 | writing and then reading at the same position gives the source back; every other byte of the file and all of any other file are as before |
| FatDirectories.ScanExact | kernel/src/FAT16.cpp:161-170 | a scan stops exactly at the first terminator or live entry of the name |
| FatDirectories.SearchFlat | kernel/src/FAT16.cpp:155-174 | searching a directory is one scan of the entries of all its clusters |
| FatDirectories.SkipExact | kernel/src/FAT16.cpp:164 | not skipping deleted entries matters exactly for names that start with the deletion mark |
| FatDirectories.ReturnsExact | kernel/src/FAT16.cpp:158-173 | a search returns exactly when some cluster that FAT links reach ends the chain or settles the scan |
| FatDirectories.PathBounded | kernel/src/FAT16.cpp:158-173 | a search that returns sees no cluster twice, so at most 0xFFF7 of them |
| FatDirectories.CyclicSearch | kernel/src/FAT16.cpp:158-173 | in a cluster linked to itself it returns exactly when that cluster settles it |
| FatDirectories.EndingOutcome | kernel/src/FAT16.cpp:158-173 | in a directory whose chain ends it returns what one scan of all its entries gives |
| FatDirectories.WrittenSearchExact | kernel/src/FAT16.cpp:155-174 | the written search is right, whatever its buffer held, exactly when the first cluster settles it and not by a deleted entry |
| FatDirectories.WrittenSearchFails | kernel/src/FAT16.cpp:155-174 | a one-sector root of 16 other files, with a leftover entry behind them |
| FatRoot.RootSearchExact | kernel/src/FAT16.cpp:155-174 | a root of n entries is searched as it should be, whatever is left out or read behind it, exactly when n is 16 for each sector of a cluster or the terminator comes earlier |
| FatRoot.RootOutcome | kernel/src/FAT16.cpp:155-174 | then, when FAT entry 1 ends the chain, a lookup gives what the n entries say |
| FatRoot.RootSearchFails | kernel/src/FAT16.cpp:155-174 | the 17th file of the root with one sector to a cluster |
| FatDirectories.WrittenNameExact | kernel/src/FAT16.cpp:186-191 | a component is converted properly as written exactly when it has at most 10 characters, or 11 with a base below 8 |
| FatDirectories.WrittenNameFails | kernel/src/FAT16.cpp:186-191 | a full 8.3 name of 12 characters overruns the clearing |
| FatDirectories.ChainUnique | kernel/src/FAT16.cpp:158-171 | a directory that ends has one chain of clusters |
| FatDirectories.PathUnique | kernel/src/FAT16.cpp:158-171 | a search goes through one sequence of clusters |
| FatDirectories.SearchDirectory | kernel/src/FAT16.cpp:155-174 | whenever the search returns, the loops over clusters and slots end with its outcome |
| FatDirectories.OpenComponent | kernel/src/FAT16.cpp:186-192 | one step of the walk is the lookup of the component |
| FatDirectories.Open | kernel/src/FAT16.cpp:175-208 | the path walk is the fold of lookups over the components of the path, from the root |
| FatPaths.SearchBytes | kernel/src/FAT16.cpp:155-174 | on disk bytes: the first slot of a cluster whose byte 0 is 0, or not 0xE5 and bytes 0 to 10 the name, decides; the cluster comes from bytes 26 and 27 and the size from bytes 28 to 31 |
| FatPaths.SearchNext | kernel/src/FAT16.cpp:155-174 | when no slot does, the search goes on in the cluster that the two bytes of the FAT entry name |
| FatPaths.SearchEnds | kernel/src/FAT16.cpp:158-173 | from cluster 0xFFF7 on nothing is searched |
| FatPaths.ComponentsJoin | kernel/src/FAT16.cpp:175-203 | the components have no slashes, and joined by slashes are the path |
| FatPaths.JoinComponents | kernel/src/FAT16.cpp:175-203 | they are the only such names |
| FatPaths.LeadingSlash | kernel/src/FAT16.cpp:177 | a path opens what it opens with a slash in front |
| FatPaths.OpenFile | kernel/src/FAT16.cpp:175-208 | `open` on a path of two components, with or without a leading slash, on disk bytes: the cluster and size in the slot of the file, in the cluster named by the slot of the directory; when one is missing a cluster of 0xFFF7 or above |
| FatNames.NameRoundTrip | kernel/src/FAT16.cpp:38-86 | `fatToFilename` undoes `filenameToFAT` exactly on names with a base of at most 8 and an extension of 1 to 3 characters, without spaces |
| FatNames.FatRoundTrip | kernel/src/FAT16.cpp:38-86 | `filenameToFAT` undoes `fatToFilename` exactly on right-padded 11-byte names without a dot in the base |
| FatNames.ToFatBytes | kernel/src/FAT16.cpp:38-58 | byte by byte: up to 8 characters before the first dot and 3 of what follows the next character, both padded |
| FatNames.SqueezeConcat | kernel/src/FAT16.cpp:59-86 | dropping spaces keeps the order of the rest |
| FatNames.SqueezeOne | kernel/src/FAT16.cpp:59-86 | of a single character it leaves nothing when that is a space, and else the character |
| FatNames.FilenameToFAT | kernel/src/FAT16.cpp:38-58 | the loops fill the 11 bytes as specified and touch no others |
| FatNames.FatToFilename | kernel/src/FAT16.cpp:59-86 | the loops write the specified name and its NUL within 13 bytes |
| SchedulerSpec.SearchExact | kernel/src/Scheduler.cpp:42-61 | the retry loop ends within the cyclic distance of any ready thread, at the first ready one, and changes only waiting flags whose reason has passed |
| SchedulerSpec.SearchHopeless | kernel/src/Scheduler.cpp:42-61 | with no ready thread no number of passes finds one |
| SchedulerSpec.TickStops | kernel/src/Scheduler.cpp:39-66 | a tick ends within one round exactly when some thread is ready, for which a head that is not done suffices, and dispatches the first in cyclic order |
| SchedulerSpec.TickExact | kernel/src/Scheduler.cpp:39-66 | a tick dispatches exactly the first thread in the circle that can go on: not done, and unless it is the head with its join target done and its timeout come |
| SchedulerSpec.TickFlags | kernel/src/Scheduler.cpp:39-66 | exactly which registers and waiting flags a tick leaves to every thread, and that it counts one |
| SchedulerSpec.DispatchedReady | kernel/src/Scheduler.cpp:45-61 | a dispatched thread other than the head is not done, its join target is, and its timeout has come |
| SchedulerSpec.RegistersKept | kernel/src/Scheduler.cpp:39-66 | over any run in which a thread does not run its saved registers stay |
| SchedulerSpec.ResumesWhereInterrupted | kernel/src/Scheduler.cpp:39-66 | so a thread resumes with exactly the registers of its last preemption |
| SchedulerSpec.NoEarlyWake | kernel/src/Scheduler.cpp:53-57 | over any run a sleeping thread that is neither running nor the head does not run while the counter has not passed its timeout |
| SchedulerSpec.SleepsThrough | kernel/src/Scheduler.cpp:53-97 | a thread other than the head that calls `sleep` does not run from the next tick on while the counter has not passed its timeout |
| SchedulerSpec.JoinsThrough | kernel/src/Scheduler.cpp:45-52 | a thread other than the head that starts to wait for another does not run from the next tick on while the other is not done |
| SchedulerSpec.EnabledExact | kernel/src/Scheduler.cpp:33-97 | threads can always sleep and end; a tick needs a thread that can go on |
| SchedulerSpec.SleepReturns | kernel/src/Scheduler.cpp:92-97 | `sleep` leaves its loop within as many ticks as it was asked for and one round of the queue, for the head too |
| SchedulerSpec.DoneForever | kernel/src/Scheduler.cpp:7-61 | a thread that is done, and so spins in `_kill`, is never dispatched again |
| SchedulerSpec.StartsAtEntry | kernel/src/Scheduler.cpp:12-66 | a new thread starts with exactly the registers it was added with |
| SchedulerSpec.TickCloser | kernel/src/Scheduler.cpp:39-66 | every tick that does not dispatch a ready thread brings it closer |
| SchedulerSpec.BoundedWait | kernel/src/Scheduler.cpp:39-66 | a thread that stays ready is dispatched within as many ticks as the queue is long, threads being added included |
| Scheduler.Thread.constructor | kernel/src/Scheduler.cpp:12-32 | rip is the entry, rsp the last word of the thread's own stack page with `_kill` to return to, interrupts are enabled, the selectors are those of its privilege level, and everything else is 0 |
| Scheduler.RoundRobin.NewThread | kernel/src/Scheduler.cpp:12-32 | such a thread takes the next process number and changes nothing that the scheduler sees |
| Scheduler.RoundRobin.StartThread | kernel/src/Scheduler.cpp:12-66 | from its creation to its first dispatch: at the latest with the timer interrupt that completes a round of the queue the interrupt returns to such registers, in the thread's directory and heap |
| Scheduler.RoundRobin.constructor | kernel/src/Scheduler.cpp:67-91 | one ready thread, which is head and running, with such registers for entry 0 in kernel mode, the cloned directory and its own heap |
| Scheduler.RoundRobin.Schedule | kernel/src/Scheduler.cpp:39-66 | over linked threads: the specified tick, returning to the registers, directory and heap of the thread dispatched |
| Scheduler.RoundRobin.FindPass | kernel/src/Scheduler.cpp:42-61 | one pass of the retry loop |
| Scheduler.LookAt | kernel/src/Scheduler.cpp:45-61 | the tests on one thread: which flags are cleared and whether it is accepted |
| Scheduler.RoundRobin.AddThread | kernel/src/Scheduler.cpp:33-38 | the thread becomes the last of the links and nothing else changes |
| Scheduler.RoundRobin.Sleep | kernel/src/Scheduler.cpp:92-95 | the running thread sleeps until the counter reaches its timeout |
| Scheduler.RoundRobin.SleepAndWait | kernel/src/Scheduler.cpp:92-97 | with its waiting loop, through which timer interrupts arrive: it is left not before the timeout, and after as many interrupts as were asked for and one round of the queue |
| Scheduler.RoundRobin.Kill | kernel/src/Scheduler.cpp:7-9 | the running thread is done |
| Scheduler.RoundRobin.KillAndWait | kernel/src/Scheduler.cpp:7-11 | with its endless loop: from the first timer interrupt on another thread runs |
| Printing.ParseDigits | kernel/src/SmartOS.cpp:89-117 | parsing a numeral gives the number back, without a leading zero, for bases 2 to 36 |
| Printing.DigitsParse | kernel/src/SmartOS.cpp:89-117 | printing undoes parsing on every digit string without a leading zero |
| Printing.NumeralReads | kernel/src/SmartOS.cpp:89-117 | every number, 0 included, is printed as at least one digit, with a leading zero only in "0", and parses back |
| Printing.ReadsNumeral | kernel/src/SmartOS.cpp:89-117 | and every such string is what its number is printed as |
| Printing.FitsExactly | kernel/src/SmartOS.cpp:71-117 | a numeral and its NUL fit the 50-byte buffer exactly when the number is below base^49 |
| Printing.BufferBound | kernel/src/SmartOS.cpp:71-117 | every 64-bit number fits exactly when the base is at least 3 |
| Printing.SignedRoundTrip | kernel/src/SmartOS.cpp:118-155 | reading back the sign and digits that `itoa` prints gives the number, without a leading zero |
| Printing.SignedReads | kernel/src/SmartOS.cpp:118-155 | the same as for `uitoa` behind an optional minus sign, which a zero does not have |
| Printing.ReadsSigned | kernel/src/SmartOS.cpp:118-155 | and conversely |
| Printing.Reverse | kernel/src/SmartOS.cpp:78-88 | the prefix is reversed in place and the rest kept |
| Printing.Uitoa | kernel/src/SmartOS.cpp:89-117 | the buffer holds a NUL behind at least one digit of the base, without a superfluous leading zero, that parse to the number |
| Printing.Itoa | kernel/src/SmartOS.cpp:118-155 | the same behind the sign, for every base and every int, save negative ones outside base 10 and the least |
| Printing.ItoaEnds | kernel/src/SmartOS.cpp:137-149 | in a base that is a power of two the digit loop of `itoa` ends exactly for numbers that are not negative |

## Left out

- Mmu.MemoryManager.MapPage: requires flags in the low 12 bits with PRESENT and without the large-page bit, because other flags make the walk of the hardware read the tables differently.
- Mmu.MemoryManager.Map: as for single pages.
- Mmu.MemoryManager.CloneDirectory: the permission bits of intermediate entries are not kept by the kernel; what becomes of user access is `CloneUser`.
- Mmu.MemoryManager.Kmalloc: the allocator has no bound of its own; callers state that what they allocate stays inside RAM and below 2^52.
- FatFiles.Fat16.Read: as written not where the length of its last `memcpy` wraps (`LastLengthWraps`); there the kernel overwrites memory without bound.
- FatFiles.Fat16.Write: as written only where its loops end and it gets a buffer that is large enough, by the exact conditions above; growing a file is not in the kernel.
- FatFiles.Fat16.WriteFAT: as written not for an index that falls behind the sector's 256 entries or a FAT of no sectors, where the kernel writes past its buffer or divides by zero.
- HeapMemory.Heap.Free: not for NULL or a pointer that was never returned by `malloc`, where the kernel writes to memory that is no header.
- FatDirectories.Open: as written only where every component and every search on the way works, by the exact conditions above; under both readings only where every search on the way returns (`ReturnsExact`).
- Printing.Uitoa: callers must choose a number that fits the buffer, since the kernel does not check; its unused digit count is not modelled.
- Printing.Itoa: what negative numbers print in bases that are not 10 nor a power of two, and the least int, where overflow and the conversion to an unsigned type decide the result.
- Scheduler.RoundRobin.SleepAndWait: other threads do nothing but get interrupted meanwhile; `SleepReturns` and `SleepsThrough` allow them everything. The counter counts dispatches.
- Scheduler.Thread.constructor: the words of RAM that it writes; the address of `_kill` on top of the stack is a field.
- Boot.InitializeMMU: the bitmaps are cleared in RAM, but what later reservations write into them is kept beside RAM (`Frames`); 64-bit wrap of firmware addresses is not modelled.
- Disjointness of bump-allocated memory and pages from the frame allocator: the kernel does not reserve the former, so it does not hold.
- Setting `joined` and `joinTarget`: no code in the kernel does it; runs include it as an event.
- Interrupt entry, CR3 loads, descriptor tables, port input and output, PIC and PIT setup: a tick is one `schedule` call and the disk is a byte sequence behind whole-sector reads and writes.
- The IDE driver, the boot loader, graphics, Targa, keyboard, mouse, PCI, partitions and FAT32.
- `FAT16::list`, which builds paths and metadata inconsistently and searches as `open` does.
- The allocations of `read` (kernel/src/FAT16.cpp:105), `searchDirectory` and `open` are taken to succeed; none of them is ever freed, see `BuffersFit`.
- Alignment of heap results, the `Vector` template, and concurrency inside the kernel: each operation is one step.
