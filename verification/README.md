# TERMOB kernel: verified model

TERMOB is a 32-bit kernel in C.  This project models its allocators, FAT reader, scheduler,
driver registry, paging setup, scrollback terminal and mouse queue in Dafny 4.11 and proves
what they keep.  `dafny verify dfyconfig.toml` checks all of it.

Every part has two halves.  A pure half says what the code means: layouts of blocks, scans
of slots, steps of a state machine, windows on a log.  A class half works as the C code does,
on fields, arrays and loops, and each method is proved against the pure half.

- **Heap** (`HeapLayout`, `HeapRuns`, `HeapMemory`, `HeapIntegrity`, `Heap`).  Memory is a map
  from addresses to headers; the layout is the sequence of blocks it represents.  Headers take
  32 bytes and the region 1 MiB.  The layout turns out to be a function of the live blocks
  alone, which gives commuting frees and exact undoing.  The integrity checker is proved for
  arbitrary memory contents, not only for those the allocator produces.
- **FAT** (`FatVolume`, `FatMount`, `FatFile`, `FatNames`, `FatDirectory`, `FatLookup`, `FatPath`,
  `FatShell`, `FatExamples`).  The disk maps readable sectors to bytes, every other sector being a
  read error.  Constants and formats are those of the Microsoft FAT32 File System Specification
  1.03.  Divisions by the sector and cluster size are written for each size a volume may have, or
  by repeated subtraction, with lemmas that they are the divisions of the code.  A directory
  callback is a function of everything delivered so far.
- **Scheduler** (`Scheduler`, `KernelScheduler`).  Context switches are boundaries between steps.
- **Driver registry** (`Registry`, `KernelRegistry`, `Bags`).  A device is a tree: for each driver
  that may be probed it holds the children that the probe registers.
- **Memory** (`BootMemory`, `Frames`, `KernelPmm`, `Paging`).
- **Terminal** (`Terminal`).  The unbounded log is a ghost; ring and screen are real.
- **Mouse** (`Mouse`).  Interrupts may strike before each access of the drain loop to the queue
  and before a packet byte is stored; storing it and processing the packet is one step.
- `Words` and `Wrappers` hold what several parts share.

32-bit wrap-around is modelled wherever the code computes in 32 bits.  Some promises turn out
false of the code on part of their inputs; each has a witness and an exact condition:

- kmalloc of sizes above 0xFFFFFFF0 (`MallocCovers`) and kcalloc of such totals (`ClearStaysInside`);
- seeking to the end of a file that fills its clusters (`SeekHealthy`);
- reading a file of more than 256 clusters, or whose size overflows when rounded up (`HugeFileCut`);
- mounting a volume whose table size overflows (`SectorMounts`);
- delivering a long name of which a slot is missing (`LongNameExact`);
- opening a file by the name it is listed under, when that has more than 12 characters (`NameReachable`);
- releasing and reserving memory in the last page (`ReleaseExact`, `ReserveExact`), and counting
  frames of memory that ends in it (`LastPageUnmanaged`);
- covering boot information that ends past 4 GiB (`LimitCovers`);
- scrolling about without moving the cursor (`ScrollTrip`, `TravelsExact`);
- counting a wheel movement of -128 (`WheelExact`, `WheelRun`).

## Model

| member | source | states |
|---|---|---|
| `HeapLayout.FirstFit` | src/kernel/core/heap.c:544-564 | the lowest block that is free and holds the size, or none, and then no block does |
| `HeapLayout.Canonical` | src/kernel/core/heap.c:308-347 | two well-formed layouts of one region with the same live blocks are equal |
| `HeapLayout.AllocKeeps` | src/kernel/core/heap.c:552-561 | taking a fitting free block and splitting it keeps tiling, no free neighbours, and list equal to free blocks |
| `HeapLayout.AllocLive` | src/kernel/core/heap.c:552-561 | it adds exactly one live block: the requested size when split, else the whole block |
| `HeapLayout.FreeKeeps` | src/kernel/core/heap.c:591-611 | freeing a live block and merging it with its free neighbours keeps the layout well formed |
| `HeapLayout.FreeLive` | src/kernel/core/heap.c:591-611 | it removes exactly that block from the live ones |
| `HeapRuns.CallocBytes` | src/kernel/core/heap.c:569-582 | the byte count of kcalloc: count times size, or 0 exactly when that is 0 or does not fit 32 bits |
| `HeapRuns.RunKeeps` | src/kernel/core/heap.c:534-611 | any sequence of kmalloc with any size, kcalloc with totals up to 0xFFFFFFF0 and kfree of any pointer keeps the layout well formed |
| `HeapRuns.RunSafe` | src/kernel/core/heap.c:501-611 | from heap_init on, every such run leaves a tiled, coalesced heap whose payloads are 16-aligned, inside the region and pairwise disjoint |
| `HeapRuns.FreePtrLive` | src/kernel/core/heap.c:591-611 | kfree of any pointer removes the live block with that payload and nothing else |
| `HeapRuns.FreesCommute` | src/kernel/core/heap.c:591-611 | two frees give the same layout in either order, whatever the two addresses |
| `HeapRuns.MallocLive` | src/kernel/core/heap.c:534-567 | a successful kmalloc adds one live block, at the address returned and at least the rounded size, at an address no live block had |
| `HeapRuns.MallocThenFree` | src/kernel/core/heap.c:534-611 | kmalloc followed by kfree of its result gives back the exact layout |
| `HeapRuns.FreesLeadTo` | src/kernel/core/heap.c:591-611 | freeing pointers in any order, repeats and bad ones included, leads to the layout determined by what stays live |
| `HeapRuns.FreeEverything` | src/kernel/core/heap.c:501-528 | freeing every live pointer in any order gives back the single block of heap_init |
| `HeapRuns.LargestFree` | src/kernel/core/heap.c:695-716 | the largest free payload: an upper bound on all of them, and attained when positive |
| `HeapRuns.MallocExact` | src/kernel/core/heap.c:534-567 | for every size: kmalloc succeeds if and only if some free block holds the rounded size, which above 0xFFFFFFF0 every free block does; it takes the lowest fit, and changes nothing when it fails |
| `HeapRuns.MallocCovers` | src/kernel/core/heap.c:43-45 | the block handed out covers the request if and only if the size is at most 0xFFFFFFF0, where the round-up does not wrap |
| `HeapRuns.MallocWraps` | src/kernel/core/heap.c:43-45 | a concrete size just below 4 GiB is granted a block of no bytes on a fresh heap |
| `HeapRuns.ClearStaysInside` | src/kernel/core/heap.c:569-589 | the clearing done by kcalloc stays inside the block it was given if and only if the total is at most 0xFFFFFFF0 |
| `HeapRuns.ClearOverruns` | src/kernel/core/heap.c:569-589 | kcalloc(1, 0xFFFFFFF8) on a fresh heap: a block of no bytes with the next header right where the clearing starts |
| `HeapRuns.Accounting` | src/kernel/core/heap.c:798-826 | region size = free payload + live payload + 32 bytes a block |
| `HeapRuns.MallocAdds` | src/kernel/core/heap.c:534-567 | after kmalloc, successful or not, the earlier live blocks are exactly those not at the returned address |
| `HeapRuns.ThreeUndone` | src/kernel/core/heap.c:747-763 | three allocations are undone by freeing their results, whichever of them failed |
| `HeapRuns.FreedFits` | src/kernel/core/heap.c:765-773 | a block just freed can hold any request up to its own size |
| `HeapMemory.UnlinkImage` | src/kernel/core/heap.c:148-165 | the three header writes of a removal turn the memory image of a layout into that of the layout with the block off the list |
| `HeapMemory.LinkImage` | src/kernel/core/heap.c:167-201 | the header writes of an insertion turn the image into that with the block free and on the list in address order |
| `HeapMemory.SplitImage` | src/kernel/core/heap.c:232-253 | the header writes of a split turn the image into that with the block cut in two |
| `HeapMemory.MergeImage` | src/kernel/core/heap.c:308-333 | the header writes of a merge turn the image into that with the two blocks joined |
| `HeapMemory.UseImage` | src/kernel/core/heap.c:75-77 | clearing the free flag of a block that is off the list is the image of that change |
| `HeapMemory.SaneBlock` | src/kernel/core/heap.c:112-146 | every block of a represented layout passes heap_block_is_sane, computed with 32-bit wrap-around |
| `HeapMemory.BlocksFit` | src/kernel/core/heap.c:101-110 | a layout has fewer blocks than heap_max_walks allows, so no walk over it is cut short |
| `HeapIntegrity.SaneMeans` | src/kernel/core/heap.c:112-146 | for any header contents, the wrapping sanity test holds exactly when the block is aligned, marked and ends inside the region |
| `HeapIntegrity.PhysWalkExact` | src/kernel/core/heap.c:362-424 | on any memory contents the first pass succeeds with a list if and only if that list is a physical chain: tiling, back links, no two free neighbours |
| `HeapIntegrity.FreeWalkExact` | src/kernel/core/heap.c:426-466 | on any memory contents the second pass succeeds with a list if and only if that list is a free chain: free blocks, back links, ascending |
| `HeapIntegrity.CountsSuffice` | src/kernel/core/heap.c:468-496 | equal counts and every free block being listed make the free list exactly the free blocks in order |
| `HeapIntegrity.LayoutIntact` | src/kernel/core/heap.c:349-499 | what the allocator keeps implies what the checker checks |
| `KernelHeap.Heap.constructor` | src/kernel/core/heap.c:501-528 | one free block over the aligned 1 MiB region, no errors |
| `KernelHeap.Heap.RemoveFreeBlock` | src/kernel/core/heap.c:148-165 | the block leaves the free list and nothing else changes in the layout |
| `KernelHeap.Heap.InsertFreeBlock` | src/kernel/core/heap.c:167-201 | the block becomes free and takes its place in address order |
| `KernelHeap.Heap.SplitBlock` | src/kernel/core/heap.c:221-253 | 0 if and only if the rest cannot hold a block, and then nothing changes; otherwise the layout with the block cut |
| `KernelHeap.Heap.FindFit` | src/kernel/core/heap.c:544-564 | the walk of the free list ends at the first fit of the layout and never reports corruption |
| `KernelHeap.Heap.KMalloc` | src/kernel/core/heap.c:534-567 | result and new layout are those of first fit with a split; 0 without change before heap_init |
| `KernelHeap.Heap.KCalloc` | src/kernel/core/heap.c:569-589 | the same for count times size, 0 on overflow, and exactly the requested bytes are cleared, inside a new live block |
| `KernelHeap.Heap.FindByPayload` | src/kernel/core/heap.c:255-281 | the block with that payload address, or none, never reporting corruption |
| `KernelHeap.Heap.TryCoalesceWithNext` | src/kernel/core/heap.c:308-333 | merges with the successor exactly when both are free, without reporting an error |
| `KernelHeap.Heap.Coalesce` | src/kernel/core/heap.c:335-347 | at most two merges, starting at a free predecessor |
| `KernelHeap.Heap.KFree` | src/kernel/core/heap.c:591-611 | the layout without that live block, merged; exactly one error is counted for a double or invalid free, and then the layout is unchanged |
| `KernelHeap.FaultsExact` | src/kernel/core/heap.c:591-606 | kfree reports nothing exactly for null and payloads of live blocks, a double free exactly for payloads of free blocks |
| `KernelHeap.FreeSteps` | src/kernel/core/heap.c:308-347 | inserting a used block and merging twice is the same as joining it with every free neighbour |
| `KernelHeap.AllocSteps` | src/kernel/core/heap.c:552-561 | unlinking, splitting, inserting the rest and marking used is one allocation step on the layout |
| `KernelHeap.Heap.LargestFreeBlock` | src/kernel/core/heap.c:695-716 | the largest free payload of the layout, 0 before heap_init |
| `KernelHeap.Heap.BytesFree` | src/kernel/core/heap.c:807-826 | the sum of the free payloads |
| `KernelHeap.Heap.BytesUsed` | src/kernel/core/heap.c:794-805 | live payload plus 32 times (blocks - 1): the clamp never acts |
| `KernelHeap.Heap.CheckInternal` | src/kernel/core/heap.c:349-499 | terminates on any memory contents and answers 1 if and only if the heap is up and tiling, back links, order, no free neighbours and list = free blocks all hold |
| `KernelHeap.Heap.CheckIntegrity` | src/kernel/core/heap.c:617-619 | the same verdict, counted as an error exactly when the heap is up and it is bad |
| `KernelHeap.Heap.FreeListContains` | src/kernel/core/heap.c:283-306 | true exactly for the members of the free list |
| `KernelHeap.SelfTestReuse` | src/kernel/core/heap.c:765-773 | in the self-test the 80 bytes always fit where the 128 were |
| `KernelHeap.Heap.RunSelfTest` | src/kernel/core/heap.c:730-792 | on a well-formed heap it restores the exact layout and returns 1 if and only if its first three allocations succeed |
| `FatVolume.ReadDevice` | src/kernel/core/block.c:117-148 | the bytes of the sectors in order; an error when the count is 0 or a sector cannot be read |
| `FatVolume.ReadFatEntry` | src/kernel/fs/fat.c:1019-1083 | the entry that one or two sector reads give, an error when one of them fails |
| `FatVolume.NeverStraddles` | src/kernel/fs/fat.c:1019-1083 | a 16- or 32-bit entry lies in one sector, for every cluster whose offset does not overflow |
| `FatVolume.TwoSectors` | src/kernel/fs/fat.c:1019-1083 | two sectors are read if and only if a 12-bit entry begins at the last byte of a sector |
| `FatVolume.ReadsFlat` | src/kernel/fs/fat.c:1019-1083 | reading an entry equals decoding the table as one flat byte array, and fails exactly when one of its bytes cannot be read |
| `FatVolume.Pack12RoundTrip` | src/kernel/fs/fat.c:1063-1070 | packing any table of 12-bit values and decoding entry i gives value i |
| `FatVolume.PackedTableReads` | src/kernel/fs/fat.c:1019-1083 | with the packed table on the disk, every entry is read back as its value |
| `FatMount.MountedIsVolume` | src/kernel/fs/fat.c:902-1017 | every volume that mounts has an accepted geometry, the FAT kind of its cluster count, and a valid FAT32 root cluster |
| `FatMount.MountedFits` | src/kernel/fs/fat.c:976-985 | tables and root of a mounted volume lie inside it if and only if their size does not overflow 32 bits |
| `FatMount.OversizedTablesMount` | src/kernel/fs/fat.c:976-985 | the 512 bytes of a boot sector whose table size wraps: it mounts although its tables exceed the volume |
| `FatMount.SectorMounts` | src/kernel/fs/fat.c:902-1017 | for any boot sector bytes that mount: accepted geometry, and tables, root and data in order inside the volume if and only if the table size did not overflow |
| `FatMount.MountedLayout` | src/kernel/fs/fat.c:987-1006 | without overflow tables, root and data follow one another and the last cluster ends inside the volume |
| `FatMount.MountedSectors` | src/kernel/fs/fat.c:1085-1087 | then every sector of every valid cluster lies in the data area and no two of them coincide |
| `FatFile.AdvanceStops` | src/kernel/fs/fat.c:1131-1147 | the chain of a sound file is never walked past its last cluster, nor past the 256th |
| `FatFile.Open` | src/kernel/fs/fat.c:1309-1328 | the handle at position 0, and CORRUPT exactly when the file is not empty and its first cluster is invalid |
| `FatFile.OpenFile.constructor` | src/kernel/fs/fat.c:1309-1317 | the handle at position 0 with the first cluster counted and visited, or none for an empty file |
| `FatFile.OpenFile.ResetState` | src/kernel/fs/fat.c:1105-1118 | the handle back at position 0 |
| `FatFile.OpenFile.FileMaxClusters` | src/kernel/fs/fat.c:1120-1129 | the size divided by the cluster size, rounded up, in 32 bits |
| `FatFile.OpenFile.AdvanceCluster` | src/kernel/fs/fat.c:1131-1183 | on any disk: the next cluster of the chain, or which of the six refusals, with the handle unchanged |
| `FatFile.OpenFile.Seek` | src/kernel/fs/fat.c:1185-1216 | on any disk: the outcome and handle of that many advances from the start |
| `FatFile.SeekSound` | src/kernel/fs/fat.c:1185-1216 | in any sound file, however long: success exactly into the clusters that can be entered, else CORRUPT in the last of them |
| `FatFile.SeekHealthy` | src/kernel/fs/fat.c:1185-1216 | in a healthy file seeking succeeds if and only if the offset is at most the size and is not the end of a file that fills its clusters; it then leaves the handle that sequential reading leaves there |
| `FatFile.SeekableMeans` | src/kernel/fs/fat.c:1205-1211 | the refused offset is the size when that is a positive multiple of the cluster size |
| `FatExamples.SeekToEndFails` | src/kernel/fs/fat.c:1143-1147 | on a volume that mounts, a file of one full cluster whose end cannot be sought |
| `FatFile.OpenFile.Read` | src/kernel/fs/fat.c:1331-1427 | on any disk: status, handle and delivered bytes are those of the rounds of the loop, and the rest of the buffer is unchanged |
| `FatFile.ReadSound` | src/kernel/fs/fat.c:1331-1427 | on any sound file from any position reached: exactly the bytes asked for, cut to the size, or those up to the end of the last cluster that can be entered and then CORRUPT |
| `FatFile.ReadHealthy` | src/kernel/fs/fat.c:1331-1427 | on a sound file of at most 256 clusters: OK, exactly the bytes of the chain, and the handle of the new position |
| `FatFile.ReadStuck` | src/kernel/fs/fat.c:1331-1427 | after such a refusal every further read delivers nothing and is refused |
| `FatFile.HugeFileCut` | src/kernel/fs/fat.c:1120-1129 | all clusters of a sound file can be entered if and only if they are at most 256 and rounding the size up does not overflow; an overflow leaves only the first |
| `FatExamples.LongFileCut` | src/kernel/fs/fat.c:1172-1175 | on a volume that mounts, a sound file of 257 clusters: 256 of them are delivered, then CORRUPT |
| `FatFile.OpenFile.ReadPieces` | src/kernel/fs/fat.c:1331-1427 | reads of any sizes one after the other deliver a healthy file from the position on without gap or overlap |
| `FatShell.Cat` | src/kernel/drivers/keyboard.c:2134-2175 | on any disk: what fatcat shows, its status and its refusal are those of the chunks read one after the other |
| `FatShell.CatHealthy` | src/kernel/drivers/keyboard.c:2134-2175 | of a healthy file fatcat shows all bytes up to the limit, or those before the first chunk that does not look like text |
| `FatFile.ReadRange` | src/kernel/fs/fat.c:1429-1461 | on any disk: the refusal of an invalid file, no bytes at or past the end, else a seek followed by a read |
| `FatFile.RangeHealthy` | src/kernel/fs/fat.c:1429-1461 | any range of a healthy file is read exactly, offsets at or past the end giving no bytes and no error |
| `FatFile.CopyBytes` | src/kernel/fs/fat.c:1093-1099 | the bytes in place, the rest of the target unchanged |
| `FatNames.ShortNameChecksum` | src/kernel/fs/fat.c:182-194 | rotate right and add over the eleven bytes |
| `FatNames.CopyShortName` | src/kernel/fs/fat.c:281-326 | the two fields without trailing spaces joined by a dot, unprintable bytes as underscores, a question mark if both are blank |
| `FatNames.NameEquals` | src/kernel/fs/fat.c:336-348 | true if and only if the names agree up to ASCII case |
| `FatNames.NameState.Reset` | src/kernel/fs/fat.c:166-180 | everything cleared |
| `FatNames.NameState.StoreNamePart` | src/kernel/fs/fat.c:204-229 | one code unit stored at its place in the name, past the end ignored |
| `FatNames.NameState.Collect` | src/kernel/fs/fat.c:231-279 | the slot starts, continues or discards the name as specified, and the result says whether every slot has been seen |
| `FatNames.CollectSlot` | src/kernel/fs/fat.c:231-279 | collecting slot k of an encoded name adds exactly its characters to those of any set of slots collected before; the last slot starts afresh after anything |
| `FatNames.AssembledName` | src/kernel/fs/fat.c:708-723 | the assembled C string is the name up to the first missing slot, and the whole name if and only if none is missing |
| `FatNames.CopyName` | src/kernel/fs/fat.c:715-721 | the characters before the zero, 255 at most |
| `FatDirectory.DirentFromRaw` | src/kernel/fs/fat.c:411-457 | names, kind, first cluster and size of a slot |
| `FatDirectory.VisitSector` | src/kernel/fs/fat.c:667-739 | the entries that a scan of the sector in slots of 32 bytes delivers, and whether it ended or was stopped |
| `FatDirectory.VisitJoin` | src/kernel/fs/fat.c:667-739 | scanning two stretches one after the other is scanning their concatenation, long-name state included |
| `FatDirectory.WalkBounded` | src/kernel/fs/fat.c:770-845 | on every table, cyclic ones included, a walk enters at most 256 clusters, pairwise different, valid and linked in a row |
| `FatDirectory.WalkJoins` | src/kernel/fs/fat.c:770-845 | a successful walk with a callback that never stops delivers what one scan of all its slots delivers |
| `FatDirectory.ChainListing` | src/kernel/fs/fat.c:770-845 | both, for a walk from any start cluster |
| `FatDirectory.RootListing` | src/kernel/fs/fat.c:741-768 | a successful listing of the fixed root delivers what one scan of all its slots delivers |
| `FatDirectory.ListRootFixed` | src/kernel/fs/fat.c:741-768 | success and deliveries of the walk; a callback that stops leaves only the current sector |
| `FatDirectory.ListClusterChain` | src/kernel/fs/fat.c:770-845 | the same for a chain of clusters, terminating on every table |
| `FatLookup.LongNameExact` | src/kernel/fs/fat.c:702-724 | slots of a name in any order, some missing or repeated, then the short entry, after another entry or beginning with the last slot: it is delivered with the name up to the first missing slot, without a long name when that is slot 1 or the last slot never came, and with the encoded name if and only if every slot was seen |
| `FatLookup.LongNameRoundTrip` | src/kernel/fs/fat.c:702-724 | any name of 1 to 255 printable ASCII characters, in slots with the right checksum before its short entry, is delivered unchanged, whatever was collected before |
| `FatLookup.MissingSlotTruncates` | src/kernel/fs/fat.c:702-724 | a concrete name of three slots without its second: 13 characters are delivered as the long name |
| `FatLookup.NameDelivered` | src/kernel/fs/fat.c:667-739 | the same between any other slots that the scan gets past |
| `FatLookup.NameInDirectory` | src/kernel/fs/fat.c:770-845 | so a directory walk delivers it wherever sector and cluster boundaries fall |
| `FatLookup.FindAgrees` | src/kernel/fs/fat.c:532-621 | the find walk and the list walk from any common state: no match means the same status, a match means the find stops at the first one listed |
| `FatLookup.ChainFindAgrees` | src/kernel/fs/fat.c:532-621 | finding in a chain is determined by listing it: the first matching file or directory, CORRUPT if suspicious; NOT_FOUND if and only if the listing succeeds without a match; else the error of the listing |
| `FatLookup.RootFindAgrees` | src/kernel/fs/fat.c:490-530 | the same for the fixed root |
| `FatLookup.FindRootFixed` | src/kernel/fs/fat.c:490-530 | answers what the listing of the root determines |
| `FatLookup.FindDirectoryClusterChain` | src/kernel/fs/fat.c:532-621 | answers what the listing of the chain determines |
| `FatPath.MountLeaves` | src/kernel/fs/fat.c:902-1017 | every boot sector that mounts leaves the geometry and root addresses that path lookup starts from |
| `FatPath.SplitJoin` | src/kernel/fs/fat.c:363-409 | splitting the path joined from components gives the components back |
| `FatPath.ParseComponent` | src/kernel/fs/fat.c:375-409 | the next component and the cursor after it, refused if and only if it has more than 12 characters or one a path may not hold |
| `FatPath.FindIn` | src/kernel/fs/fat.c:623-660 | in the root of any volume kind or in a directory: the first match of the listing, or why there is none |
| `FatPath.LookupPath` | src/kernel/fs/fat.c:1218-1282 | on any disk a path leads where the listings of the directories on the way lead, or fails as the first failing component does |
| `FatPath.ResolveJoins` | src/kernel/fs/fat.c:1239-1279 | a path in two parts is followed by following the first and then the second from where it leads |
| `FatPath.NameReachable` | src/kernel/fs/fat.c:397-399 | a name listed in a directory can be used in a path if and only if it has at most 12 characters that a path may hold, long names included |
| `FatPath.ShortNameGood` | src/kernel/fs/fat.c:397-399 | a short name always fits, and can be used if and only if its raw bytes hold no slash |
| `FatExamples.LongNameRefused` | src/kernel/fs/fat.c:397-399 | a file listed under a long name of 13 characters: a path with that name is refused, one with its short name leads to it |
| `FatExamples.LongNameExample` | src/kernel/fs/fat.c:1241 | such a file on a volume that mounts |
| `FatPath.OpenPath` | src/kernel/fs/fat.c:1284-1328 | a handle at position 0 on the regular file that the path names, or the status of the step that fails |
| `FatPath.ReadPathRange` | src/kernel/fs/fat.c:1429-1461 | on any disk: lookup, open, seek and read in a row |
| `FatPath.PathReads` | src/kernel/fs/fat.c:1429-1461 | from a path to bytes: where the listings lead to a regular file with a healthy chain, any range of it is read exactly |
| `SchedulerModel.PickIsNext` | src/kernel/core/scheduler.c:124-149 | the pick is the first runnable task after the last one dispatched, idle exactly when none is runnable |
| `SchedulerModel.StepInv` | src/kernel/core/scheduler.c:190-441 | every step keeps: RUNNING exists iff in thread context and is then unique and current; a ready task outside it implies a pending reschedule; dispatches = yields + exits + running and ticks = sum of task ticks, modulo 2^32 |
| `SchedulerModel.RunInv` | src/kernel/core/scheduler.c:241-441 | so does every run |
| `SchedulerModel.InitialInv` | src/kernel/core/scheduler.c:241-286 | scheduler_init establishes it |
| `SchedulerModel.ExitedStays` | src/kernel/core/scheduler.c:190-211 | an exited task stays exited in every step |
| `SchedulerModel.ResumesChangeNothing` | src/kernel/core/scheduler.c:372-441 | the assignments after each context switch find everything already as they set it |
| `SchedulerModel.DispatchPasses` | src/kernel/core/scheduler.c:372-408 | a dispatched task was ahead of every task that stays ready, and is behind it afterwards |
| `SchedulerModel.OthersOnce` | src/kernel/core/scheduler.c:106-149 | while a task stays ready every other task is dispatched at most once |
| `SchedulerModel.BoundedWaiting` | src/kernel/core/scheduler.c:372-408 | with a fixed set of n tasks, at most n - 2 effective dispatch calls pass while a non-idle one stays ready |
| `KernelScheduler.Scheduler.constructor` | src/kernel/core/scheduler.c:241-286 | the initial state |
| `KernelScheduler.Scheduler.HasReadyNonIdle` | src/kernel/core/scheduler.c:106-122 | true exactly when a non-idle task is ready |
| `KernelScheduler.Scheduler.PickNextTask` | src/kernel/core/scheduler.c:124-149 | the pick of the model |
| `KernelScheduler.Scheduler.CreateKernelThread` | src/kernel/core/scheduler.c:292-348 | success exactly with scheduler, name, entry and memory; the create step |
| `KernelScheduler.Scheduler.HandleTick` | src/kernel/core/scheduler.c:356-370 | the tick step |
| `KernelScheduler.Scheduler.MarkTaskCorrupt` | src/kernel/core/scheduler.c:96-104 | a task not yet exited becomes exited and a reschedule pending |
| `KernelScheduler.Scheduler.DispatchTask` | src/kernel/core/scheduler.c:372-400 | the dispatch step, and whether the switch is reached |
| `KernelScheduler.Scheduler.ResumeInKernel` | src/kernel/core/scheduler.c:402-408 | changes nothing |
| `KernelScheduler.Scheduler.ExitCurrentTask` | src/kernel/core/scheduler.c:190-211 | the exit step |
| `KernelScheduler.Scheduler.TaskReturned` | src/kernel/core/scheduler.c:213-224 | a returning entry function is an exit step |
| `KernelScheduler.Scheduler.YieldCurrent` | src/kernel/core/scheduler.c:410-434 | the yield step |
| `KernelScheduler.Scheduler.ResumeInTask` | src/kernel/core/scheduler.c:436-441 | changes nothing |
| `RegistryModel.Earliest` | src/kernel/core/driver.c:110-124 | the earliest registered driver that matches, -1 if none does |
| `RegistryModel.StepSettles` | src/kernel/core/driver.c:261-342 | on return from a registration each device is bound to the earliest driver that matches it, unbound if none does |
| `RegistryModel.RunSettles` | src/kernel/core/driver.c:261-342 | so after every run |
| `RegistryModel.RunForest` | src/kernel/core/driver.c:261-342 | after every run the devices with their drivers are those of the registered devices, children included, under the final drivers |
| `RegistryModel.Confluence` | src/kernel/core/driver.c:261-342 | two runs with the same drivers in the same order and the same devices in any order, interleaved in any way, end with the same bindings |
| `RegistryModel.ExpandGrows` | src/kernel/core/driver.c:126-147 | one more driver adds to the expansion of a device exactly what it binds and what its probes register |
| `KernelRegistry.DriverRegistry.constructor` | src/kernel/core/driver.c:149-182 | empty lists, up exactly when the heap is and both built-in buses got a node |
| `KernelRegistry.DriverRegistry.TryBind` | src/kernel/core/driver.c:126-147 | an unbound matching device is bound and its probe has registered its children; otherwise nothing |
| `KernelRegistry.DriverRegistry.Probe` | src/kernel/drivers/virtio.c:545-549 | a probe that registers child devices appends their expansions, re-entering registration |
| `KernelRegistry.DriverRegistry.RegisterDevice` | src/kernel/core/driver.c:261-303 | appends the device and everything its probes register, bound_count and one probe per bound device included |
| `KernelRegistry.DriverRegistry.RegisterDriver` | src/kernel/core/driver.c:305-342 | offers the driver to every device while the list grows under the loop; success exactly when up, named and memory is left |
| `BootMemory.RangeMeans` | src/kernel/core/bootinfo.c:52-95 | a kept range is exactly the part of the entry below 4 GiB and is not empty |
| `BootMemory.Highest` | src/kernel/core/bootinfo.c:91-93 | the highest usable address: a bound on all available ranges, attained when positive |
| `BootMemory.KeptLength` | src/kernel/core/bootinfo.c:66-77 | the 32-bit length is 0 exactly for entries not kept |
| `BootMemory.BootInfo.constructor` | src/kernel/core/bootinfo.c:43-50 | no ranges |
| `BootMemory.BootInfo.AddRange` | src/kernel/core/bootinfo.c:79-94 | one more range; maximum and saturating sum are those of all ranges |
| `BootMemory.BootInfo.StoreMemoryRange` | src/kernel/core/bootinfo.c:52-95 | after any entries the ranges are the first 64 kept, with their maximum and saturating sum |
| `Frames.TracksUse` | src/kernel/core/pmm.c:38-47 | setting a frame's bit takes exactly that frame out of the free set |
| `Frames.TracksFree` | src/kernel/core/pmm.c:49-56 | clearing it puts exactly that frame in |
| `Frames.ReleaseExact` | src/kernel/core/pmm.c:58-88 | a release frees exactly the frames wholly inside if and only if the base is at most 0xFFFFF000 and the end is below 4 GiB |
| `Frames.ReleaseWraps` | src/kernel/core/pmm.c:58-88 | a concrete region in the last page makes the release cover every frame below it |
| `Frames.ReserveExact` | src/kernel/core/pmm.c:90-116 | a reservation takes exactly the frames touched if and only if the region ends at or below 0xFFFFF000 |
| `Frames.ReserveWraps` | src/kernel/core/pmm.c:90-116 | a concrete region at the start of the last page reserves nothing |
| `KernelPmm.Pmm.MarkFrameUsed` | src/kernel/core/pmm.c:38-47 | the frame leaves the free set, which bitmap and counter keep matching |
| `KernelPmm.Pmm.MarkFrameFree` | src/kernel/core/pmm.c:49-56 | a tracked frame joins the free set, any other is ignored |
| `KernelPmm.Pmm.ReleaseRegion` | src/kernel/core/pmm.c:58-88 | the frames between the rounded ends join the free set |
| `KernelPmm.Pmm.ReserveRegion` | src/kernel/core/pmm.c:90-116 | the frames between the rounded ends leave it |
| `KernelPmm.Pmm.Init` | src/kernel/core/pmm.c:118-174 | up exactly under the conditions it checks; the free set is that of the ranges less the five reservations, frame 0 is not in it, and counter, bitmap and hint agree with it |
| `KernelPmm.Pmm.AllocFrame` | src/kernel/core/pmm.c:180-204 | the lowest free frame; after pmm_init 0 exactly when none is free; never by way of the wrap-around loop |
| `KernelPmm.Pmm.FreeFrameAt` | src/kernel/core/pmm.c:206-222 | an aligned tracked frame becomes free, anything else changes nothing; no free frame lies below the hint |
| `KernelPmm.BootFree` | src/kernel/core/pmm.c:118-174 | for any ranges, regions and highest address, rounding that wraps included: exactly which frames are free at boot |
| `KernelPmm.BootFreeExact` | src/kernel/core/pmm.c:118-174 | with the ranges and the highest address of any memory map: when neither available memory nor a region reaches the last page, a frame is free at boot if and only if it lies inside one available range and touches no reserved region |
| `KernelPmm.WrappedRangeFrees` | src/kernel/core/pmm.c:58-88 | a concrete available range in the last page makes pmm_init free all frames below, though it holds none of them |
| `KernelPmm.LastPageUnmanaged` | src/kernel/core/pmm.c:141-146 | the frame count is the memory rounded up to frames, except that memory ending inside the last page gives none |
| `KernelPmm.PartitionKept` | src/kernel/core/pmm.c:180-222 | handing out a free frame, or taking back an issued one, keeps free and issued frames a partition of the boot-time pool |
| `KernelPmm.RunIssuesFresh` | src/kernel/core/pmm.c:180-222 | answers that serve calls one by one with the lowest free frame are never 0 while a frame is free, never a frame already held, and come from the pool |
| `KernelPmm.RunFrames` | src/kernel/core/pmm.c:180-222 | any sequence of calls of the allocator that frees only what it was given is answered so, and the allocator stays sound and usable |
| `Paging.LimitCovers` | src/kernel/core/paging.c:34-51 | a non-zero limit is a whole number of tables, covers the heap, and covers the boot information if and only if its end does not wrap |
| `Paging.WrappedBootMissed` | src/kernel/core/paging.c:34-51 | boot information ending past 4 GiB is not covered, with the heap ending at 3 MiB |
| `Paging.IdentityMap` | src/kernel/core/paging.c:76-112 | the two-level walk of section 4.3 of the Intel SDM, Volume 3A, maps every address below the limit to itself, writable, and faults above it |
| `Paging.PageTables.ZeroPage` | src/kernel/core/paging.c:24-32 | the page is cleared and no other word changes |
| `Paging.PageTables.AddTable` | src/kernel/core/paging.c:99-111 | one more table and directory entry; the earlier ones are undisturbed |
| `Paging.PageTables.BuildTables` | src/kernel/core/paging.c:86-112 | all tables in distinct frames, if and only if enough frames are free in a sound allocator |
| `Paging.PageTables.Init` | src/kernel/core/paging.c:53-126 | when it succeeds the whole address space is identity-mapped below the limit and unmapped above; it succeeds if and only if heap and allocator are up and a directory and its tables find frames |
| `Paging.BringUp` | src/kernel/core/kernel.c:319-322 | pmm_init then paging_init with the ranges of the memory map: the pool is what the map leaves free, the allocator is sound, and when paging comes up the map is the identity and covers the heap, and the boot information if and only if its end does not wrap |
| `Terminal.RingGrows` | src/kernel/drivers/terminal.c:71-85 | appending while there is room keeps the ring equal to the end of the log |
| `Terminal.RingTurns` | src/kernel/drivers/terminal.c:71-85 | appending to a full ring drops the oldest line only |
| `Terminal.ScreenDetermined` | src/kernel/drivers/terminal.c:107-131 | log, region, offset and the rows outside determine the screen |
| `Terminal.Console.AppendBlankLine` | src/kernel/drivers/terminal.c:71-85 | the log has one blank line more and the ring its last 1024 lines |
| `Terminal.Console.VisibleTop` | src/kernel/drivers/terminal.c:42-57 | the logical line at the top of the region |
| `Terminal.Console.SyncRegion` | src/kernel/drivers/terminal.c:107-131 | the region shows its window on the log, other rows unchanged |
| `Terminal.Console.UpdateCell` | src/kernel/drivers/terminal.c:139-154 | the cell changes in the line of the log that the row shows |
| `Terminal.Console.PutEntryAt` | src/kernel/drivers/terminal.c:170-181 | the cell on the screen and, inside the region, in the log, after the view has gone back to the end; out of range nothing |
| `Terminal.Console.ResetHistory` | src/kernel/drivers/terminal.c:87-105 | the log restarts with the rows of the region |
| `Terminal.Console.ScrollOne` | src/kernel/drivers/terminal.c:246-253 | one blank line more, the view at the end, the cursor in the last row |
| `Terminal.Console.PutChar` | src/kernel/drivers/terminal.c:255-271 | log and cursor are those of typing the character, and the screen keeps showing the log |
| `Terminal.Console.Write` | src/kernel/drivers/terminal.c:273-279 | the same for every character in turn |
| `Terminal.Console.Follow` | src/kernel/drivers/terminal.c:373-380 | the view is at the end of the log |
| `Terminal.Console.ScrollView` | src/kernel/drivers/terminal.c:382-444 | the offset moves by a line or a page within its range, the region shows that part of the log, and the cursor goes to the bottom left exactly when the view moves |
| `Terminal.Console.ScrollTrip` | src/kernel/drivers/terminal.c:373-444 | from the end of the log, any scrolling followed by following restores the screen exactly; the cursor is where it was if no key moved the view, else at the bottom left |
| `Terminal.TravelsExact` | src/kernel/drivers/terminal.c:382-444 | some key moves the view if and only if one points to a side that has lines left |
| `Terminal.Console.SetCursor` | src/kernel/drivers/terminal.c:208-211 | each coordinate that is in range |
| `Terminal.Console.SetRegion` | src/kernel/drivers/terminal.c:221-238 | clamped rows, the whole screen for an inverted pair, and a log that restarts there |
| `Terminal.Console.ResetRegion` | src/kernel/drivers/terminal.c:240-244 | the whole screen is the region and the log, with the cursor where it was |
| `Terminal.Console.Clear` | src/kernel/drivers/terminal.c:192-197 | a blank screen, a log of its region, the cursor at the origin |
| `Terminal.Console.Initialize` | src/kernel/drivers/terminal.c:199-206 | from any state, the invariant with a blank screen |
| `Mouse.FramingAccounts` | src/kernel/drivers/mouse.c:280-298 | every byte is lost, in a whole packet or in the partial one |
| `Mouse.WheelExact` | src/kernel/drivers/mouse.c:172-192 | for every wheel byte: the up counter matches the scroll calls, the down counter matches them if and only if the byte is not 128, and for 128 it moves back by 128 while nothing scrolls |
| `Mouse.WheelRun` | src/kernel/drivers/mouse.c:162-193 | over any packets the up counter is the number of scroll calls modulo 2^32 and the down counter is short by 128 for each movement of -128; it agrees if and only if their number is a multiple of 2^25 |
| `Mouse.FedHolds` | src/kernel/drivers/mouse.c:287-296 | one turn of the loop body on the packet buffer and counters frames one more byte of the stream |
| `Mouse.MouseDriver.constructor` | src/kernel/drivers/mouse.c:195-212 | nothing accepted, packet size by wheel, fresh buffers |
| `Mouse.MouseDriver.EnqueueByte` | src/kernel/drivers/mouse.c:147-160 | the byte is appended to the queue, or dropped exactly when 127 are waiting |
| `Mouse.MouseDriver.HandleIrq` | src/kernel/drivers/mouse.c:268-278 | at any point of the drain loop: counted and accepted or dropped, and the loop state stays valid |
| `Mouse.MouseDriver.AdvanceTail` | src/kernel/drivers/mouse.c:285 | the byte consumed is the oldest one accepted and not yet consumed |
| `Mouse.MouseDriver.FrameByte` | src/kernel/drivers/mouse.c:287-296 | buffer, index and counters after the byte, a full packet being processed |
| `Mouse.MouseDriver.ProcessPacket` | src/kernel/drivers/mouse.c:162-193 | buttons, wheel counters, last movement and scroll calls of the packet |
| `Mouse.MouseDriver.DrainPending` | src/kernel/drivers/mouse.c:280-298 | under any interleaving of interrupts it terminates with the queue empty and every accepted byte consumed in arrival order and framed |
| `Mouse.MouseDriver.Conservation` | src/kernel/drivers/mouse.c:268-298 | at the loop test irq_events = dropped + queued + sync_losses + packet_size * packets_seen + packet_index, modulo 2^32 |

## Left out

- KernelHeap.Heap.KCalloc: requires the total to be at most 0xFFFFFFF0, because above that the code would clear memory past the block it was given, headers included; HeapRuns.ClearStaysInside states the limit and ClearOverruns shows an input.
- FatShell.Cat: the test for text is a parameter, and the filtering of what is printed is not modelled.
- FatFile.Open: begins after the lookup of the path, which FatPath.OpenPath puts before it.
- KernelHeap.Heap.constructor: the region is assumed to fit below 4 GiB, as the linker script arranges.
- RegistryModel.Confluence: probes register devices, not drivers; whether a device gets its node is fixed for the device, so a heap that runs out part of the way, where the order decides who is refused, is not covered.
- Heap headers are records at their addresses, not bytes; clients are assumed not to write them.
- Block counters of the heap (total, used, free): they would only add easy members.
- Task, device and driver lists are sequences rather than linked nodes; visited-cluster tables are sequences.
- Interrupts inside scheduler calls, stack-size rounding and the saved CPU context.
- The bus list of the driver registry.
- Memory for page tables is separate from the frame bitmap.
- Listing by path, which chains the lookup and the listing; reading the boot sector itself.
- Terminal drawing helpers (boxes, lines, centred text, prompts, tagged log lines), the guard flag against nested synchronising, and partial rectangle fills.
- The identification protocol of mouse_init; scroll calls made for the wheel are counted, not performed.
- Multiboot tag walking (section 3.6.8 of the Multiboot2 specification): parsed entries are the input.
- Port I/O, interrupt and timer setup, serial output, sound, virtio queues, PCI and audio programming.
- The keyboard driver and its shell (except the reading loop of fatcat), log and panic output.
- Null pointers passed where the code refuses them.
