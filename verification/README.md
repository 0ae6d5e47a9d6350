# Verified models of NTux-OS

NTux-OS is a small kernel with its own C library. This project models the parts of it that keep
state of some complexity, in Dafny 4.11, and proves what each of them is for. Code that works in
place is modelled in place: classes with the fields of the original structures, arrays for disks,
pools and buffers, loops where the original loops. Each such method is proved against a function or
a relation on values, and the theorems are about those. `dafny verify dfyconfig.toml` checks
everything.

* **Memory.** `Pmm` is the page bitmap; `PageTree`, `Addresses` and `Vmm` the four-level page tables
  of `vmm.c` as a map from addresses to frames (section 4.5 of volume 3A of the Intel 64 and IA-32
  Architectures Software Developer's Manual); `UserSpace` and `AddressSpace` the life of a user
  address space, from the cloned root to the scans that take it apart. A table is shared by no two
  paths, and a page is either free or owned by exactly one place: these two facts carry the proofs.
* **Heap.** `LibcHeap` is `malloc`, `free`, `realloc` and `calloc` on the words of the heap. Live and
  free blocks tile the used heap exactly; the free list in the words is the list of the free blocks.
  `HeapLaws` says in numbers what the operations do.
* **FAT.** `FatTable` is the packing of entries into bytes and sectors, `FatFs` the chains, payloads
  and readers, `FatPlaces` the absolute place of every entry and byte; `FatFormat` the layout that
  `mkfs` chooses and what mounting reads back, `FatBoot` the boot sector by its offsets; `LongNames`
  the long directory entries (sections "FAT Data Structure", "FAT Type Determination" and "FAT Long
  Directory Entries" of the Microsoft FAT32 File System Specification, version 1.03).
* **Scheduler.** `SchedulerSteps` is a state machine whose steps are the locked sections, with its
  invariant over all runs and the waiting bounds; `SchedulerLaws` says what each step does to each
  thread; `ThreadQueue` and `Scheduler` are the doubly linked lists and the methods that carry the
  steps out.
* **ext2.** `Ext2Layout` and `Ext2` are block allocation and the block map of a file, `Ext2Places` the
  block of every byte; `DirRecords` and `Ext2Dir` the records of a directory and the map they stand
  for, `DirPlaces` the same read from the bytes.
* **Assembler.** `AsmCode` encodes and decodes instructions (chapters 3 and 4 of volume 2 of the same
  manual), `AsmText` reads source lines, `AsmProgram` says which bytes a program means, `Assembler`
  is the two-pass compiler, `AsmListing` a disassembler and what a source line spells.
* **ramfs.** `RamTree` is the node table as a tree, `RamPath` resolves and prints paths, `RamNames` says
  what any path leads to, `RamMove` what moving a node does to both, `Ramfs` is the file system with
  its pool.
* **Users.** `UserText` prints and reads the account files, `UserLines` says what the lines of any such
  file mean, `UserDb` saves and loads them.

The modules `HeapLaws`, `FatPlaces`, `FatBoot`, `SchedulerLaws`, `Ext2Places`, `DirPlaces`,
`AsmListing`, `RamNames` and `UserLines` describe results in bytes, sectors, opcodes and lines, without
the functions that specify the operations; their lemmas tie the two descriptions together.

Devices never fail: reading and writing a sector or a page succeeds, and so does writing a file.
Where memory allocation can fail in the original, its outcome is a parameter or the case is listed
below. A section under a lock is one step.

Some results differ from what a reader of the code might expect. Each is proved as an exact
condition, with an input that shows the failure:

* A range read is the slice of the whole read if and only if offset plus length does not wrap
  (`FatFs.FatFs.ReadFileRange`, `FatFs.WrappedRange`).
* Data written to a FAT volume or an ext2 inode are read back if and only if they are shorter than
  2^32 bytes: sizes are kept in 32 bits, and so are the numbers of clusters and blocks
  (`FatFs.FatFs.WriteThenRead`, `FatFs.WriteTooMuch`, `FatFs.WriteAllForNothing`,
  `Ext2.Ext2.WriteReadClear`, `Ext2.WriteTooMuch`).
* Freeing a FAT chain clears table entries only if its first cluster lies inside the table, which the
  code does not check for the first one (`FatFs.FatFs.FreeChain`, `FatFs.StrayFree`).
* ext2 allocates a block if and only if one is free in a group whose descriptor lies in the first
  descriptor block, and gives a block back if and only if its group's does
  (`Ext2.Ext2.AllocBlock`, `Ext2.Ext2.FreeBlock`, `Ext2.OutOfReach`).
* `malloc` serves a request if and only if it is not misled by a wrapped size: the break check must
  not wrap, and neither may the rounding when a free block is handed out (`LibcHeap.Heap.Malloc`,
  `LibcHeap.WrapMisleads`, `LibcHeap.Heap.AskTwice`).
* A waiting thread is never woken if and only if the tick count plus its wait is exactly 2^64, and is
  woken early if and only if the sum is larger (`SchedulerSteps.WaitIsKept`,
  `SchedulerSteps.SleepsForEver`).
* The scheduler frees the thread whose stack the processor is on if and only if that thread has exited
  and nothing was ready (`SchedulerSteps.ReapFreesCpu`, `SchedulerSteps.LastExit`). A thread killed
  while it waits runs again when its wait ends (`SchedulerSteps.RevivedBy`,
  `SchedulerSteps.KilledRunsAgain`).
* An exit keeps the scheduler's invariant if and only if the current thread is not marked as sleeping
  (`SchedulerSteps.ExitKeeps`, `SchedulerSteps.ExitSpoils`). No caller exits there: between marking
  itself and calling the scheduler a thread runs nothing else, so runs leave this step out.
* A rename between directories of the ramfs keeps the tree if and only if there is room in the new
  directory and it does not lie below the node; otherwise the node is lost
  (`Ramfs.RamFs.Rename`, `Ramfs.MoveBelowItself`).
* A mapped user range is mapped at every address if and only if its last byte has no smaller offset in its
  page than its first, or its last page was mapped already (`AddressSpace.MapUserRange`).
* The kernel's walk of the page tables computes the translation of an address if and only if no large
  page lies on the path (`Vmm.ComputedIsTranslation`); through a large page, mapping and unmapping
  change no translation (`Vmm.Vmm.MapPage`, `Vmm.LargeStaysMapped`).
* An assembled jump reaches the label its line spells if and only if the name has no capital letter
  (`Assembler.JumpAsWritten`, `Assembler.JumpsElsewhere`).
* The account files survive saving and loading if and only if they fit, where a last line break and
  trailing empty hashes do not count (`UserDb.SavedLoads`, `UserDb.FullHouse`).

## Model

| member | source | states |
|---|---|---|
| `Pmm.Allocator.constructor` | kernel/src/mm/pmm.c:84-89 | takes over a filled bitmap: afterwards exactly the clear bits other than page 0 are free and the free counter is their number |
| `Pmm.Allocator.Scan` | kernel/src/mm/pmm.c:95-107 | one pass of the word scan finds the lowest free page from a word on, or shows there is none; a clear bit past the last page is not handed out |
| `Pmm.Allocator.AllocPage` | kernel/src/mm/pmm.c:91-117 | fails exactly when no page is free, otherwise hands out the next-fit page and removes exactly it from the free set; the scan start moves to the page behind it |
| `Pmm.Allocator.FreePage` | kernel/src/mm/pmm.c:119-126 | exactly the page becomes free; page 0, a page out of range or a free page changes nothing, so the counter never drifts |
| `PageTree.StoreElsewhere` | kernel/src/mm/vmm.c:16-51 | in a tree without shared tables, storing one entry moves no path that does not run through it |
| `PageTree.LinkKeeps` | kernel/src/mm/vmm.c:38-46 | linking a zeroed page as a table adds one table, keeps the tree free of sharing and changes no mapping |
| `PageTree.StoreLeafKeeps` | kernel/src/mm/vmm.c:72-105 | storing a last-level entry changes what exactly one page finds |
| `PageTree.UnlinkKeeps` | kernel/src/elf/module_loader.c:603-640 | clearing the entry of an empty table or of a page removes exactly one path |
| `Addresses.SamePageSameIndices` | kernel/src/mm/vmm.c:19-24 | two addresses have the same four indices exactly when they lie on the same page of the 48-bit space |
| `Addresses.IndicesSpell` | kernel/src/mm/vmm.c:19-24 | the four indices and the offset spell the address: nine bits each, the root's first, then twelve |
| `PageTree.FlagBits` | kernel/src/mm/paging.h:9-16 | present, writable, user and large are bits 0, 1, 2 and 7 of an entry |
| `Vmm.WalkStuck` | kernel/src/mm/vmm.c:38-39 | a walk that finds a table missing shows that the address is not mapped |
| `Vmm.MapsOnlyTranslates` | kernel/src/mm/vmm.c:72-118 | the tree refines a map of addresses: after mapping one page its addresses translate to the new frame with the offset kept, all others as before |
| `Vmm.RangeDistinct` | kernel/src/mm/vmm.c:128-148 | the pages of a range that does not go round the address space use different last-level entries |
| `Vmm.Vmm.Descend` | kernel/src/mm/vmm.c:29-49 | one level of the walk, exactly: follows an entry, with the extra flags set if there are any, or links one fresh zeroed table, or stops with nothing changed, whatever the memory holds; in the tree it keeps every mapping |
| `Vmm.Vmm.WalkPt` | kernel/src/mm/vmm.c:16-51 | takes exactly the missing tables from the allocator and fails exactly when fewer pages are free; mappings stay as they were; returns the table and entry the address really ends in. Where it meets a large page it follows the frame like a table: then it returns a page outside the tree and no translation changes |
| `Vmm.Vmm.MapPage` | kernel/src/mm/vmm.c:72-89 | without a large page on the path: succeeds exactly when enough pages are free for the missing tables, and then changes the mapping of one page only; running out changes no translation. With one it maps nothing: every address goes where it went, yet the call fails only when a 1 GiB page makes it take a page and none is free |
| `Vmm.Vmm.UnmapPage` | kernel/src/mm/vmm.c:91-105 | unmaps one page and nothing else, with no page or table lost, unless the walk goes through a large page, where one word of what it took for a table is cleared |
| `Vmm.Vmm.GetPhysAddr` | kernel/src/mm/vmm.c:107-118 | returns what the kernel's own walk computes, 0 when it finds nothing; without a large page on the path that is the translation of the address |
| `Vmm.ComputedIsTranslation` | kernel/src/mm/vmm.c:25-49 | the kernel's walk computes the translation of an address, whatever the pages that are no tables hold, if and only if no large page lies on the path |
| `Vmm.LargeStaysMapped` | kernel/src/mm/vmm.c:91-105 | unmapping an address in a large page whose walk leaves the tree unmaps nothing: all addresses find what they found |
| `Vmm.StrayInside` | kernel/src/mm/vmm.c:25-51 | a creating walk inside a 1 GiB page leaves the tree and all translations as they are; it takes a page from the allocator exactly when the word it meets does not look present, and fails exactly when none is free then |
| `Vmm.Vmm.MapFresh` | kernel/src/mm/vmm.c:128-146 | one round: a free page is mapped, or the page is given back and no mapping has changed; new tables of the tree come out of the free pages, none is lost |
| `Vmm.Vmm.AllocPages` | kernel/src/mm/vmm.c:124-150 | on success the range maps to as many distinct pages that were free, and nothing else changes; on failure every mapping is as before. The pages that left the allocator are, either way, exactly the frames taken and the new tables of the tree, so what a failure loses is one frame for each page mapped before it |
| `Vmm.Vmm.UnmapRange` | kernel/src/mm/vmm.c:131-146 | the rollback restores every mapping |
| `UserSpace.LinkPage` | kernel/src/elf/module_loader.c:169-214 | a page linked below the lower half moves from the allocator to the space, and nothing else does |
| `UserSpace.UnlinkPage` | kernel/src/elf/module_loader.c:600-640 | a page given back moves from the space to the allocator |
| `AddressSpace.ClonePml4` | kernel/src/elf/module_loader.c:144-159 | a fresh root with an empty lower half and the kernel's upper half; no other page changes |
| `AddressSpace.EnsureEntry` | kernel/src/elf/module_loader.c:168-214 | one level of the mapping: links a zeroed page or keeps the one there, failing only with no page free; the entry then is present, writable and open to user code, entries that were stay so, and no byte of a page mapped before changes |
| `AddressSpace.MapUserPage` | kernel/src/elf/module_loader.c:161-216 | conserves pages, succeeds exactly when the page ends up mapped, and touches only the path of the address. Then user code can read and write it, a page that is new is all zeros, and pages mapped before keep their bytes and stay open |
| `AddressSpace.MapUserRange` | kernel/src/elf/module_loader.c:218-224 | conserves pages, complete or cut short by exhaustion; succeeds exactly when a non-empty range is mapped at its start and every 4096 bytes on. Then every address of the range is mapped if and only if the last byte has no smaller offset in its page than the first, or the last page was mapped before. Every page so mapped is open to user code, zeroed if it is new, and earlier pages keep their bytes |
| `AddressSpace.TableHasPresent` | kernel/src/elf/module_loader.c:569-574 | true exactly when some entry is present |
| `AddressSpace.ClearLeaf` | kernel/src/elf/module_loader.c:584-603 | gives back the page of one address and clears its entry, or changes nothing |
| `AddressSpace.ReleaseIfEmpty` | kernel/src/elf/module_loader.c:624-641 | gives a table back exactly when nothing in it is present |
| `AddressSpace.ScanDirectory` | kernel/src/elf/module_loader.c:619-630 | gives back the empty last-level tables of a directory and keeps every mapped page |
| `AddressSpace.ScanPointerTable` | kernel/src/elf/module_loader.c:613-637 | the same for the directories of a pointer table |
| `AddressSpace.ScanTops` | kernel/src/elf/module_loader.c:608-642 | the same for the root entries of the range; with no page mapped they are all cleared |
| `AddressSpace.NothingLeft` | kernel/src/elf/module_loader.c:583-642 | after both scans the space owns nothing exactly when everything in it belonged to the range |
| `AddressSpace.FreeUserSpace` | kernel/src/elf/module_loader.c:576-645 | does nothing for no root or an empty range; otherwise gives back the whole space, tables and root included, exactly when what is mapped and linked lies in the range; kernel-half entries and other pages stay untouched |
| `AddressSpace.LiveAndDie` | kernel/src/elf/module_loader.c:144-645 | clone, map any ranges (complete or cut short) and tear down: the set of free pages is exactly what it was and no page in use has changed |
| `LibcHeap.TakeBlockKeeps` | userspace/libc/stdlib.c:34-49 | handing out a free block, split or whole, keeps the heap exactly tiled with no two free blocks touching |
| `LibcHeap.ReleaseBlockKeeps` | userspace/libc/stdlib.c:63-88 | giving a block back keeps the tiling and leaves no two free blocks touching |
| `LibcHeap.ReleaseUndoesTake` | userspace/libc/stdlib.c:34-88 | freeing a block taken from the free list puts the heap back as it was |
| `LibcHeap.AllFreed` | userspace/libc/stdlib.c:63-88 | once everything is freed the list is one block covering the whole used heap |
| `LibcHeap.MallocServes` | userspace/libc/stdlib.c:27-58 | the block served is live, large enough and where no live block was |
| `HeapLaws.MallocLaw` | userspace/libc/stdlib.c:27-61 | in numbers: the free block of lowest address that holds the size rounded up to a multiple of 8 is cut at its front, and a remainder of 24 bytes or more stays a free block; without one the break moves by 16 bytes and the size as long as it stays within 32 MiB; otherwise the heap is unchanged |
| `HeapLaws.FreeLaw` | userspace/libc/stdlib.c:63-92 | in numbers: a block given back becomes one free block with the free blocks that touch it, their headers included, and no other block changes |
| `HeapLaws.HeaderLaw` | userspace/libc/stdlib.c:9-21 | the first word of a block is its size; the second word of a free block is the address of the next free one by address, 0 in the last, and the list head that of the first |
| `HeapLaws.DataLaw` | userspace/libc/stdlib.c:48-57 | the bytes of a block are the words behind its two header words |
| `LibcHeap.WrapMisleads` | userspace/libc/stdlib.c:23-55 | a request is served wrongly only if its rounded size with header and break wraps at 64 bits; when it wraps, exactly if the break check lets it through or a free block exists and the rounding itself wraps |
| `LibcHeap.WrapExample` | userspace/libc/stdlib.c:51-55 | the largest request and one of 2^64 - 16 on an empty heap are misled; one of 2^64 - 8 at a full heap wraps and is refused all the same |
| `LibcHeap.Heap.FindFit` | userspace/libc/stdlib.c:31-50 | the walk over the list stops at the first fitting block in address order |
| `LibcHeap.Heap.TakeFrom` | userspace/libc/stdlib.c:35-48 | the relinking stores realise the split on the real words and disturb no live data |
| `LibcHeap.Heap.Malloc` | userspace/libc/stdlib.c:27-61 | for every size: first fit, else the break moves, else the system's answer; a block that holds the request and overlaps no live one is served if and only if the request is not misled by a wrapped sum. As long as the break check does not wrap, tiling, address-ordered list and live contents are kept; when it wraps, exactly one word is written and the break falls |
| `LibcHeap.ServesOrNot` | userspace/libc/stdlib.c:27-61 | a block given out serves the request if and only if the rounding of its size did not wrap |
| `LibcHeap.Heap.AskTwice` | userspace/libc/stdlib.c:51-58 | two requests of 2^64 - 16 in a row on a heap without free blocks get the same address |
| `LibcHeap.Heap.Insert` | userspace/libc/stdlib.c:69-74 | the block enters the list at its place in address order |
| `LibcHeap.Heap.Coalesce` | userspace/libc/stdlib.c:76-79 | joins a block with its successor exactly when the two touch |
| `LibcHeap.Heap.FindPredecessor` | userspace/libc/stdlib.c:82-83 | finds the list entry before the block |
| `LibcHeap.Heap.Free` | userspace/libc/stdlib.c:63-92 | the block is freed and joined with the free neighbours it touches; no live block's data changes |
| `LibcHeap.Heap.Realloc` | userspace/libc/stdlib.c:104-119 | keeps a block that is large enough, otherwise moves its contents and frees it, joining it with its free neighbours; a failure leaves it untouched, and the address is the one `malloc` gives; the block served is unusable exactly when `malloc` was misled by the size |
| `LibcHeap.Heap.Calloc` | userspace/libc/stdlib.c:94-102 | zeroed memory of the product, or 0 when the product is 0 or does not fit 64 bits; the block served is unusable exactly when `malloc` was misled by the product |
| `FatTable.PutEntryReads` | kernel/src/fs/fat.c:116-187 | writing an entry and reading one gives the value at the same cluster and the old value elsewhere, for 12-bit entries across sectors too |
| `FatPlaces.EntryPlace` | kernel/src/fs/fat.c:116-156 | the entry the driver reads is the value of these bytes of the first table: 12 bits from byte 3c / 2 on, the low or the high ones, two bytes at 2c, or the low 28 bits of four bytes at 4c |
| `FatPlaces.EndMarks` | kernel/src/fs/fat.c:83-98 | the last eight values of an entry end a chain, and the very last one is written |
| `FatTable.ValidClusterInTable` | kernel/src/fs/fat.c:83-98 | every cluster up to the maximum has all its entry bytes inside the table |
| `FatTable.MaxIsCount` | kernel/src/fs/fat.c:91-98 | the maximum is the cluster count plus one when the table is large enough |
| `FatTable.PutCopiesReads` | kernel/src/fs/fat.c:189-217 | every mirrored copy reads back the written entry and keeps the others |
| `FatTable.CopiesStayEqual` | kernel/src/fs/fat.c:189-217 | copies that start equal stay equal |
| `FatFs.FatFs.ReadEntry` | kernel/src/fs/fat.c:116-156 | fails exactly when the sectors of the entry, whose number wraps at 32 bits, lie outside the volume; otherwise the value of those bytes, which in the table is the entry |
| `FatFs.FatFs.WriteEntryAt` | kernel/src/fs/fat.c:158-187 | replaces the entry's bits, keeps its neighbour's, and fails, with nothing changed, exactly when its sectors lie outside the volume |
| `FatFs.FatFs.WriteEntry` | kernel/src/fs/fat.c:189-217 | writes the entry to all copies, for every cluster number; for a valid cluster that sets one entry in all copies and nothing outside the tables |
| `FatFs.FatFs.AllocCluster` | kernel/src/fs/fat.c:726-747 | fails exactly when no cluster is free; otherwise marks one that was free as the end of a chain |
| `FatFs.FatFs.FreeChain` | kernel/src/fs/fat.c:749-761 | terminates on every table, cyclic or corrupt: from a first cluster up to the maximum it clears exactly the entries on the trail. From a larger one, which nothing checks, it clears the bits at that place first and then the trail that their value starts |
| `FatFs.InsideStep` | kernel/src/fs/fat.c:189-217 | a cluster number whose bytes lie inside the table copy changes that entry and no other, above the maximum too |
| `FatFs.StrayFree` | kernel/src/fs/fat.c:749-761 | a floppy on which freeing the chain of a corrupt first cluster clears a byte of another file's data |
| `FatFs.TrailIsChain` | kernel/src/fs/fat.c:749-761 | on a well-formed chain the trail is the chain |
| `FatFs.ChainPlace` | kernel/src/fs/fat.c:116-156 | the chains of the model are those the entry bytes on the disk spell |
| `FatFs.ChainLength` | kernel/src/fs/fat.c:618-640 | a chain has no more clusters than the volume, so the readers' guard never cuts one off |
| `FatFs.ChainIsWalk` | kernel/src/fs/fat.c:623-640 | the readers walk a well-formed chain to its end |
| `FatFs.FatFs.AllocChain` | kernel/src/fs/fat.c:1001-1022 | succeeds exactly when enough clusters are free and links an acyclic chain of that many; otherwise the table is as found, and in copies that differed from the first only the entries of free clusters are cleared |
| `FatFs.RolledBack` | kernel/src/fs/fat.c:1001-1016 | linking all that is free and freeing the chain again restores the table, entry by entry and copy by copy |
| `FatFs.FatFs.WriteData` | kernel/src/fs/fat.c:1024-1074 | the chain's clusters hold the data padded with zeros, other clusters are untouched |
| `FatFs.FatFs.WritePayload` | kernel/src/fs/fat.c:986-1080 | for every length below 2^64: success exactly when the number of clusters, truncated to 32 bits, is not 0 and that many are free. Then a chain of so many clusters that were free holds as much of the data as it has room for, which is all of it as long as the number fits 32 bits; otherwise the table is restored. On the disk the entry bytes spell that chain, and byte x of the data is byte x % 512 of sector first + (c - 2) n + x % (512 n) / 512, where n is the cluster size in sectors, first the first data sector and c the chain's cluster number x / (512 n) |
| `FatFs.DataKeepsTables` | kernel/src/fs/fat.c:1024-1074 | writing clusters changes no table entry |
| `FatFs.OthersUntouched` | kernel/src/fs/fat.c:986-1080 | every file that was there keeps its chain and its content and shares no cluster with the new one |
| `FatFs.FatFs.ReadFileData` | kernel/src/fs/fat.c:609-645 | total on every table: returns the bytes of the walk, or fails exactly when the buffer or the walk is too short. For every chain that the entry bytes on the disk spell from the first cluster and that is long enough, it returns the bytes at their absolute sectors, as in `WritePayload` |
| `FatFs.ReadIsContent` | kernel/src/fs/fat.c:609-645 | on a chain long enough for the size the read succeeds with the file's content |
| `FatPlaces.ClusterPlace` | kernel/src/fs/fat.c:112-114 | cluster 2 begins at the first data sector, and every further one a cluster's sectors behind the one before |
| `FatPlaces.ContentPlace` | kernel/src/fs/fat.c:609-645 | a byte sequence is the content of a file if and only if its bytes lie at their absolute sectors |
| `FatFs.FilePlace` | kernel/src/fs/fat.c:609-645 | chain and content of the model are the chain that the entry bytes spell and the bytes at its sectors |
| `FatFs.FatFs.SkipClusters` | kernel/src/fs/fat.c:665-672 | on every table: comes to the cluster and offset that the specification of the skipping walk says, or to the same error |
| `FatFs.FatFs.ReadFrom` | kernel/src/fs/fat.c:674-703 | on every table: the bytes of the clusters walked, or the error where the walk breaks off |
| `FatFs.FatFs.ReadFileRange` | kernel/src/fs/fat.c:647-703 | on every table says what is read or where the walk breaks off; on a well-formed chain it returns exactly the slice of the whole read, if and only if offset plus length does not wrap at 64 bits. The bytes are those at the absolute sectors of the file from the offset on |
| `FatFs.ChainSlice` | kernel/src/fs/fat.c:647-703 | on a well-formed chain long enough for the size the skipping walk and the copying walk together give the slice |
| `FatFs.WrappedRange` | kernel/src/fs/fat.c:653-703 | a floppy with a file of two bytes: the range from byte 1 with the largest length fails with -4 |
| `FatFs.FatFs.WriteThenRead` | kernel/src/fs/fat.c:609-703 | the whole read returns the data if and only if they are shorter than 2^32 bytes; then every part is read back too. Any other file keeps chain and content |
| `FatFs.WriteTooMuch` | kernel/src/fs/fat.c:994-1080 | 2^41 + 1 bytes on a volume of one-sector clusters are written with success to one cluster, and one byte is read back |
| `FatFs.WriteAllForNothing` | kernel/src/fs/fat.c:1371-1460 | 2^32 bytes are stored in full, and the entry of size 0 makes the read return nothing |
| `FatFormat.SectorsPerFat` | kernel/src/fs/fs.c:1794-1806 | the least number of sectors whose entries cover the clusters and the two reserved entries |
| `FatFormat.TryLayout` | kernel/src/fs/fs.c:1808-1829 | finds the table size the correction loop settles on, if any leaves room for a cluster; on a large volume a FAT32 table always does |
| `FatFormat.BestOfType` | kernel/src/fs/fs.c:1854-1873 | the layout with the largest clusters that fits the type |
| `FatFormat.PickLayout` | kernel/src/fs/fs.c:1831-1890 | fails exactly when no type and cluster size fit; FAT32 comes first when any type may be chosen, then larger clusters, then FAT16 |
| `FatFormat.TableFits` | kernel/src/fs/fs.c:1922-1930 | the table size of a chosen FAT12 or FAT16 layout fits its 16-bit field |
| `FatFormat.MakeBoot` | kernel/src/fs/fs.c:1892-1951 | succeeds exactly when a layout exists; the boot sector says exactly the best one, and every one of its 512 bytes is what its field asks for |
| `FatFormat.Mount` | kernel/src/fs/fat.c:1234-1303 | for every boot sector: -2 exactly without the signature, -3 exactly when a field or a size derived from them is unusable, otherwise the geometry that the bytes at their offsets spell, sums and products in 32 bits: type by the number of clusters, as many clusters as there is room and as the table has entries for, all inside the volume. A formatted one mounts as it was laid out |
| `FatFormat.FormatThenMount` | kernel/src/fs/fs.c:1892-1951 | for every size and type asked for, formatting succeeds exactly when a layout exists, and mounting reads back its type, cluster size, reserved, root and table sizes, with as many clusters as the table has entries for; the layout has 32 or 1 reserved sectors, no or 512 root entries, and fills the volume up to less than a cluster |
| `LongNames.MakeEntries` | kernel/src/fs/fat.c:1383-1397 | the entries of a name, last part first and marked with 0x40, turned round in place; entry i of n holds characters 13 (n - 1 - i) and on, then a zero, then 0xFFFF |
| `LongNames.Accumulator.Push` | kernel/src/fs/fat.c:269-306 | one entry is taken in, or the accumulator is reset when the order is out of range or out of turn |
| `LongNames.PushedIs` | kernel/src/fs/fat.c:258-306 | for every entry: taken exactly when its number is 1 to 20 and it starts a name or its number is not above the one expected; then its characters stand at 13 (number - 1) and on, what cannot be printed as a question mark, and otherwise nothing is kept |
| `LongNames.PushNext` | kernel/src/fs/fat.c:269-306 | each entry in disk order adds its part of the name and its bit of the mask |
| `LongNames.UpperComplete` | kernel/src/fs/fat.c:308-313 | after the last entry the name is complete and ends in a zero |
| `LongNames.RoundTrip` | kernel/src/fs/fat.c:262-313 | every printable name of 1 to 63 characters is read back from its entries in disk order |
| `SchedulerSteps.CreateKeeps` | kernel/src/sched/thread.c:101-128 | creating a thread keeps the invariant |
| `SchedulerSteps.KillKeeps` | kernel/src/sched/thread.c:167-179 | so does killing one |
| `SchedulerSteps.ReapKeeps` | kernel/src/sched/thread.c:146-165 | so does reaping |
| `SchedulerSteps.ReapFreesCpu` | kernel/src/sched/thread.c:146-165 | reaping frees the thread whose stack the processor is on if and only if that thread is terminated and not the current one |
| `SchedulerSteps.LastExit` | kernel/src/sched/scheduler.c:112-128 | the last thread exits: the next call of the scheduler frees it while the processor is still on its stack |
| `SchedulerSteps.SleepKeeps` | kernel/src/net/network.c:27-43 | so does going to sleep, for every wake tick |
| `SchedulerSteps.WaitTailKeeps` | kernel/src/syscall/int80.c:440-460 | so does the end of a tick wait |
| `SchedulerSteps.RevivedBy` | kernel/src/syscall/int80.c:440-460 | a terminated thread gets another state exactly when it ends its tick wait or, still being the current thread, goes to sleep |
| `SchedulerSteps.KilledRunsAgain` | kernel/src/syscall/int80.c:440-460 | a thread killed while it waits runs again once its wait ends |
| `SchedulerSteps.ExitKeeps` | kernel/src/sched/scheduler.c:203-210 | exit keeps the invariant if and only if the current thread is not marked as sleeping, since it does not look at the wake list |
| `SchedulerSteps.ExitSpoils` | kernel/src/sched/scheduler.c:203-210 | the state between marking oneself as sleeping and calling the scheduler: an exit there leaves a freed thread on the wake list |
| `SchedulerSteps.RunKeeps` | kernel/src/sched/scheduler.c:19-157 | both lists duplicate-free, queued exactly when ready, listed exactly when blocked, after every run of create, block, wait, wake, schedule, kill, exit and reap |
| `SchedulerSteps.RunIsSafe` | kernel/src/sched/scheduler.c:112-157 | in every reachable state at most one thread runs and it is the current one, what reaping frees is on no list, and the count is the number of ready threads |
| `SchedulerSteps.WakePassIs` | kernel/src/interrupt/timer.c:112-127 | the pass queues exactly the expired sleepers, in order, and changes nobody else |
| `SchedulerSteps.WakeLeavesNone` | kernel/src/interrupt/timer.c:112-127 | the pass wakes exactly the sleepers whose tick has come and is not 0, nobody else and nobody early; a sleeper past its tick stays blocked if and only if that tick is 0 |
| `SchedulerSteps.WaitIsKept` | kernel/src/syscall/int80.c:407-425 | a thread that waits is never woken if and only if the tick count plus its wait is exactly 2^64, and sleeps the whole wait if and only if the sum is at most 2^64 |
| `SchedulerSteps.RunWakes` | kernel/src/interrupt/timer.c:112-127 | over runs in which no sum comes to 0, a wake pass leaves only sleepers whose tick lies ahead |
| `SchedulerSteps.SleepsForEver` | kernel/src/syscall/int80.c:407-425 | a reachable state with a thread that no wake pass at any time wakes |
| `SchedulerSteps.ScheduleAdvances` | kernel/src/sched/scheduler.c:112-157 | one call dispatches the head and moves the others up by one |
| `SchedulerLaws.Switch` | kernel/src/sched/scheduler.c:112-157 | the whole effect of one call: of the queue and, behind it, the running thread, the first runs and the others are the queue; only dead threads other than the current one leave the table; the one that runs has its quantum, or 8 if it is used up or the thread was the current one; nothing else changes in anyone |
| `SchedulerLaws.Preempted` | kernel/src/sched/scheduler.c:112-139 | the running thread goes to the end of the queue with quantum and wake tick unchanged, or runs on when nobody was ready |
| `SchedulerLaws.Created` | kernel/src/sched/thread.c:101-128 | a new thread is ready at the end of the queue under an unused id with a quantum of 8, and nobody else changes |
| `SchedulerLaws.DiesBy` | kernel/src/sched/thread.c:146-179 | over every step: a thread that is not dead dies or leaves the table if and only if it is killed, or exits as the current thread |
| `SchedulerLaws.BlocksBy` | kernel/src/syscall/int80.c:407-425 | over every step: a thread falls asleep if and only if it is the current one and asks for it |
| `SchedulerLaws.StopsBy` | kernel/src/interrupt/timer.c:108-148 | over every step: the running thread stops if and only if it is killed, exits, falls asleep, or somebody is ready when the scheduler is called or its slice ends |
| `SchedulerLaws.TickIs` | kernel/src/interrupt/timer.c:108-148 | a tick in numbers: due sleepers become ready with their wake tick cleared, the running thread loses one tick, and the end of a slice hands the processor over |
| `SchedulerSteps.BoundedWait` | kernel/src/sched/scheduler.c:46-157 | a ready thread at position k runs within k + 1 calls of the scheduler, whatever arrives meanwhile, unless one of the steps takes it away: it is killed, or it runs before and itself sleeps, waits or exits |
| `SchedulerSteps.FreshQuantum` | kernel/src/sched/scheduler.c:112-157 | a dispatched thread starts with a quantum of 1 to 8 |
| `SchedulerSteps.SliceGoesDown` | kernel/src/interrupt/timer.c:129-146 | while the lock is free every tick uses up one tick of the quantum and the last one calls the scheduler |
| `SchedulerSteps.ServedWithin` | kernel/src/interrupt/timer.c:129-146 | with the lock free a ready thread at position k runs within 8 k ticks and the rest of the running slice |
| `SchedulerSteps.ServedInRun` | kernel/src/interrupt/timer.c:129-146 | the same over every run: with 8 k ticks charged while the scheduler was free, and the rest of the running slice, a ready thread at position k has run, whatever is created, woken, killed, falls asleep or exits meanwhile, or a named step of the run is its own |
| `SchedulerSteps.LeftAfter` | kernel/src/sched/scheduler.c:112-157 | only a call of the scheduler gives the processor a new slice, of at most 8 ticks; every charged tick without one takes one tick off |
| `ThreadQueue.Appended` | kernel/src/sched/scheduler.c:46-57 | the link writes of an insertion at the tail append to the list |
| `ThreadQueue.Removed` | kernel/src/sched/scheduler.c:74-88 | the link writes of a removal in the middle or at an end remove exactly that thread |
| `ThreadQueue.FewerLinks` | kernel/src/sched/thread.c:146-165 | a thread on no list is no neighbour of anyone, so freeing it leaves no dangling link |
| `Scheduler.ThreadTable.RqEnqueue` | kernel/src/sched/scheduler.c:46-57 | appends unless queued already |
| `Scheduler.ThreadTable.RqDequeue` | kernel/src/sched/scheduler.c:59-72 | takes the head |
| `Scheduler.ThreadTable.RqRemove` | kernel/src/sched/scheduler.c:74-88 | takes a thread out of the queue wherever it is |
| `Scheduler.ThreadTable.WlAdd` | kernel/src/sched/scheduler.c:19-29 | appends to the wake list unless listed already |
| `Scheduler.ThreadTable.WlRemove` | kernel/src/sched/scheduler.c:31-44 | takes a thread off the wake list |
| `Scheduler.ThreadTable.ScheduleCore` | kernel/src/sched/scheduler.c:112-157 | the linked structure does exactly the schedule step, whose effect on every thread and the queue is stated without the step's own functions, and reports the thread to switch to |
| `Scheduler.ThreadTable.Exit` | kernel/src/sched/scheduler.c:203-210 | exactly the exit step |
| `Scheduler.ThreadTable.Create` | kernel/src/sched/thread.c:101-128 | exactly the create step, with the id or -1 |
| `Scheduler.ThreadTable.Kill` | kernel/src/sched/thread.c:167-179 | exactly the kill step |
| `Scheduler.ThreadTable.Reap` | kernel/src/sched/thread.c:146-165 | exactly the reap step |
| `Scheduler.ThreadTable.Sleep` | kernel/src/net/network.c:27-43 | exactly the sleep step, for every number of ticks |
| `Scheduler.ThreadTable.WaitTicks` | kernel/src/syscall/int80.c:407-425 | exactly the first half of the tick wait, with the 64-bit sum of count and wait |
| `Scheduler.ThreadTable.WaitTail` | kernel/src/syscall/int80.c:440-460 | exactly its second half |
| `Scheduler.ThreadTable.WakeExpired` | kernel/src/interrupt/timer.c:112-127 | the relinking loop is exactly the wake pass |
| `Scheduler.ThreadTable.TimerHandler` | kernel/src/interrupt/timer.c:108-148 | exactly the timer step, with or without the lock |
| `Ext2Layout.TakeAccounted` | kernel/src/fs/ext2.c:282-319 | taking a block keeps superblock and group counts equal to the clear bits |
| `Ext2Layout.ReturnAccounted` | kernel/src/fs/ext2.c:321-348 | so does giving one back |
| `Ext2Layout.SuperblockIsSum` | kernel/src/fs/ext2.c:282-348 | the superblock count is the sum of the group counts |
| `Ext2Layout.SumBelow` | kernel/src/fs/ext2.c:282-348 | the counts of the first groups add up to the free blocks in them |
| `Ext2Layout.BitValue` | kernel/src/fs/ext2.c:231-241 | by value: bit k of a byte is byte / 2^k % 2, and setting and clearing it add and subtract 2^k |
| `Ext2Layout.FreeByBits` | kernel/src/fs/ext2.c:276-309 | a block b is free if and only if, with r its number in its group, bit r % 8 of byte r / 8 of the group's bitmap is 0 by value; allocation comes to those whose 32-byte descriptor lies in the first block of the table |
| `Ext2Layout.Built` | kernel/src/fs/ext2.c:596-702 | a finished file's blocks were free, are pairwise distinct and in use, and hold the data |
| `Ext2Layout.OtherFileKept` | kernel/src/fs/ext2.c:596-702 | a file whose blocks were in use keeps its blocks and bytes |
| `Ext2.Ext2.AllocBlock` | kernel/src/fs/ext2.c:282-319 | fails exactly when no block is free in the groups whose descriptor lies in the first descriptor block; otherwise hands out the lowest free block of the volume, all zeros and counted at both levels: one byte of one bitmap has grown by 2^(r % 8), where that bit was 0, and no other bitmap byte has changed |
| `Ext2.Ext2.FreeBlock` | kernel/src/fs/ext2.c:321-348 | exactly the block becomes free, once, and one bitmap byte falls by the value of its bit; block 0 never; fails exactly when the descriptor of its group lies past the first descriptor block |
| `Ext2.OutOfReach` | kernel/src/fs/ext2.c:164-173 | a volume of 38 groups and 32 descriptors per block: with the first 32 groups full nothing can be allocated, though 45055 blocks are free |
| `Ext2.Ext2.WriteDirect` | kernel/src/fs/ext2.c:615-628 | the direct part: pieces of the data in fresh distinct blocks |
| `Ext2.Ext2.WriteIndexed` | kernel/src/fs/ext2.c:630-655 | an index block listing fresh blocks with the next pieces |
| `Ext2.Ext2.WriteDouble` | kernel/src/fs/ext2.c:657-697 | the double indirect part, with exactly one index block for every started run of pointers |
| `Ext2.Ext2.WriteData` | kernel/src/fs/ext2.c:596-702 | succeeds exactly when the descriptors of all old blocks can be read and the new ones, their number truncated to 32 bits, fit the inode and the free blocks within reach, the old ones included; uses n + [n>12] + [n>12+p](1 + ceil((n-12-p)/p)) distinct blocks, recorded in the inode, holding the data. Byte y of the data is byte y % size of the block that the pointers and the bytes of the index blocks give for y / size, and beyond the last block they give none |
| `Ext2.Ext2.ClearData` | kernel/src/fs/ext2.c:548-594 | succeeds exactly when the descriptors of all the file's blocks can be read; then exactly these blocks become free and the inode is empty. A failure has freed the blocks that come before the first one out of reach and cleared a front part of the block map |
| `Ext2.Ext2.ReadData` | kernel/src/fs/ext2.c:487-546 | reads the bytes behind the block map through all three parts; whenever the pointers and the bytes of the index blocks give all the blocks the size calls for, every byte comes from its place |
| `Ext2Places.PackedPlace` | kernel/src/fs/ext2.c:596-702 | the blocks of a file without gaps are those found from the 15 pointers and the bytes of the index blocks alone, as many and no more, and its bytes lie in them in order |
| `Ext2Places.DenseAt` | kernel/src/fs/ext2.c:487-546 | if the first blocks are all there by these pointers, reading comes to them in that order |
| `Ext2.Ext2.WriteReadClear` | kernel/src/fs/ext2.c:487-702 | bytes written are read back if and only if there are fewer than 2^32 of them; clearing restores the free blocks and both levels of counts, and another file keeps its blocks and bytes |
| `Ext2.WriteTooMuch` | kernel/src/fs/ext2.c:596-702 | 2^32 bytes on a volume of 4 KiB blocks are written with success and the file is empty |
| `DirRecords.TilesReplaced` | kernel/src/fs/ext2.c:818-916 | replacing records between two boundaries leaves the block tiled |
| `DirPlaces.RecordPlace` | kernel/src/fs/ext2.c:77-83 | a record in bytes: four of the inode number, two of the length, one of the name's length, one of the type, each number lowest byte first, then the name |
| `DirPlaces.DirWalk` | kernel/src/fs/ext2.c:388-411 | every directory of the model has its walk: the offsets that following the length bytes visits end at the end of each block |
| `DirRecords.Reused` | kernel/src/fs/ext2.c:835-842 | a dead record takes the new entry in place |
| `DirRecords.SplitUp` | kernel/src/fs/ext2.c:844-858 | a record gives up its tail to the new entry, and both fit their names |
| `DirRecords.MergedInto` | kernel/src/fs/ext2.c:911-914 | a removed record's space goes to the record before it |
| `DirRecords.Unused` | kernel/src/fs/ext2.c:909-910 | the first record of a block only loses its inode |
| `DirRecords.BindingsAre` | kernel/src/fs/ext2.c:388-411 | the record list refines a map: lookup finds exactly its bindings |
| `DirPlaces.LookupMisses` | kernel/src/fs/ext2.c:388-411 | from the bytes alone: a lookup fails when no record on the walk over the direct blocks has a nonzero inode number and the name |
| `DirPlaces.LookupFinds` | kernel/src/fs/ext2.c:388-411 | otherwise it gives inode number and type of the first such record, in block and record order |
| `DirPlaces.UniqueIs` | kernel/src/fs/ext2.c:818-887 | names are unique in the model if and only if no two records in use have the same name bytes |
| `DirPlaces.NoRoomIs` | kernel/src/fs/ext2.c:830-861 | there is no room in the model if and only if no record on the walk is unused and long enough or has the space behind its own name, rounded up to four bytes |
| `DirRecords.BindsWithin` | kernel/src/fs/ext2.c:818-887 | one more record in a block is one more in the directory: all other names are looked up as before |
| `DirRecords.Bound` | kernel/src/fs/ext2.c:818-887 | a record more keeps names unique if and only if its name is new, and then adds exactly that binding |
| `DirRecords.Unbound` | kernel/src/fs/ext2.c:889-916 | removing deletes exactly that binding |
| `Ext2Dir.Scan` | kernel/src/fs/ext2.c:395-408 | the walk over one block finds the first live record of the name, with its offset and the one before |
| `Ext2Dir.Find` | kernel/src/fs/ext2.c:388-411 | finds the entry bound to the name, or that there is none |
| `Ext2Dir.AddIn` | kernel/src/fs/ext2.c:830-861 | uses the first record with room, if and only if there is one |
| `Ext2Dir.ExtendAt` | kernel/src/fs/ext2.c:867-883 | a new block of one record |
| `Ext2Dir.Add` | kernel/src/fs/ext2.c:818-887 | succeeds exactly when the name is valid and a record has room or a block can be added; then exactly one record is added, names stay unique if and only if the name was absent, and then one binding is added; no block outside the directory changes. A block is added only when no record has room, at the first unused pointer and while one is free within reach, and the inode grows by its size |
| `Ext2Dir.Remove` | kernel/src/fs/ext2.c:889-916 | removes exactly the binding of the name and reports what it said |
| `AsmCode.DecodeAllEncodeAll` | kernel/src/elf/asm.c:170-222 | the emitted bytes decode to exactly the instructions they encode |
| `AsmProgram.PassesAccept` | kernel/src/elf/asm.c:267-472 | both passes succeed exactly when the program is acceptable |
| `AsmProgram.LowerSize` | kernel/src/elf/asm.c:348-446 | a line takes the same number of bytes in both passes |
| `AsmText.ParsedIsValid` | kernel/src/elf/asm.c:348-446 | every line that is accepted has an encoding |
| `Assembler.Assembler.EmitWord` | kernel/src/elf/asm.c:177-192 | appends the little-endian bytes, or fails exactly when they do not fit |
| `Assembler.Assembler.EmitMov` | kernel/src/elf/asm.c:214-222 | appends the encoding of a 64-bit immediate move |
| `Assembler.Assembler.EmitJump` | kernel/src/elf/asm.c:429-446 | appends a relative jump or call whose displacement reaches the label |
| `Assembler.Assembler.EmitPrint` | kernel/src/elf/asm.c:378-415 | appends the four instructions of a print and remembers where to patch |
| `Assembler.Assembler.Instruction` | kernel/src/elf/asm.c:348-450 | one source line, in either pass |
| `Assembler.Assembler.FirstPass` | kernel/src/elf/asm.c:267-321 | the label table and the sizes of code and literals |
| `Assembler.Assembler.SecondPass` | kernel/src/elf/asm.c:267-453 | the code, with prints still unplaced |
| `Assembler.Assembler.PlaceLiterals` | kernel/src/elf/asm.c:458-470 | patches every print and appends its text, or fails exactly when the area does not fit |
| `Assembler.Assembler.Compile` | kernel/src/elf/asm.c:258-480 | succeeds exactly on source that fits and is acceptable, with exactly the program's bytes; what these mean is `AsmListing.SourceCode` |
| `AsmListing.SourceCode` | kernel/src/elf/asm.c:258-480 | the emitted bytes of every source line, disassembled by a table of opcodes, are the line's lower-case mnemonic with its registers and numbers; sleep, exit and print are their system calls, a jump lands where the first label of its name stands, a print has the quoted text at its address |
| `AsmListing.LineCode` | kernel/src/elf/asm.c:348-446 | the same for one line |
| `AsmListing.DisassembleShown` | kernel/src/elf/asm.c:170-222 | the disassembler reads back every sequence of emitted instructions |
| `AsmListing.LegalIsCode` | kernel/src/elf/asm.c:348-450 | a line is accepted if and only if its words are a known mnemonic with the operands it takes: a register, a number, a name or a quoted text |
| `AsmListing.LineRead` | kernel/src/elf/asm.c:137-345 | the words of a line are its text before a comment, without blanks at the ends, at most 127 characters in lower case, split at blanks and the first comma |
| `AsmListing.NumberReads` | kernel/src/elf/asm.c:112-134 | a numeral is read as its decimal or, behind 0x, hexadecimal value modulo 2^64, and nothing else is a number |
| `AsmListing.LinesAre` | kernel/src/elf/asm.c:280-286 | the lines are what the line breaks of the source separate |
| `Assembler.DecodesToSource` | kernel/src/elf/asm.c:258-480 | decoding the emitted code yields exactly the lowered instruction list |
| `Assembler.JumpLands` | kernel/src/elf/asm.c:429-446 | every jump and call lands where the first label of its target name stands: an instruction boundary or the code end |
| `Assembler.JumpAsWritten` | kernel/src/elf/asm.c:295-446 | a jump reaches the label whose name its line spells if and only if that name has no capital letter; otherwise it lands on the label in lower case |
| `Assembler.JumpsElsewhere` | kernel/src/elf/asm.c:295-446 | a program with labels `Foo` and `foo` in which `jmp Foo` lands on `foo` |
| `AsmText.JumpTarget` | kernel/src/elf/asm.c:320-446 | the target of a jump is the operand of its line in lower case |
| `Assembler.DecodesFrom` | kernel/src/elf/asm.c:258-480 | decoding the code from the start of any line yields exactly the lowered instructions from that line on |
| `Assembler.PrintsOwnText` | kernel/src/elf/asm.c:458-470 | each print's address and length denote its own text, in non-overlapping places within the code limit |
| `RamTree.AttachKeeps` | kernel/src/fs/ramfs.c:64-82 | a new child keeps the finite tree with unique sibling names |
| `RamTree.DetachKeeps` | kernel/src/fs/ramfs.c:298-314 | so does taking out a node without children |
| `RamTree.ReplaceKeeps` | kernel/src/fs/ramfs.c:355-356 | so does a new name that no sibling has |
| `RamPath.ResolveAgain` | kernel/src/fs/ramfs.c:84-132 | after changes below its parent directory a path resolves by the last lookup alone |
| `RamPath.ChildFound` | kernel/src/fs/ramfs.c:52-62 | looking a node up by its name in its parent finds that node |
| `RamPath.ComponentsOfPath` | kernel/src/fs/ramfs.c:28-50 | splitting a printed path gives back its names |
| `RamPath.DepthBound` | kernel/src/fs/fs.c:813-821 | a node is less than 1024 levels deep, so the chain of parents fits |
| `RamPath.ResolvesToItself` | kernel/src/fs/ramfs.c:84-132 | resolving the printed path of a node gives the node |
| `RamNames.PathNames` | kernel/src/fs/ramfs.c:28-50 | the names of any path are what its slashes separate, empty ones dropped and each cut to 63 characters |
| `RamNames.ResolvedIs` | kernel/src/fs/ramfs.c:84-132 | a path leads to a node if and only if it begins with a slash and its names are those from the root to the node |
| `RamNames.MissingIs` | kernel/src/fs/ramfs.c:84-132 | a path names something missing in a directory if and only if its names are those of the directory and one more that no child has |
| `Ramfs.RamFs.constructor` | kernel/src/fs/ramfs.c:401-409 | a tree of one empty directory |
| `Ramfs.RamFs.CreateChild` | kernel/src/fs/ramfs.c:64-82 | adds exactly one node, or fails only on a full directory or table |
| `Ramfs.RamFs.ResolveMaking` | kernel/src/fs/ramfs.c:84-132 | makes exactly the missing directories along the path, and reports where the path ends or why it cannot go on |
| `Ramfs.RamFs.Resolve` | kernel/src/fs/ramfs.c:84-132 | finds the node of a path without changing anything |
| `Ramfs.RamFs.Fill` | kernel/src/fs/ramfs.c:188-202 | replaces one file's bytes within the pool, other files keep theirs |
| `Ramfs.RamFs.CreateFile` | kernel/src/fs/ramfs.c:169-207 | afterwards the path leads to a file with the data; every other file keeps its content and place, and only nodes along the path are new |
| `Ramfs.RamFs.Mkdir` | kernel/src/fs/ramfs.c:146-167 | afterwards the path leads to a directory, or to the file that was there, or nothing could be made |
| `Ramfs.RamFs.ReadFile` | kernel/src/fs/ramfs.c:209-238 | returns the file's bytes, or which of the three errors applies |
| `Ramfs.RamFs.DetachChild` | kernel/src/fs/ramfs.c:298-314 | the child leaves the list, the ones behind it move down |
| `Ramfs.RamFs.Remove` | kernel/src/fs/ramfs.c:316-330 | succeeds exactly on a file or empty directory other than the root; then that node alone is gone and its path is missing |
| `Ramfs.RamFs.Rename` | kernel/src/fs/ramfs.c:332-357 | within one directory the node alone changes, to the new name, and the new path leads to it. Between directories: success exactly when there is room; the tree survives if and only if there is room and the new directory does not lie below the node, and then the moved subtree is found under the new path and all else where it was; otherwise the node is lost. Files keep their bytes |
| `Ramfs.RamFs.Relocate` | kernel/src/fs/ramfs.c:347-354 | the node leaves the old list first; without room in the new directory it ends up in neither |
| `RamMove.MoveKeeps` | kernel/src/fs/ramfs.c:347-355 | a move to a directory with room that is not below the node keeps a tree with unique names |
| `RamMove.MoveCarries` | kernel/src/fs/ramfs.c:347-355 | the names from the root to every node of the subtree begin with the new directory and name, those of all other nodes are unchanged |
| `RamMove.MovedPaths` | kernel/src/fs/ramfs.c:332-357 | the new path leads to the node and the old one to nothing |
| `RamMove.UnlinkedIsLost` | kernel/src/fs/ramfs.c:348-350 | after a move into a full directory the table is no tree and no path leads to the node |
| `RamMove.LoopIsLost` | kernel/src/fs/ramfs.c:347-355 | after a move below itself the table is no tree and no path leads to the node |
| `Ramfs.MoveBelowItself` | kernel/src/fs/ramfs.c:332-357 | a new file system in which `/a` is moved to `/a/b`: the call succeeds and the directory is lost |
| `Ramfs.RamFs.BuildPath` | kernel/src/fs/fs.c:804-837 | prints the path of any node whose path fits, if and only if it fits, and the path resolves to the node |
| `Ramfs.PathsKept` | kernel/src/fs/ramfs.c:64-330 | creating, writing and removing elsewhere leave the meaning of a node's path alone |
| `UserText.NumberOfDecimal` | kernel/src/lib/string.c:135-148 | a 32-bit number printed in decimal is read back |
| `UserLines.NumberIs` | kernel/src/lib/string.c:135-148 | the number read from any text is the decimal one that its digits spell, other characters skipped, modulo 2^32 |
| `UserLines.DecimalSpells` | kernel/src/sys/user.c:13-28 | the digits printed for a number spell it |
| `UserText.UsersParse` | kernel/src/sys/user.c:67-113 | a complete /etc/passwd gives back the users in order |
| `UserText.CutUsers` | kernel/src/sys/user.c:67-113 | cut off somewhere it does so exactly when at most the last line break is missing |
| `UserLines.UsersOfLines` | kernel/src/sys/user.c:67-113 | over the lines of any text: exactly the lines with four colons or more make users, in order up to the room, with the fields between the first four colons cut to their sizes and the rest as shell |
| `UserLines.LineIgnored` | kernel/src/sys/user.c:67-113 | a line with fewer than four colons, inserted anywhere in any text, changes nothing |
| `UserLines.FileHasLines` | kernel/src/sys/user.c:67-113 | every file, up to its first zero byte, has such lines |
| `UserText.CutHashes` | kernel/src/sys/user.c:115-148 | /etc/shadow gives back the hashes exactly when it reaches the last one that is not empty |
| `UserLines.HashesOfLines` | kernel/src/sys/user.c:115-148 | over the lines of any text: the first user of each name gets the hash of the last line with a colon that names it, all others keep theirs |
| `UserLines.HashLineIgnored` | kernel/src/sys/user.c:115-148 | a line without a colon, inserted anywhere, changes nothing |
| `UserText.GroupsParse` | kernel/src/sys/user.c:150-195 | a complete /etc/group gives back groups and member lists in order |
| `UserText.CutGroups` | kernel/src/sys/user.c:150-195 | cut off somewhere it does so exactly when at most the last line break is missing |
| `UserLines.GroupsOfLines` | kernel/src/sys/user.c:150-195 | over the lines of any text: exactly the lines with two colons or more make groups, in order up to the room, with the numbers between commas as members |
| `UserLines.GroupLineIgnored` | kernel/src/sys/user.c:150-195 | a line with fewer than two colons, inserted anywhere, changes nothing |
| `UserDb.Utoa` | kernel/src/sys/user.c:13-28 | the decimal digits of a 32-bit number |
| `UserDb.StrTol` | kernel/src/lib/string.c:135-148 | the number its digits spell, modulo 2^64 |
| `UserDb.Put` | kernel/src/sys/user.c:254-264 | copies text to the buffer and stops at 4090 bytes |
| `UserDb.Database.Save` | kernel/src/sys/user.c:240-325 | the three files hold the printed tables, each cut at the limit |
| `UserDb.Database.Load` | kernel/src/sys/user.c:197-210 | the tables are what the lines of the files say, for any files; fails exactly when none of them is there and not empty |
| `UserDb.Database.LoadPasswd` | kernel/src/sys/user.c:67-113 | for any file: its lines with four colons or more are the users, in order up to 64, each with exactly its fields |
| `UserDb.Database.LoadShadow` | kernel/src/sys/user.c:115-148 | for any file: gives each hash to the first user of its name, the last line of a name counting |
| `UserDb.Database.LoadGroup` | kernel/src/sys/user.c:150-195 | for any file: its lines with two colons or more are the groups, in order up to 64, each with exactly its fields and members |
| `UserDb.SavedLoads` | kernel/src/sys/user.c:197-325 | loading after a save rebuilds the same users, hashes, groups and member lists if and only if the files fit their limits |
| `UserDb.FullHouse` | kernel/src/sys/user.c:240-325 | a table of 64 good users whose text is too long for the file and is not read back |

## Left out

- Vmm.Vmm.MapPage: a large page whose frame, or the page that its word points to when the walk goes two levels into it, is free, outside memory or itself a table; the walk then writes into the allocator's pages or the tree. Of the flag bits the low twelve are modelled, not the no-execute bit.
- Vmm.Vmm.GetPhysAddr: the pages that the walk reads lie in physical memory. The original reads any frame number through the direct map.
- LibcHeap.Heap.Realloc: a block that came from the system instead of the heap, whose header is not in the heap's words; and copying into a block that `malloc` was misled to serve, where the method stops and says so.
- LibcHeap.Heap.Calloc: clearing a block that `malloc` was misled to serve, where the method stops and says so.
- FatFs.FatFs.WritePayload: failing `kmalloc` and the sector-wise fallback without a cluster buffer.
- FatFormat.MakeBoot: the FAT32 information sector, the backup sector and the cleared tables that follow the boot sector.
- FatFormat.Mount: the test read of the root directory's first sector, which succeeds on a sound device.
- LongNames.Accumulator: checksums are carried but not compared, and short names are not modelled.
- FAT directories: creating and looking up entries across sectors, renaming, attributes.
- SchedulerSteps.RunKeeps: page-table roots, stacks, floating-point state, the idle counters and the count of blocked threads.
- SchedulerSteps.BoundedWait: a thread that is killed while it waits; the conclusion names the step that takes the thread away.
- Ext2.Ext2.WriteData: which blocks a write that runs out of them leaves in use; the old ones are cleared before new ones are secured. Where bitmaps, descriptors, the superblock and inodes lie on disk: they are fields here, and a descriptor past the first block cannot be read.
- Ext2.Ext2.AllocBlock: inode allocation, which repeats the pattern of block allocation.
- Ext2Dir.Remove: renaming between directories and path resolution, which combine it with the other operations.
- Assembler.Assembler.Compile: a line is read by functions on strings instead of writing terminators into a copy of it; error texts; running the code.
- Ramfs.RamFs.CreateFile: sums of file sizes are taken over unbounded integers; owners, modes and times are left out.
- UserDb.Database.Load: separators are not overwritten in a buffer; the parts of a line are strings. Adding and deleting accounts, and the password hash itself.
- The kernel's own heap, pipes, sockets, windows, devices, executable loading, GPT and MBR, ISO images, ext4: plumbing, foreign code or further instances of what is modelled.
