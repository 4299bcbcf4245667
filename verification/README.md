# A verified model of the kernel's resource managers

This project models, in Dafny, how the kernel keeps its memory, files, tasks and
connections in order, and proves what it relies on for all inputs and all runs:
page tables that mean one flat map, frames and heap blocks that belong to
nobody twice, files that hold what was written, a ready queue with a bound on
the wait in it, a byte stream without gaps.

**Physical and virtual memory.** `Pmm` is the frame allocator, a bitmap with a
rotating hint. `PageTable` is the four-level tree in shared physical memory and
what the hardware walk makes of it; `Vmm` keeps it in frames handed out by the
allocator; `PteCodec` ties the entries' fields to the bit operations on 64-bit
words. The result is that the tables refine a flat map from pages to frames and
permissions: a map call changes one page of it, although it creates tables,
splits 2 MiB pages and raises bits of shared ancestors on the way.
`AddressSpace` adds ownership: creating a space, mapping fresh frames and
destroying it restores the allocator, and the demand of the pages, counted
before the call, says exactly when a frame is lost instead; all the while the
space sees the kernel's half as the kernel does, and no kernel page changes.
`Uaccess` shows that the page-by-page user copies are byte-by-byte accesses of a
flat memory.
`UserImage`, `Elf` and `UserArgs` build on that: the loader produces the image
its program headers specify, and the argument builder lays out on the new stack
the very words the shell joined. `Ledger` keeps the books of a space over a run
of map calls, and `ProgramLife` closes them: loading a program, mapping its
stack and destroying its space succeeds, restores the allocator or loses a frame
exactly as the file and the spare frames before it decide, and while it lives
the program may read and write exactly the pages it should.

**Kernel heap.** `Heap` is the first-fit heap over one arena. A list of blocks
tiles the arena; the headers and links in memory represent it; live payloads
are aligned, disjoint and never touched by splitting or merging.

**FAT16.** `Fat16` is cluster chains in mirrored tables on a sector disk, for
every geometry that can be mounted. Reading and writing at any offset refine a
file of bytes, other files are left alone, the free entries before a write
decide whether it succeeds, and releasing a chain ends on every table, cyclic
ones included.

**Tasks.** `Lifecycle` states every atomic step of the scheduler and the task
list on values; `Scheduler` performs the same steps on the linked lists and is
proved to agree; `TaskRuns` proves what all runs keep: the shape of the ready
queue, the bound on waiting, the reaping discipline, and the way of an exit code
from the task that finishes to the parent that waits.

**Network.** `Tcp` is the client's receive machine, from the first SYN|ACK on,
under loss, repetition and reordering. `Checksum` is the Internet checksum.

**Algorithms of the user programs.** `Paths` relates the shell's normal form of
a path to the walk of the virtual file system. `Desktop` is the set of dirty
rectangles and the window order.

Locked or interrupt-disabled sections are single steps on one processor. The
disk and the network take every request. Memory that does not belong to a
structure is given by parameters (the initial content of physical memory, the
outcome of heap allocations that only the surrounding code needs).

## Where the code does not do what one would expect

* The scheduler loses the idle task. When it comes to the head of the ready
  queue while a user task can go on, it is marked running and then refused by
  `scheduler_add_task`. `TaskRuns.TickLosesIdle` says exactly when, and
  `TaskRuns.IdleLostHalts` that a lone user task that then exits stops the
  machine for ever.
* A map call that fails leaks the frame that was to be mapped. Over the life of
  a space this happens exactly when the spare frames lie strictly between what
  the first i pages need and what the first i + 1 need, for some i, or the next
  address is refused (`AddressSpace.Lifetime`, `ProgramLife.RunProgram`);
  `AddressSpace.OnePageLeaks` is an instance.
* A frame mapped over a page that is mapped already takes the old frame's place,
  and nobody gives that one back (`AddressSpace.KeptReplace`). `task_create_user`
  maps the stack without looking, so a program loses one frame for every stack
  page that one of its segments uses and the spare frames reach
  (`ProgramLife.RunProgram`, with an instance in `ProgramLife.StackOverSegment`).
* `vmm_unmap_page` inside a 2 MiB mapping removes all 512 pages, and only there
  more than one (`Vmm.Manager.UnmapPage`, with an instance in
  `Vmm.UnmapTakesNeighbours`).
* `kmalloc` rounds sizes above 2^64 - 8 to zero. It then hands out the first free
  block cut to nothing, and the heap stays in order exactly when that block was
  too small to be cut (`Heap.KernelHeap.Kmalloc`, `Heap.WrappedRequest`).
* `kcalloc` and `krealloc` pass such sizes on. `kcalloc` then zeroes more than the
  payload it got whenever there is one; `krealloc` copies more exactly when the
  payload it leaves is larger than the block handed out
  (`Heap.KernelHeap.Kcalloc`, `Heap.KernelHeap.Krealloc`).
* The search for a free cluster does not know where the table ends. With fewer
  than 256 sectors per table it goes on, when no entry is free, into the second
  table, the root directory and the files, and hands out the first zero word it
  meets (`Fat16.FoundInTable`). On the volume the kernel is shipped with that
  marks a word of the root directory and one of a file (`Fat16.ShippedOverruns`).
  A write comes to this point only when the free entries do not cover it, and
  always does so then when the root directory has a zero word in reach
  (`Fat16.Volume.Write`).
* `strncpy_from_user` refuses the empty string
  (`Uaccess.UserAccess.StrncpyFromUser`).
* A page shared by a writable and a later non-writable segment ends without
  WRITE: the last segment on a page decides (`Elf.LastDecides`, with an instance
  in `Elf.WriteLost`).
* A path's normal form can lead somewhere although the path itself does not
  (`Paths.NormalLeadsFurther`). That happens exactly when a ".." steps back from
  a prefix whose normal form leads nowhere (`Paths.LeadsIffNormal`). A file system
  mounted at a path is therefore always found at the path's normal form, and at
  the path itself under that condition on the new tree (`Paths.MountIsReached`).

## Model

| member | source | states |
|---|---|---|
| Pmm.FrameAllocator.constructor | src/kernel/mm/pmm.c:92-138 | the pages in use at the start are exactly those the low memory and the reserved byte ranges touch |
| Pmm.FrameAllocator.MarkUsed | src/kernel/mm/pmm.c:63-76 | marks every managed page with a byte in the range, counts each once |
| Pmm.FrameAllocator.AllocPages | src/kernel/mm/pmm.c:144-169 | the first run of n clear managed pages in rotating order is now used, the nearest one from the hint upwards, and the count follows; fails exactly if no such run exists anywhere |
| Pmm.RotationCovers | src/kernel/mm/pmm.c:148-150 | starting the scan at the hint still visits every page |
| Pmm.FirstRunIsNearest | src/kernel/mm/pmm.c:148-168 | the search comes to the run it takes no later than to any other, going upwards from the hint and then from page 0 |
| Pmm.FirstRunFinds | src/kernel/mm/pmm.c:148-168 | the rotating search comes back empty exactly when no run of that length is clear |
| Pmm.FrameAllocator.FreePages | src/kernel/mm/pmm.c:175-214 | all or nothing: the run is released exactly when it is aligned, in range and wholly used |
| Pmm.FrameAllocator.AllocPage | src/kernel/mm/pmm.c:140-142 | the first spare frame in rotating order; fails exactly when no frame is spare |
| Pmm.FrameAllocator.FreePage | src/kernel/mm/pmm.c:171-173 | gives back exactly that frame, or changes nothing |
| PteCodec.RoundTrip | src/kernel/mm/vmm.c:45-77 | an entry's fields survive encoding in a 64-bit word |
| PteCodec.WordRoundTrip | src/kernel/mm/vmm.c:45-77 | every 64-bit word is the encoding of its fields |
| PteCodec.OrOperations | src/kernel/mm/vmm.c:51-60 | the OR of PRESENT, WRITE or USER sets that field and no other |
| PteCodec.ClearBit7 | src/kernel/mm/vmm.c:201-206 | masking bit 7 clears the large-page field and no other |
| PteCodec.AddressMasks | src/kernel/mm/vmm.c:292-317 | the 4 KiB and 2 MiB address masks select the frame |
| PageTable.WalkInTree | src/kernel/mm/vmm.c:292-317 | every walk in a well-formed tree visits exactly the tables the tree names |
| PageTable.RaiseKeeps | src/kernel/mm/vmm.c:51-60 | raising USER and WRITE on a table pointer changes no translation and refuses no access |
| PageTable.HangKeeps | src/kernel/mm/vmm.c:62-76 | a new empty table keeps the tree well-formed and every translation as it was |
| PageTable.SplitKeeps | src/kernel/mm/vmm.c:194-209 | the 512 entries that replace a 2 MiB entry translate every page alike |
| PageTable.LeafWrite | src/kernel/mm/vmm.c:242-247 | writing a level-1 entry changes the translation of its page only |
| PageTable.BigClear | src/kernel/mm/vmm.c:250-286 | clearing a 2 MiB entry removes exactly its 512 pages |
| PageTable.KeepsCovered | src/kernel/mm/vmm.c:51-60 | while leaf bits also stand in all ancestors, raising ancestors changes no permission answer |
| PageTable.StoreCovered | src/kernel/mm/vmm.c:400-441 | a new leaf whose ancestors carry its bits keeps that invariant and every other page's answer |
| PageTable.Isolated | src/kernel/mm/vmm.c:400-441 | changes outside a space's tables leave its tree, translations and permissions alone |
| Vmm.PageOfInjective | src/kernel/mm/vmm.c:30-32 | canonical addresses with the same four indices lie on the same page |
| Vmm.SubPage | src/kernel/mm/vmm.c:292-317 | offsets inside 1 GiB and 2 MiB pages are the lower indices and the page offset |
| Vmm.LeafDecides | src/kernel/mm/uaccess.c:65-98 | while leaf bits stand in all ancestors, the permission check answers what the leaf says, and no for a page without one |
| Vmm.Manager.GetOrCreateTable | src/kernel/mm/vmm.c:45-77 | returns the child table, raised or new and zeroed, with every translation kept; fails exactly when the table is missing and no frame is spare, and then changes nothing |
| Vmm.Manager.SplitHugePage | src/kernel/mm/vmm.c:194-209 | no translation and no permission changes; fails exactly when there is a 2 MiB page and no spare frame |
| Vmm.Manager.ReachTable | src/kernel/mm/vmm.c:225-240 | the level-1 table of a page comes into being exactly when the spare frames cover the tables its path lacks; its ancestors carry the flags, no translation changes |
| Vmm.Manager.MapPage | src/kernel/mm/vmm.c:211-248 | succeeds exactly when the address is canonical and the spare frames cover the missing tables; then the page translates to the new frame and bits, and those bits decide what a program may do there; every other page keeps its translation and permissions; a failed call changes no translation |
| Vmm.Manager.MapUserPage | src/kernel/mm/vmm.c:400-441 | the same for user pages, with USER added |
| Vmm.Manager.GetPhysical | src/kernel/mm/vmm.c:292-317 | the frame and offset of the page's translation, 0 when there is none |
| Vmm.Manager.UnmapPage | src/kernel/mm/vmm.c:250-286 | removes the page, or all pages of its 2 MiB mapping, and no other; reports failure exactly when there was neither a mapping nor a level-1 table |
| Vmm.UnmapTakesNeighbours | src/kernel/mm/vmm.c:250-286 | a tree in which unmapping one page takes its 511 neighbours along |
| Vmm.Manager.ChangeFlags | src/kernel/mm/vmm.c:360-398 | keeps the frame, replaces the bits, leaves every other page's translation and permissions; succeeds exactly on a mapped page, unless a 2 MiB page must be split without a spare frame |
| AddressSpace.Create | src/kernel/mm/vmm.c:97-136 | a space without user pages in which every page of slot 0 and of the upper half translates and is granted as in the kernel's own space, whose pages stay as they are; accounts for one new frame; succeeds exactly when directory structure and root frame can be had |
| AddressSpace.KernelSeen | src/kernel/mm/vmm.c:131-132 | a space that shares the top-level entries outside the user half means the same as the kernel for every page there |
| AddressSpace.SameKernel | src/kernel/mm/vmm.c:400-441 | whoever leaves the kernel's tables alone, on all levels, leaves every kernel page's translation and permissions alone |
| AddressSpace.KernelStays | src/kernel/mm/vmm.c:400-441 | a map call in a space does leave them alone, and the shared entries too |
| AddressSpace.Destroy | src/kernel/mm/vmm.c:138-187 | frees every owned data and table frame once and no frame of the kernel |
| AddressSpace.OwnedEntry | src/kernel/mm/vmm.c:149-182 | each present entry the walk meets names the owned frame of its place |
| AddressSpace.OwnsAfterMap | src/kernel/mm/vmm.c:400-441 | a map call keeps ownership exact, with the new tables and the page's frame |
| AddressSpace.OwnsAfterTables | src/kernel/mm/vmm.c:360-441 | so does a call that moves no page: a failed one, one that maps a page to its own frame, one that changes bits |
| AddressSpace.KeptReplace | src/kernel/mm/vmm.c:400-441 | a frame mapped over another takes its place, and the other stays in use outside the space |
| AddressSpace.MapOwned | src/kernel/mm/vmm.c:400-441 | mapping a frame moves it into the space's account, in exchange for the one the page had, exactly when the address is canonical and the spare frames cover the missing tables; no other page changes, and none of the kernel's |
| AddressSpace.Populate | src/kernel/task/task.c:420-435 | fresh frames at distinct pages keep the account; all calls succeed exactly when the spare frames before cover the pages' demand, and a frame is lost exactly when they run out between a page's frame and its tables; the frames gone are that one and one for each page reached that had one before; the pages get the asked-for WRITE bit, and no other page and none of the kernel's changes |
| AddressSpace.Lifetime | src/kernel/task/task.c:401-435 | create, populate, destroy: bitmap and used count end exactly as they began, except when the spare frames before lie strictly between the demands of i and i + 1 pages or the next address is refused; then one frame stays in use; no kernel page ever changes |
| AddressSpace.OnePageLeaks | src/kernel/task/task.c:422-434 | one page in a new space: a frame is lost exactly with one, two or three spare frames |
| AddressSpace.ConservedMap | src/kernel/loader/elf.c:147-160 | allocating and mapping a frame keeps whatever accounts there were, or loses exactly that frame |
| AddressSpace.ConservedSame | src/kernel/loader/elf.c:141-188 | mapping a page again to its frame and changing its bits keep them |
| Ledger.MappedIsFree | src/kernel/mm/vmm.c:400-441 | a map call for a mapped 4 KiB page takes no frame |
| Ledger.BooksNext | src/kernel/loader/elf.c:140-164 | one more page keeps the books of pages listed, frames paid and accounts, or breaks them at that page |
| Uaccess.ValidateUserRange | src/kernel/mm/uaccess.c:41-48 | accepts exactly the ranges inside the user half |
| Uaccess.SpaceOfShows | src/kernel/mm/uaccess.c:65-98 | every page table tree has a flat view with one permission and one frame per page |
| Uaccess.UserAccess.CopyFromUser | src/kernel/mm/uaccess.c:114-165 | the exact answer for every argument: success exactly on readable ranges, and then the bytes of the flat memory |
| Uaccess.UserAccess.CopyToUser | src/kernel/mm/uaccess.c:167-223 | the exact answer for every argument; the chunk loop is a byte-by-byte write that stops at the first chunk it cannot reach |
| Uaccess.UserAccess.StrnlenUser | src/kernel/mm/uaccess.c:225-277 | the result is n exactly when the first n bytes can be read and are not 0 and either the next one can be read and is 0 or n is the limit; it is -EFAULT exactly when a byte that cannot be read comes before any 0 and the limit |
| Uaccess.UserAccess.StrncpyFromUser | src/kernel/mm/uaccess.c:279-290 | copies those n bytes, none of them 0, and a terminator, and nothing else; the same error, or -EINVAL for the empty string |
| Uaccess.UserAccess.ClearUser | src/kernel/mm/uaccess.c:336-393 | the eight-byte fast path writes the same as zeroing byte by byte, up to the first page it cannot reach |
| Uaccess.QwordIsBytes | src/kernel/mm/uaccess.c:336-393 | one eight-byte store of zero is eight byte stores |
| Uaccess.UserAccess.VerifyUser | src/kernel/mm/uaccess.c:292-334 | accepts exactly when every page of the range grants the access |
| Uaccess.VerifyAgreesWithCopy | src/kernel/mm/uaccess.c:292-334 | when the accepted pages of the range have nonzero frames, the verify answer is that of the copy and says that each byte may be accessed |
| Uaccess.LastWriteWins | src/kernel/mm/uaccess.c:167-223 | reading back returns the last byte written to that physical place |
| Uaccess.RoundTrip | src/kernel/mm/uaccess.c:114-223 | a copy out and in returns the bytes exactly when aliased bytes agree |
| Uaccess.DistinctRoundTrip | src/kernel/mm/uaccess.c:114-223 | on distinct frames it always does |
| Uaccess.OthersUntouched | src/kernel/mm/uaccess.c:167-223 | no physical byte outside the range changes |
| UserImage.UserMemory.WriteBytes | src/kernel/loader/elf.c:42-64 | succeeds exactly on mapped ranges and is a byte-by-byte write through the page map |
| UserImage.UserMemory.ZeroBytes | src/kernel/loader/elf.c:66-88 | the same for zeros |
| UserImage.WriteHolding | src/kernel/loader/elf.c:42-64 | a write through the page tables patches the image and nothing else |
| UserImage.NewPageHolding | src/kernel/loader/elf.c:147-156 | a zeroed frame nobody used joins the image as a page of zeros |
| UserImage.PutBytes | src/kernel/task/task.c:130-154 | a write to user memory succeeds exactly when its pages are mapped and then patches the image by exactly these bytes |
| Elf.MapSegment | src/kernel/loader/elf.c:140-164 | every page of the segment is mapped writable, old bytes stay, new pages are zero, and only the new ones are paid for; otherwise the books break at one of them |
| Elf.FillSegment | src/kernel/loader/elf.c:166-178 | the two copies turn the image of the earlier segments into that with one more |
| Elf.TightenSegment | src/kernel/loader/elf.c:180-189 | never fails; the segment's pages lose WRITE and nothing else |
| Elf.LoadSegment | src/kernel/loader/elf.c:115-190 | one program header: image, mapped pages, WRITE bits and books follow its specification; fails exactly on a bad header or when a page cannot be paid for |
| Elf.ElfLoad | src/kernel/loader/elf.c:90-197 | returns the entry point with the specified image exactly when header and segments are good and the spare frames cover the pages; a frame is lost exactly when they run out between a page's frame and its tables; the accounts are kept |
| Elf.HeadersInside | src/kernel/loader/elf.c:104-108 | every program header of an accepted file lies inside the file |
| Elf.LoadedByte | src/kernel/loader/elf.c:166-178 | through its page tables the program finds the file's byte at each address a segment covers with file content, and 0 in the segment's tail |
| Elf.LoadedRest | src/kernel/loader/elf.c:140-164 | all other bytes of mapped pages are zero, and no other page is mapped |
| Elf.LoadedReadOnly | src/kernel/loader/elf.c:180-189 | pages only non-writable segments use end without WRITE |
| Elf.DisjointImage | src/kernel/loader/elf.c:115-190 | segments over different bytes each keep their own |
| Elf.LastDecides | src/kernel/loader/elf.c:180-189 | the last segment on a page decides whether it ends writable |
| Elf.WriteLost | src/kernel/loader/elf.c:180-189 | two segments on one page, the first of which loses its WRITE bit |
| Elf.EmptyHasNoBig | src/kernel/mm/vmm.c:97-136 | a user space in which nothing is mapped holds no 2 MiB page, so the loader never splits one |
| ProgramLife.ThenLeaks | src/kernel/task/task.c:409-435 | after pages that went through, what is left decides about the stack's pages |
| ProgramLife.CreateProgram | src/kernel/task/task.c:409-435 | loader and stack loop succeed exactly when the file is good and the spare frames cover segments and stack; then the program may read exactly the pages of its segments and stack, and write the stack and the pages whose last segment is writable; the accounts are kept but for the frames gone, whose number is said from the state before, and no kernel page changes |
| ProgramLife.RunProgram | src/kernel/task/task.c:401-435 | created, loaded and destroyed, a program leaves the kernel's pages, bitmap and used count as they were but for the frames gone: one if the spare frames run out between a page's frame and its tables, and one for each stack page reached that a segment uses |
| ProgramLife.StackOverSegment | src/kernel/task/task.c:420-435 | a one-page program on a one-page stack: a frame is gone exactly when there are frames for both |
| UserArgs.BuildExecCmdline | src/userland/programs/shell.c:310-334 | the joined words exactly when path and words fit the buffer |
| UserArgs.WordsOfJoined | src/kernel/task/task.c:182-192 | splitting the joined line gives back its words |
| UserArgs.Tokenize | src/kernel/task/task.c:171-201 | the buffer holds, at the noted places, the first 32 words or the fallback name |
| UserArgs.ArgsAlwaysFit | src/kernel/task/task.c:203-226 | the arguments of any command line fit the stack |
| UserArgs.BuildUserArgs | src/kernel/task/task.c:160-241 | succeeds exactly when there is room and the pages written are mapped; then the stack holds strings and table at the specified places and the rest is untouched |
| UserArgs.ProgramTable | src/kernel/task/task.c:218-240 | the table stands at the highest multiple of 16 that leaves room below the strings, inside the stack, and holds argc, the pointers and NULL |
| UserArgs.ProgramString | src/kernel/task/task.c:208-216 | behind each pointer stands its word, terminated, directly before the next |
| UserArgs.LeRoundTrip | src/kernel/task/task.c:156-158 | a number's eight bytes give the number back |
| UserArgs.ArgumentsRoundTrip | src/kernel/task/task.c:160-241 | for words that fit buffer and table, the program's arguments are the shell's words in order |
| Heap.BlockCount | src/kernel/mm/heap.c:101-106 | at most 18724 blocks tile the arena, so the step limit cannot be reached |
| Heap.RoundRequestFits | src/kernel/mm/heap.c:91-94 | rounding gives enough bytes exactly for sizes up to 2^64 - 8, and then 16 or less than 8 more than asked for |
| Heap.WrappedRequest | src/kernel/mm/heap.c:93-141 | a request that wraps gets less than it asked for, and the tiling is lost exactly when the block is cut |
| Heap.MergeRep | src/kernel/mm/heap.c:35-50 | the header writes of a merge represent the list with the two blocks joined |
| Heap.SplitRep | src/kernel/mm/heap.c:123-136 | the header writes of a split represent the divided list |
| Heap.TakenValid | src/kernel/mm/heap.c:118-141 | taking a block keeps the tiling and leaves no two free neighbours |
| Heap.FreedValid | src/kernel/mm/heap.c:155-185 | so does freeing one |
| Heap.KernelHeap.Kmalloc | src/kernel/mm/heap.c:91-153 | takes the first block that fits the rounded request; NULL only if none does; the heap stays in order exactly when the rounding did not wrap or no block was cut |
| Heap.KernelHeap.Kfree | src/kernel/mm/heap.c:155-185 | frees and merges the live block, or changes nothing |
| Heap.LiveDisjoint | src/kernel/mm/heap.c:91-153 | live payloads are 8-aligned, in the arena and disjoint, headers included |
| Heap.LiveTaken | src/kernel/mm/heap.c:122-141 | kmalloc adds one large enough payload that was not live and keeps the others |
| Heap.LiveFreed | src/kernel/mm/heap.c:155-185 | kfree removes exactly the one payload |
| Heap.HeadersMissPayloads | src/kernel/mm/heap.c:35-50 | header writes never touch a live payload |
| Heap.KernelHeap.Kcalloc | src/kernel/mm/heap.c:187-204 | NULL on overflow, otherwise a zeroed payload, while other payloads keep their bytes; the zeroing leaves the payload exactly when the total is above 2^64 - 8 and a block is free |
| Heap.ProductOverflow | src/kernel/mm/heap.c:190-194 | the division check detects exactly the products that wrap |
| Heap.HandedSize | src/kernel/mm/heap.c:93-141 | the block handed out is as large as asked for exactly up to 2^64 - 8, and beyond that it is empty exactly when it was cut |
| Heap.KernelHeap.Krealloc | src/kernel/mm/heap.c:206-231 | the payload stays or moves with its bytes, on failure nothing changes; the copy leaves the new payload exactly when the size is above 2^64 - 8 and the block handed out is smaller than the old payload |
| Fat16.MountLayout | src/kernel/fs/fat16.c:541-563 | every mounted volume has a table; reserved sectors, tables, root directory and data follow each other, and the directory ends in the last sector before the data: all the results below need |
| Fat16.EntryOnDisk | src/kernel/fs/fat16.c:79-87 | the entries of a table follow one another on the disk, two bytes each, the low one first |
| Fat16.ClustersFollow | src/kernel/fs/fat16.c:108-111 | cluster 2 begins the data area and each cluster begins where the one before ends |
| Fat16.Volume.ReadEntry | src/kernel/fs/fat16.c:79-87 | the entry of the first table, 0 below cluster 2, and the word that stands there for numbers beyond the table |
| Fat16.Volume.WriteEntry | src/kernel/fs/fat16.c:89-101 | one word per copy is written; for a cluster of the table every copy gets the entry and keeps its others, identical copies stay so, and nothing else changes |
| Fat16.WrittenEntry | src/kernel/fs/fat16.c:93-99 | patching one word of one sector for each copy changes exactly that entry of every copy |
| Fat16.Volume.ReleaseChain | src/kernel/fs/fat16.c:118-138 | succeeds on every volume; when no link visited leads out of the table, exactly the entries visited in the first copy are freed, in every copy |
| Fat16.ClusterCount | src/kernel/fs/fat16.c:122-135 | the guard is larger than any number of distinct clusters |
| Fat16.VisitedClosed | src/kernel/fs/fat16.c:118-138 | every cluster reachable from the start is visited |
| Fat16.VisitedLeast | src/kernel/fs/fat16.c:118-138 | and no other is |
| Fat16.ReleasedChain | src/kernel/fs/fat16.c:118-138 | releasing a well-formed chain frees exactly its clusters |
| Fat16.OtherAfterRelease | src/kernel/fs/fat16.c:118-138 | and leaves every disjoint chain whole |
| Fat16.Volume.AllocateCluster | src/kernel/fs/fat16.c:103-116 | the first cluster number below 0xFFF0 whose word is zero, marked as an end in every copy with its sectors zeroed; 0, and nothing changed, exactly if there is none |
| Fat16.FoundInTable | src/kernel/fs/fat16.c:103-116 | the cluster found belongs to the table exactly when some entry below 0xFFF0 is zero, and is then the first such; a table of full length is never left |
| Fat16.TakenInTable | src/kernel/fs/fat16.c:103-116 | such a cluster costs one entry in each copy and becomes zero; no other entry, cluster or directory sector changes |
| Fat16.RootZeroStays | src/kernel/fs/fat16.c:103-116 | a zero word of the root directory in reach of the search stays one through every write to table and files, so the search never comes back empty |
| Fat16.ShippedMounts | Makefile:31-33 | 32 MiB with 64 sectors per table can be mounted and has 16384 entries |
| Fat16.ShippedOverruns | src/kernel/fs/fat16.c:103-116 | on that volume with both tables taken and a root directory that begins with a zero word, cluster 32768 is handed out, and its marks land in the root directory and in cluster 10 |
| Fat16.FullIsTaken | src/kernel/fs/fat16.c:103-116 | there is such a volume |
| Fat16.FreeNotInChain | src/kernel/fs/fat16.c:103-116 | a free cluster is in no live chain |
| Fat16.OtherChain | src/kernel/fs/fat16.c:253-328 | growing one chain leaves every disjoint chain whole |
| Fat16.AppendChain | src/kernel/fs/fat16.c:276-281 | a free cluster linked at the end makes a longer chain |
| Fat16.OtherCluster | src/kernel/fs/fat16.c:288-312 | writing one cluster changes no byte of another |
| Fat16.Volume.NextCluster | src/kernel/fs/fat16.c:274-283 | the next cluster of the chain, old or newly appended and zero; 0 exactly at the end of the chain when no word is zero; a number beyond the table only at the end of the chain, and then the first zero word |
| Fat16.FreeLeft | src/kernel/fs/fat16.c:253-328 | the entries a file gains are the ones the table has fewer free |
| Fat16.EnoughDecides | src/kernel/fs/fat16.c:266-314 | a write that stayed in the table succeeded exactly when the clusters up to its end are no more than the chain has and were free before |
| Fat16.OverrunLacks | src/kernel/fs/fat16.c:266-314 | a write that left the table lacked free entries, and the table ends below 0xFFF0 |
| Fat16.Volume.WriteCluster | src/kernel/fs/fat16.c:288-312 | the sectors' read, patch and write lay the data over the cluster's bytes |
| Fat16.Volume.Write | src/kernel/fs/fat16.c:253-328 | when chain and free entries cover the clusters up to the data's end it succeeds, and the file's bytes are the old ones with the data laid over them, skipped new clusters zero; chain, mirrors and size follow; with too few free entries it fails with the volume in order, or the search left the table, which it surely does when the root directory has a zero word in reach and never when the table has full length |
| Fat16.FileAfterWrite | src/kernel/fs/fat16.c:253-328 | position by position: the data inside its range, the old byte in an old cluster beside it, 0 in a new one |
| Fat16.BesideKept | src/kernel/fs/fat16.c:178-328 | what a read beside the written range shows is what it showed before |
| Fat16.Volume.Read | src/kernel/fs/fat16.c:178-251 | on a file with a well-formed chain succeeds exactly when the range lies in size and chain, and returns the file's bytes there |
| Fat16.WriteThenRead | src/kernel/fs/fat16.c:178-328 | whenever the free entries cover a write it succeeds, and reading the range returns the data |
| Fat16.OtherFileKept | src/kernel/fs/fat16.c:253-328 | a write keeps every other file's chain and bytes |
| Lifecycle.Place | src/kernel/task/scheduler.c:43-48 | behind every task at least as urgent, before the first less urgent one |
| Lifecycle.FirstExited | src/kernel/task/task.c:529-545 | a terminated child that was asked for, or there is none |
| Scheduler.LinkIn | src/kernel/task/scheduler.c:50-57 | two link writes put a record behind the first k of the list |
| Scheduler.LinkOut | src/kernel/task/scheduler.c:69-78 | one link write takes a record out |
| Scheduler.Kernel.AddTask | src/kernel/task/scheduler.c:26-60 | the linked list and its tail become those of the insertion by priority, or nothing changes for a running task |
| Scheduler.Kernel.RemoveTask | src/kernel/task/scheduler.c:62-81 | the list without the task, tail included |
| Scheduler.Kernel.ScheduleFromIrq | src/kernel/task/scheduler.c:156-210 | performs exactly the tick on values |
| Scheduler.Kernel.CreateTask | src/kernel/task/task.c:306-370 | enters the new record and queues it |
| Scheduler.Kernel.DetachChildren | src/kernel/task/task.c:76-84 | exactly the children lose parent and reap block |
| Scheduler.Kernel.ExitTask | src/kernel/task/task.c:482-494 | performs exactly the exit on values |
| Scheduler.Kernel.WaitLook | src/kernel/task/task.c:508-566 | performs exactly one look of the wait on values |
| Scheduler.Kernel.ReapTerminated | src/kernel/task/task.c:602-631 | the loop removes all that can go, in whatever order, and ends |
| Scheduler.Kernel.CancelTask | src/kernel/task/syscall.c:317-325 | the given-up task leaves queue and list |
| TaskRuns.StepOk | src/kernel/task/scheduler.c:156-210 | every step keeps every invariant of queue, list and tasks |
| TaskRuns.Reachable | src/kernel/task/scheduler.c:26-81 | in every state after boot the queue is sorted, without repetition and exactly the READY tasks; a blocked task has a live listed parent |
| TaskRuns.RankInsert | src/kernel/task/scheduler.c:43-57 | a task that comes in takes a place before exactly the less urgent ones |
| TaskRuns.KernelFirst | src/kernel/task/scheduler.c:43-57 | in every state after boot kernel tasks stand before user tasks, and idle comes last |
| TaskRuns.TickGives | src/kernel/task/scheduler.c:156-210 | a tick that may not interrupt changes nothing; any other runs the head of the queue and queues the interrupted task again, except for idle over a live user task |
| TaskRuns.MarkLetsGo | src/kernel/task/scheduler.c:165-168 | in kernel mode the timer takes the processor from a task exactly while its preemption mark is set |
| TaskRuns.WaitIsBounded | src/kernel/task/scheduler.c:156-210 | a waiting task runs before more switches than there are tasks before it, now or by later more urgent arrivals |
| TaskRuns.TickLosesIdle | src/kernel/task/scheduler.c:178-189 | a tick keeps every task current or queued unless it pops idle while a user task can go on |
| TaskRuns.IdleLostForGood | src/kernel/task/scheduler.c:26-29 | once lost, idle never runs again |
| TaskRuns.FinishHalts | src/kernel/task/scheduler.c:156-159 | after an exit nothing ever changes exactly if the queue is empty |
| TaskRuns.IdleLostHalts | src/kernel/task/scheduler.c:178-189 | a lone user task interrupted once stops the kernel for ever when it exits |
| TaskRuns.AloneAfterBoot | src/kernel/task/task.c:372-480 | that state is one tick after the first spawn |
| TaskRuns.HandedOnce | src/kernel/task/task.c:508-576 | in any run no exit code is handed out twice |
| TaskRuns.Finished | src/kernel/task/task.c:482-494 | a task that finishes is out of the queue and listed as terminated with its code, its parent alive |
| TaskRuns.ExitCodeArrives | src/kernel/task/task.c:482-566 | from exit to wait: in any later run whoever is handed the task gets the code it exited with; while the parent lives that code was handed out, or the task is listed and the parent, once it waits for it, is handed that code |
| TaskRuns.WaitAnswers | src/kernel/task/task.c:508-566 | a look is refused exactly without a child that is asked for, is repeated exactly while there are some and none has finished, and else hands out a finished one with its code |
| TaskRuns.WaitTakesNewest | src/kernel/task/task.c:529-545 | in every state after boot the child taken is the newest finished one |
| TaskRuns.Spawned | src/kernel/task/task.c:306-370 | a new task is its creator's child, READY, queued and first in the list |
| TaskRuns.CancelOk | src/kernel/task/syscall.c:317-325 | the given-up task and the tasks that can be reaped leave, all others stay as they are |
| TaskRuns.HandedCode | src/kernel/task/task.c:547-561 | whoever waits for a finished task gets the code it finished with |
| TaskRuns.ExitCodeKept | src/kernel/task/task.c:602-631 | a finished task with a living parent is collected or still listed with its code |
| TaskRuns.ReapTakes | src/kernel/task/task.c:602-631 | reaping takes exactly the finished, unblocked, not current tasks; none is queued or a parent |
| Tcp.Client.SendSegment | src/kernel/net/net_tcp.c:43-63 | sends with the current numbers and advances by the segment's sequence space |
| Tcp.Client.HandleSegment | src/kernel/net/net_tcp.c:112-179 | performs exactly the receiver's step and sends an ACK of the new number exactly when the step asks for one |
| Tcp.Client.AcceptPayload | src/kernel/net/net_tcp.c:149-166 | the buffer grows by the payload cut at its capacity |
| Tcp.Client.Abort | src/kernel/net/net_tcp.c:65-81 | inactive, with at most one reset |
| Tcp.ResetEndsIt | src/kernel/net/net_tcp.c:83-111 | every segment but a reset is answered by a reset, which is never answered; it stands where the peer expects the next segment or acknowledges exactly the refused one |
| Tcp.SequenceMeansOffset | src/kernel/net/net_tcp.c:142-147 | sequence numbers of one stream do not wrap onto each other |
| Tcp.Established | src/kernel/net/net_tcp.c:132-138 | in any run the connection is established exactly by a SYN|ACK without RST that acknowledges all sent so far and comes before an abort |
| Tcp.Conversation | src/kernel/net/net_tcp.c:112-176 | from the first SYN|ACK through the pieces in order: established, finished, the whole stream accepted; the SYN|ACK and each piece with payload or FIN are acknowledged once, with all that was taken by then |
| Tcp.EachAnswered | src/kernel/net/net_tcp.c:142-176 | of the peer's later segments, in any order and repetition, exactly those with payload, FIN or SYN are answered, each once |
| Tcp.ResetWhen | src/kernel/net/net_tcp.c:126-130 | in any run the connection is marked reset, and finished, exactly by a reset before an abort |
| Tcp.PieceTaken | src/kernel/net/net_tcp.c:142-172 | a piece of the stream is taken whole exactly when it starts where the receiver stands |
| Tcp.StreamSafety | src/kernel/net/net_tcp.c:112-179 | under loss, repetition and reordering the buffer is the accepted prefix, truncation is reported exactly, and finishing without reset means the whole stream |
| Tcp.AcksOnlyTaken | src/kernel/net/net_tcp.c:132-176 | every acknowledgement number the client sends once connected, in replies, its own segments and its reset, names only sequence space taken in order, and they never go back |
| Tcp.Retransmission | src/kernel/net/net_tcp.c:142-172 | sending the pieces again in order completes the stream exactly when the receiver stands at one of their boundaries; otherwise nothing changes |
| Checksum.AddBytes | src/kernel/net/net_utils.c:344-356 | the exact sum of the words; 32 bits do not overflow for the lengths in use |
| Checksum.Fold | src/kernel/net/net_utils.c:358-363 | folding ends in the sum's representative modulo 65535 that is 0 only for the sum 0 |
| Checksum.Finalize | src/kernel/net/net_utils.c:358-363 | the complement of that representative |
| Checksum.Ipv4Checksum | src/kernel/net/net_utils.c:365-367 | over the header alone |
| Checksum.PseudoHeaderIsTotal | src/kernel/net/net_utils.c:369-398 | what the code adds up is the word sum of both addresses, a zero, the protocol and the length in network order |
| Checksum.Padded | src/kernel/net/net_utils.c:352-354 | a last odd byte counts as if a zero byte followed |
| Checksum.UdpChecksum | src/kernel/net/net_utils.c:369-383 | the checksum of the twelve bytes of the pseudo header and the packet together, never zero |
| Checksum.TcpChecksum | src/kernel/net/net_utils.c:385-398 | the checksum of the twelve bytes of the pseudo header and the packet together |
| Checksum.ReceiversAccept | src/kernel/net/net_tcp.c:499-502 | the receive checks accept exactly the sums that are 0 modulo 65535 |
| Checksum.CheckMeaning | src/kernel/net/net_rx.c:20-22 | the IPv4 check accepts exactly the nonzero multiples of 65535 |
| Checksum.InsertedPasses | src/kernel/net/net_utils.c:365-398 | inserting the computed checksum, or 0xFFFF for zero, always passes |
| Checksum.OneWordDetected | src/kernel/net/net_utils.c:344-363 | one changed word is noticed unless it swaps 0x0000 and 0xFFFF |
| Paths.NormalizePath | src/userland/programs/shell.c:69-135 | the path to which the segments of the input lead from the current directory, or from the root for an absolute input, written out; -1 exactly when it does not fit |
| Paths.NormalizesIffShort | src/userland/programs/shell.c:72-84 | with the shell's buffers it succeeds exactly when current directory, the slash where one is needed, and input together stay below 256 |
| Paths.CombinedSegments | src/userland/programs/shell.c:72-84 | the joined string has the segments of the current directory followed by those of a relative input |
| Paths.TargetIsReached | src/userland/programs/shell.c:69-135 | for a relative input the normalised path leads to the node that walking the input from the current directory reaches; that walk succeeds exactly when the path leads somewhere and every ".." on the way steps back from a node |
| Paths.NormalIsCanonical | src/userland/programs/shell.c:86-128 | no empty, "." or ".." segment, no trailing slash but the root's |
| Paths.NormalIdempotent | src/userland/programs/shell.c:86-128 | the normal form of a normal form is itself |
| Paths.SegmentsOfRender | src/userland/programs/shell.c:118-127 | reading a written path back gives its segments |
| Paths.Vfs.FindChild | src/kernel/fs/vfs.c:174-183 | the first child of that name, exactly or but for case |
| Paths.FindIsFirst | src/kernel/fs/vfs.c:26-36 | the child found has the name and no earlier child has; none is found only when no child has it |
| Paths.MatchesLetters | src/kernel/fs/vfs.c:9-24 | names match without case exactly when they do letter by letter, the 26 pairs of letters counting as equal |
| Paths.LookupMeans | src/kernel/fs/vfs.c:217-223 | an exact match is preferred, and something is found exactly when a child matches but for case |
| Paths.Vfs.ResolvePath | src/kernel/fs/vfs.c:185-228 | the node the segment-by-segment walk leads to |
| Paths.NormalLeadsThere | src/kernel/fs/vfs.c:206-224 | whenever an absolute path leads somewhere, its normal form leads to the same node |
| Paths.LeadsIffNormal | src/kernel/fs/vfs.c:206-224 | an absolute path leads somewhere exactly when its normal form does and every ".." steps back from a prefix whose normal form leads somewhere |
| Paths.LeadsWithoutBack | src/kernel/fs/vfs.c:206-224 | without ".." path and normal form are the same to the walk |
| Paths.NormalLeadsFurther | src/kernel/fs/vfs.c:217-223 | an input for which the converse fails |
| Paths.Vfs.MountOn | src/kernel/fs/vfs.c:152-159 | the file system's children move under the mount point |
| Paths.Vfs.SplitMount | src/kernel/fs/vfs.c:77-95 | parts the path into stem and last name, without the slashes behind it; refuses exactly the paths without a segment |
| Paths.SplitSegments | src/kernel/fs/vfs.c:77-115 | the name is the last segment, and the stem has the segments before it |
| Paths.Vfs.MountAt | src/kernel/fs/vfs.c:60-172 | succeeds exactly for "/" or an absolute path with a proper last name, a stem that fits and a parent directory found by the walk that can take the mount; then exactly that mount happens, otherwise nothing changes |
| Paths.MountIsReached | src/kernel/fs/vfs.c:117-159 | in the new tree the normal form of the mount path leads to the mount point, which has the file system's children; the path itself does so exactly when each ".." steps back from what the new tree still has |
| Paths.Vfs.MountUnder | src/kernel/fs/vfs.c:121-159 | mounts on the child of that name or on a new directory; refuses files, and new directories without memory, and then changes nothing |
| Paths.CreatedLinked | src/kernel/fs/vfs.c:132-144 | a new mount point keeps parent links consistent |
| Paths.MountedLinked | src/kernel/fs/vfs.c:152-159 | mounting keeps parent links consistent below the root |
| Desktop.RectIntersects | src/userland/programs/desktop/geometry.c:44-51 | exactly the rectangles with a common pixel |
| Desktop.RectIntersection | src/userland/programs/desktop/geometry.c:53-66 | exactly the common pixels |
| Desktop.RectUnion | src/userland/programs/desktop/geometry.c:68-77 | covers both rectangles |
| Desktop.UnionIsLeast | src/userland/programs/desktop/geometry.c:68-77 | any rectangle that covers both covers the union |
| Desktop.DirtySet.DirtyAdd | src/userland/programs/desktop/window.c:68-92 | ends; rectangles stay valid, on screen and apart; the rectangles kept are old ones and the added one is the least that covers the new one and those not kept; nothing dirty and nothing of the new rectangle is lost unless all is redrawn |
| Desktop.BringToFront | src/userland/programs/desktop/window.c:146-161 | moves the first entry of the window to the end, or reports that nothing had to move |
| Desktop.RaisedOrder | src/userland/programs/desktop/window.c:146-161 | no window is lost and the others keep their order |

## Left out

- Addresses: 1 GiB mappings, flag words wider than 12 bits, the accessed and dirty bits and `invlpg` are not modelled; user mappings lie in top-level slots 1 to 255.
- Page tables and user bytes: table frames and data frames are separate maps; that they never overlap is the ownership result, not part of the byte-level lemmas.
- Pmm.FrameAllocator.constructor: the start of memory is page-aligned, as its only caller passes 0; an empty memory is left out.
- Pmm.FrameAllocator.AllocPages: the zeroing of the memory handed out is not part of the allocator's model; new tables and loader pages are zeroed where they are used.
- Kernel page helpers: `vmm_alloc_pages`, `vmm_free_pages` and `vmm_sync_kernel_mappings` would only repeat the results about mapping and about the copy of the upper half.
- Heap.KernelHeap.Kcalloc: what zeroing beyond the payload destroys is not modelled, only when it happens.
- Heap.KernelHeap.Krealloc: the same for a copy beyond the new payload.
- Heap.KernelHeap.Kfree: pointers into a payload whose bytes imitate a header are not modelled; headers are found at block offsets only.
- Heap locking with its time limit and the statistics output are not modelled.
- FAT16 directory entries, creation, deletion and remounting are not modelled; `fat16_write` never stores size or first cluster there.
- Fat16.Volume.Write: once the search has handed out a number beyond the table, nothing more is promised about the volume.
- Fat16.Volume.ReleaseChain: for chains that lead out of the table only the end is shown, not which words become zero.
- I/O errors: sector reads and writes and frame transmission always succeed, also for clusters that have a table entry but lie behind the end of the disk.
- Elf.ElfLoad: the headers come as decoded fields; segments lie in the user half and offsets plus sizes do not wrap at 64 bits.
- ProgramLife.CreateProgram: segments as for Elf.ElfLoad.
- ProgramLife.RunProgram: segments as for Elf.ElfLoad; the structures around the space, the kernel stack and the heap blocks, are not part of it.
- User copies: SMAP switching and the copy routine's eight-byte path for reads and writes are not modelled; the zeroing fast path is.
- Scheduler.Kernel: records are named by pid instead of by address, and the links are maps; releasing a record's memory is not modelled.
- Scheduler: the voluntary `schedule` is called only by `task_yield`, which nobody calls, and is left out; context switching, stacks and address space switches are not modelled.
- Waiting: the loop of `task_wait_pid` is one look per event; the preemption mark it sets is an event of its own.
- Pid wrap-around is not modelled.
- Reaping is one step; the unlocked gap between choosing and removing a victim is not modelled.
- Tcp.Client: addresses, ports, timers and the probe state are not modelled, nor are sends that fail.
- Paths.Vfs.MountUnder: child lists are sequences and missing arguments are left out.
- Desktop: coordinates are mathematical integers; painting, input and panels are left out.
- Drivers, caches, PTYs, keyboard and serial rings, number formatting and the mathematics library are not modelled.
