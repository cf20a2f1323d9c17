# riria kernel: a model of its state machines and its promises

riria is a single-core x86-64 kernel in C. This project models five of its parts in Dafny and proves what they
promise. Each part has an imperative model (a class or methods with the source's own fields, arrays and loops) that is
proved against functions on plain values, and theorems about those functions over every input and every run.

**Memory manager** (`kernel/system/pmm.c`, `vmm.c`, `elf.c`, `syscall.c`). `Pmm` is the bitmap of page frames. `Ram`
ties the bytes of physical memory to page-table entries. `PageTables` gives every frame exactly one role (free, PML4,
table of a level, target of one page, other) and describes the four-level tables by invariants that look at one entry
at a time; `PageTableSteps` shows what one write to a table does; `PageTableTheorems` shows that mapping and unmapping
change exactly one page of the flat map from pages to frames, and undo each other; `PageTableRuns` lifts this to all
runs, and `PageRanges` to ranges of pages. `Vmm` works in place on the bytes, `UserMemory` copies through the tables,
`AccessRights` combines the rights of all four levels (section 4.6 of the Intel SDM, volume 3A) over whole runs, `Elf`
loads images laid out as `ElfFormat` says, `Spawn` starts a process from one and `Syscall` maps and unmaps ranges. `Arithmetic` and `Bits` hold the arithmetic of
machine words.

**Kernel heap** (`kernel/system/heap.c`). `FreeList` is the address-ordered coalescing list, `HeapModel` the heap over
whole runs, `HeapLinks` relates lists to headers in memory, `HeapBacking` says that every heap page has a frame of its
own, and `KernelHeap` (file `Heap.dfy`) changes the headers in place and takes its pages from the memory manager.

**Scheduler** (`kernel/system/process.c`). `SchedulerModel` is the ring of processes as a sequence that starts at the
running one; `Scheduler` is the circular linked list.

**Terminal** (`kernel/drivers/video/flanterm`). `ScreenModel` is the screen as an array of cells, `ScreenQueue` the
queue of changed cells on values, `Screen` the framebuffer backend with its arrays. `TerminalModel` is the
escape-sequence parser, `TerminalActions` what its actions do to the screen, `TerminalEditing`, `TerminalErasing`
and `TerminalLines` what inserting, deleting and erasing should do, `Terminal` the loops over backend calls and the
writing of byte strings. `TerminalSequences`, `TerminalControls`, `TerminalCommands` and `TerminalStrings` say what
text, control characters, control sequences and operating system commands do as bytes, and `TerminalPaper` what text
with newlines does as it scrolls.

**Formatter** (`kernel/libc/stdio/nanoprintf.h`). `PrintfModel` is the reading of directives and the text of one
conversion, `PrintfTheorems` says that fields can be read back, `PrintfDirectives` how directives are read,
`PrintfStandard` states what section 7.21.6.1 of ISO C11 asks of them in its own terms and when the fields are that,
`PrintfFormats` is about whole formats, and `Printf` has the loops and buffers.

A panic or a failed assertion of the source is a `None` or `false` result. Where the code does not do what it should
for all inputs, the model follows the code and a lemma states exactly when it does: `Pmm.EntryExact`, `Pmm.KernelExact`,
`Syscall.MunmapExact`, `Syscall.ReturnedIntExact`, `HeapModel.TotalSizeExact`, `SchedulerModel.SearchExact`,
`ScreenModel.WrapExact`, `ScreenModel.PutExact`, `TerminalEditing.InsertExact`, `TerminalEditing.DeleteExact`,
`TerminalEditing.EraseLineExact`, `TerminalEditing.EraseLineThroughExact`, `TerminalErasing.EraseBelowExact`,
`TerminalErasing.EraseAboveExact`, `TerminalEditing.EraseCharsExact`, `TerminalLines.InsertLinesExact`,
`TerminalLines.DeleteLinesExact`, `TerminalSequences.CursorDown`, `TerminalControls.NewlineExact`,
`TerminalControls.TabExact`, `TerminalControls.CancelExact`, `TerminalControls.ReverseIndexExact`,
`TerminalStrings.StringExact`, `TerminalCommands.SequenceEnds`, `TerminalCommands.CursorExact`,
`TerminalPaper.TextScrolls`,
`SchedulerModel.SleepSets`, `PrintfTheorems.ReadBack`, `PrintfStandard.FieldExact`. The terminal follows
console_codes(4) by its own account.

## Model

| member | source | states |
|---|---|---|
| `Pmm.EntryExact` | kernel/system/pmm.c:95-103 | for every 64-bit entry, the page range computed for it is exactly the pages that lie wholly in it, if and only if no address wraps around or the entry starts in the last page and ends in the one behind the address space |
| `Pmm.ReleasedIsRam` | kernel/system/pmm.c:90-112 | if that range is right for every RAM entry, the pages released by all entries together are the pages that lie wholly in some usable or reclaimable entry |
| `Pmm.HighestIsMaximum` | kernel/system/pmm.c:69-79 | the highest address is the greatest end of an entry: no end exceeds it and one meets it |
| `Pmm.HighestPageCovers` | kernel/system/pmm.c:79-86 | no RAM page that the bitmap can hold lies beyond the highest page, which is the page of the last byte of the map or the last page of the bitmap |
| `Pmm.KernelExact` | kernel/system/pmm.c:118-155 | the pages reserved for the bitmap are those with a byte of it; the pages reserved for the kernel image are those with a byte of it if and only if offset in the first page and length of the last part fit one page |
| `Pmm.ReservedExact` | kernel/system/pmm.c:118-163 | in that case the reserved pages in all are those with a byte of the image, of the bitmap or of the first megabyte |
| `Pmm.BitmapInKernel` | kernel/system/pmm.c:136-143 | the bitmap lies in the image where its symbol does, so that its pages are reserved twice |
| `Pmm.FrameAllocator.FindHighest` | kernel/system/pmm.c:69-86 | the highest page is the one before the highest top of any entry, limited to the pages of the bitmap |
| `Pmm.FrameAllocator.ReleaseRam` | kernel/system/pmm.c:89-112 | all and only the pages of RAM entries become free, and the total counts each once although entries may overlap |
| `Pmm.FrameAllocator.ReserveKernel` | kernel/system/pmm.c:118-163 | the kernel image, the bitmap and the first megabyte are not free afterwards, nothing else changes, and the counter follows |
| `Pmm.FrameAllocator.Populate` | kernel/system/pmm.c:64-114 | for a map whose RAM entries have right ranges the free pages are exactly the RAM pages and all three counters agree |
| `Pmm.FrameAllocator.Install` | kernel/system/pmm.c:64-167 | a page is free if and only if it lies wholly in RAM, is covered by the bitmap and is outside kernel, bitmap and first megabyte; used and free pages add up to the total, which counts the RAM pages |
| `Pmm.FrameAllocator.Scan` | kernel/system/pmm.c:172-173 | finds the least free page, and none only if no page is free |
| `Pmm.FrameAllocator.Allocate` | kernel/system/pmm.c:169-190 | takes the least free page and no other, keeps the counters equal to the number of clear bits, and fails only when nothing is free |
| `Pmm.FrameAllocator.Free` | kernel/system/pmm.c:192-218 | frees exactly one page, and panics exactly for null, unaligned, out-of-range and already free addresses |
| `Pmm.StepAccounts` | kernel/system/pmm.c:169-218 | from a state where the free pages are RAM pages and used and free pages add up to their number, allocating keeps this, and freeing keeps it if and only if the page is a RAM page |
| `Pmm.RunAccounts` | kernel/system/pmm.c:169-218 | so on every run that frees only RAM pages, used and free pages add up to the total without any wrap-around, and no other page becomes free |
| `Ram.EncodeBits` | kernel/system/vmm.c:122-152 | the word for an entry, as a sum of fields, is the bitwise or of address, flags and present bit that the source stores |
| `Ram.DecodeBits` | base/usr/include/riria/mem.h:34-49 | of every 64-bit word, address and flags of the entry are what PTE_GET_ADDR and the tests with `&` give, and the address mask and its complement take the word apart |
| `Ram.EntryRoundTrip` | base/usr/include/riria/mem.h:34-49 | decoding the word written for an entry gives the entry back |
| `Ram.TablesStore` | kernel/system/vmm.c:123-124 | the same for the whole of physical memory read as tables |
| `Ram.EntriesCopyHigh` | kernel/system/vmm.c:79-80 | clearing the lower half of a page and copying the upper half of another one gives an empty lower and the same upper half of the table |
| `Ram.PathInjective` | kernel/system/vmm.c:134-137 | two addresses have the same four table indices if and only if they have the same 36-bit page number |
| `PageTables.WalkRole` | kernel/system/vmm.c:102-110 | a walk along d indices ends in a table of level 4 - d whose role names its parent, index and half |
| `PageTables.WalkInjective` | kernel/system/vmm.c:102-110 | different walks from any two pagemaps end in different tables, except through a shared kernel slot |
| `PageTableSteps.AllocateOk` | kernel/system/pmm.c:169-190 | taking and clearing a frame keeps the invariant and no translation changes |
| `PageTableSteps.NextLevelTree` | kernel/system/vmm.c:102-127 | hanging a fresh empty table into a slot that was zero keeps the tree of tables |
| `PageTableSteps.NextLevelView` | kernel/system/vmm.c:102-127 | and changes no translation of any pagemap |
| `PageTableSteps.SetLeafTree` | kernel/system/vmm.c:152 | writing a leaf entry keeps the tree of tables and the one role per frame |
| `PageTableSteps.SetLeafView` | kernel/system/vmm.c:152 | and changes the translation of that page and of nothing else, in every pagemap |
| `PageTableSteps.ReleaseOk` | kernel/system/vmm.c:203-206 | cutting off and freeing an empty table keeps the tree of tables and changes no translation; only its parent may now be empty |
| `PageTableTheorems.DescentCorrect` | kernel/system/vmm.c:145-150 | the three calls of vmm_get_next_level end in the table of the page, change no translation and leave no lower-half table below the PML4 empty except perhaps that one |
| `PageTableTheorems.MapPageCorrect` | kernel/system/vmm.c:129-162 | map updates exactly one page of the flat map from (pagemap, page) to (frame, flags), whatever tables it allocates, and keeps the invariant |
| `PageTableTheorems.PruneCorrect` | kernel/system/vmm.c:200-225 | freeing the tables that became empty changes no translation and leaves no lower-half table below the PML4 empty |
| `PageTableTheorems.UnmapPageCorrect` | kernel/system/vmm.c:164-230 | unmap removes exactly one page of the flat map, whatever tables it frees, and keeps the invariant |
| `PageTableTheorems.MapThenUnmap` | kernel/system/vmm.c:129-230 | mapping an unmapped lower-half page and unmapping it again restores every table and the set of free frames exactly |
| `PageTableRuns.NewPagemapCorrect` | kernel/system/vmm.c:71-87 | a new pagemap is empty below and the kernel's above, keeps the invariant and changes no translation |
| `PageTableRuns.RolesExclude` | kernel/system/vmm.c:102-225 | the frame of an owned page is neither free nor a page table, no page table is free, and no two owned pages share a frame |
| `PageTableRuns.UserPagesOwned` | kernel/system/vmm.c:129-162 | every mapped lower-half page of a process is owned |
| `PageTableRuns.MapFreshCorrect` | kernel/system/syscall.c:220-224 | mapping a freshly allocated frame changes exactly one page, which owns its frame afterwards |
| `PageTableRuns.UnmapFreeCorrect` | kernel/system/syscall.c:270-277 | for an owned page no panic of pmm_free fires although the frame is freed before the page is unmapped, and the result is that of unmapping and then freeing |
| `PageTableRuns.MmapThenMunmap` | kernel/system/syscall.c:219-277 | anonymous mmap and munmap of one unmapped page restore all tables and all free frames |
| `PageTableRuns.StepCorrect` | kernel/system/vmm.c:71-230 | each of creating a pagemap, mapping a fresh or fixed frame, unmapping, and unmapping with freeing keeps the invariant and is one update of the flat map |
| `PageTableRuns.RunCorrect` | kernel/system/vmm.c:71-230 | the invariant holds in every state of every run |
| `PageTableRuns.BootInv` | kernel/system/vmm.c:298-311 | it holds when the kernel PML4 has just been made |
| `PageTableRuns.RunSeparates` | kernel/system/vmm.c:71-230 | on every run from boot the frame of a page that owns it, in user space or in the kernel heap, is neither free nor a page table, and no other owned page has it |
| `PageTableRuns.KernelHalfShared` | kernel/system/vmm.c:71-87 | whatever runs afterwards, a pagemap agrees with the kernel's on every higher-half address whose slot was present at its creation |
| `PageTableRuns.StepKeepsOwned` | kernel/system/vmm.c:71-230 | a step leaves every owned page other than its own mapped to the same frame with the same flags |
| `PageTableRuns.RunKeepsOwned` | kernel/system/vmm.c:71-230 | and so does every run that does not name the page |
| `PageTableRuns.MappedStaysSeparate` | kernel/system/vmm.c:71-230 | a page of any pagemap that was mapped to a fresh frame at some point of a run from boot and not named since still has that frame, which is neither free nor a page table nor the frame of another owned page |
| `PageTableRuns.LowerHalfIsolated` | kernel/system/vmm.c:129-230 | mapping or unmapping a lower-half page of one pagemap changes no translation of any other |
| `PageTableRuns.MapFreshBudget` | kernel/system/vmm.c:102-152 | four free frames suffice to allocate and map a page, and no more are taken |
| `Vmm.Machine.Load` | kernel/system/vmm.c:104-107 | reading 8 bytes of a table gives the entry of the table that the memory represents |
| `Vmm.Machine.Store` | kernel/system/vmm.c:122-123 | writing them changes that entry only |
| `Vmm.Machine.IsTableEmpty` | kernel/system/vmm.c:61-69 | true if and only if all 512 entries are zero |
| `Vmm.Machine.AllocateFrame` | kernel/system/pmm.c:169-190 | on bytes, takes and clears the least free frame |
| `Vmm.Machine.InstallRoot` | kernel/system/vmm.c:298-311 | from a memory whose null page is not free, making the kernel PML4 establishes the invariant |
| `Vmm.Machine.GetNextLevel` | kernel/system/vmm.c:102-127 | on bytes, follows a present entry or hangs in a cleared table |
| `Vmm.Machine.MapPage` | kernel/system/vmm.c:129-162 | on bytes, does what MapPageCorrect is about, to the page of any address |
| `Vmm.Machine.ReleaseIfEmpty` | kernel/system/vmm.c:202-207 | cuts off and frees the table if and only if it is empty |
| `Vmm.Machine.FreeEmptyTables` | kernel/system/vmm.c:200-225 | frees level after level as long as tables are empty, never clearing a slot of the upper half of a PML4 |
| `Vmm.Machine.UnmapPage` | kernel/system/vmm.c:164-230 | on bytes, does what UnmapPageCorrect is about, and panics exactly for an unaligned address |
| `Vmm.Machine.NewPagemap` | kernel/system/vmm.c:71-87 | on bytes, does what NewPagemapCorrect is about |
| `Vmm.Machine.MapFresh` | kernel/system/syscall.c:220-224 | allocates a frame and maps it in one step of the page-table theory |
| `Vmm.Machine.UnmapFree` | kernel/system/syscall.c:270-277 | one round of munmap, which fails exactly if the page is not mapped |
| `Vmm.Machine.MapThenUnmapPage` | kernel/system/vmm.c:129-230 | on bytes, mapping an unmapped lower-half page and unmapping it again restores every table in use, the set of free frames and the free, used and total counters |
| `Vmm.Machine.MapThenUnmapFresh` | kernel/system/syscall.c:219-277 | the same for one page of anonymous mmap and munmap, frame included |
| `Vmm.Machine.VirtToPhys` | kernel/system/vmm.c:232-253 | gives the frame of the flat map and the offset, and zero for an unmapped page |
| `UserMemory.MapCopy` | kernel/system/vmm.c:255-275 | afterwards reading the range through the page walk gives the source bytes, all other bytes of memory and all tables are as before |
| `UserMemory.MapZero` | kernel/system/vmm.c:277-296 | afterwards the range reads as zeros and everything else is as before |
| `AccessRights.EffectiveIsLeaf` | kernel/system/vmm.c:139-152 | if the intermediate entries restrict nothing, the rights over all four levels are the flags of the leaf |
| `AccessRights.EffectiveExact` | kernel/system/vmm.c:139-152 | in either half, the rights of a mapped page are the flags of its leaf if and only if each of the three entries above is writable and user where the leaf is and forbids execution only where the leaf does |
| `AccessRights.MapFreshUser` | kernel/system/vmm.c:139-152 | mapping user pages keeps the intermediate entries of the lower half unrestricted |
| `AccessRights.NewPagemapUser` | kernel/system/vmm.c:71-87 | a new pagemap starts with no restriction in its lower half |
| `AccessRights.TableFlagsAdmit` | kernel/system/vmm.c:139-143 | the flags of a new table let all rights of the page being mapped through and restrict neither writing nor execution |
| `AccessRights.StepOpen` | kernel/system/vmm.c:71-230 | every step keeps all entries above the leaves of every pagemap writable and executable |
| `AccessRights.RunRights` | kernel/system/vmm.c:71-230 | on every run from boot the processor lets a mapped page of any pagemap, in either half, be written and executed exactly as it was mapped, and user code only at pages mapped for it |
| `AccessRights.RunUser` | kernel/system/vmm.c:71-230 | whatever other pagemaps do, a lower half in which everything is mapped for the user has no entry that restricts the user |
| `AccessRights.ProcessRights` | kernel/system/vmm.c:71-230 | from its creation on, the processor grants every lower-half page of such a pagemap exactly the flags it was mapped with |
| `Elf.MapPages` | kernel/system/elf.c:74-86 | every page of the segment gets a fresh frame with the segment's flags, all pages mapped before keep their bytes, and it succeeds if the pages are vacant and enough frames are free |
| `Elf.LoadSegment` | kernel/system/elf.c:48-104 | the segment reads back as file bytes and then zeros to memsz, nothing loaded before is disturbed, and it succeeds if the segment is well-formed, its pages are vacant and enough frames are free |
| `Elf.Load` | kernel/system/elf.c:8-114 | after the last segment every PT_LOAD segment still reads back through the page walk, entry, base and size are those of the image, and every well-formed image whose pages are vacant and apart loads if enough frames are free |
| `Elf.BaseAndEnd` | kernel/system/elf.c:34-107 | base is the least address and end the greatest end of the PT_LOAD segments: bounds of all, and each met by one |
| `Elf.FlagsAsked` | kernel/system/elf.c:52-60 | the flags that a segment is mapped with are the ones that grant user access, writing if and only if its header has PF_W and execution if and only if it has PF_X, and no others do |
| `ElfFormat.HeaderRead` | base/usr/include/riria/elf.h:5-25 | of a file header laid out as ELF64 asks, with any values in its fields, the loader accepts exactly those of 64-bit x86-64 files with program headers of 56 bytes, and reads entry point and place and number of the program headers as written |
| `ElfFormat.SegmentRead` | base/usr/include/riria/elf.h:27-36 | of a program header laid out as ELF64 asks the loader reads every field that it uses as written |
| `Elf.SegmentRights` | kernel/system/elf.c:52-60 | the processor grants a loaded address of either half what its program header asks for (user, writable if and only if PF_W, executable if and only if PF_X) if and only if the three entries above admit it; in the lower half of a pagemap that restricts nothing there they do |
| `Spawn.SpawnElf` | kernel/system/process.c:146-149 | in a new pagemap every segment reads back through the page walk and the processor grants its lower-half addresses exactly what its program header asks for; an image with disjoint segments in the lower half loads whenever enough frames are free |
| `Syscall.MapRange` | kernel/system/syscall.c:219-226 | the page loop is a run of mapping steps over consecutive pages, and succeeds if four frames are free for each page |
| `Syscall.RangeMapped` | kernel/system/syscall.c:219-226 | after it every page of the range has a frame of its own with the requested flags |
| `Syscall.Process.Mmap` | kernel/system/syscall.c:178-236 | maps exactly the requested pages, in 32 bits, at the heap position, advances it, returns the truncated address, and succeeds if enough frames are free |
| `Syscall.MmapExact` | kernel/system/syscall.c:192 | the pages mapped hold the request, and none fewer would, if and only if it is less than 2^32 pages long |
| `Syscall.MmapRights` | kernel/system/syscall.c:219-226 | the processor lets user code read and write, but not execute, every lower-half address that mmap has mapped for a process |
| `Syscall.Process.Munmap` | kernel/system/syscall.c:239-284 | succeeds if and only if the bound check, in 64 bits, passes, at most 2^20 pages are asked for and all of them are mapped, and then is a run of unmapping and freeing steps; of a range of at most 4 GiB exactly the addresses on the page that it overhangs stay mapped |
| `Syscall.HeapPagesOwned` | kernel/system/syscall.c:258-268 | a request that ends below the heap position of a process names only pages that own their frames |
| `Syscall.MunmapExact` | kernel/system/syscall.c:239-284 | a request of at most 4 GiB that does not wrap around lies in the heap with every address mapped if and only if it is accepted and the page behind the counted ones, where an unaligned range reaches it, is mapped too; a longer request is never accepted, and a wrapping one never lies in the heap |
| `Syscall.MunmapLeaves` | kernel/system/syscall.c:270-277 | after a served request some address of its range is still mapped if and only if the range overhangs a page that was mapped |
| `Syscall.UnalignedRequestAccepted` | kernel/system/syscall.c:241-244 | two bytes across a page boundary are accepted although the second page is not mapped |
| `Syscall.LongRequestFails` | kernel/system/syscall.c:270-274 | 4 GiB and one byte of mapped heap are refused: the 32-bit offset makes the last round look at the first page again |
| `Syscall.WrappedSizeAccepted` | kernel/system/syscall.c:244-258 | a size that wraps to zero pages when aligned is accepted although it is not in the heap |
| `Syscall.WrappedRangeAccepted` | kernel/system/syscall.c:258 | the last page of the address space is accepted for every heap, if it is mapped |
| `Syscall.ReturnedIntExact` | kernel/system/syscall.c:235 | mmap returns the address it mapped if and only if that is a sign-extended 32-bit number |
| `FreeList.CanonicalUnique` | kernel/system/heap.c:80-110 | an address-ordered list without adjacent blocks is determined by the set of free bytes |
| `FreeList.FirstFit` | kernel/system/heap.c:145-146 | the first block that is large enough, none before it being so |
| `FreeList.TakeCanonical` | kernel/system/heap.c:147-164 | taking a block from the front or whole keeps the list canonical: a block that is not split fits exactly |
| `FreeList.TakeCovers` | kernel/system/heap.c:147-164 | and removes exactly the bytes taken |
| `FreeList.InsertCorrect` | kernel/system/heap.c:225-254 | insertion with both merges keeps the list canonical and adds exactly the bytes of the block |
| `HeapModel.HistoryIndependent` | kernel/system/heap.c:54-256 | two heaps of the same size with the same live blocks have the same free list |
| `HeapModel.ExpandCorrect` | kernel/system/heap.c:54-114 | expansion keeps free and live blocks tiling the heap |
| `HeapModel.TotalSizeExact` | kernel/system/heap.c:134-138 | the block holds header and request if and only if the request is at most 2^64 - 32 bytes |
| `HeapModel.AllocateCorrect` | kernel/system/heap.c:131-176 | the block is 16-aligned, inside the heap, of the requested size, apart from all live blocks, and free and live blocks still tile the heap |
| `HeapModel.ReleaseCorrect` | kernel/system/heap.c:204-256 | freeing a live block keeps the tiling and removes that block only |
| `HeapModel.ReleaseUndoesAllocate` | kernel/system/heap.c:131-256 | kfree right after a kmalloc that did not expand restores the free list exactly |
| `HeapModel.ExpandFits` | kernel/system/heap.c:86-112 | expansion makes a request fit if and only if the free block at the heap end, grown by it, is large enough |
| `HeapModel.MallocRetries` | kernel/system/heap.c:144-188 | the retry loop serves the request after exactly as many 64 KiB expansions as the missing part of the free block at the heap end takes, rounded up, and the request fits after none fewer |
| `HeapModel.MallocCorrect` | kernel/system/heap.c:131-189 | with its expansions, kmalloc returns an aligned block apart from every live block |
| `HeapModel.StepCorrect` | kernel/system/heap.c:54-256 | every operation keeps the heap invariant |
| `HeapModel.RunCorrect` | kernel/system/heap.c:54-256 | it holds on every run |
| `HeapModel.RunsAgree` | kernel/system/heap.c:54-256 | two runs that end with the same heap size and live blocks end with the same free list |
| `HeapBacking.BackedGrows` | kernel/system/heap.c:63-74 | if every page of the heap has a frame of its own, so has every page after the pages of an expansion were mapped |
| `HeapBacking.BackedBound` | kernel/system/heap.c:63-74 | the heap never has more pages than there are frames |
| `HeapBacking.RunKeepsBacked` | kernel/system/heap.c:63-74 | no run that names no heap page takes a frame from the heap |
| `HeapBacking.BackedSeparate` | kernel/system/heap.c:63-74 | the frame of a heap page is neither free nor a page table nor the frame of another owned page of any pagemap |
| `KernelHeap.HeapRights` | kernel/system/heap.c:70-71 | in every state whose upper entries restrict neither writing nor execution, as StepOpen keeps it, and through every pagemap that translates it as the kernel does, a heap page can be written but not executed by the kernel, and not reached by user code |
| `KernelHeap.AllocatorHeap.Find` | kernel/system/heap.c:83-89 | the walk stops at the first free block at or above the address and knows the one before |
| `KernelHeap.AllocatorHeap.InsertBlock` | kernel/system/heap.c:80-110 | the header writes of linking and both merges are one insertion into the list |
| `KernelHeap.AllocatorHeap.Expand` | kernel/system/heap.c:54-114 | maps the pages, each to a frame of its own, and inserts the region as one block; every heap page is backed afterwards, no header is written over the payload of a live block, and it succeeds if enough frames are free |
| `KernelHeap.AllocatorHeap.BackPages` | kernel/system/heap.c:63-74 | the new pages are mapped by a run of mapping steps of the kernel pagemap |
| `KernelHeap.AllocatorHeap.Install` | kernel/system/heap.c:116-129 | establishes the heap invariant with the initial pages free and backed, and panics if called again |
| `KernelHeap.AllocatorHeap.TakeFirstFit` | kernel/system/heap.c:145-176 | the pass over the headers takes the first block that is large enough, as the list does |
| `KernelHeap.AllocatorHeap.Attempt` | kernel/system/heap.c:143-188 | one round serves the request or expands by 16 pages |
| `KernelHeap.AllocatorHeap.Serve` | kernel/system/heap.c:144-188 | the retry loop allocates what the heap model does after exactly its number of expansions |
| `KernelHeap.AllocatorHeap.Kmalloc` | kernel/system/heap.c:131-189 | null for zero bytes; otherwise a pointer 16 bytes into the block that the heap model allocates after exactly its number of expansions, with every heap page backed and no header written over the payload of a block that was live, and success whenever enough frames are free |
| `KernelHeap.AllocatorHeap.Kfree` | kernel/system/heap.c:204-256 | nothing for null; the block of a live pointer returns to the list, none of the panics fires and no header is written over the payload of a block that stays live; a pointer out of bounds or unaligned panics and changes nothing |
| `SchedulerModel.AliveOrder` | kernel/system/process.c:193-234 | reaping keeps the order of the live processes |
| `SchedulerModel.ReapEmpties` | kernel/system/process.c:186-235 | reaping empties the ring if and only if it is one dead process; otherwise the head stays |
| `SchedulerModel.ReapCorrect` | kernel/system/process.c:186-235 | the head stays, everything behind it is alive, and nobody else is lost |
| `SchedulerModel.ScheduleCorrect` | kernel/system/process.c:238-290 | the process chosen is alive and its wake time has come, and the ring stays one of distinct processes |
| `SchedulerModel.SearchExact` | kernel/system/process.c:258-261 | the search for the next process ends if and only if some process of the ring is awake |
| `SchedulerModel.LegalEndsSearch` | kernel/system/process.c:238-307 | with the idle process in the ring it ends in every schedule, sleep and exit |
| `SchedulerModel.ExitedIsReaped` | kernel/system/process.c:300-307 | after a process has exited, no run that contains at least one further scheduling step, whatever its ticks, creations, sleeps and exits, leaves a process with its id |
| `SchedulerModel.StepCorrect` | kernel/system/process.c:17-307 | creating, ticking, scheduling, sleeping and exiting keep the ring with its idle process |
| `SchedulerModel.StepNearer` | kernel/system/process.c:17-261 | the distance of a live, awake process to the head falls with every schedule, never rises by reaping and rises by one for each process created |
| `SchedulerModel.RunCorrect` | kernel/system/process.c:17-307 | the ring invariant holds on every run |
| `SchedulerModel.BoundedWaiting` | kernel/system/process.c:17-261 | a live, awake process at distance d is the running one within d schedules plus one for each process created meanwhile |
| `SchedulerModel.SleepSets` | kernel/system/process.c:294-298 | going to sleep for ms leaves the process in the ring with the wake time now plus ms, not running, if and only if the sum is a 64-bit number |
| `SchedulerModel.SleepWraps` | kernel/system/process.c:296 | a sum that wraps to zero leaves it waiting for the processor at once |
| `SchedulerModel.SleeperStays` | kernel/system/process.c:238-298 | whatever is created, scheduled, slept and exited meanwhile, a process that sleeps for ms is not run before ms ticks have passed, and is not lost |
| `SchedulerModel.SleeperRuns` | kernel/system/process.c:238-298 | with the last of these ticks it waits for the processor, and then runs within one turn of the ring, one schedule more for every process created |
| `Scheduler.RoundRobin.Insert` | kernel/system/process.c:17-28 | the links form one simple cycle again, with the new node behind the head |
| `Scheduler.RoundRobin.Reap` | kernel/system/process.c:186-235 | one traversal of the links removes exactly the dead nodes behind the head |
| `Scheduler.RoundRobin.Schedule` | kernel/system/process.c:238-261 | on the links, does what ScheduleCorrect is about, for every ring in which the search ends |
| `Scheduler.RoundRobin.Advance` | kernel/system/process.c:252-261 | moving the head along the links rotates the ring to the next awake process |
| `Scheduler.RoundRobin.Sleep` | kernel/system/process.c:294-298 | sets the wake time of the running process and schedules, for every ring in which the search then ends, and panics exactly without a process |
| `Scheduler.RoundRobin.Exit` | kernel/system/process.c:300-307 | marks the running process dead and schedules, for every ring in which the search then ends, and panics exactly without a process |
| `ScreenModel.ScrollIsMove` | kernel/drivers/video/flanterm/flanterm_backends/fb.c:775-799 | the copying loop and the clearing loop of scrolling together are one simultaneous move of the rows of the region |
| `ScreenModel.RevScrollIsMove` | kernel/drivers/video/flanterm/flanterm_backends/fb.c:746-773 | the same for reverse scrolling |
| `ScreenModel.WrapExact` | kernel/drivers/video/flanterm/flanterm_backends/fb.c:1004-1016 | a line wrap ends at the start of the next row, or of the same one at the end of the region or of the screen, if and only if the number of that row is less than the number of columns and, in the last row outside the region, the screen is square; it ends on the screen if and only if there is a next row there, or scrolling makes one, or the screen has no more columns than rows |
| `ScreenModel.PutExact` | kernel/drivers/video/flanterm/flanterm_backends/fb.c:1001-1023 | a character ends up in the cell before the cursor if and only if the cursor is on the screen or its line wrap may happen and leads back onto it, and else no cell changes but by scrolling |
| `ScreenModel.WrapLosesCharacter` | kernel/drivers/video/flanterm/flanterm_backends/fb.c:1004-1022 | in the last row below the bottom margin, on a screen with more columns than rows, the character that wraps is lost and the cursor leaves the screen |
| `ScreenModel.ShownReadsBack` | kernel/drivers/video/flanterm/flanterm_backends/fb.c:937-999 | the screen can be read back from the display and the cursor |
| `ScreenModel.ShownDiffers` | kernel/drivers/video/flanterm/flanterm_backends/fb.c:937-999 | for the same cursor, two displays differ in a cell if and only if the screens do |
| `ScreenQueue.QueueFits` | kernel/drivers/video/flanterm/flanterm_backends/fb.c:730-741 | while queue and map are inverse, the queue never holds more items than the screen has cells, and has room whenever a cell is not queued |
| `Screen.Framebuffer.constructor` | kernel/drivers/video/flanterm/flanterm_backends/fb.c:1329-1407 | after initialisation the screen is blank, nothing is queued and the display shows it with the cursor at the origin |
| `Screen.Framebuffer.Push` | kernel/drivers/video/flanterm/flanterm_backends/fb.c:721-744 | sets exactly one cell of the screen, or none off the screen, and leaves grid and display alone |
| `Screen.Framebuffer.ScrollUp` | kernel/drivers/video/flanterm/flanterm_backends/fb.c:775-799 | in place, moves the rows of the region up by one and blanks the last |
| `Screen.Framebuffer.CopyBack` | kernel/drivers/video/flanterm/flanterm_backends/fb.c:778-789 | the ascending loop copies all cells as if at once |
| `Screen.Framebuffer.ScrollDown` | kernel/drivers/video/flanterm/flanterm_backends/fb.c:746-773 | in place, moves the rows of the region down by one and blanks the first, for any top margin |
| `Screen.Framebuffer.CopyOn` | kernel/drivers/video/flanterm/flanterm_backends/fb.c:749-763 | the descending loop copies all cells as if at once |
| `Screen.Framebuffer.ClearScreen` | kernel/drivers/video/flanterm/flanterm_backends/fb.c:801-816 | every cell becomes blank in the current colours |
| `Screen.Framebuffer.SetCursorPos` | kernel/drivers/video/flanterm/flanterm_backends/fb.c:818-838 | the cursor is on the screen, with negative 32-bit positions taken as zero |
| `Screen.Framebuffer.GetCursorPos` | kernel/drivers/video/flanterm/flanterm_backends/fb.c:840-846 | the cursor limited to the last column and row |
| `Screen.Framebuffer.MoveCharacter` | kernel/drivers/video/flanterm/flanterm_backends/fb.c:848-869 | copies one cell of the screen onto another |
| `Screen.Framebuffer.RawPutchar` | kernel/drivers/video/flanterm/flanterm_backends/fb.c:1001-1023 | a pending line wrap, with scrolling at the bottom margin, then one cell at the cursor |
| `Screen.Framebuffer.DrawCursor` | kernel/drivers/video/flanterm/flanterm_backends/fb.c:937-961 | draws the inverted cell under the cursor and commits it if it was queued |
| `Screen.Framebuffer.DrawItem` | kernel/drivers/video/flanterm/flanterm_backends/fb.c:970-979 | one queue item reaches grid and display unless its cell is already committed |
| `Screen.Framebuffer.EraseOldCursor` | kernel/drivers/video/flanterm/flanterm_backends/fb.c:981-989 | the old cursor image is replaced if and only if the cursor moved or is disabled |
| `Screen.Framebuffer.Flush` | kernel/drivers/video/flanterm/flanterm_backends/fb.c:963-999 | the display equals the screen but for the inverted cursor cell, no older cursor image is left, the queue is empty, and nothing later operations observe has changed |
| `TerminalModel.Parse` | kernel/drivers/video/flanterm/flanterm.c:1443-1594 | no byte brings the parameter array or the scroll margins out of range, changes the screen size or turns automatic flushing off |
| `TerminalModel.Reinit` | kernel/drivers/video/flanterm/flanterm.c:88-119 | resets to a state within the same limits, with automatic flushing on |
| `TerminalModel.SetMargins` | kernel/drivers/video/flanterm/flanterm.c:794-816 | whatever the parameters, the margins enclose rows of the screen and nothing else changes |
| `TerminalModel.Command` | kernel/drivers/video/flanterm/flanterm.c:586-827 | every command keeps these limits |
| `TerminalActions.FeedAppend` | kernel/drivers/video/flanterm/flanterm.c:123-127 | feeding two byte strings one after the other is feeding them joined |
| `TerminalEditing.InsertExact` | kernel/drivers/video/flanterm/flanterm.c:742-752 | CSI @ moves the rest of the line by its count and leaves blanks if and only if the count is not zero or there are only blanks |
| `TerminalEditing.InsertZeroErases` | kernel/drivers/video/flanterm/flanterm.c:742-752 | with a count of zero it erases a character at the origin |
| `TerminalEditing.DeleteExact` | kernel/drivers/video/flanterm/flanterm.c:753-764 | for every 32-bit count, CSI P moves the rest of the line left, leaves blanks behind and restores the cursor, if and only if the count does not reach beyond the end of the line, or the other cells that its spaces then overwrite, before the cursor or in the row they wrap to, hold the right contents already |
| `TerminalEditing.DeleteErasesBefore` | kernel/drivers/video/flanterm/flanterm.c:753-764 | a count beyond the end of the line erases the character before the cursor |
| `TerminalEditing.EraseLineExact` | kernel/drivers/video/flanterm/flanterm.c:774-793 | CSI 1 K erases exactly before the cursor and CSI 2 K exactly the line; CSI K erases exactly from the cursor on if and only if no line wrap is pending, or the last cell and, when a wrap happens, the first cell of the row it leads to are blank already, or the screen has one column and the wrap leads to the same row |
| `TerminalEditing.EraseLinePending` | kernel/drivers/video/flanterm/flanterm.c:774-779 | with a line wrap pending, CSI K erases the first cell of the next line instead |
| `TerminalEditing.EraseLineThroughExact` | kernel/drivers/video/flanterm/flanterm.c:780-784 | CSI 1 K erases the line up to and with the cell of the cursor, as console_codes(4) says, if and only if that cell is blank already |
| `TerminalEditing.EraseCharsExact` | kernel/drivers/video/flanterm/flanterm.c:758-764 | CSI X erases as many characters from the cursor on as there are in the line, if and only if what its other spaces hit in the row they wrap to, and the cell of the cursor if a pending line wrap makes them miss it, is blank already |
| `TerminalErasing.EraseBelowExact` | kernel/drivers/video/flanterm/flanterm.c:710-719 | CSI J erases the display from the cursor on if and only if what its spaces miss (all below the screen, the cell of the cursor with a line wrap pending, the rows below the bottom margin) and what they hit where a wrap leads back is blank already |
| `TerminalErasing.EraseBelowMisses` | kernel/drivers/video/flanterm/flanterm.c:710-719 | from above the bottom margin it leaves every character below the margin |
| `TerminalErasing.EraseAboveExact` | kernel/drivers/video/flanterm/flanterm.c:720-735 | CSI 1 J erases the display up to and with the cell of the cursor if and only if the cells among them below the bottom margin, or below as many rows as there are columns, are blank already |
| `TerminalErasing.EraseDisplayPlain` | kernel/drivers/video/flanterm/flanterm.c:708-735 | without margins, wrap or more rows than columns both erase exactly what they should |
| `TerminalLines.ScrollTimesMoves` | kernel/drivers/video/flanterm/flanterm.c:670-677 | scrolling n times moves the rows of the region up by n at once and blanks the rest |
| `TerminalLines.RevScrollTimesMoves` | kernel/drivers/video/flanterm/flanterm.c:678-688 | reverse scrolling n times moves them down by n at once |
| `TerminalLines.InsertLinesExact` | kernel/drivers/video/flanterm/flanterm.c:678-688 | CSI L moves exactly the lines from the cursor to the bottom margin down, if and only if the count is zero, the cursor is above the margin or its line is blank already |
| `TerminalLines.DeleteLinesExact` | kernel/drivers/video/flanterm/flanterm.c:670-677 | CSI M moves exactly the lines below the cursor up, if and only if the lines between the top margin and the cursor hold what the move from the top margin on brings there |
| `TerminalLines.DeleteLinesAtTop` | kernel/drivers/video/flanterm/flanterm.c:670-677 | that is always so with the cursor at the top margin |
| `TerminalLines.DeleteLinesWrong` | kernel/drivers/video/flanterm/flanterm.c:670-677 | from below the top margin it loses a line above the cursor that differs from the next one |
| `Terminal.MakeRoom` | kernel/drivers/video/flanterm/flanterm.c:1569-1576 | the descending loop of insert mode shifts the rest of the line by one column as if at once and blanks nothing |
| `Terminal.InsertSpaces` | kernel/drivers/video/flanterm/flanterm.c:742-752 | the descending loop of CSI @ shifts the rest of the line by the count as if at once and restores the cursor |
| `Terminal.PullLeft` | kernel/drivers/video/flanterm/flanterm.c:753-755 | the ascending loop of CSI P shifts the rest of the line left as if at once |
| `Terminal.PutSpaces` | kernel/drivers/video/flanterm/flanterm.c:758-764 | repeated printing of spaces on the arrays is repeated printing on the screen |
| `Terminal.Perform` | kernel/drivers/video/flanterm/flanterm.c:586-940 | the backend calls of every action change the screen as the action says |
| `Terminal.Console.constructor` | kernel/drivers/video/flanterm/flanterm_backends/fb.c:1406-1407 | a new terminal satisfies the invariant and shows a blank screen |
| `Terminal.Console.PutChar` | kernel/drivers/video/flanterm/flanterm.c:1443-1594 | one byte takes parser and screen to the next state of the model, with the display left for the flush |
| `Terminal.Console.Write` | kernel/drivers/video/flanterm/flanterm.c:123-132 | a write takes them through all its bytes, and with automatic flushing the display then shows the screen |
| `Terminal.Console.WriteAll` | kernel/drivers/video/flanterm/flanterm.c:123-132 | for any splitting of a byte string into writes, parser state, cursor, grid and display at the end are a function of the joined bytes alone |
| `TerminalSequences.Utf8Printed` | kernel/drivers/video/flanterm/flanterm.c:1455-1497 | the UTF-8 encoding of any code point from U+0080 on prints that code point, or its replacement, exactly once and leaves the parser where it was |
| `TerminalSequences.TextPrinted` | kernel/drivers/video/flanterm/flanterm.c:1578-1593 | printable text that fits into the line appears in it from the cursor on in the current colours, the cursor follows, and nothing else changes |
| `TerminalSequences.TextFlows` | kernel/drivers/video/flanterm/flanterm.c:1578-1593 | printable text that ends above the bottom margin, over any number of lines, fills the cells in order from the cursor on, and the cursor follows |
| `TerminalSequences.CursorUp` | kernel/drivers/video/flanterm/flanterm.c:590-609 | CSI A stops at the top margin when it starts at or below it and at the first row otherwise |
| `TerminalSequences.CursorDown` | kernel/drivers/video/flanterm/flanterm.c:610-631 | CSI B stops at the bottom margin or the last row if and only if it does not start in the row just below the margin, from where it moves up |
| `TerminalSequences.ControlRead` | kernel/drivers/video/flanterm/flanterm.c:515-569 | a control sequence with up to 16 decimal parameters reaches its command with exactly their values modulo 2^32, zero for empty ones, defaults for the others, and nothing printed before |
| `TerminalSequences.ExtraIgnored` | kernel/drivers/video/flanterm/flanterm.c:527-548 | digits and semicolons behind the sixteenth parameter are ignored |
| `TerminalSequences.PrivateRead` | kernel/drivers/video/flanterm/flanterm.c:404-438 | ESC [ ? 25 h shows and ESC [ ? 25 l hides the cursor; any other private sequence with parameters changes nothing, and all of them end |
| `TerminalControls.NewlineExact` | kernel/drivers/video/flanterm/flanterm.c:1534-1545 | a newline goes to the next line, at its start with automatic carriage return, moves the region up in its last line and stays in the last line of the screen, if and only if the row behind the screen is not taken for a negative one |
| `TerminalControls.ReturnAndBackspace` | kernel/drivers/video/flanterm/flanterm.c:1546-1551 | a carriage return goes to the start of the line and a backspace one column back, not beyond the start |
| `TerminalControls.TabExact` | kernel/drivers/video/flanterm/flanterm.c:1525-1531 | a tab goes to the next multiple of eight or to the last column, if and only if that stop is on the screen, is not taken for a negative position, or the first guard of the source applies |
| `TerminalControls.SilentBytes` | kernel/drivers/video/flanterm/flanterm.c:1519-1565 | NUL, DEL and BEL do nothing, and shift-out and shift-in choose the character set only |
| `TerminalControls.CancelExact` | kernel/drivers/video/flanterm/flanterm.c:1447-1453 | CAN and SUB leave the screen alone and end every sequence, except that the mark of a private one stays |
| `TerminalControls.IndexExact` | kernel/drivers/video/flanterm/flanterm.c:903-918 | ESC D and ESC E go to the next line as a newline does, to the same column and to the start, under the same condition |
| `TerminalControls.ReverseIndexExact` | kernel/drivers/video/flanterm/flanterm.c:919-927 | ESC M goes to the start of the line above and moves the region down in its first line; it is the reverse line feed of console_codes(4), which keeps the column, if and only if the cursor is in the first column |
| `TerminalControls.ResetBytes` | kernel/drivers/video/flanterm/flanterm.c:899-902 | ESC c clears the screen, puts the cursor home and resets the parser |
| `TerminalControls.CharsetBytes` | kernel/drivers/video/flanterm/flanterm.c:933-937 | ESC ( and ESC ) with 0 or B choose the special or the default set for G0 or G1 |
| `TerminalControls.PrintedByte` | kernel/drivers/video/flanterm/flanterm.c:1567-1593 | a printable byte is printed once, through the table of the special set where that is chosen, after making room in insert mode |
| `TerminalControls.InsertModePuts` | kernel/drivers/video/flanterm/flanterm.c:1567-1590 | printing in insert mode inserts the character into the line |
| `TerminalControls.SavedComesBack` | kernel/drivers/video/flanterm/flanterm.c:836-857 | after ESC 7, any bytes without another ESC 7 and ESC c, and ESC 8, cursor, colours, style and character set are those of the ESC 7 |
| `TerminalStrings.StringExact` | kernel/drivers/video/flanterm/flanterm.c:481-512 | a string between ESC ] and BEL or ESC \ does to the screen what its characters outside ASCII do alone, and ends; so it is ignored if it is ASCII |
| `TerminalStrings.OtherPrinted` | kernel/drivers/video/flanterm/flanterm.c:1455-1497 | any other character that has a glyph is printed although it is inside such a string |
| `TerminalStrings.StringCut` | kernel/drivers/video/flanterm/flanterm.c:481-495 | ESC and another byte end the string and act as the escape sequence they are |
| `TerminalPaper.TextScrolls` | kernel/drivers/video/flanterm/flanterm.c:1534-1593 | for text of any length with newlines, written from inside the region, after every byte the region is a window on a roll of paper: its old contents at the head, blank behind, each character where wrapping and newlines put it, the paper moved on by as many lines as the window needs, everything else as before, if and only if every line wrap leads to a row whose number is less than the number of columns |
| `TerminalPaper.WideScreen` | kernel/drivers/video/flanterm/flanterm.c:1534-1593 | that is always so if the bottom margin is not below as many rows as there are columns |
| `TerminalPaper.NewPrints` | kernel/drivers/video/flanterm/flanterm.c:88-119 | the same for a new terminal, which prints plainly, scrolls over the whole screen and shows its cursor |
| `TerminalPaper.ResetPrints` | kernel/drivers/video/flanterm/flanterm.c:899-902 | the same after ESC c, whatever the modes and margins were, on a blank sheet |
| `TerminalCommands.SequenceEnds` | kernel/drivers/video/flanterm/flanterm.c:571-586 | a control sequence ends with its final byte if and only if that is one of the handled ones; otherwise the screen is as it was, scrolling stays off and the parser goes on |
| `TerminalCommands.AfterIsGround` | kernel/drivers/video/flanterm/flanterm.c:831-834 | the parser is outside every sequence after a handled one, with nothing else of it changed |
| `TerminalCommands.UnhandledSwallows` | kernel/drivers/video/flanterm/flanterm.c:571-586 | behind a sequence that is not handled, text is lost up to and with the first byte from 0x40 on, and scrolling stays off |
| `TerminalCommands.CursorExact` | kernel/drivers/video/flanterm/flanterm.c:590-657 | as bytes, CSI A to G, `, a, d and e put the cursor where they should and change nothing else, if and only if they do not go down from the row below the bottom margin or to row or column zero |
| `TerminalCommands.CursorPositioned` | kernel/drivers/video/flanterm/flanterm.c:658-669 | CSI row ; column H or f puts the cursor there, counted from one and limited to the screen, and ends the sequence |
| `TerminalCommands.CursorSaved` | kernel/drivers/video/flanterm/flanterm.c:768-770 | CSI s remembers where the cursor is and changes nothing else |
| `TerminalCommands.CursorRestored` | kernel/drivers/video/flanterm/flanterm.c:771-773 | CSI u puts it there |
| `TerminalCommands.EraseDisplayBytes` | kernel/drivers/video/flanterm/flanterm.c:708-741 | as bytes, CSI J with each parameter erases what it should, exactly under the conditions of EraseBelowExact and EraseAboveExact, and nothing for parameters above 3 |
| `TerminalCommands.EraseLineBytes` | kernel/drivers/video/flanterm/flanterm.c:774-793 | the same for CSI K |
| `TerminalCommands.CharacterBytes` | kernel/drivers/video/flanterm/flanterm.c:742-764 | as bytes, CSI @, P and X insert, delete and erase as many characters as asked for, exactly under the conditions of their theorems |
| `TerminalCommands.LineBytes` | kernel/drivers/video/flanterm/flanterm.c:670-688 | as bytes, CSI L and M insert and delete lines, exactly under theirs |
| `TerminalCommands.MarginBytes` | kernel/drivers/video/flanterm/flanterm.c:794-816 | CSI top ; bottom r sets the margins if they enclose at least two rows of the screen and else to the whole screen, and puts the cursor home |
| `TerminalCommands.ModeBytes` | kernel/drivers/video/flanterm/flanterm.c:446-478 | CSI 4 h and CSI 4 l turn insert mode on and off; other numbers change nothing |
| `TerminalCommands.ColourBytes` | kernel/drivers/video/flanterm/flanterm.c:765-767 | CSI m hands all its parameters and no others to select graphic rendition and takes style and colours from it |
| `PrintfTheorems.RevValue` | kernel/libc/stdio/nanoprintf.h:532-542 | the digits, read back in their base, give the value |
| `PrintfTheorems.RevLength` | kernel/libc/stdio/nanoprintf.h:532-542 | there are n digits exactly if the value lies between the powers n - 1 and n of the base |
| `PrintfTheorems.DigitsFit` | kernel/libc/stdio/nanoprintf.h:69-76 | every 64-bit value with an octal zero in front fits the buffer of 23 characters |
| `PrintfTheorems.Layout` | kernel/libc/stdio/nanoprintf.h:1099-1213 | a number is blanks, sign, prefix, digits and blanks, with all zeros in one place |
| `PrintfTheorems.ReadBack` | kernel/libc/stdio/nanoprintf.h:942-1213 | for every value, flags, width and precision the field read in the manner of strtoll gives the argument, if and only if the argument is zero or not both `-` and `0` are set with a width above the length of sign, prefix and digits |
| `PrintfTheorems.LiteralReadsBack` | kernel/libc/stdio/nanoprintf.h:297-530 | that is always so for directives whose width is not an asterisk |
| `PrintfTheorems.StarZerosAfter` | kernel/libc/stdio/nanoprintf.h:882-888 | a negative width from an argument together with the 0 flag is the exception |
| `PrintfTheorems.FieldLength` | kernel/libc/stdio/nanoprintf.h:1120-1145 | the length is the larger of the width and of sign, prefix and digits together, for all values and directives |
| `PrintfDirectives.DirectiveRead` | kernel/libc/stdio/nanoprintf.h:297-530 | every directive written as ISO C11 asks is read to its end and means what it says: `-` overrides `0`, `+` overrides the blank, a precision overrides `0` |
| `PrintfDirectives.MinusPrecision` | kernel/libc/stdio/nanoprintf.h:360-366 | a precision written with a minus sign is read to its end and counts as none |
| `PrintfFormats.DirectivePrints` | kernel/libc/stdio/nanoprintf.h:864-1220 | an integer directive anywhere in a format prints one field that reads back as the next argument and has the right length, and the rest of the format follows |
| `PrintfStandard.ArgumentRecovered` | kernel/libc/stdio/nanoprintf.h:942-1000 | the value taken for a conversion is the argument as the type that the standard names |
| `PrintfStandard.NumeralIsReverse` | kernel/libc/stdio/nanoprintf.h:532-542 | the reversed digits are the numeral of the value, in the letter case asked for |
| `PrintfStandard.StarsTaken` | kernel/libc/stdio/nanoprintf.h:882-897 | asterisks take their arguments first, width before precision |
| `PrintfStandard.FieldExact` | kernel/libc/stdio/nanoprintf.h:864-1213 | for every directive that is defined and every argument, the field is character by character what the standard asks for (sign, prefix, letter case, precision, padding, %s, %c and %%), if and only if it is not one of the listed departures, which are conditions on the directive and its arguments |
| `PrintfStandard.NegativePrecisionDeparts` | kernel/libc/stdio/nanoprintf.h:889-897 | a negative precision from an argument together with the 0 flag is one of them |
| `PrintfFormats.LonePercentPrints` | kernel/libc/stdio/nanoprintf.h:873-877 | a % that starts no directive is printed as it is |
| `PrintfFormats.TextPrints` | kernel/libc/stdio/nanoprintf.h:873-877 | ordinary text anywhere in a format is printed unchanged and takes no argument |
| `PrintfFormats.OrdinaryPrints` | kernel/libc/stdio/nanoprintf.h:873-877 | so a format without % prints itself, whatever the arguments |
| `PrintfFormats.AnyDirectivePrints` | kernel/libc/stdio/nanoprintf.h:864-1213 | a directive prints its field with the arguments from its own first one on, and the rest follows with the arguments behind them |
| `PrintfFormats.FormatPrints` | kernel/libc/stdio/nanoprintf.h:864-1220 | every format of ordinary text and directives prints its pieces in order, each directive with its own arguments; if no directive departs, the whole output is what the standard asks for |
| `Printf.ParseFormatSpec` | kernel/libc/stdio/nanoprintf.h:297-530 | the parsing loops compute the directive that DirectiveRead is about |
| `Printf.UtoaRev` | kernel/libc/stdio/nanoprintf.h:532-542 | the digit loop fills the buffer with the reversed digits and stays inside it |
| `Printf.UnsignedPayload` | kernel/libc/stdio/nanoprintf.h:980-1047 | digits, octal zero and prefix of an unsigned argument, within 23 characters |
| `Printf.SignedPayload` | kernel/libc/stdio/nanoprintf.h:942-978 | sign and digits of a signed argument, including the least 64-bit number |
| `Printf.BinaryDigits` | kernel/libc/stdio/nanoprintf.h:1192-1197 | the bits that the shifting loop of %b takes out are the binary digits |
| `Printf.ConvertArgument` | kernel/libc/stdio/nanoprintf.h:917-1097 | the argument of any conversion as text |
| `Printf.Sink.Put` | kernel/libc/stdio/nanoprintf.h:825-847 | counts every character and stores those that fit |
| `Printf.EmitField` | kernel/libc/stdio/nanoprintf.h:1147-1213 | the padding loops print left padding, sign, prefix, zeros, payload and right padding |
| `Printf.Vpprintf` | kernel/libc/stdio/nanoprintf.h:864-1220 | prints the texts of all rounds in order, which FormatPrints is about, and returns their total length |
| `Printf.Vsnprintf` | kernel/libc/stdio/nanoprintf.h:1238-1261 | the buffer holds the longest prefix of the output that leaves room for a NUL, then the NUL, and the full length is returned |

## Left out

- Spin locks, interrupt masking, TLB invalidation, CR3, MSR and FPU instructions and the context switch: every kernel operation is one step.
- Scheduler.RoundRobin.Reap: removes the node only; the unmapping of stack and heap in its loop, which frees no frame, is not part of this model.
- Scheduler.RoundRobin.Schedule: requires that the search for an awake process ends, as Sleep and Exit do; where it does not, the loop of the source runs for ever or meets a null pointer.
- The loops of vmm_install that map the kernel image and the direct map, and the page-fault handler: they only repeat MapFixed and MapNew steps.
- Spawn.SpawnElf: the first two steps of process_spawn_elf; the heap page, the stack pages and the process record behind them are not part of this model.
- Vmm.Machine.MapPage: in the lower half of a process only frames allocated for the page; mmap with a file maps frames that do not come from the frame allocator and is not part of this model.
- Vmm.Machine.UnmapFree: for a page that owns its frame or is not mapped; freeing a frame that another page still maps has no counterpart in the roles.
- Syscall.Process.Munmap: requires that the mapped pages of an allowed request own their frames, which HeapPagesOwned provides for every request that does not wrap around; a wrapping one can name kernel pages that own none.
- Vmm.Machine.NewPagemap: a pagemap is the frame of its PML4; the heap block for the pagemap record is not part of this model.
- Elf.Load: requires filesz <= memsz and addresses that do not wrap around; other images, and LoadSegment on their segments, are not part of this model.
- UserMemory.MapCopy: requires that the mapped target pages own their frames, as loaded segments do, and takes the source buffer as a value, not as memory reached through the same tables.
- UserMemory.MapZero: requires that the mapped target pages own their frames.
- Page-table flags other than present, writable, user and no-execute, and frames above the highest page of the bitmap.
- Heap addresses and sizes are unbounded numbers except in the size computation of kmalloc and the pointer of kfree; kmalloc_phys is not part of this model.
- KernelHeap.AllocatorHeap.Kmalloc: block headers are maps from addresses to words; that header writes touch no live payload is stated on the byte ranges of headers and payloads, not on the bytes of memory.
- KernelHeap.AllocatorHeap.Kfree: requires null, a live pointer or one that the bounds or alignment check catches; for any other pointer the source reads a header from bytes that hold none.
- The list node and its process are one object; ticks are unbounded; the type, stack, name and register fields of a process, and the early exits of process_schedule for missing pagemaps or before the first process exists.
- TerminalModel.Parse: flanterm's context is one record that each byte replaces; the order of the single field updates inside one byte, and the clamping of parameters in their array, are not captured. Callbacks are absent. Select graphic rendition, the code page 437 table, character widths and the special character set are arbitrary functions, so what they compute is not stated.
- TerminalModel.Command: select graphic rendition is an arbitrary function of the parameters.
- TerminalPaper.TextScrolls: for text written from inside the scroll region, with automatic carriage return and scrolling on; below the region text is single characters as WrapExact and PutExact say.
- TerminalControls.ReturnAndBackspace: requires fewer than 2^64 columns, as a size_t has; ReverseIndexExact requires the same of the rows and TerminalCommands.CharacterBytes of the columns.
- TerminalCommands.CursorRestored: requires that the remembered position is on the screen, as CursorSaved makes it.
- TerminalSequences.PrivateRead: requires at least one parameter, the last of them not empty, as SequenceEnds does if there are any; a sequence that ends with a semicolon is not part of these statements.
- flanterm_fb_full_refresh with queued cells; glyph plotting, fonts, rotation, canvas and colour conversion.
- Printf.Vpprintf: widths, precisions and the character count are unbounded numbers, where the source has ints whose overflow C leaves undefined, and the supply of arguments is unlimited.
- Printf.Vsnprintf: returns the full length as an unbounded number, not as an int.
- Floating-point conversions, which this configuration disables, and npf_snprintf and npf_pprintf, which only collect arguments.
- ssfn.h, tarfs, vfs, devfs, libc string functions, drivers, descriptor tables, PCI, sound, keyboard, serial and the shell.
