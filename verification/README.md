# vinoS kernel model

A Dafny model of the hard core of vinoS, an x86_64 kernel written in C, with proofs about it. Classes with `modifies`
clauses stand for the kernel's mutable structures, their methods for its functions and loops; specification functions
and state machines say what these compute, and lemmas prove what the kernel relies on. `dafny verify dfyconfig.toml`
checks everything.

| files | what they model |
|---|---|
| `Pmm.dfy` | the bitmap frame allocator as a pair of sets |
| `Vmm.dfy`, `PageCost.dfy`, `FrameBudget.dfy`, `PageMaps.dfy` | four-level page tables as a tree that denotes a partial map, with its cost in frames; whole lives of address spaces |
| `KernelPages.dfy`, `Heap.dfy` | the kernel heap: blocks tiling the mapped area, coalescing, reclaiming, reallocation, over pages and page tables paid for in frames |
| `UserSpace.dfy`, `UserStack.dfy`, `Elf.dfy`, `ElfFiles.dfy` | user memory, the initial stack of the System V AMD64 ABI, the ELF64 loader, files for it |
| `BlockCache.dfy` | the write-back LRU block cache against a plain disk |
| `Fat32Names.dfy`, `Fat32Chains.dfy`, `Fat32.dfy`, `Fat32Examples.dfy` | 8.3 names, cluster chains, files in the root directory, volumes for the findings |
| `Scheduler.dfy`, `WaitQueue.dfy` | round-robin scheduling, the sleep queue, condition wait queues under every interleaving |
| `Handles.dfy` | capability handles, generations, reference counts |
| `Field25519.dfy`, `X25519.dfy`, `Poly1305.dfy`, `Sha256.dfy`, `Sha256Examples.dfy`, `Kpkg.dfy` | the limb arithmetic of X25519 and Poly1305, buffered SHA-256 with a worked example, package verification |
| `Bytes.dfy`, `Options.dfy`, `Lists.dfy`, `Modular.dfy`, `Words.dfy` | shared vocabulary: bytes, bit operations on words, lists, modular arithmetic |

Lock-held and interrupt-disabled regions are atomic steps. Machine words are numbers with explicit bounds, wrap-around
and carries; the limb arithmetic uses bounded integer types, so that the absence of overflow is part of what is proved.
I/O, clocks and calls into code outside the model are parameters: the file a path yields, what a package reader
returns, which buffers kmalloc grants, which kernel page tables exist at boot, when a device holds a block, when time
passes, what other tasks do, what the condition of a waiter answers.

## Findings

Places where the code does not do what one expects. Each is stated as it is, with its exact condition.

- The Poly1305 tag drops bits 52..63 of the accumulator and the carry between its two words: it is the tag of RFC 8439
  exactly if those bits are zero and the low words add without a carry (`Poly1305.FinalTagIsRfcIff`,
  `Poly1305.TagCounterexample`).
- A file cannot be created in the root directory under a path with exactly one leading separator; with none or with
  several it can (`Fat32.LeadingSeparators`).
- Overwriting a file when the new contents do not fit frees the old chain first and leaves an entry that points to free
  clusters, unless the old chain was empty (`Fat32Files.Volume.Overwrite`, `Fat32Examples.DanglingExample`).
- A write for which a cluster buffer cannot be had reports success and leaves that cluster zero. The contents survive
  exactly if they are zero there (`Fat32Files.KeptIff`, `Fat32Examples.DeniedExample`).
- A file can be read exactly if it is empty or both read buffers can be had, so a file larger than the heap area can be
  written but never read (`Fat32.ReadFile`, `Heap.KernelHeap.TooLarge`, `Fat32Examples.LargeFileExample`).
- Names that start with the byte 0xe5 are stored as deleted entries. A write under such a new name succeeds and leaks the
  clusters it takes, so the volume stays well-formed exactly if the file is empty (`Fat32.WriteFile`,
  `Fat32Examples.LeakExample`).
- A new file can be found again exactly if its name is representable, does not start with 0xe5 and ends the path. For
  paths up to 255 bytes a separator at the end makes the write fail; beyond that, which the vfs does not pass on, it makes
  an entry without a name (`Fat32.WriteThenRead`, `Fat32Examples.NamelessExample`).
- Formatting undoes 8.3 generation exactly for representable names (`Fat32Names.RoundTripIff`).
- The ELF loader accepts segments on the guard page and the stack. The stack is cleared and the guard page unmapped
  afterwards, so memory is what the file describes exactly if no segment touches the guard page and only zeros lie on the
  stack; the frame behind the guard page belongs to nobody (`Elf.IntactIff`, `ElfFiles.GuardExample`,
  `ElfFiles.StackExample`, `UserStack.ClearGuard`).
- A page shared by several ELF segments has the permissions of the first, and a stack page with a segment on it those of
  the segment. After a load every segment has what it asks for exactly if segments that share a page ask for the same and
  none touches the guard page (`Elf.PermissionsIff`, `Elf.StackPermissionsIff`, `ElfFiles.SharedExample`,
  `ElfFiles.GuardExample`).
- The block cache reports a write as done before the device has it. A dirty block survives its eviction exactly if the
  device accepts it then; others, such as those beyond the end of the device, are dropped
  (`BlockCache.Cache.Evict`, `BlockCache.LostWriteExample`).
- A thread that is ended while it waits leaves its entry in the wait queue. A wake_one is lost exactly if such an entry is
  the first (`WaitQueue.StrayEntry`, `WaitQueue.LostWakeIff`, `WaitQueue.StrayExample`).
- Unmapping a page mapped to frame 0 returns 0, as for an unmapped page (`Vmm.AddressSpaces.UnmapPage`,
  `PageMaps.ZeroFrameExample`).

## Model

| member | source | states |
|---|---|---|
| `Pmm.RangeMaskBit` | mm/pmm.c:74-85 | bit i of the mask for a bitmap word is set exactly when frame 64·word+i lies in the interval, also in the first and last word |
| `Pmm.MarkWord` | mm/pmm.c:87-102 | one turn of the marking loop adds exactly the frames of the interval in that word; only frames that were not usable before become free and are counted |
| `Pmm.FrameAllocator.MarkUsableFrames` | mm/pmm.c:87-102 | usable grows by the interval, free by its frames that were not usable before, and both counters keep counting the sets, however ranges overlap |
| `Pmm.RegionFrames` | mm/pmm.c:134-153 | rounding the base up and the saturated, clipped end down selects exactly the whole tracked frames of a region except frame 0 |
| `Pmm.FrameAllocator.MarkUsableRange` | mm/pmm.c:134-153 | the whole frames of one usable region become usable, the new ones free |
| `Pmm.FrameAllocator.MarkRegions` | mm/pmm.c:155-190 | after the loop the usable set is the union of the whole frames of all usable regions; a missing entry stops it |
| `Pmm.FrameAllocator.Initialize` | mm/pmm.c:155-198 | usable = free = the whole frames of all usable regions minus frame 0; initialisation succeeds exactly if all entries are present and that set is not empty |
| `Pmm.CandidateFrames` | mm/pmm.c:200-213 | the masked word is zero exactly if no free frame of the interval lies in it, and its lowest bit is the least such frame |
| `Pmm.FrameAllocator.FindFreeFrame` | mm/pmm.c:200-213 | the least free frame of the interval; 0 exactly if there is none |
| `Pmm.FrameAllocator.NextFit` | mm/pmm.c:215-240 | the two partial searches together find a free frame if there is any: the least one at or above the hint, else the least of all |
| `Pmm.FrameAllocator.AllocateFrame` | mm/pmm.c:215-240 | fails exactly if the allocator is not initialised or nothing is free; otherwise removes the next-fit frame from the free set and nothing else, and the hint moves behind it |
| `Pmm.FrameAllocator.FreeFrame` | mm/pmm.c:242-260 | succeeds exactly on the addresses of usable frames that are not free, which then are; the hint falls back to a lower one |
| `Pmm.FrameAllocator.FindRun` | mm/pmm.c:283-314 | one scan returns the first run of free frames inside its interval, or there is none in it |
| `Pmm.FrameAllocator.FindRunAnywhere` | mm/pmm.c:283-319 | the two scans around the hint miss no run: 0 exactly if no run of that length exists anywhere, otherwise the first at or above the hint, or else the first of all |
| `Pmm.FrameAllocator.AllocPages` | mm/pmm.c:270-332 | fails exactly if uninitialised, asked for nothing, or no run of that many free frames exists; otherwise takes exactly the next such run from the hint on |
| `Pmm.FrameAllocator.TakeRun` | mm/pmm.c:321-328 | clears exactly the frames of the run, keeping count and bitmap in step |
| `Pmm.FrameAllocator.AllAllocated` | mm/pmm.c:346-353 | true exactly if the whole run is usable and allocated |
| `Pmm.FrameAllocator.GiveRun` | mm/pmm.c:354-361 | sets exactly the frames of the run, keeping count and bitmap in step |
| `Pmm.FrameAllocator.FreePages` | mm/pmm.c:334-364 | all or nothing: succeeds exactly if every frame of the run is allocated, and then frees exactly those; the hint falls back to a lower run |
| `PageTree.EmptyIffNoEntry` | mm/vmm.c:56-63 | a table has no present entry exactly if it has neither a child table nor a page |
| `PageTree.LinkTable` | mm/vmm.c:97-125 | linking a cleared frame into an absent entry keeps the tree a tree with every table referenced once |
| `PageTree.UnlinkTable` | mm/vmm.c:65-77 | unlinking a table without entries keeps the tree |
| `PageTree.LinkLeaf` | mm/vmm.c:305-315 | writing an absent leaf entry adds exactly one page to the map the tree denotes |
| `PageTree.UnlinkLeaf` | mm/vmm.c:502-507 | zeroing a leaf entry removes exactly one page from the map |
| `PageTree.TreeDeterminesTables` | mm/vmm.c:317-331 | two trees with the same tables, pages and kernel halves have the same entries, so a rolled-back mapping leaves memory as it was |
| `Vmm.AddressSpaces.PageTableIsEmpty` | mm/vmm.c:56-63 | true exactly if none of the 512 entries is present |
| `Vmm.AddressSpaces.NextTable` | mm/vmm.c:97-125 | the child table, created from a free frame if absent; 0 exactly if it is absent and no frame is free |
| `Vmm.AddressSpaces.ReleaseOwnedEmptyTable` | mm/vmm.c:65-77 | frees and unlinks the child exactly if it exists and has no entry |
| `Vmm.AddressSpaces.MapAt` | mm/vmm.c:284-331 | the walk from any level down, with rollback: succeeds exactly if the page is unmapped and the missing tables can be paid for; otherwise tables, map and free set are as before |
| `Vmm.AddressSpaces.MapPage` | mm/vmm.c:266-331 | adds exactly one binding and never replaces one; the walk of the processor then ends in an entry with the frame and the three permissions asked for, field by field; success is exactly: acceptable arguments, page unmapped, enough free frames for the tables missing; the frames taken are exactly those tables; a failure leaves map, tables and free set unchanged; PML4 slots 256..511 are untouched |
| `Vmm.AddressSpaces.QueryPage` | mm/vmm.c:337-403 | finds a page exactly if it is mapped, with its frame plus the page offset and, field by field, its permissions |
| `Vmm.Translated` | mm/vmm.c:337-403 | the processor's walk translates exactly the mapped pages, to their frames and with their own permissions |
| `Vmm.AddressSpaces.MapThenQuery` | mm/vmm.c:266-403 | a query of what was just mapped returns the address and the permissions asked for, and so does the processor's walk |
| `Vmm.AddressSpaces.ReleaseUpwards` | mm/vmm.c:508-512 | after a leaf is gone, releases exactly the tables that became empty, so every table is in use again |
| `Vmm.AddressSpaces.UnmapPage` | mm/vmm.c:462-515 | removes exactly one binding and returns its frame, or changes nothing and returns 0; free frames plus tables are conserved |
| `Vmm.AddressSpaces.CreateAddressSpace` | mm/vmm.c:148-171 | a new PML4 with empty lower half and the kernel's upper half, from a free frame; 0 exactly if none is free |
| `Vmm.AddressSpaces.ClearTable` | mm/vmm.c:173-246 | the nested loops below a table remove everything under it, returning each table and each managed page frame once |
| `Vmm.AddressSpaces.ClearUserAddressSpace` | mm/vmm.c:173-246 | removes all pages and all tables but the PML4 of the address space; the free set grows by exactly their frames; other address spaces and the kernel's own are untouched |
| `Vmm.AddressSpaces.DestroyAddressSpace` | mm/vmm.c:248-264 | the same including the PML4: the free set afterwards is the former one plus all tables plus all managed page frames |
| `Vmm.TablesArePrefixes` | mm/vmm.c:65-77 | the tables of a level are exactly the 2 MiB, 1 GiB or 512 GiB prefixes of mapped pages |
| `Vmm.FramesHeld` | mm/vmm.c:65-77 | an address space holds one PML4 plus one frame per distinct 512 GiB, 1 GiB and 2 MiB prefix in use |
| `Vmm.MissingIsMissing` | mm/vmm.c:284-331 | how many tables a mapping creates follows from the mapped pages alone |
| `Vmm.NodesRestored` | mm/vmm.c:317-331 | tables that were added and given back leave the very same tables at the very same frames |
| `Vmm.TeardownCount` | mm/vmm.c:173-264 | teardown frees every frame once: for distinct, allocated page frames the free count grows by pages plus tables |
| `FrameBudget.TablesGiven` | mm/vmm.c:508-512 | unmapping a page removes exactly the tables no other page needs |
| `FrameBudget.UnmapBudget` | mm/vmm.c:462-515 | the frames an unmapping frees are exactly the tables no other page needs |
| `FrameBudget.CostAdd` | mm/vmm.c:284-331 | one more page costs its frame plus one for each 2 MiB, 1 GiB and 512 GiB table no mapped page has needed yet |
| `FrameBudget.CostGrows` | mm/vmm.c:284-331 | more pages never cost fewer frames |
| `FrameBudget.MapCost` | mm/vmm.c:284-331 | mapping a page raises the cost of the mapped pages by exactly its frame and the tables created |
| `PageMaps.MapUnmap` | mm/vmm.c:266-331 | unmapping what was just mapped restores map and budget and returns the mapped frame |
| `PageMaps.DoMap` | mm/vmm.c:266-331 | a map call is a step of the abstract partial map with its frame budget, whether the frame is the caller's own or any other address |
| `PageMaps.DoUnmap` | mm/vmm.c:462-515 | an unmap call is such a step, including the number of frames it frees |
| `PageMaps.DoQuery` | mm/vmm.c:337-403 | a query answers from the abstract map with the address and the permissions of the page, and with none if it is not mapped |
| `PageMaps.MapQuery` | mm/vmm.c:266-403 | a query of what was just mapped answers with the address and the permissions asked for |
| `PageMaps.DoCreate` | mm/vmm.c:148-171 | creating an address space costs one frame of the budget and adds no page |
| `PageMaps.DoClear` | mm/vmm.c:173-246 | clearing an address space is a step of the abstract map: its pages go, and the budget grows by exactly its tables and the caller's frames in it, each once |
| `PageMaps.DoDestroy` | mm/vmm.c:248-264 | destroying one gives back the PML4 as well, and its name stands for a null PML4 from then on |
| `PageMaps.TornCount` | mm/vmm.c:173-264 | how many frames a teardown frees, from the mapped pages alone |
| `PageMaps.LifeRestores` | mm/vmm.c:248-264 | once every address space made is destroyed and every frame taken is given back, exactly the frames that were free in the beginning are free again, and the tables are the same |
| `PageMaps.UnmapOthers` | mm/vmm.c:462-515 | unmapping a page leaves the tables of all other address spaces in place |
| `PageMaps.ZeroFrameExample` | mm/vmm.c:266-515 | a page mapped to physical address 0 is found by a query, and unmapping it answers 0 as unmapping an absent page does |
| `PageMaps.Run` | mm/vmm.c:148-515 | every sequence of create, map, unmap, query, clear and destroy calls and of frames taken and given back is a run of the abstract map, reply by reply, for callers that only give back and only tear down what is theirs; free frames, tables and the caller's frames together never change; a whole life restores the free count; the upper half of a PML4 that was there before never changes |
| `PageMaps.DoTake` | mm/pmm.c:215-240 | a frame for the caller is a step of the abstract map: fails exactly if the budget is empty |
| `PageMaps.DoGive` | mm/pmm.c:242-260 | a frame of the caller goes back to the budget |
| `KernelPages.KernelMap.MapRun` | mm/heap.c:82-103 | maps all pages, or none with pages, tables and free set as before; succeeds exactly if all pages of the heap with all their page tables fit into the frames there are |
| `KernelPages.KernelMap.UnmapRun` | mm/heap.c:136-141 | gives back exactly the frames of the run and of the page tables no remaining page needs |
| `KernelPages.KernelMap.MapNew` | mm/heap.c:84-94 | one page with the tables it lacks, or nothing |
| `PageCost.CostAdd` | mm/heap.c:84-94 | one more page costs its frame and the tables on its walk that neither another page nor the boot tables have |
| `PageCost.CostGrows` | mm/heap.c:84-94 | more pages never cost fewer frames, whatever tables there are without them |
| `HeapCells.SplitTiles` | mm/heap.c:182-196 | cutting a block leaves blocks that tile the heap area |
| `HeapCells.SplitLinked` | mm/heap.c:182-196 | the header writes of a split leave a correctly linked list |
| `HeapCells.MergeTiles` | mm/heap.c:47-60 | merging neighbours leaves blocks that tile the heap area |
| `HeapCells.MergeLinked` | mm/heap.c:47-60 | the header writes of a merge leave a correctly linked list |
| `Heap.KernelHeap.FindFree` | mm/heap.c:62-69 | the first free block that is large enough, or there is none |
| `Heap.KernelHeap.Grow` | mm/heap.c:71-119 | succeeds exactly if the area has room and the grown heap with its page tables fits into the frames there are; appends one free block of just the whole pages needed; otherwise nothing changes |
| `Heap.KernelHeap.Split` | mm/heap.c:182-196 | cuts block i at the given size without touching live bytes |
| `Heap.KernelHeap.Take` | mm/heap.c:182-199 | hands out block i, cut if large enough: at most 47 bytes more than the size asked for, the rest a free block right behind it, all other blocks as before; live bytes untouched |
| `Heap.TakenBalance` | mm/heap.c:182-199 | the free bytes shrink by exactly the block handed out, and by one header if it was cut |
| `Heap.KernelHeap.Allocate` | mm/heap.c:163-202 | succeeds exactly if initialised, the size is positive and some free block fits or the heap can grow; the new block is live, aligned, new and less than 48 bytes larger than the aligned size; it starts the first free block that fits, or the pages the heap grew by; the rest is free; all live bytes are kept; a failure changes nothing |
| `Heap.KernelHeap.TwoInOnePage` | mm/heap.c:163-202 | two small allocations from an empty heap lie one behind the other in one page |
| `Heap.SameList` | mm/heap.c:14-60 | the live blocks determine the whole block list: what is between them is one free block each |
| `Heap.KernelHeap.TooLarge` | mm/heap.c:71-81 | in no state is there a block larger than the heap area |
| `Heap.KernelHeap.MergeWithNext` | mm/heap.c:47-60 | merges with a free right neighbour: no free pair remains there, live blocks and bytes are kept |
| `Heap.KernelHeap.ReclaimTrailing` | mm/heap.c:121-150 | unmaps a free page-aligned last block, returning its frames; what remains ends with a live block; live blocks and bytes are kept |
| `Heap.TrimmedTop` | mm/heap.c:121-150 | after trimming, the mapped area ends right behind the last live block, rounded up to a page |
| `Heap.KernelHeap.FindLive` | mm/heap.c:206-224 | recognises exactly the pointers of live blocks |
| `Heap.KernelHeap.Release` | mm/heap.c:230-237 | frees one live block, merges both ways and reclaims: exactly that block is gone from the live ones, and the invariant (no two free neighbours, exact count, empty when nothing is live) holds again |
| `Heap.KernelHeap.Free` | mm/heap.c:204-239 | succeeds exactly on live pointers, so never twice and never inside a block; all other live bytes are kept |
| `Heap.KernelHeap.CopyBytes` | mm/heap.c:298-301 | copies the range and changes nothing else |
| `Heap.KernelHeap.Move` | mm/heap.c:294-303 | allocate, copy, free: the old contents are at the new block, all other live blocks as before |
| `Heap.KernelHeap.Reallocate` | mm/heap.c:255-304 | the contents up to the smaller size survive, other live blocks keep theirs; the cases of failure are exact |
| `Heap.KernelHeap.Initialize` | mm/heap.c:152-161 | an empty heap |
| `Heap.KernelHeap.Quiescent` | mm/heap.c:121-150 | whenever no allocation is live the list is empty, nothing is mapped, and every frame is back, those of the page tables included |
| `Heap.LiveBlocks` | mm/heap.c:163-202 | live blocks are pairwise disjoint, 16-byte aligned and inside the mapped area |
| `Heap.NothingLive` | mm/heap.c:121-150 | without live blocks and free pairs there is at most one block |
| `PageCost.TablesOfAddress` | mm/vmm.c:46-48 | the tables on a page's walk are those of its 2 MiB, 1 GiB and 512 GiB of addresses |
| `KernelPages.KernelMap.EnsureTables` | mm/vmm.c:97-125 | the walk creates exactly the missing tables, exactly if there are frames for all of them, and takes them back otherwise |
| `KernelPages.KernelMap.EmptyIff` | mm/vmm.c:56-77 | a table on the walk is empty exactly if no page needs it |
| `KernelPages.KernelMap.ReleaseTables` | mm/vmm.c:508-512 | releasing upwards from an unmapped page leaves exactly the tables the remaining pages need |
| `KernelPages.KernelMap.UnmapAndFree` | mm/vmm.c:462-515 | page, tables and frame go back together |
| `UserSpace.UserMemory.MapZeroed` | fs/elf.c:319-331 | a page gets a zeroed frame of its own with the flags asked for, or nothing changes; succeeds exactly if the free frames cover the frame and the tables missing |
| `UserSpace.EnsurePage` | fs/elf.c:319-331 | the page is mapped afterwards, freshly zeroed exactly if it was not mapped before, and keeps its permissions if it was; fails exactly if the budget does not cover it, changing nothing |
| `UserSpace.UserMemory.WriteInPage` | fs/elf.c:341-347 | exactly the given bytes of one page change |
| `UserSpace.UserMemory.Release` | fs/elf.c:182-187 | unmaps one page and gives back its frame and exactly the tables that became unnecessary |
| `UserSpace.UserMemory.Detach` | fs/elf.c:80-83 | unmapping without giving the frame back: the budget shrinks by exactly that frame, its tables return |
| `UserSpace.UserMemory.Clear` | fs/elf.c:366-368 | no page remains; free frames, tables and page frames are conserved |
| `Elf.UntouchedIsZero` | fs/elf.c:317-348 | outside the pages of all segments the prescribed image is empty |
| `Elf.ImageOfSegment` | fs/elf.c:314-348 | inside a segment of an accepted file the prescribed image is the file's bytes, then zeros, whatever pages it shares |
| `Elf.SegmentChecks` | fs/elf.c:240-262 | the checks on a segment come to: its bytes are in the file, its addresses are in user space, and address and offset agree modulo its alignment, a power of two |
| `Elf.PowerOfTwoIff` | fs/elf.c:44-46 | the alignment check accepts exactly the powers of two |
| `Elf.OverlapIff` | fs/elf.c:270-283 | two segments overlap exactly if an address lies in both |
| `Elf.CopyRange` | fs/elf.c:333-346 | the copied range is exactly where the file's bytes belong on that page |
| `Elf.PageStep` | fs/elf.c:317-348 | one page, found or zeroed and then overlaid, extends the loaded image by that page and keeps pages shared with earlier segments right |
| `Elf.LoadPage` | fs/elf.c:317-348 | one turn of the page loop: contents, permissions and exact cost |
| `Elf.LoadSegment` | fs/elf.c:300-349 | all pages of one segment; succeeds exactly if the budget covers them |
| `Elf.LoadSegments` | fs/elf.c:299-349 | user memory equals the prescribed image byte for byte on exactly the pages of the segments; every page has the permissions of the first segment that touches it; succeeds exactly if the free frames cover the pages and their tables; frames are conserved |
| `Elf.FirstTouching` | fs/elf.c:299-331 | the first segment in file order that touches a page |
| `Elf.PermittedAdd` | fs/elf.c:317-331 | a page is mapped for the first segment on it and never again |
| `Elf.PermissionsIff` | fs/elf.c:80-107 | once a file is loaded, every page of every segment is mapped with the permissions that segment asks for exactly if segments that share a page ask for the same and none touches the guard page |
| `Elf.AsAskedIff` | fs/elf.c:299-331 | the first segment on every page asks for what the others there ask for exactly if segments that share a page agree |
| `Elf.StackPermissionsIff` | fs/elf.c:92-111 | every stack page is writable and not executable exactly if the first segment on each asks for that |
| `Elf.FinalPermissions` | fs/elf.c:299-364 | which pages are mapped in the end, and with which permissions |
| `UserStack.StackWrite` | fs/elf.c:48-67 | stores exactly the bytes, across pages, exactly if the range lies on the stack; otherwise nothing |
| `UserStack.MapStack` | fs/elf.c:92-111 | sixteen zeroed pages, found or new; remembers exactly the new ones; succeeds exactly if the budget covers the missing pages and their tables |
| `UserStack.Measure` | fs/elf.c:113-124 | accepts exactly present strings of at most 4096 bytes and sums their sizes |
| `UserStack.WriteStrings` | fs/elf.c:145-154 | every string lies terminated at its pointer, none overwritten by a later one; zeros below |
| `UserStack.StackPointerAligned` | fs/elf.c:138-162 | the stack pointer is 16-aligned, on the stack, and the table ends at most 15 bytes below the strings |
| `UserStack.TableReadBack` | fs/elf.c:164-176 | argc, every argv pointer with its string, and the terminators of argv, envp and auxv read back from memory |
| `UserStack.BuildStack` | fs/elf.c:113-179 | succeeds exactly if the arguments fit; then the program finds its arguments and zeros elsewhere on the stack |
| `UserStack.Unwind` | fs/elf.c:181-188 | unmaps and frees exactly the new pages |
| `UserStack.ClearGuard` | fs/elf.c:80-83 | the guard page is unmapped; a frame behind it goes to nobody, and the budget shrinks by exactly that frame |
| `UserStack.PlaceStack` | fs/elf.c:85-188 | succeeds exactly if the arguments fit and the frames suffice; on failure map, page tables and free set are exactly as before |
| `UserStack.SetupStack` | fs/elf.c:69-189 | aligned stack pointer, arguments and terminators read back exactly, all other memory as before; pages mapped before keep their permissions; succeeds exactly if the arguments fit and the frames suffice; on failure everything is given back; one frame is lost exactly if the guard page was mapped |
| `UserStack.GuardCost` | fs/elf.c:80-111 | the guard page needs no table the stack does not need anyway, so unmapping it changes nothing about what fits |
| `Elf.SegmentsIntact` | fs/elf.c:299-364 | if all segments end below the guard page, every byte of every segment is the file's byte or zero in the final memory |
| `Elf.IntactIff` | fs/elf.c:299-364 | files reaching the guard page or the stack are accepted too; their image survives exactly if only zeros lie there and no segment touches the guard page |
| `Elf.FinalMemory` | fs/elf.c:299-364 | segments first, stack second: the final memory at every address |
| `Elf.GiveUp` | fs/elf.c:366-368 | the error path restores the page map and the page tables from before loading; exactly the frame behind a mapped guard page stays lost |
| `Elf.LoadBinary` | fs/elf.c:191-369 | succeeds exactly if the file passes the checks and the free frames cover the pages of segments and stack with their tables; then memory and permissions are prescribed at every address and page, so many frames are left, and exactly one frame is nobody's if a segment touches the guard page; on failure map and tables are as before, and exactly one frame is missing if the segments fitted and one touches the guard page |
| `Elf.LoadAccepted` | fs/elf.c:299-368 | the same for a file that passes the checks |
| `ElfFiles.BuiltSegments` | fs/elf.c:203-262 | the loader reads back entry point and segments of the file built from them |
| `ElfFiles.BuiltAccepted` | fs/elf.c:203-297 | the loader accepts that file exactly if entry point and segments pass its checks |
| `ElfFiles.GuardExample` | fs/elf.c:80-364 | a file the loader accepts whose only segment agrees with itself, whose entry point is not mapped once it is loaded, and whose segment then lacks its permissions |
| `ElfFiles.StackExample` | fs/elf.c:92-364 | a file the loader accepts whose byte on the stack is lost, with a stack page that is executable and not writable |
| `ElfFiles.SharedExample` | fs/elf.c:299-331 | a file the loader accepts whose writable segment is not writable |
| `BlockCache.Cache.constructor` | fs/block_cache.c:47-72 | an empty cache over any disk: its view is the disk |
| `BlockCache.Cache.Coherence` | fs/block_cache.c:74-154 | a key has at most one valid entry, it is in its own hash chain, chains hold only valid entries, and clean entries agree with the disk |
| `BlockCache.Cache.Lookup` | fs/block_cache.c:74-83 | finds the slot of a key exactly if it is cached |
| `BlockCache.FlushStep` | fs/block_cache.c:85-100 | writing a dirty block back changes the disk, not the logical contents |
| `BlockCache.Cache.FlushEntry` | fs/block_cache.c:85-100 | the entry is clean and on disk exactly if the device accepts the block; otherwise it stays dirty; the view is unchanged |
| `BlockCache.DropStep` | fs/block_cache.c:121-123 | dropping an entry forgets what was not written back and changes nothing else |
| `BlockCache.ForgetClean` | fs/block_cache.c:117-123 | with a clean entry nothing is forgotten |
| `BlockCache.FullIff` | fs/block_cache.c:107-115 | the cache holds as many keys as slots exactly if every slot is valid |
| `BlockCache.TailIsOldest` | fs/block_cache.c:114-116 | in a full cache the tail of the list is the least recently accessed block |
| `BlockCache.Cache.FindInvalid` | fs/block_cache.c:103-112 | a slot that is not valid, if there is one |
| `BlockCache.Cache.Evict` | fs/block_cache.c:114-126 | exactly one block leaves the cache, the least recently accessed one; its contents are lost exactly if they are dirty and the device does not accept them, and the view is unchanged otherwise |
| `BlockCache.Cache.AllocateSlot` | fs/block_cache.c:102-148 | a slot for a new key at the head of its chain and of the list; evicts only from a full cache |
| `BlockCache.Cache.Touch` | fs/block_cache.c:150-154 | the block becomes the most recently used |
| `BlockCache.Cache.ReadBlock` | fs/block_cache.c:164-201 | returns what the view holds, and fails exactly if the block is neither cached nor accepted by the device; the block is cached and most recent; hits and misses are counted right |
| `BlockCache.Cache.WriteBlock` | fs/block_cache.c:215-239 | the view changes at exactly that block, on the device or beyond its end; only blocks the device does not accept can be lost |
| `BlockCache.Cache.Read` | fs/block_cache.c:156-205 | the plain disk's answer, block by block at lba, lba + 1 and so on, or a failure if the device does not accept one of the blocks in its turn; a block can be out of date only if it is lost in one turn of the request and accepted in another |
| `BlockCache.Cache.Write` | fs/block_cache.c:207-243 | exactly the plain disk's change: block i of the request at lba + i and no other, with faults that differ from turn to turn; only blocks that are dirty or being written and that the device refuses in some turn can be lost, and their loss is a return to what the disk holds |
| `BlockCache.PlainWriteAt` | fs/block_cache.c:207-243 | the plain disk after a write holds block i of it at lba + i and is otherwise unchanged, for ranges below 2^64 |
| `BlockCache.PlainReadAt` | fs/block_cache.c:156-205 | a plain read succeeds exactly if every block from lba on exists, and returns them in order |
| `BlockCache.PlainReadBack` | fs/block_cache.c:156-243 | what was written to a plain disk is read back |
| `BlockCache.PlainRunHolds` | fs/block_cache.c:156-243 | after any run of requests each block of the plain disk holds what the last write that covers it put there |
| `BlockCache.Cache.FlushDevice` | fs/block_cache.c:245-270 | the view is unchanged and the disk agrees with it on every accepted block of the device, or everywhere for sync; success exactly if every dirty block was accepted |
| `BlockCache.Cache.InvalidateDevice` | fs/block_cache.c:272-292 | no block of the device stays cached and the disk holds the accepted ones; only dirty blocks of the device that it does not accept are lost |
| `BlockCache.Cache.Run` | fs/block_cache.c:156-292 | any sequence of reads, writes, flushes and invalidations with any device faults, turn by turn, is answered as a plain disk answers it on every block accepted throughout and leaves the same contents there; without faults and writes beyond the device, everywhere |
| `BlockCache.ServedSound` | fs/block_cache.c:156-292 | a request served with losses only among unaccepted blocks keeps the plain disk's contents and answers on the accepted ones |
| `BlockCache.OldestStep` | fs/block_cache.c:107-147 | a read of an uncached block keeps the least recent block the least recent, or drops it from a full cache |
| `BlockCache.LostWriteExample` | fs/block_cache.c:207-243 | in a cache of any size, with any hash, a write beyond the device is reported as done and reads back, until as many other blocks are read as the cache holds; then reading it fails |
| `Fat32Names.CompareIgnoringCase` | fs/fat32.c:50-63 | zero exactly for strings of equal length whose bytes agree up to the 26 pairs of letters |
| `Fat32Names.CaseIff` | fs/fat32.c:31-48 | folding case agrees on two strings exactly if they differ in the case of letters only |
| `Fat32Names.FindDot` | fs/fat32.c:159-180 | the last dot |
| `Fat32Names.GenerateInPlace` | fs/fat32.c:159-180 | the loops compute the 8.3 field of a name: cut at the last dot and padded, its letters kept up to case, no small letter in it |
| `Fat32Names.FormatInPlace` | fs/fat32.c:141-157 | the loops compute the printed form of an 8.3 field |
| `Fat32Names.FormatGenerate` | fs/fat32.c:141-180 | what formatting makes of a generated name without spaces, also when it was cut |
| `Fat32Names.RoundTripIff` | fs/fat32.c:141-180 | formatting undoes generating up to case exactly for representable names (no spaces, base at most 8, extension at most 3 and not empty after a dot) |
| `Fat32Chains.ChainsDisjoint` | fs/fat32.c:83-138 | chains are acyclic and no cluster is in two of them |
| `Fat32Chains.AppendStep` | fs/fat32.c:105-129 | linking a free cluster behind a chain keeps all chains disjoint and leak-free and takes exactly that cluster |
| `Fat32Chains.FreeStep` | fs/fat32.c:131-138 | zeroing a chain's entries frees exactly its clusters and keeps all other chains |
| `Fat32Chains.ChainUnique` | fs/fat32.c:131-138 | table and first cluster determine the chain |
| `Fat32Chains.LeakedMore` | fs/fat32.c:159-180 | a chain handed to nobody adds exactly its clusters to the leaked ones |
| `Fat32Chains.LeakedKept` | fs/fat32.c:83-138 | changes to other chains leak nothing |
| `Fat32Files.FindEntry` | fs/fat32.c:190-286 | the first entry whose printed name matches, or there is none |
| `Fat32Files.Volume.constructor` | fs/fat32.c:350-419 | an empty volume of a geometry fat32_probe accepts (sectors of 512 bytes with sixteen entries each): one cluster for the root directory, all others free, no files, nothing leaked |
| `Fat32Files.Volume.WriteFat` | fs/fat32.c:83-103 | all copies of the table get the same entry, the upper four bits kept |
| `Fat32Files.Volume.FindFree` | fs/fat32.c:105-108 | the least free cluster; 0 exactly if none is free |
| `Fat32Files.Volume.AllocateCluster` | fs/fat32.c:105-129 | appends the least free cluster, zeroed, to one chain; other chains and data are untouched |
| `Fat32Files.Volume.FreeChain` | fs/fat32.c:131-138 | the walk that reads each link before zeroing it frees exactly the chain |
| `Fat32Files.Volume.AllocateFile` | fs/fat32.c:650-677 | the contents in a new chain of exactly ceil(size / cluster size) clusters, exactly if that many are free, with zeros in the clusters for which no buffer could be had; otherwise the free set is as before |
| `Fat32Files.Volume.ExtendDirectory` | fs/fat32.c:545-550 | a zeroed cluster at the end of the directory exactly if one is free |
| `Fat32Files.Volume.MakeRoom` | fs/fat32.c:519-554 | the first vacant slot, in a new cluster if there is none |
| `Fat32Files.Volume.AddEntry` | fs/fat32.c:506-557 | the entry in the first vacant slot, which gets the chain, unless its name starts with the deleted mark: then the chain is lost; fails exactly if the directory is full and no cluster is free, changing nothing |
| `Fat32Files.Volume.Create` | fs/fat32.c:650-689 | succeeds exactly if the clusters for the contents and, if needed, one for the directory are free, which are then taken; one more file, as far as there were buffers, and all others unchanged; a name that counts as deleted adds no file and leaks exactly the clusters of the contents; otherwise directory, files and free clusters are as before |
| `Fat32Files.Volume.Overwrite` | fs/fat32.c:565-622 | succeeds exactly if the contents fit into the free clusters plus the old chain; then exactly this file changes, as far as there were buffers, and the free clusters add up; on failure the entry dangles unless the old chain was empty |
| `Fat32Files.Volume.Remove` | fs/fat32.c:702-719 | exactly this file goes, and its clusters become free |
| `Fat32Files.Volume.ReadChain` | fs/fat32.c:440-504 | the first size bytes of the chain; fails exactly if the file is not empty and one of the two buffers cannot be had |
| `Fat32Files.ChunksRestore` | fs/fat32.c:582-603 | cutting the cluster-sized chunks back to size gives the contents, for every size |
| `Fat32Files.KeptIff` | fs/fat32.c:582-603 | a write keeps all contents exactly if the clusters without a buffer would hold zeros only |
| `Fat32Files.KeptChunk` | fs/fat32.c:595-601 | what goes into a cluster with and without a buffer |
| `Fat32Files.EnoughClusters` | fs/fat32.c:579-579 | ceil(size / cluster size) clusters hold the contents and one fewer would not |
| `Fat32Files.LayoutUnique` | fs/fat32.c:83-138 | the disk determines which clusters belong to which entry |
| `Fat32Files.DanglingNotWellFormed` | fs/fat32.c:573-588 | an overwrite that fails for lack of clusters leaves a volume no layout explains |
| `Fat32Files.OrphanIff` | fs/fat32.c:159-180 | a layout without unowned chains explains table and directory exactly if no cluster is leaked |
| `Fat32Files.Volume.LeakFreeIff` | fs/fat32.c:83-180 | the same for the volume in any state it can reach |
| `Fat32.LookupPath` | fs/fat32.c:288-349 | the root exactly for non-empty paths of separators; otherwise the first match of the one component |
| `Fat32.ReadFile` | fs/fat32.c:440-504 | the contents of the first entry that matches; succeeds exactly if there is one and it is empty or both buffers can be had |
| `Fat32.WriteFile` | fs/fat32.c:559-689 | creates or overwrites exactly one file, with zeros in the clusters without a buffer; exactly when it fails, how many clusters it takes, and what a failure leaves behind; it leaks exactly the clusters of contents written under a new name that starts with 0xe5, so the volume stays well-formed exactly if there are none |
| `Fat32.UnlinkFile` | fs/fat32.c:691-720 | removes exactly the first match and frees its clusters; fails exactly if there is none, changing nothing; leaks nothing |
| `Fat32.WriteThenRead` | fs/fat32.c:440-689 | what was written is read back under any casing of its name exactly if there was a file of that name before or the path is one that can be found again, and it is empty or both read buffers can be had; completely if every write buffer was there; for paths of any length |
| `Fat32.WriteThenReadPlain` | fs/fat32.c:440-689 | for names of up to eight plain bytes, a dot and up to three more, a write that succeeds is read back under every casing of the name, stated on the bytes of both paths |
| `Fat32.NewEntryMatchesIff` | fs/fat32.c:159-286 | a new entry matches the path it was made for exactly if its name is representable, does not start with 0xe5 and ends the path |
| `Fat32.FormattedIff` | fs/fat32.c:624-689 | the name made for a path prints as the name it is looked up by exactly if that is representable and no separator follows |
| `Fat32.Serve` | fs/fat32.c:559-720 | one request: it succeeds exactly if it is not refused for one of the listed reasons, changes nothing if it fails, and does harm exactly if it overwrites a non-empty file with contents that do not fit |
| `Fat32.Run` | fs/fat32.c:559-720 | every sequence of writes, overwrites and unlinks under any names, with any buffers missing, up to the first harmful overwrite: the volume stays laid out in disjoint chains, each request changes one file or fails and changes nothing, the free clusters add up, and clusters leak exactly with new names that start with 0xe5 |
| `Fat32.Answer` | fs/fat32.c:559-689 | when a write succeeds and when it does harm, read off directory and free clusters before it |
| `Fat32.CreatedName` | fs/fat32.c:624-648 | a new entry gets the component its path is looked up by exactly if no separator follows it and the lookup does not cut it; for paths up to 255 bytes always |
| `Fat32.LeadingSeparators` | fs/fat32.c:633-645 | a plain name can be created with no leading separator or several, but not with exactly one |
| `Fat32Examples.DanglingExample` | fs/fat32.c:565-588 | a volume on which an overwrite fails and leaves an entry that names a free cluster |
| `Fat32Examples.DeniedExample` | fs/fat32.c:650-689 | a write without a buffer that succeeds and stores a zero |
| `Fat32Examples.LargeFileExample` | fs/fat32.c:463-476 | a file of 200 MiB that is written and can never be read |
| `Fat32Examples.LeakExample` | fs/fat32.c:159-180 | a write under a name that starts with 0xe5: it succeeds, the file can be neither read nor removed, its cluster is not free, and no layout explains the volume |
| `Fat32Examples.NamelessExample` | fs/fat32.c:624-689 | a write under 255 separators, a name and a separator: it succeeds, but the entry has no name and no path finds it |
| `Sha256.Transform` | lib/crypto.c:60-81 | schedule and rounds in place compute the compression function of section 6.2.2 of FIPS 180-4 |
| `Sha256.ExpandBlock` | lib/crypto.c:61-67 | the first two loops compute the message schedule |
| `Sha256.GapIsLeast` | lib/crypto.c:102-113 | the number of zero bytes is the least that leaves room for the length |
| `Sha256.PadIsFips` | lib/crypto.c:102-113 | the padding of section 5.1.1 of FIPS 180-4 for every message below 2^61 bytes, with a length field that reads as the bit count |
| `Sha256.Context.Update` | lib/crypto.c:90-100 | absorbs exactly the given bytes, wherever the message is cut |
| `Sha256.Context.PadBuffer` | lib/crypto.c:102-108 | 0x80 and the least zeros up to offset 56, compressing on the way if needed |
| `Sha256.Context.Finalize` | lib/crypto.c:102-113 | the digest is the fold of the compression function over the padded message |
| `Sha256.Sha256` | lib/crypto.c:115-120 | the same for one call |
| `Sha256.HashChunks` | lib/crypto.c:90-113 | every split into updates gives the hash of the whole |
| `Sha256.DigestWords` | lib/crypto.c:112-112 | the digest reads back as the eight words of the state, most significant byte first |
| `Sha256Examples.KnownDigest` | lib/crypto.c:115-120 | the digest of the bytes abc is that of the worked example for FIPS 180-4, proved word by word and round by round |
| `Sha256Examples.InitialDigits` | lib/crypto.c:84-88 | the initial state is made of the square roots of the first eight primes |
| `Sha256Examples.ConstantRoots` | lib/crypto.c:14-26 | the round constants are made of the cube roots of the first sixty-four primes |
| `Field25519.Car` | lib/crypto.c:349-356 | one carry pass divides by 2^256: digits plus 38 times the quotient; nothing overflows |
| `Field25519.CarryToReduced` | lib/crypto.c:349-356 | after a second pass limbs 1..15 lie in [0, 2^16) and limb 0 in [-38, 2^16 + 37] |
| `Field25519.Convolve` | lib/crypto.c:406-411 | the schoolbook loops compute the product without overflow for limbs below 2^26 |
| `Field25519.Fold` | lib/crypto.c:412-415 | folding the upper half with weight 38 keeps the value modulo p without overflow |
| `Field25519.Multiply` | lib/crypto.c:405-418 | the product modulo p, in reduced limbs that are small enough to multiply again |
| `X25519.Add` | lib/crypto.c:397-399 | limb-wise sum, without overflow |
| `X25519.Subtract` | lib/crypto.c:401-403 | limb-wise difference, without overflow |
| `X25519.ExponentIsInverse` | lib/crypto.c:424-432 | the square-and-multiply loop that skips bits 2 and 4 builds the exponent p - 2 |
| `X25519.Invert` | lib/crypto.c:424-432 | the input to the power p - 2 modulo p |
| `X25519.SelectWord` | lib/crypto.c:358-365 | the masked exchange of two words swaps for 1 and keeps for 0 |
| `X25519.SelectLimbs` | lib/crypto.c:358-365 | the loop over the limbs exchanges the two numbers for 1 and keeps them for 0 |
| `X25519.CarryThrice` | lib/crypto.c:369-372 | three carry passes make any limbs canonical |
| `X25519.SubtractPrime` | lib/crypto.c:373-381 | the borrow chain computes t - p and its borrow says whether t < p |
| `X25519.Pack` | lib/crypto.c:367-388 | the little-endian encoding of the unique representative in [0, p) |
| `X25519.Unpack` | lib/crypto.c:390-395 | the encoded number with its top bit dropped |
| `X25519.Step` | lib/crypto.c:464-482 | one ladder step computes the field formulas of section 5 of RFC 7748, within bounds that sustain themselves |
| `X25519.RunLadder` | lib/crypto.c:456-485 | the loop over the scalar bits is the ladder of RFC 7748 |
| `X25519.ClampIs` | lib/crypto.c:437-441 | the decoded scalar has bit 254 set, bit 255 and the lowest three cleared and all others kept |
| `X25519.X25519` | lib/crypto.c:434-492 | the X25519 function of RFC 7748 for every scalar and every u-coordinate |
| `Poly1305.KeyIsClamped` | lib/crypto.c:812-818 | the five overlapping reads and masks are the clamped key half of section 2.5 of RFC 8439 |
| `Poly1305.Columns` | lib/crypto.c:841-845 | the five column sums are the product's coefficients and fit in 64 bits |
| `Poly1305.Settle` | lib/crypto.c:847-852 | the truncated carries and c·5 overflow nothing and keep the value modulo 2^130 - 5 |
| `Poly1305.SettledProduct` | lib/crypto.c:841-852 | columns and carries together multiply modulo 2^130 - 5 |
| `Poly1305.AbsorbValue` | lib/crypto.c:827-857 | one block: (accumulator + block) · r modulo 2^130 - 5 |
| `Poly1305.AbsorbIsHorner` | lib/crypto.c:827-857 | for every message the limbs are congruent to the Horner value of its tagged blocks |
| `Poly1305.Context.Update` | lib/crypto.c:859-877 | absorbs exactly the given bytes, wherever the message is cut |
| `Poly1305.Context.UpdateAll` | lib/crypto.c:859-877 | absorption depends on the concatenation of the chunks only |
| `Poly1305.StateOfMessage` | lib/crypto.c:859-877 | accumulator and buffer are functions of the message alone |
| `Poly1305.AccumulatorIsRfc` | lib/crypto.c:879-884 | with the padded last block the accumulator is that of RFC 8439 |
| `Poly1305.FreezeIsReduction` | lib/crypto.c:885-903 | carry around and conditional subtraction give the representative in [0, 2^130 - 5) |
| `Poly1305.Context.Finish` | lib/crypto.c:879-910 | the sixteen bytes of the tag the code computes |
| `Poly1305.FinalTagIsRfcIff` | lib/crypto.c:905-909 | the tag is the RFC's exactly if bits 52..63 of the reduced accumulator are zero and the low words add without a carry |
| `Poly1305.TagCounterexample` | lib/crypto.c:905-909 | a key of 32 bytes and a message whose tag is not the RFC's |
| `Poly1305.KeyOne` | lib/crypto.c:812-823 | the limbs and the pad of that key |
| `Kpkg.Package.HashFile` | lib/kpkg.c:218-237 | chunked reading and hashing gives the hash of the whole range, exactly if all chunks can be read |
| `Kpkg.Package.VerifyIntegrity` | lib/kpkg.c:207-248 | succeeds exactly if every file can be read and has its recorded hash |
| `Kpkg.Package.ExtractFile` | lib/kpkg.c:326-355 | succeeds exactly if the file can be read in one piece and has its recorded hash, and returns the bytes of the payload at its offset |
| `Kpkg.Package.VerifyThenExtract` | lib/kpkg.c:207-355 | the check succeeds exactly if its buffer can be had and every file can be read and has its hash; after that extraction over an unchanged reader never fails on the hash |
| `Scheduler.FindNextReady` | kernel/task.c:110-120 | the first runnable slot after the current one, going round; none exactly if nothing is runnable |
| `Scheduler.BoundedWaiting` | kernel/task.c:263-321 | a task that stays runnable becomes current within its cyclic distance, whatever the others do between the calls |
| `Scheduler.WithinOneRound` | kernel/task.c:263-321 | in particular within as many calls as there are slots, also when the idle task resets the start |
| `Scheduler.TaskSystem.Schedule` | kernel/task.c:263-321 | chooses the next runnable task, stays, or goes idle, and only the current task is running |
| `Scheduler.TaskSystem.Block` | kernel/task.c:356-366 | the task is blocked, nothing else changes |
| `Scheduler.TaskSystem.Unblock` | kernel/task.c:368-375 | a blocked task becomes runnable, any other stays as it is |
| `Scheduler.InsertSorted` | kernel/task.c:56-69 | inserting behind all deadlines that are not later keeps the queue sorted |
| `Scheduler.TaskSystem.InsertSleeper` | kernel/task.c:56-69 | the task is inserted at exactly that place; order and count are right |
| `Scheduler.TaskSystem.SleepEnqueue` | kernel/task.c:71-85 | the task is queued once, under the new deadline |
| `Scheduler.TaskSystem.SleepDequeue` | kernel/task.c:87-100 | the task is not queued; order and count are right |
| `Scheduler.TaskSystem.Sleep` | kernel/task.c:444-449 | the current task sleeps until its deadline |
| `Scheduler.TaskSystem.Awake` | kernel/task.c:451-458 | the end of the sleep: running again |
| `Scheduler.DueIsPrefix` | kernel/task.c:461-494 | in a sorted queue the due tasks are a prefix, so stopping at the first later deadline misses none |
| `Scheduler.TaskSystem.Tick` | kernel/task.c:461-494 | exactly the tasks whose deadline has passed leave the queue, runnable |
| `WaitQueue.WaitSystem.Link` | kernel/wait.c:18-27 | appended, unless linked; the waiter count is the queue length |
| `WaitQueue.WaitSystem.Unlink` | kernel/wait.c:29-39 | removed, if linked; the waiter count is the queue length |
| `WaitQueue.WaitSystem.Region` | kernel/wait.c:172-195 | the locked head of the retry loop: leave on the condition or the deadline, else link, arm the timeout and block, in one step |
| `WaitQueue.WaitSystem.CallSchedule` | kernel/wait.c:197-197 | schedule() out of the loop is a step of the state machine |
| `WaitQueue.WaitSystem.Return` | kernel/wait.c:199-199 | the timeout is disarmed |
| `WaitQueue.WaitSystem.Leave` | kernel/wait.c:202-208 | the entry and the timeout are gone, and the result is false only after the deadline |
| `WaitQueue.WaitSystem.Begin` | kernel/wait.c:83-165 | immediate results, or the start of a wait whose deadline is the present plus the ticks asked for, saturated |
| `WaitQueue.WaitSystem.WakeOne` | kernel/wait.c:41-60 | the first entry leaves the queue and its task is unblocked |
| `WaitQueue.WaitSystem.WakeAll` | kernel/wait.c:62-81 | all entries leave the queue in order and their tasks are unblocked |
| `WaitQueue.WokenAllSettles` | kernel/wait.c:62-81 | after wake_all nobody is blocked on the queue |
| `WaitQueue.NextKeeps` | kernel/wait.c:83-209 | every step of every task or interrupt, sleeping, waiting elsewhere, creating and ending threads and changing conditions included, keeps the invariant, and blocks a task on the queue only if its own condition does not hold |
| `WaitQueue.NoLostWakeup` | kernel/wait.c:83-209 | in every interleaving, a task whose condition holds from a wake_all on is never again blocked on the queue, whatever other conditions do |
| `WaitQueue.ResultIsRight` | kernel/wait.c:104-193 | a wait ends with true only if the waiter's condition held in a locked region of its own |
| `WaitQueue.TimedResult` | kernel/wait.c:127-193 | in every interleaving a timed wait leaves with true exactly if its condition holds in its region, with false exactly if it does not and the ticks asked for have passed since its start, and blocks otherwise |
| `WaitQueue.FalseIsLate` | kernel/wait.c:127-193 | whoever returns false has waited the ticks asked for and found the condition false in a region of its own |
| `WaitQueue.TimerWakes` | kernel/wait.c:127-199 | once the ticks asked for have passed, a timer tick leaves no timed waiter blocked |
| `WaitQueue.ReturnedClean` | kernel/wait.c:83-209 | on every return path the entry has left the wait queue and the task the sleep queue, until the task itself sleeps or waits again |
| `WaitQueue.Progress` | kernel/wait.c:104-125 | while its condition holds every step of a waiting task brings it nearer to returning true |
| `WaitQueue.TurnComes` | kernel/wait.c:83-209 | a waiter whose condition holds from a wake_all on gets its turn within as many schedule() calls as there are slots, whatever happens in between |
| `WaitQueue.WaiterReturns` | kernel/wait.c:83-209 | while its condition holds a waiter that is not ended returns within four regions of its own, true unless it had already timed out |
| `WaitQueue.TurnsCount` | kernel/wait.c:83-209 | while its condition holds each region of its own brings a waiter nearer to returning, and nobody else's step takes it back |
| `WaitQueue.WaitSystem.Run` | kernel/wait.c:83-209 | every interleaving of the code is a run of the state machine |
| `WaitQueue.WaitSystem.FallAsleep` | kernel/task.c:420-449 | task_sleep by a task outside any wait is a step of the state machine |
| `WaitQueue.WaitSystem.WakeUp` | kernel/task.c:451-458 | so is its end |
| `WaitQueue.WaitSystem.ArmElsewhere` | kernel/task.c:71-85 | so is arming a timeout for a wait on another queue |
| `WaitQueue.WaitSystem.DisarmElsewhere` | kernel/task.c:87-100 | so is disarming it |
| `WaitQueue.WaitSystem.ExitSelf` | kernel/process.c:547-584 | a thread that exits is a step of the state machine |
| `WaitQueue.WaitSystem.KillOther` | kernel/process.c:269-286 | so is ending another thread, which takes it out of the sleep queue |
| `WaitQueue.WaitSystem.ChangeState` | kernel/process.c:429-488 | so are creating a thread and other changes of state outside the queue |
| `WaitQueue.StrayEntry` | kernel/process.c:269-286 | a thread ended while it waits leaves its entry in the wait queue; no other task outside a wait has one |
| `WaitQueue.LostWakeIff` | kernel/process.c:41-60 | a wake_one is lost, waking nobody, exactly if the first entry belongs to a thread that was ended; otherwise that task is awake inside its wait |
| `WaitQueue.LostWakes` | kernel/process.c:41-60 | exactly as many calls of wake_one are lost as there are such entries at the head |
| `WaitQueue.StrayExample` | kernel/process.c:269-286 | a run in which that happens, and in which the next wake_one leaves a task blocked whose condition holds |
| `Handles.GenerationStep` | kernel/handle.c:177-180 | the increment that skips zero cycles through 65535 values |
| `Handles.GenerationsAgree` | kernel/handle.c:177-180 | two generations of a slot agree exactly if a multiple of 65535 closes lies between them |
| `Handles.HandleSystem.NewTable` | kernel/handle.c:12-28 | an empty table with all generations 1, or nothing exactly if there is no memory for it |
| `Handles.HandleSystem.FindFree` | kernel/handle.c:76-77 | the first free slot |
| `Handles.HandleSystem.Create` | kernel/handle.c:62-96 | fails exactly without an object, without a table or in a full one; else the first free slot holds object and rights, one reference more, and the handle resolves |
| `Handles.HandleSystem.Lookup` | kernel/handle.c:98-131 | an object exactly if the handle resolves and has the rights; it is alive |
| `Handles.LookupLasts` | kernel/handle.c:98-131 | an object returned without a reference stays alive, and the handle resolves to it, in every later state in which its slot has not been closed |
| `Handles.HandleSystem.CloseRegion` | kernel/handle.c:166-185 | empties exactly the slot of a handle that resolves and advances its generation |
| `Handles.HandleSystem.Close` | kernel/handle.c:147-192 | succeeds exactly on handles that resolve, which then do not; one reference less |
| `Handles.HandleSystem.DuplicateRegion` | kernel/handle.c:212-241 | a temporary reference exactly if the handle resolves, may be duplicated and the rights asked for lie within its own |
| `Handles.HandleSystem.Duplicate` | kernel/handle.c:194-250 | the exact condition of success; the copy refers to the same object with the rights asked for, or all of the original's when 0 is asked for; the original has bit 5 set and the copy's rights within its own; counts are balanced |
| `Handles.CopyConsumes` | kernel/handle.c:194-250 | the second half of a duplication uses up the first and no other, whether or not a slot is free |
| `Handles.MayDuplicateIff` | kernel/handle.c:219-223 | a handle may be duplicated exactly if bit 5 of its rights is set |
| `Handles.HandleSystem.ClearTable` | kernel/handle.c:38-52 | every entry goes; the references handed over are exactly those of the entries |
| `Handles.HandleSystem.Destroy` | kernel/handle.c:30-60 | the table is gone and exactly its references are given back |
| `Handles.NextKeeps` | kernel/handle.c:30-250 | every region keeps the invariant; a destructor that ran stays run |
| `Handles.Accounting` | kernel/handle.c:62-250 | each count is the outside references plus the entries in use; the destructor has run once exactly if both are none, never while an entry refers to the object |
| `Handles.RightsShrink` | kernel/handle.c:219-230 | along every chain of duplications the rights only shrink, and a handle without bit 5 of its rights is never duplicated |
| `Handles.NextOpen` | kernel/handle.c:62-192 | no region touches a slot in use without closing it |
| `Handles.SameHandle` | kernel/handle.c:98-192 | a handle that resolves at two points of a run: its slot was closed a multiple of 65535 times in between |
| `Handles.StaleHandle` | kernel/handle.c:98-192 | a handle that was dead in between resolves again only after at least 65535 closes, a multiple of 65535 |
| `Handles.HandleSystem.Run` | kernel/handle.c:30-250 | every sequence of regions over any tables is a run of the state machine |
| `Handles.HandleRoundTrip` | include/kos/handle.h:39-42 | index and generation read back from a handle, which is never the invalid one |
| `Handles.HandleSystem.NewObject` | kernel/object.c:10-18 | one reference, the creator's |
| `Handles.HandleSystem.Ref` | kernel/object.c:20-25 | one reference more |
| `Handles.HandleSystem.Unref` | kernel/object.c:27-36 | one reference less; the last one runs the destructor, once, with no entry referring to the object |

## Left out

- Pmm.FrameAllocator.Initialize: does not model the byte counters per memory type, which nothing else reads.
- Vmm.AddressSpaces.MapPage: covers the lower half; mappings in the kernel half share its tables between address spaces and start from boot-time entries that are not part of this model.
- Vmm.AddressSpaces.QueryPage: does not model the huge-page branches, since the lower half never holds huge pages.
- Vmm.AddressSpaces.ClearUserAddressSpace: assumes that no page of the address space maps a page-table frame of the tree.
- Page-table entries are records rather than bit patterns; TLB and CR3 writes and permission changes of single pages are not modelled.
- Heap.KernelHeap.Grow: which kernel page tables exist without the heap is fixed, and they hold no huge pages; table entries of the kernel half are not modelled bit by bit.
- Heap.KernelHeap.Initialize: is called before the first allocation, as at boot.
- Heap.KernelHeap.Reallocate: its lock-held regions run without a call of another task in between.
- Elf.LoadBinary: loads into a fresh address space; the vfs lookup is the `file` argument, and the checks are a predicate on the file's bytes rather than the loops that make them.
- UserStack.StackWrite: address plus length is assumed not to wrap around 2^64, as it never does for its callers.
- BlockCache.Cache.Write: access ticks and locks are not modelled.
- BlockCache.Cache.ReadBlock: a failing device read does not touch the slot's bytes, which nothing reads afterwards.
- Fat32.WriteFile: files below 4 GiB in the root directory without subdirectories or long names; directory entries are records in chain order rather than bytes in sectors; block reads and writes do not fail.
- Fat32.Run: ends with an overwrite that leaves a dangling entry; what later requests make of that volume is not modelled.
- Handles.HandleSystem.Lookup: the object is returned without a reference, as in the source; `Handles.LookupLasts` says how long it lives.
- Handles.HandleSystem.Ref: counts are unbounded; a 32-bit wrap-around of the reference count is not modelled.
- WaitQueue.WaitSystem.Begin: the busy-wait paths before multitasking starts are not modelled.
- WaitQueue.WaitSystem.ChangeState: a slot is not reused while an entry of the thread it belonged to is still in the queue.
- PageMaps.Run: callers give back only frames they hold and tear down only address spaces whose pages map frames they hold or memory outside the allocator, as the kernel's callers do.
- Scheduler.TaskSystem.Schedule: quanta, preemption counters and context switching are not modelled.
- Mutexes, event objects, processes, the installer and package database, ramfs, drivers, networking, the console and the shell.
- AES-GCM, ChaCha20, SHA-384, X.509, signature checks and the entropy source.
- FAT32 long names, subdirectories, rename, rmdir, mkdir, readdir and the cached file list.
- Group-theoretic correctness of the Montgomery ladder: the reference is the algorithm of RFC 7748.
