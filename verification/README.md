# Ares kernel: a verified model

A Dafny 4.11 model of the parts of the Ares x86_64 kernel where state, arithmetic or interleaving make
correctness hard to see, with proofs about whole runs. `dafny verify dfyconfig.toml` checks everything.

Each part has the same two layers. Where the kernel changes things step by step there is a class or a
method with its loops (`KernelHeap`, `Frames`, `PagingUnit`, `UserCopy`, `ImageLoader`, `ProcessTable`,
`Fat`, `FileHandle`), proved against functions on values. The theorems are about those functions and the
state machines built from them.

| part | files |
|---|---|
| heap allocator | `FreeList`, `FirstFit`, `HeapRuns`, `KernelHeap` |
| physical frames | `Frames` |
| page tables | `Bits`, `PageTables`, `TableTrees`, `TableAliases`, `AccessRights`, `ProcessorWalk`, `DataWrites`, `AddressSpaces`, `PagingUnit`, `BootTables` |
| user copies and images | `LittleEndian`, `PhysBytes`, `UserCopy`, `Elf`, `ElfWriter`, `UserImage`, `ImageRights`, `LoadConditions`, `ImageLoader` |
| scheduler | `Processes`, `Scheduler`, `SchedulerInvariant`, `SchedulerProgress`, `ProcessFates`, `LostWake`, `SwitchWindow`, `ProcessTable` |
| FAT16 and open files | `Fat`, `FatDirectory`, `FatWriter`, `FatRoundTrip`, `ShortName`, `FileHandle` |
| shared | `Alignment`, `Lists`, `Options` |

Conventions. The kernel is compiled without optimisation, so its plain arithmetic is checked: an
operation that would overflow is a `Trap` (or `Stopped`, `Overflow`) outcome of the model, never a wrapped
number. Saturating, checked and truncating operations are written out. Physical memory is a map from
addresses to 64-bit words, with bytes as digits of words; the direct map through which the kernel reaches
it is proved for the first gigabyte (`FirstGigabyte`). Each section under a spin lock is one atomic step on
one CPU. The scheduler's state machine makes a context switch part of the step that decides it;
`SwitchWindow` takes that step apart and says exactly when this makes a difference.

What the kernel and the rest of the machine must agree on is defined a second time, from the standard and
without the model's functions, and the two are proved equal: the processor's walk with its address and its
rights (`ProcessorWalk`), writers of ELF files and of FAT16 volumes whose output is read back (`ElfWriter`,
`FatWriter`), what each scheduler step does to each process (`ProcessFates`).

A loop of the kernel that need not end is modelled where it does: its method takes a ghost bound, required
to be one, and a lemma says exactly when there is one (`WalkTerminatesWhen`, `ReadTerminatesWhen`).

Results that differ from what one would expect of the code:

* The heap loses bytes: up to 8 in front of a block and up to 22 behind it, per allocation (`LeakBound`,
  `RunInv`); `LosesThirty` is a heap and a request that lose all 30. Freeing a block right after allocating
  it restores the heap exactly when the chosen region leaves no odd piece (`AllocThenDealloc`).
* A write to user memory works page by page. It is what byte-by-byte writes would be when no page of it is
  translated by words that it writes itself (`ChunksAreBytes`), in particular when it reaches no page table.
  The range check accepts ranges above 2^47, which lead to the kernel's half: `PrivateRangeExactly` says which
  accepted ranges stay in the private half, `TurnsMatter` gives a range that does not and on which the two ways
  of writing differ, and `StoreBytewise` shows that they agree on ranges over data frames, at every point of
  every run.
* Mapping a page moves all its aliases, in whichever space: the addresses whose walks meet its walk in a table
  and go on alike (`MapExactly`). So it leaves every other address space and the kernel's alone exactly when the
  page is in the lower half, or under a top-level entry the kernel lacks (`IsolatedExactly`); `map_page` and the
  image parser let other pages through.
* A timer tick between the store of CURRENT_PID and the context switch saves an address of the process that
  is leaving in the record of the one that is coming. `TickExactly` gives the exact condition,
  `StrayReached` a run from boot, and `MicroRunProjects` shows that without such a tick the switch may be
  taken as one step.
* A process that waits for one given child is not woken by that child's exit. Exit posts the pid of the
  parent, and the channel compares it with the pid of the child, although `doc/kernel/process.md:30` says
  that exit wakes the parent. `TargetedWake` gives the exact condition, `TargetedWakeLost` a run that
  reaches the state, and `StrandedForever` shows that the process then sleeps in every continuation.
  Waiting for any child is safe (`ChildAnyHeard`).
* A process that blocks on the keyboard and is woken before it has left the CPU calls schedule_internal until it
  switches, and that never happens while nobody else is ready: it stays in the kernel for good, although it is
  ready and the key has come. `SpinsExactly` gives the exact condition, `SpinReached` a run from boot, and
  `SpinsForever` shows that no continuation leaves that state.
* A region of physical memory whose end is not page aligned yields a frame that sticks out of it
  (`FramesContained`).
* `load` accepts a FAT volume whose clusters have no size, and reading a file on it need not end:
  `ReadTerminatesWhen` gives the exact condition, `EndlessRead` a one-sector device on which a file is found
  and a read of its one byte never ends.
* The parser accepts an image with file sizes above memory sizes; the bytes up to the memory size are
  loaded correctly all the same (`EndToEnd` does not assume the order).

## Model

| member | source | states |
|---|---|---|
| FreeList.Canonical | src/kernel/mem/heap.rs:118-190 | Two well-formed (ascending, aligned, coalesced) free lists that cover the same bytes are the same list |
| FreeList.InsertWf | src/kernel/mem/heap.rs:118-190 | Returning a region that misses the free list keeps it ascending, 8-aligned, at least 16 bytes per region, inside the heap and fully coalesced |
| FreeList.InsertCovers | src/kernel/mem/heap.rs:118-152 | A byte is free after an insertion exactly when it was free before or lies in the inserted region |
| FreeList.InsertRemaining | src/kernel/mem/heap.rs:118-152 | Merging with both neighbours neither loses nor invents a byte |
| FirstFit.FindComplete | src/kernel/mem/heap.rs:72-83 | First fit finds the first region that can hold the aligned block; stopping at the first end that overflows is sound because the list ascends |
| FirstFit.FindNeverOverflows | src/kernel/mem/heap.rs:73 | The alignment arithmetic cannot overflow when the heap's end plus the alignment fits in 64 bits |
| FirstFit.LeakBound | src/kernel/mem/heap.rs:91-99 | An allocation loses 0 or 8 bytes in front of the block and at most 22 behind it |
| FirstFit.SplitAccounting | src/kernel/mem/heap.rs:91-99 | A split conserves bytes: what was free is what stays free, plus the block, plus the leak |
| FirstFit.SplitThenInsert | src/kernel/mem/heap.rs:85-116 | When a split leaks nothing, returning its block restores the identical free list |
| FirstFit.LeakFreeExactly | src/kernel/mem/heap.rs:91-99 | That condition on the region and the block holds exactly when the split loses no byte |
| HeapRuns.NullIffNoFit | src/kernel/mem/heap.rs:68-111 | allocate returns null exactly when no free region can hold the aligned block, unless align_up traps, which it cannot when the heap's end leaves room for the alignment |
| HeapRuns.InitInv | src/kernel/mem/heap.rs:49-52 | A freshly initialised heap satisfies the invariant with no live block |
| HeapRuns.AllocateGives | src/kernel/mem/heap.rs:68-111 | What allocate gives, from the layout asked for: an address aligned to layout.align, the first place in the free list with room for layout.size bytes; those bytes were free and are not any more, and no byte becomes free; null means that there is no room |
| HeapRuns.TrapsExactly | src/kernel/mem/heap.rs:72-83 | allocate stops at an overflow exactly when, before it finds room or gives up, it comes to a region whose start plus the alignment leaves 64 bits |
| HeapRuns.FreeGives | src/kernel/mem/heap.rs:113-116 | A byte is free after deallocate exactly when it was free before or lies in the block, n bytes from its address with n the larger of layout.size and 16 |
| HeapRuns.AllocInv | src/kernel/mem/heap.rs:68-111 | With n the larger of layout.size and 16, a successful allocate lowers the free bytes by at least n and at most n + 30, adds one live block, and keeps the heap invariant |
| HeapRuns.DeallocInv | src/kernel/mem/heap.rs:113-116 | A matched deallocate raises the free bytes by exactly the larger of layout.size and 16, removes that live block, and keeps the heap invariant |
| HeapRuns.RunInv | src/kernel/mem/heap.rs:68-190 | Over every run of allocations and matched deallocations the invariant holds, free + live + leaked is constant, and at most 30 bytes leak per allocation |
| HeapRuns.InvMeaning | src/kernel/mem/heap.rs:68-190 | The invariant index by index and byte by byte: free regions strictly ascending and apart, live blocks aligned, in the heap, off the free list and pairwise disjoint, and no byte both free and live |
| HeapRuns.LiveMeaning | src/kernel/mem/heap.rs:68-190 | In every state of a run the layout.size bytes of each live block are in the heap, none of them is free, and none is among those of another live block |
| HeapRuns.AllocThenDealloc | src/kernel/mem/heap.rs:68-116 | Allocate followed by deallocate of the same layout restores the free list if and only if the chosen region has no front gap or one of at least 16 bytes, and behind the block nothing or an 8-aligned rest of at least 16 bytes; it then restores the whole heap |
| HeapRuns.LosesThirty | src/kernel/mem/heap.rs:68-116 | A heap of 47 bytes and a layout of 17 bytes aligned to 16 whose allocation loses 30 bytes |
| KernelHeap.LinkedListAllocator.constructor | src/kernel/mem/heap.rs:49-52 | A fresh allocator holds the heap as one aligned region |
| KernelHeap.LinkedListAllocator.Remaining | src/kernel/mem/heap.rs:58-66 | The walk over the nodes adds up the free bytes |
| KernelHeap.LinkedListAllocator.MergeWithNext | src/kernel/mem/heap.rs:154-171 | Absorbing following nodes in place yields the merged list |
| KernelHeap.LinkedListAllocator.MergeWithPrevious | src/kernel/mem/heap.rs:173-190 | The node in front absorbs the new one when they touch, and then its successors |
| KernelHeap.LinkedListAllocator.InsertRegion | src/kernel/mem/heap.rs:118-152 | Linking and merging nodes in place inserts the aligned region into the free list and drops what cannot hold a node |
| KernelHeap.LinkedListAllocator.Search | src/kernel/mem/heap.rs:72-83 | The pointer walk of allocate stops at the first fitting region, at an overflow, or at the end, as the list search does |
| KernelHeap.LinkedListAllocator.Allocate | src/kernel/mem/heap.rs:68-111 | Unlinking a node and returning both excess pieces yields the block and the free list of the value-level allocate; the address is aligned to the layout's alignment, the layout's bytes were free and are not any more, and null means that there is no room |
| KernelHeap.LinkedListAllocator.Deallocate | src/kernel/mem/heap.rs:113-116 | Freeing a block inserts its region into the free list |
| Frames.RegionFramesExact | src/arch/x86_64/kernel/mem/phys.rs:154-177 | A region yields exactly the page-aligned, non-null starts at or above the reserved limit and below its end |
| Frames.AllFramesExact | src/arch/x86_64/kernel/mem/phys.rs:123-177 | Over the whole region table, the frames on offer are exactly the non-null multiples of 4096 at or above the limit in the regions before the first whose arithmetic overflows |
| Frames.StepsUpwards | src/arch/x86_64/kernel/mem/phys.rs:130-148 | A region's frames are handed out upwards |
| Frames.FramesContained | src/arch/x86_64/kernel/mem/phys.rs:154-177 | All frames of a region lie inside it exactly when its end is page aligned |
| Frames.AllFramesDistinct | src/arch/x86_64/kernel/mem/phys.rs:130-177 | Regions that do not overlap yield no frame twice, even with unaligned ends |
| Frames.PagesApart | src/arch/x86_64/kernel/mem/phys.rs:141-147 | Distinct page-aligned frames do not overlap |
| Frames.NeverReissued | src/arch/x86_64/kernel/mem/phys.rs:285-324 | No frame is granted to two requests, whatever mix of single frames and ranges is asked for |
| Frames.SinglesInOrder | src/arch/x86_64/kernel/mem/phys.rs:130-148 | Single requests get the frames in order, and nothing for ever after they are used up |
| Frames.RunLengthMeans | src/arch/x86_64/kernel/mem/phys.rs:292-324 | That run is contiguous, and the next frame would break it |
| Frames.FrameAllocator.constructor | src/arch/x86_64/kernel/mem/phys.rs:123-128 | After init_from_map the frames still to come are those of all regions, up to the first whose 64-bit arithmetic overflows |
| Frames.FrameAllocator.AdvanceToNextRegion | src/arch/x86_64/kernel/mem/phys.rs:154-177 | Moving to the next usable region loses no frame and stops only when none is left or the arithmetic of a region overflows |
| Frames.FrameAllocator.Allocate | src/arch/x86_64/kernel/mem/phys.rs:130-148 | Hands out the first frame still to come; when there is none it reports so for ever, or stops at the region that overflows |
| Frames.FrameAllocator.AllocateFrames | src/arch/x86_64/kernel/mem/phys.rs:292-324 | Returns the longest contiguous run from the front, at most the count asked for, and consumes the frame that broke it; says exactly when it stops at an overflow instead |
| PageTables.PrefixStep | src/arch/x86_64/kernel/paging.rs:82-100 | The four table indices are the digits of the page number of an address modulo 2^48 |
| PageTables.PteTargetIsFrame | src/arch/x86_64/kernel/paging.rs:157 | An installed entry points at the frame exactly when it is a physical address and the flags bring no address bit that it lacks |
| TableTrees.WalkLocal | src/arch/x86_64/kernel/paging.rs:194-233 | A change to one entry of a private table matters only to translations that use that entry |
| TableTrees.MapFromKeeps | src/arch/x86_64/kernel/paging.rs:102-164 | From any level down and on any page, map_page keeps the tree of tables, moves nothing that translated, draws new tables from the allocator only, reports AlreadyMapped exactly when the page translated before, and on private tables in the lower half changes translations of at most the one page |
| TableTrees.UnmapFromKeeps | src/arch/x86_64/kernel/paging.rs:166-192 | From any level down and on any page, unmap_page keeps the tree and moves no address to a new place; the page is gone unless it is part of a large page, and then nothing changes; on private tables in the lower half it removes exactly the one page |
| TableTrees.CloneKeeps | src/arch/x86_64/kernel/paging.rs:46-55 | A fresh clone translates the upper half exactly as the kernel and no lower-half address, and moves no other translation |
| TableAliases.MapExactly | src/arch/x86_64/kernel/paging.rs:102-164 | One call of map_page, exactly: on success the aliases of the page, in every address space, lead into the frame at their own offset, and every other address of every space leads where it led; on failure all do |
| TableAliases.UnmapExactly | src/arch/x86_64/kernel/paging.rs:166-192 | One call of unmap_page, exactly: the aliases of the page, in every address space, no longer translate, unless it is part of a large page, and every other address leads where it led |
| TableAliases.MapAliases | src/arch/x86_64/kernel/paging.rs:57-164 | map_page, whatever it answers and whatever tables it adds, makes no two addresses aliases that were not, and parts none |
| TableAliases.UnmapAliases | src/arch/x86_64/kernel/paging.rs:166-192 | Nor does unmap_page |
| TableAliases.AliasPrivate | src/arch/x86_64/kernel/paging.rs:194-233 | A walk that has come to a private table meets no other walk but those of its own space and page |
| AccessRights.MapRights | src/arch/x86_64/kernel/paging.rs:57-164 | One call of map_page and the rights of every address of every space: on success the aliases of the page allow user access, writing and execution exactly where bits 2, 1 and 63 of the entry asked for do and every table entry that was on the way before does; every other address has the rights it had |
| AccessRights.UnmapRights | src/arch/x86_64/kernel/paging.rs:166-192 | unmap_page takes the rights of the aliases of its page, unless it is part of a large page, and no others |
| AccessRights.CloneRights | src/arch/x86_64/kernel/paging.rs:46-55 | A clone has the kernel's rights in the upper half and none in the lower, and the rights of every other space are as they were |
| ProcessorWalk.TranslateIsProcessors | src/arch/x86_64/kernel/paging.rs:194-233 | translate gives the address the processor's walk leads to, defined bit by bit, and none where that finds no page; the rights are those the processor grants |
| AddressSpaces.MapPageKeeps | src/arch/x86_64/kernel/paging.rs:102-164 | One call of map_page on any page of any space: on success the page's 4096 addresses reach the frame and nothing that translated has moved, on failure no translation changes, and running out of frames means fewer than three were left |
| AddressSpaces.UnmapPageKeeps | src/arch/x86_64/kernel/paging.rs:166-192 | One call of unmap_page on any page of any space |
| AddressSpaces.MapIsolated | src/arch/x86_64/kernel/paging.rs:102-164 | Mapping a lower-half page in one address space changes no translation of another space, of the kernel, of the shared upper half or of another page |
| AddressSpaces.SharedMoves | src/arch/x86_64/kernel/paging.rs:102-164 | Under a top-level entry that two spaces share, mapping a page in one maps it in the other |
| AddressSpaces.IsolatedExactly | src/arch/x86_64/kernel/paging.rs:46-164 | At any point of a run, a newly mapped page of one space changes no translation of another space, or of the kernel's, at any address, if and only if it is in the lower half or under a top-level entry the kernel lacks |
| AddressSpaces.RunRefines | src/arch/x86_64/kernel/paging.rs:46-233 | Any run of clone, of map and unmap on any page of any space, of frame allocation, of writes to allocated frames and of user writes that lead to them behaves as updates of a finite map from (space, page) to frame for what is private, and of one list of edits to the kernel's view for what is shared: every answer is one these allow, and every translation is theirs |
| AddressSpaces.RunTranslates | src/arch/x86_64/kernel/paging.rs:46-233 | The same address by address, in every space and in both halves; and a run that maps and unmaps no shared page has moved no translation of the kernel |
| AddressSpaces.CarefulLegal | src/kernel/process/mod.rs:2062-2091 | A run that maps only allocated frames with plain flags and writes only private ranges is such a run, and every private page it has mapped leads to an allocated frame |
| AddressSpaces.RangeOffTables | src/kernel/process/mod.rs:1861-1892 | At any point of a run, a range that leads to allocated frames, in either half, reaches no page table |
| AddressSpaces.StoreBytewise | src/kernel/process/mod.rs:1861-1892 | On such a range the page-chunked write equals byte-by-byte writes |
| AddressSpaces.StoreThenRead | src/kernel/process/mod.rs:1828-1892 | At any point of a run, a user write that ends well is read back by copy_from_user as its source if and only if no two addresses of the range that lead to one place were given different bytes |
| PagingUnit.Pager.AllocateTable | src/arch/x86_64/kernel/paging.rs:31-44 | Takes the next frame and zeroes its 512 entries, or says that there is none or that the allocator overflowed |
| PagingUnit.Pager.EnsureTable | src/arch/x86_64/kernel/paging.rs:57-80 | Rewrites the entry in place as the value-level step says |
| PagingUnit.Pager.CloneKernelPml4 | src/arch/x86_64/kernel/paging.rs:46-55 | The copy loop shares the kernel's upper 256 entries with a zeroed root |
| PagingUnit.Pager.MapPage | src/arch/x86_64/kernel/paging.rs:102-164 | The unrolled four-level code equals the recursive definition the theorems are about |
| PagingUnit.Pager.UnmapPage | src/arch/x86_64/kernel/paging.rs:166-192 | The unrolled code equals the recursive definition |
| BootTables.BootTree | src/arch/x86_64/boot/main.asm:92-117 | The boot tables, with their aliased entries, have the tree shape that all paging steps keep |
| BootTables.BootReady | src/arch/x86_64/boot/main.asm:92-117 | So every run of paging operations may start from the boot tables |
| BootTables.FirstGigabyte | src/arch/x86_64/boot/main.asm:92-117 | The boot tables map the first gigabyte in place, in the direct map and in the kernel's window |
| BootTables.CloneWindow | src/arch/x86_64/boot/main.asm:92-117 | In a clone of the boot address space the addresses from 2^47 on lead to the first gigabyte |
| BootTables.TurnsMatter | src/kernel/process/mod.rs:1807-1892 | A range the check accepts, outside the private half, on which page-chunked and byte-by-byte writes differ |
| BootTables.AllocatorFresh | src/arch/x86_64/kernel/mem/phys.rs:130-177 | The frames handed out over a region table without overlaps are whole, distinct and none of the tables below the reserved limit |
| PhysBytes.WordIsBytes | src/kernel/process/mod.rs:1828-1892 | A word of physical memory, such as a table entry, is its eight bytes with the lowest first, so that byte copies and table walks agree on memory |
| UserCopy.WalkOffset | src/arch/x86_64/kernel/paging.rs:194-233 | Inside one 4 KiB page translation adds the offset, whether the mapping is 4 KiB, 2 MiB or 1 GiB |
| UserCopy.EnsureUserRange | src/kernel/process/mod.rs:1807-1826 | A range is accepted exactly when it is empty or ends at or below the limit without wrapping; RangeOkMeans and PrivateRangeExactly say which addresses that lets through |
| UserCopy.RangeOkMeans | src/kernel/process/mod.rs:1807-1826 | Accepted means that every address of the range is below 0xFFFF_8000_0000_0000 |
| UserCopy.RefusedExactly | src/kernel/process/mod.rs:1807-1892 | Both copies answer InvalidUserPointer exactly for a non-empty range that ends above that address, and have then copied nothing |
| UserCopy.PrivateRangeExactly | src/kernel/process/mod.rs:1807-1826 | A range lies in the private half exactly when it ends at or below 2^47, modulo 2^48; the check does not imply this |
| UserCopy.CopyFromUser | src/kernel/process/mod.rs:1828-1859 | The page-chunked read equals byte-by-byte reads through translate up to the first unmapped address, result and bytes, and leaves the rest of the buffer alone |
| UserCopy.PeekMeans | src/kernel/process/mod.rs:1828-1859 | Such a read ends well exactly when the whole range translates, and gives the bytes where it leads |
| UserCopy.CopyToUser | src/kernel/process/mod.rs:1861-1892 | The loop writes page by page, each page translated by the tables as the pages before have left them, whatever the range leads to |
| UserCopy.WriteLoopMeans | src/kernel/process/mod.rs:1861-1892 | Where no byte of the range lies in a word by which the range is translated, the bytes up to the first unmapped address go where the translations of the start lead, in turns of any size |
| UserCopy.ChunksAreBytes | src/kernel/process/mod.rs:1861-1892 | The page-chunked write equals byte-by-byte writes, errors included, whenever no turn, but perhaps by its last byte, writes a word by which it was translated |
| UserCopy.DataOffWalks | src/kernel/process/mod.rs:1861-1892 | In particular when no page of the range holds a table |
| UserCopy.WriteThenRead | src/kernel/process/mod.rs:1828-1892 | A written range that holds no word of its own translation reads back as the source if and only if no two addresses of it that lead to one place were given different bytes; reading it ends well in any case |
| UserCopy.DistinctConsistent | src/kernel/process/mod.rs:1828-1892 | In particular when its pages are on frames of their own |
| Elf.Parse | src/kernel/user/elf.rs:36-106 | The header-by-header parser gives the meaning of the file read all at once: the loadable headers in order, the first failing check's error, or an overflow exactly when the table offset is within 56 bytes of 2^64 |
| ElfWriter.HeaderRoundTrip | src/kernel/user/elf.rs:75-98 | A program header of any type, written to the gABI layout, is read back field by field; only type 1 with memory asks for a segment, and alignment 0 reads as 1 |
| ElfWriter.RoundTrip | src/kernel/user/elf.rs:36-106 | Parsing a written file, with the headers anywhere and of any types, gives its entry point and the segments asked for in order, or NoLoadableSegments if there is none |
| ElfWriter.Refused | src/kernel/user/elf.rs:36-71 | A written file with a wrong header gets the error of its first wrong field, one whose headers do not fit gets InvalidProgramHeader, and a table offset within 56 bytes of 2^64 overflows |
| ElfWriter.TooShort | src/kernel/user/elf.rs:37-39 | InvalidHeader is the answer to files below 64 bytes and to no others |
| UserImage.LoadPageShows | src/kernel/process/mod.rs:2062-2122 | Loading one page, wherever it lies, makes the segment's bytes on it readable and disturbs no byte that could be read before |
| UserImage.LoadSegmentsShow | src/kernel/process/mod.rs:2038-2134 | After all segments load, in either half, every byte of every segment reads as its file byte or zero through translate, and later segments never disturb earlier ones |
| ImageRights.LoadSegmentsRights | src/kernel/process/mod.rs:2062-2091 | After all segments load, each byte of each segment allows user access, writing exactly when bit 1 of its segment's flags is set and execution exactly when bit 0 is, as far as the tables that were there allow it; later segments change no right of earlier ones |
| LoadConditions.LoadNeeds | src/kernel/process/mod.rs:2038-2134 | Whatever frames there are, an image that loads has segments whose ends fit in 64 bits and whose file bytes are there, and pages that were unmapped and of which no two are aliases; two segments that share a page are refused |
| LoadConditions.PlannedExactly | src/kernel/process/mod.rs:2093-2111 | The checks that the loader makes page by page, said at once: a segment has no pages, or its file end and its last page's end fit in 64 bits and its offset plus the bytes used is within the file |
| LoadConditions.LoadsExactlyWhen | src/kernel/process/mod.rs:2038-2134 | With four frames per page, an image, in either half, loads if and only if its segments' ends fit, its file bytes are there, and its pages are unmapped and no two of them aliases |
| LoadConditions.CloneAlias | src/arch/x86_64/kernel/paging.rs:46-55 | In a clone two addresses are aliases exactly when they are on one page, or both in the upper half and aliases in the kernel's space |
| LoadConditions.CloneLoadsExactlyWhen | src/kernel/process/mod.rs:2038-2134 | In a fresh clone, given four frames per page, an image loads if and only if its segments' ends fit, its file bytes are there, no two of its pages are the same or aliases in the kernel's space, and the kernel maps none of those in the upper half |
| ImageLoader.CopyFilePart | src/kernel/process/mod.rs:2093-2120 | The in-place copy of a page's file bytes, with its overflow traps and its InvalidElf check, equals the value-level step |
| ImageLoader.MapUserPage | src/kernel/process/mod.rs:2062-2122 | The body of the page loop equals the value-level step, failures included; the kernel is stopped exactly when frames run out at a region whose arithmetic overflows |
| ImageLoader.MapUserSegments | src/kernel/process/mod.rs:2038-2134 | The nested loops equal the recursive definition the contents theorem is about, failures included, and are stopped exactly then |
| ImageLoader.EndToEnd | src/kernel/process/mod.rs:2038-2134 | In a fresh clone, an image that loads, in either half, can be read back byte for byte through translate, zero-filled to its memory size, and has the rights that bits 1 and 0 of its segments' flags say, in the upper half as far as the kernel's tables allow |
| Processes.NextReadyFinds | src/kernel/process/mod.rs:1170-1202 | next_ready_index gives the first ready non-idle entry in cyclic order, an idle one only when there is none, and nothing only when there is neither |
| Processes.NextReadyExactly | src/kernel/process/mod.rs:1170-1202 | The same from the records' fields: the entry chosen is the first in turn of those that are ready and not idle, else the first idle one that is ready or running |
| SchedulerInvariant.StepInv | src/kernel/process/mod.rs:1255-1588 | Every step keeps the scheduler invariant |
| SchedulerInvariant.Safety | src/kernel/process/mod.rs:972-1658 | In every reachable state only the current process runs, pids are distinct and below next_pid, parents precede children, Blocked means a channel, Zombie means an exit code, and idle is Ready or Running |
| SchedulerInvariant.ReapedOnce | src/kernel/process/mod.rs:1144-1168 | Over a run each exit code is delivered at most once, and to the parent of the process that exited with it |
| ProcessFates.FateHolds | src/kernel/process/mod.rs:1255-1588 | What each step makes of each process, as a table over the operation and the process's fields: status, channel, exit code and saved address, for every channel and every branch; or the process is a zombie that its waiting parent takes out |
| ProcessFates.SpawnMeans | src/kernel/process/mod.rs:972-1052 | Every spawn: the next pid, the caller as parent, ready, at the end of the table; pids are used up even where the record cannot be stored, and none is left at 2^32 - 1 |
| ProcessFates.NoneAdded | src/kernel/process/mod.rs:1255-1588 | No other step adds a process, and no step but a reschedule changes which one is current |
| ProcessFates.CodesTraced | src/kernel/process/mod.rs:1444-1505 | Over every run from boot, each child handed over to its parent had called exit with the very code that is handed over, before the wait of that parent, for that child, that took it |
| SchedulerInvariant.ExitOnce | src/kernel/process/mod.rs:1444-1459 | A recorded exit code never changes |
| SchedulerProgress.StaysExactlyWhen | src/kernel/process/mod.rs:1528-1558 | schedule_internal stays put exactly when no other process is ready and the current one is idle or was woken before it left |
| SchedulerProgress.Progress | src/kernel/process/mod.rs:1319-1326 | A blocked or exited process gives up the CPU at its next turn, to the idle task only when nobody else is ready |
| SchedulerProgress.SwitchCloser | src/kernel/process/mod.rs:1528-1588 | A switch that does not pick a waiting process brings its turn strictly closer |
| SchedulerProgress.BoundedWaiting | src/kernel/process/mod.rs:1170-1202 | With membership fixed, a ready process at cyclic distance d is the current one in some state of every run with more than d switches, whatever the others do |
| SchedulerProgress.SpinsExactly | src/kernel/process/mod.rs:1319-1339 | While a process reschedules in block_current or wait_for_child, no step can change anything if and only if it has been woken, nobody else is ready and nobody sleeps on the keyboard |
| SchedulerProgress.SpinsForever | src/kernel/process/mod.rs:1319-1326 | Then every continuation stays in that state |
| LostWake.SpinReached | src/kernel/process/mod.rs:1328-1355 | A run from boot that reaches it: spawn, switch, block on the keyboard, and a key before the switch away |
| SchedulerProgress.ChildAnyHeard | src/kernel/process/mod.rs:1444-1505 | In every reachable state a sleeper on ChildAny has no zombie child, except one between the two steps of its exit |
| SchedulerProgress.TargetedWake | src/kernel/process/mod.rs:349-355 | A sleeper on Child(c) wakes at an exit exactly when the exiting process is a child of c |
| SchedulerProgress.OwnChildSilent | src/kernel/process/mod.rs:1461-1463 | So the exit of the awaited child leaves its parent asleep |
| SchedulerProgress.StrandedForever | src/kernel/process/mod.rs:1341-1355 | Once the awaited child and all children of it have exited, the sleeper stays asleep in every continuation |
| LostWake.TargetedWakeLost | src/kernel/process/mod.rs:1471-1505 | A run from boot in which this happens |
| SchedulerProgress.TickSaves | src/kernel/process/mod.rs:1358-1418 | The timer saves the interrupted address of a running process and never over one that is pending |
| SchedulerProgress.PreemptRoundTrip | src/kernel/process/mod.rs:1358-1442 | Under any interleaving the saved address survives until its process takes it, and is the address returned to |
| SwitchWindow.TickExactly | src/kernel/process/mod.rs:1358-1418 | A tick leaves the saved addresses of all processes but the executing one alone if and only if it does not fall between the store of CURRENT_PID and the jump while the next process can be preempted; then it gives the next process the address |
| SwitchWindow.MicroRunProjects | src/kernel/process/mod.rs:1528-1658 | With the switch in three parts and interrupts between them, every run without such a tick is a run of the scheduler |
| SwitchWindow.MicroRoundTrip | src/kernel/process/mod.rs:1358-1442 | Over every such run the saved address survives until its process takes it, and is the address returned to |
| SwitchWindow.StrayReached | src/kernel/process/mod.rs:1646-1654 | A run from boot that reaches the window, and what a tick there leaves behind |
| ProcessTable.Table.constructor | src/kernel/process/mod.rs:1244-1253 | init leaves the idle task alone in the table |
| ProcessTable.Table.FindIndexByPid | src/kernel/process/mod.rs:1127-1129 | The scan returns the first entry of that pid |
| ProcessTable.Table.RemoveIndex | src/kernel/process/mod.rs:1055-1073 | The last entry takes the removed one's place |
| ProcessTable.Table.TakeZombieChild | src/kernel/process/mod.rs:1144-1168 | Takes out the first zombie child that fits and returns its pid and code |
| ProcessTable.Table.NextReadyIndex | src/kernel/process/mod.rs:1170-1202 | The modular loop equals the search that NextReadyFinds is about |
| ProcessTable.Table.WakeChannel | src/kernel/process/mod.rs:1341-1355 | The in-place loop wakes exactly the blocked processes whose channel matches |
| ProcessTable.Table.ChooseNext | src/kernel/process/mod.rs:1531-1622 | The locked section of schedule_internal: the records of both processes, and the one to switch to |
| ProcessTable.Table.ScheduleInternal | src/kernel/process/mod.rs:1528-1658 | The locked section, then the store of CURRENT_PID: together the scheduler step; reports whether there is a switch |
| ProcessTable.Table.Spawn | src/kernel/process/mod.rs:972-1052 | Uses up a pid, stores the child if it can, and refuses at the last 32-bit pid |
| ProcessTable.Table.BlockCurrent | src/kernel/process/mod.rs:1328-1339 | The locked section of block_current on any channel; on the keyboard it is the step Block |
| ProcessTable.Table.ExitCurrent | src/kernel/process/mod.rs:1444-1459 | The locked section of exit_current: the record is a zombie with the code of the call; and whom to tell |
| ProcessTable.Table.PostExit | src/kernel/process/mod.rs:1461-1463 | The wake-up call of exit_current |
| ProcessTable.Table.WaitForChild | src/kernel/process/mod.rs:1471-1505 | One turn of wait_for_child: an error without children, a zombie child taken, with its own pid and exit code as the result, or blocked |
| ProcessTable.Table.RequestPreempt | src/kernel/process/mod.rs:1358-1418 | The timer's locked section, and that the frame is redirected exactly when the address was saved |
| ProcessTable.Table.TakePreemptReturn | src/kernel/process/mod.rs:1421-1442 | The end of preempt_do_switch returns the saved address |
| Fat.ClusterForOffset | crates/ares-core/src/fs/fat.rs:110-131 | Following the chain gives the cluster and offset of a position, on cyclic chains and with clusters of no size too, wherever the loop ends |
| Fat.WalkTerminatesWhen | crates/ares-core/src/fs/fat.rs:119-130 | The chain walk ends exactly when clusters have a size or the chain has an end |
| Fat.ReadTerminatesWhen | crates/ares-core/src/fs/fat.rs:217-253 | read_at ends if and only if nothing is wanted, the file has no first cluster, clusters have a size, or the links from the first cluster end at the chain's end or at an unreadable table sector |
| Fat.ReadClusterSlice | crates/ares-core/src/fs/fat.rs:133-168 | The sector-by-sector copy fills the buffer with the cluster's bytes, or fails at a byte that cannot be read |
| Fat.ReadAt | crates/ares-core/src/fs/fat.rs:217-253 | Fills the buffer with the chain's bytes from the offset on, up to the file's size, and stops early only at the end of the chain or at a byte that cannot be had; a file whose clusters can be read is read completely; with clusters of no size nothing is read |
| Fat.ReadIsSlice | crates/ares-core/src/fs/fat.rs:217-253 | What a read returns is a slice of the concatenated clusters |
| Fat.ReadLength | crates/ares-core/src/fs/fat.rs:222-252 | Such a read returns the least of the buffer's length, the rest of the file and the rest of the chain |
| Fat.ReadComplete | crates/ares-core/src/fs/fat.rs:217-253 | A read of clusters that can be read never fails and returns the slice of the concatenated clusters of exactly that length, on cyclic chains too |
| FatDirectory.FoundExactlyWhen | crates/ares-core/src/fs/fat.rs:170-203 | A file is found exactly when an ordinary entry of its name precedes the terminator and any unreadable sector, and the first one counts |
| FatDirectory.SearchStops | crates/ares-core/src/fs/fat.rs:170-203 | The answer is that of the first entry not passed over |
| FatDirectory.FindRootFile | crates/ares-core/src/fs/fat.rs:170-203 | The nested loops over sectors and entries equal the search of the flattened directory |
| FatDirectory.EndlessRead | crates/ares-core/src/fs/fat.rs:42-253 | A device that load accepts, on which a file of one byte is found and a read of it never ends |
| FatDirectory.SizelessExists | crates/ares-core/src/fs/fat.rs:42-80 | There is such a device of 512 bytes |
| FatWriter.FormatWrites | crates/ares-core/src/fs/fat.rs:42-203 | The writer, by the offsets of the specification, puts any set of files with clusters of their own, among other entries, on a device: no part of the volume lies over another |
| FatRoundTrip.LoadReads | crates/ares-core/src/fs/fat.rs:42-80 | Mounting a written volume finds table, directory and clusters where they were written, whatever the number of reserved sectors and table copies |
| FatRoundTrip.MountsExactlyWhen | crates/ares-core/src/fs/fat.rs:42-80 | A volume is mounted exactly when its boot sector is on the device and says 512 bytes per sector |
| FatRoundTrip.ChainReads | crates/ares-core/src/fs/fat.rs:88-108 | The links of a written file are followed through exactly its clusters, all of which can be read, and end at any of the eight end marks |
| FatRoundTrip.SearchReads | crates/ares-core/src/fs/fat.rs:170-203 | Each written file is found under its name, with its first cluster and its 32-bit size, past deleted entries, labels, directories and long names that may have the same name |
| FatRoundTrip.AbsentReads | crates/ares-core/src/fs/fat.rs:170-203 | A name no file has is not found, whatever lies behind the terminator |
| FatRoundTrip.ReadFile | crates/ares-core/src/fs/fat.rs:42-253 | Mounting a written volume, looking a file up and reading from any offset into any buffer gives the file's own bytes, as many as there are and there is room for |
| ShortName.FormatShortName | crates/ares-core/src/fs/fat.rs:309-347 | Filling the padded buffer part by part gives the name of the path, or refuses it |
| ShortName.FormatSpells | crates/ares-core/src/fs/fat.rs:309-362 | A path of one to eight letters, digits and underscores, with or without a dot and up to three more, between any slashes, is accepted and spelled byte by byte: each part in capitals, padded with spaces |
| ShortName.FormatReads | crates/ares-core/src/fs/fat.rs:309-362 | No other path is accepted |
| ShortName.FormatPrints | crates/ares-core/src/fs/fat.rs:309-362 | An accepted path gives a valid name that prints as the path in capitals, without outer slashes and without the dot of an empty extension |
| ShortName.PrintFormats | crates/ares-core/src/fs/fat.rs:309-362 | A valid name, printed and formatted again, comes back |
| ShortName.Collide | crates/ares-core/src/fs/fat.rs:309-362 | Two accepted paths name the same entry exactly when they agree up to case, outer slashes and an empty extension |
| FileHandle.OffsetWithin | src/kernel/process/mod.rs:228-276 | Over every run of reads, writes and seeks on a file below 2^63 bytes the offset stays within the file and no step saturates or truncates; Handle.Read and Handle.Seek are such steps |
| FileHandle.NoTruncation | src/kernel/process/mod.rs:247-267 | The cast to 64 bits loses nothing for every seek exactly when the base is at most 2^63 |
| FileHandle.ReadsJoin | src/kernel/process/mod.rs:233-237 | However a file is cut into reads, they return its bytes from the first offset to the last without gap or overlap, as many as asked for unless the file or its clusters end before, and every step is exact |
| FileHandle.ReadInTurns | src/kernel/process/mod.rs:233-237 | Reading a handle into buffers of any lengths returns exactly those bytes and leaves the offset behind them |
| FileHandle.Handle.Read | src/kernel/process/mod.rs:233-237 | Returns the bytes at the offset and moves it past them, all that the file has when its clusters can be read; a failed read does not move it |
| FileHandle.Handle.Seek | src/kernel/process/mod.rs:249-275 | Moves the offset within the file and refuses every other seek |

## Left out

- Assembly, register save and restore, and the setup of CR3, GDT, IDT, PIC and PIT: machine code outside the model.
- Interrupts that find the process table locked: a timer tick then does nothing, and a keyboard interrupt that waits for the lock is not modelled.
- Multiboot parsing and the reserved limit's linker symbols: the region table and the limit are inputs.
- Heap shims, HeapBox and the growth of the process table's array: thin layers over the modelled operations.
- Device drivers, console, keyboard buffer, credentials, file descriptors and the per-process CPU counter: easy members or device I/O.
- Copies within the kernel's own address space: a plain memory copy.
- The user stack and the entry into user mode: the stack uses the same frame and page steps as a segment, without contents.
- The kernel's own copy of the FAT reader differs by logging only and is covered by the same model.
- The heap size in `doc/kernel/memory.md` (1 MiB) differs from the code (8 MiB); the model takes any heap bounds.
- FileHandle.Handle.Read: the handle is one on a FAT file; writing to such a file is always refused and changes nothing.
- UserCopy.ChunksAreBytes: goes one way, because a turn that writes a word by which it was translated may leave the walk as it was; TurnsMatter is one that does not.
- UserCopy.WriteThenRead: is stated for ranges that hold no word of their own translation; when one does, where the bytes went is no longer where they are looked for.
- AddressSpaces.RunRefines: in a run the kernel's own root gains no top-level entry, since the kernel maps pages in the spaces it has cloned only; one such call is covered by MapExactly.
- LoadConditions.LoadsExactlyWhen: assumes four frames per page, the most that a page can need; with fewer an image may load or not, and LoadNeeds still holds.
- ProcessTable.Table.BlockCurrent: the state machine has block_current on the keyboard only, the one channel it is called for.
