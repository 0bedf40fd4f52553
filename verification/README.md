# barrelOS: a verified model of its kernel core

barrelOS is a small 32-bit x86 kernel. This project models its memory system, its scheduler, its text terminal,
its interrupt routing and its formatter, and proves what each of them keeps over whole runs.

Every component comes in two layers. A module on values (`PmmModel`, `VmmModel`, `KernelModel`, `KernelRuns`,
`VgaModel`, `IrqModel`, `PrintfModel`, the first half of `Sched`) defines what one operation does to the state and holds
the theorems. A module with classes and loops (`Pmm`, `Vmm`, `VmmInstall`, `Heap`, `Vga`, `Irq`, `Printf`, `Libc`, the
second half of `Sched`) writes the arrays and fields in place as the C code does, and each of its methods is proved to
take the state exactly where the value layer says.

* **Memory.** `Bitmap` is the packed page bitmap. `PmmModel` and `Pmm` are the page allocator: a next-fit search with a
  cursor that never goes back. `VmmModel`, `Vmm` and `VmmInstall` are the two-level page tables of 32-bit paging
  (section 4.3 of the Intel SDM, Volume 3A). `KernelModel`, `KernelRuns` and `Heap` put the heap on top. Physical
  memory is one array of words; page tables, heap headers and user data all live in it, and that they do not overlap is
  proved. The page directory and the page bitmap are arrays of their own. A ghost map gives every frame in use its
  owner.
* **Scheduler.** `Sched`: a 256-slot round robin with a quantum of 20.
* **Terminal.** `VgaModel` and `Vga`: an 80x25 screen that shows the end of an unbounded log over whatever the screen held at boot.
* **Interrupts.** `IrqModel` and `Irq`: from a registered line through overrides, I/O APIC entry and vector to a handler.
* **Strings and formatting.** `Libc`, `PrintfModel`, `Printf`.

What a method computes is stated by a function, and what that function means is stated by a lemma in numbers written
out: the size of the bitmap (`InstallMeasures`), the final page map (`FrameBufferIsMapped`, `KernelIsMapped`), the bits
of an interrupt entry (`RedirectBits`), the two bytes of a screen cell (`PutCharDraws`), the numeral of `%d`
(`PrintsDecimal`).

Three ways of writing C expressions: `x & ~0xFFF` is `x / 4096 * 4096`, an OR of disjoint bit fields is a sum
(`OrIsSum`), and every `uint32_t` result that can leave the range goes through `Wrap32`. A panic is an outcome: it halts the machine.

## What the proofs found

* **The search can leave its limit.** `pmm_find_pages` stops only when the cursor equals `pmm_page_count`.
  `RequestStaysIff` says exactly when one request stays below it: the cursor is there already, or the bit at the count
  or the one before it is set, or there is a run below the count to take. `SearchRespectsLimitIff` is the condition for
  all requests at once. `pmm_install` counts pages from the region's length but clears bits by absolute page number;
  `InstallRespectsLimitIff` says which machines that leaves safe, and `InstallLosesTheLimit` that none is whose kernel
  region is longer than the address its bitmap ends at (`OrdinaryMachineLosesTheLimit`: 32 MiB). Requests for one page
  are always safe (`OnePageStays`), so page tables, `vmm_install` and `heap_create` never read past the bitmap
  (`StepWithinLimit`, `SectionWithinLimit`); only blocks of several pages can. With the page at the count reserved
  nothing can (`RunUnderSentinel`, `SentinelHoldsThroughout`). No other run theorem assumes the sentinel.
* **The installer can write past its own bitmap**, for the same reason: `ClearsInsideIff` is the exact condition, and
  `ClearingLeavesBitmap` a machine with 256 MiB.
* **On machines with almost 4 GiB page 0 is given out.** The clearing loop wraps and goes on from page 0
  (`LargeMachineFreesPageZero`). `InstallIsSaneIff` is the exact condition; the run theorems are about machines where
  page 0 stays reserved.
* **Freed pages never come back.** The cursor only grows, so an allocator hands out each page at most once in its life
  (`LifetimeBudget`, `RunKeepsFreed`), unless somebody asks for no pages at all (`EmptyRequestReuses`).
* **Large heap requests wrap.** A block fits its pages exactly for requests of at most 2^32 - 4112 bytes (`BlockFitsIff`);
  larger ones get one page, or frame 0 (`OversizedBlock`). `HeapAllocKeepsInvIff` says that only the latter break
  ownership.
* **The kernel is not mapped where it says.** `vmm_install` adds the kernel's start where it should subtract it, so a
  kernel linked at 2 MiB is mapped at 0x40400000, and at 0xC0000000 only if linked at 1 GiB or 3 GiB
  (`SectionDeltaIff`).
* **Unmapping the last page below 4 MiB breaks the kernel**, because the first page table is not the allocator's to take
  back (`UnmapKeepsInvIff`).
* **The screen is never cleared.** What it held at boot shows wherever nothing was printed yet; even a screen full of
  spaces is not the kernel's blank (`FirmwareScreenShowsThrough`). `PutsFromFoundIff` says exactly when
  the screen is the one a cleared screen would show, and it is from the time the first 25 rows have scrolled away
  (`ScrolledAwayShows`).
* **Background colour escapes select black** (`BackgroundIsBlackIff`), because the table has no entry above 15.
* **Blocks from 1 GiB on map over the kernel's own pages.** Their higher-half addresses wrap to the first 4 MiB, and
  `StepKeepsIdentityIff` says that exactly those blocks do damage there; below 1 GiB none do
  (`SmallMachineSparesIdentity`).
* **The last pin of every I/O APIC is unreachable** (`LastPinNotFound`), and the 8-bit register number is right exactly
  for the first 120 pins (`RegisterExactIff`).
* **Lines that share an interrupt take it from each other.** Routing is right for every run exactly when the lines'
  interrupts are distinct (`RoutingIsRightIff`), which they are not on a PC whose timer is overridden to interrupt 2
  (`TimerTakesLineTwo`).
* In `ioapic_redirect_gsi` the comments on bits 13 and 15 name other fields than the bits are; the model follows the bits.

## Model

| member | source | states |
|---|---|---|
| Bitmap.BitmapSet | kernel/lib/bitmap.h:6-8 | on the packed bytes, sets the named bit of the bit sequence they stand for and no other |
| Bitmap.BitmapClear | kernel/lib/bitmap.h:10-12 | clears the named bit of that sequence and no other |
| Bitmap.BitmapGet | kernel/lib/bitmap.h:14-16 | returns the named bit of that sequence |
| Bitmap.BitMeaning | kernel/lib/bitmap.h:6-16 | bit 8i + k of the sequence is the bit of weight 2^k in byte i |
| Bitmap.CountMark | kernel/mm/pmm.c:85-87 | flipping a range that was wholly the other way moves the number of set bits by the length of the range |
| PmmModel.SearchSkipsNoStart | kernel/mm/pmm.c:73-99 | for any bitmap: the page found is the least start of a free run at or after the cursor, and neither a panic nor an overrun passes over one; the skip by `pages` loses no start |
| PmmModel.RequestStaysIff | kernel/mm/pmm.c:73-99 | one request of any size ends in a panic or below the page count if and only if the cursor is at the count, the bit at the count or the one before it is set, or a free run of that size ends by the count |
| PmmModel.OnePageStays | kernel/mm/pmm.c:73-99 | a request for one page always does |
| PmmModel.SearchRespectsLimitIff | kernel/mm/pmm.c:77-97 | every request does if and only if the cursor is at the count, or the bit at the count or the one before it is set |
| PmmModel.FindIsFirstFit | kernel/mm/pmm.c:73-99 | with the sentinel set: the result is page p iff p is the first fit below the count, a panic iff nothing fits, never a read past the bitmap, and the sentinel stays |
| PmmModel.FindTakesRun | kernel/mm/pmm.c:84-91 | a successful search sets exactly the bits of a run that was free and leaves the cursor behind it |
| PmmModel.AllocIsFind | kernel/mm/pmm.c:101-112 | with page 0 reserved and a positive count there is one search, and the address returned is not 0 |
| PmmModel.RetryIff | kernel/mm/pmm.c:104-107 | in any state the first search returns 0, and the retry is taken, iff the request is for no pages, or the cursor is 0, the page count is not 0, and a free run of that size starts at page 0 |
| PmmModel.RetryLosesRun | kernel/mm/pmm.c:101-112 | when that run is found, it stays taken for good and a second, disjoint run is handed out in its place |
| PmmModel.EmptyRequestReuses | kernel/mm/pmm.c:104-107 | an empty request returns 0 and rewinds the cursor, so a block taken and freed before it is handed out again |
| PmmModel.RunAscends | kernel/mm/pmm.c:73-119 | over every run of allocations and frees the ranges handed out are pairwise disjoint, in increasing order, and none starts at page 0 |
| PmmModel.AddressesAscend | kernel/mm/pmm.c:109-111 | the addresses returned in a run grow strictly, by at least the size of each block, without 32-bit wrap-around |
| PmmModel.LifetimeBudget | kernel/mm/pmm.c:73-119 | all pages ever handed out in a run, freed or not, number at most the pages behind the first cursor |
| PmmModel.SentinelHoldsThroughout | kernel/mm/pmm.c:77-97 | over every run that spares it the sentinel stays, and nothing at or above the page count is handed out |
| PmmModel.UseIsConserved | kernel/mm/pmm.c:114-143 | over every run whose frees are of taken pages, pages in use at the end are those at the start plus taken minus freed |
| PmmModel.UsedBytesExactIff | kernel/mm/pmm.c:121-143 | the 32-bit byte count is exact iff fewer than 2^20 pages are set, stays within the total below 2^20 bits, and the total is 0 at 2^20 bits |
| Pmm.PhysicalMemory.Install | kernel/mm/pmm.c:48-68 | builds the bitmap and adjusts the map in place so that a bit is clear iff some adjusted available region at or above 1 MiB covers its page |
| Pmm.PhysicalMemory.ClearRegion | kernel/mm/pmm.c:63-67 | the inner loop clears exactly the pages a region covers |
| Pmm.FindKernelRegion | kernel/mm/pmm.c:29-46 | finds the first available region at or above 1 MiB iff there is one |
| Pmm.PmmInstall | kernel/mm/pmm.c:19-71 | panics iff flag bit 6 is clear, else installs with the first such region, the count within the bitmap, and page 0 reserved iff no region passes 4 GiB |
| Pmm.InstallMeasures | kernel/mm/pmm.c:48-55 | the bitmap has a whole number of 4 KiB pages, the fewest with a byte for every eight pages of the region; the count is the number of whole pages in the region; the kernel region starts behind the bitmap and is shorter by the kernel; no other region changes |
| Pmm.CoversIff | kernel/mm/pmm.c:59-67 | a region covers a page iff it is available, starts at or above 1 MiB, and the 32-bit address of some 4 KiB step within its length lies in the page |
| Pmm.InstallIsSaneIff | kernel/mm/pmm.c:48-68 | installation leaves cursor and count within the bitmap, and page 0 reserved iff no available region at or above 1 MiB, the kernel's with its adjusted end, passes 4 GiB |
| Pmm.LargeMachineFreesPageZero | kernel/mm/pmm.c:54-67 | with memory up to 16 pages short of 4 GiB installation clears the bit of page 0 |
| Pmm.ClearsInsideIff | kernel/mm/pmm.c:59-67 | the clearing loop only touches pages that have a bit iff every non-empty available region at or above 1 MiB, the kernel's with its adjusted end, ends within them or, if it passes 4 GiB, they are all 2^20 |
| Pmm.ClearingLeavesBitmap | kernel/mm/pmm.c:48-67 | on a 256 MiB machine it writes past the bitmap |
| Pmm.OffsetLeavesIff | kernel/mm/pmm.c:63 | the 32-bit offset counter of the clearing loop ever reaches the region's length iff that is at most 2^32 - 4096 |
| Pmm.AdjustedEndGrows | kernel/mm/pmm.c:54-55 | the kernel region ends later than before by the size of the bitmap |
| Pmm.KernelAndBitmapStaySetIff | kernel/mm/pmm.c:48-68 | where no other available region covers it, a page from the region's old start through the end of the bitmap stays set iff the region does not come round to it from beyond 4 GiB |
| Pmm.InstallSentinelIff | kernel/mm/pmm.c:50-68 | installation leaves the sentinel iff the bit at the page count exists and no region covers that page |
| Pmm.InstallRespectsLimitIff | kernel/mm/pmm.c:50-78 | after installation every request respects the count iff the count is 0, or the page at the count has a bit and no region covers it, or no region covers the page before |
| Pmm.InstallLosesTheLimit | kernel/mm/pmm.c:50-78 | that fails on every machine whose kernel region is longer than the end address of its bitmap |
| Pmm.OrdinaryMachineLosesTheLimit | kernel/mm/pmm.c:50-78 | it fails on a 32 MiB machine with a kernel linked at 2 MiB that is 128 KiB long |
| Pmm.PhysicalMemory.Scan | kernel/mm/pmm.c:73-99 | the search loop over the packed bytes computes the search on the bit sequence and leaves the cursor where it stopped |
| Pmm.PhysicalMemory.FindPages | kernel/mm/pmm.c:73-99 | takes bitmap and cursor exactly to the specified search, marking included |
| Pmm.PhysicalMemory.Allocate | kernel/mm/pmm.c:101-112 | returns the address of the specified page, or panics exactly when the specification is out of memory |
| Pmm.PhysicalMemory.Release | kernel/mm/pmm.c:114-119 | clears exactly the bits of the range |
| Pmm.PhysicalMemory.GetUsedMem | kernel/mm/pmm.c:129-143 | the nested bit loop returns 4096 times the number of set bits, modulo 2^32 |
| Pmm.PhysicalMemory.GetTotalMem | kernel/mm/pmm.c:121-123 | returns 4096 times the number of bits, modulo 2^32 |
| VmmModel.EntryIsOr | kernel/mm/vmm.c:50 | a table entry is the bitwise OR of the page address and the flags, for flags of any width |
| VmmModel.EnsureTableKeepsFlat | kernel/mm/vmm.c:38-46 | a page table created on demand changes no translation |
| VmmModel.MapRefinesFlat | kernel/mm/vmm.c:34-53 | after a map with any flags the two-level walk is the old flat map updated at one virtual page, and present directory entries still hold distinct tables |
| VmmModel.UnmapRefinesFlat | kernel/mm/vmm.c:58-85 | after an unmap the walk is the old flat map without that one page, freed table or not |
| VmmModel.MapPermits | kernel/mm/vmm.c:38-50 | while the directory gives write access only to the kernel, a mapped page is writable iff its flags are present and writable, whether or not a table was made for it; every other page permits what it did, and none is open to user code |
| KernelModel.UnmapFreesTableIff | kernel/mm/vmm.c:69-81 | the table's frame is freed and its directory entry cleared iff the removed entry was the last present one |
| Vmm.PageTables.EnsureTable | kernel/mm/vmm.c:38-46 | allocates, clears and enters a table exactly as specified, or panics |
| Vmm.PageTables.MapPage | kernel/mm/vmm.c:34-53 | writes directory and memory exactly to the specified map |
| Vmm.PageTables.IsEmpty | kernel/mm/vmm.c:69-76 | the scan returns whether no entry of the table is present |
| Vmm.PageTables.UnmapPage | kernel/mm/vmm.c:58-85 | writes directory, memory and bitmap exactly to the specified unmap |
| VmmInstall.SetUp | kernel/mm/vmm.c:91-95 | the two set-up loops produce the boot directory and the identity table and touch no other word |
| VmmInstall.BootIsIdentity | kernel/mm/vmm.c:91-95 | at boot exactly the first 4 MiB translate, each page to itself, read-write |
| VmmInstall.BootKernelBooted | kernel/mm/vmm.c:91-95 | the boot state, every taken frame reserved, satisfies the invariant of the memory system |
| VmmInstall.SectionTranslates | kernel/mm/vmm.c:100-113 | a mapping loop translates each page of its section to the frame it came from and leaves every other page alone |
| VmmInstall.SectionIsRun | kernel/mm/vmm.c:103-113 | a mapping loop before there is a heap is a legal run of the map operation |
| VmmInstall.SectionDeltaIff | kernel/mm/vmm.c:100-110 | a section lands at 0xC0000000 plus its distance from the kernel's start iff the kernel is linked at 1 GiB or 3 GiB, and at 0x40400000 if at 2 MiB |
| VmmInstall.FrameBufferIsMapped | kernel/mm/vmm.c:111-113 | once all sections are mapped, in any mode but 3 every page of the frame buffer translates to itself, read-write |
| VmmInstall.KernelIsMapped | kernel/mm/vmm.c:100-113 | and every page of text and rodata translates read-only, of data and bss read-write, at the one distance from its frame, where no later range maps the same page |
| VmmInstall.OthersKeepBoot | kernel/mm/vmm.c:100-113 | and every page outside the four sections, and in graphics mode the frame buffer, translates as at boot |
| VmmInstall.MapLoop | kernel/mm/vmm.c:103-104 | the loop in memory reaches the specified state or panics where it does |
| VmmInstall.SectionWithinLimit | kernel/mm/vmm.c:103-113 | a mapping loop never makes the allocator read past the bitmap, sentinel or not |
| VmmInstall.Install | kernel/mm/vmm.c:90-113 | ends with the boot state and then all sections mapped in order, the frame buffer only outside text mode, or panics exactly where those run out of memory |
| KernelModel.PhysicalInverts | kernel/mm/pmm.h:9-10 | `PHYSICAL` and `HIGHER_HALF` undo each other modulo 2^32 for every address |
| KernelModel.BlockFitsIff | kernel/mm/heap.c:24 | header and bytes fit the pages taken iff the request is at most 2^32 - 4112; then the page count is positive and minimal |
| KernelModel.OversizedBlock | kernel/mm/heap.c:24-26 | every larger request is answered with one page, or with none: then the block is frame 0, whoever owns it, and the cursor goes back to 0 |
| KernelModel.MapKeepsInvIff | kernel/mm/vmm.c:34-53 | mapping a page keeps ownership, tables, heap ring and all block headers and mappings iff it leaves the mappings of live blocks as they are |
| KernelModel.UnmapKeepsInvIff | kernel/mm/vmm.c:58-85 | unmapping a page keeps them iff the page is no live block's and the static first table is not emptied |
| KernelModel.HeapAllocKeepsInvIff | kernel/mm/heap.c:23-34 | for a request of any size, `heap_alloc` with the page table it may allocate in between keeps them, the new block mapped and its header linked to the head, iff the page count is not 0, which is also when the block owns the frame its header is in |
| KernelModel.HeapFreeKeepsInvIff | kernel/mm/heap.c:37-51 | `heap_free` of a live block, with the page table it may free at the end, keeps them iff it does not empty the static first table |
| KernelRuns.HeapCreateEstablishesInv | kernel/mm/heap.c:10-20 | `heap_create` establishes the self-looping head in two fresh frames and changes no translation |
| KernelRuns.StoreKeepsInv | kernel/mm/heap.c:33 | whatever a user writes into the mapped part of its block keeps everything |
| KernelRuns.StepKeepsInv | kernel/mm/heap.c:10-51 | every legal operation of the memory system keeps the whole invariant |
| KernelRuns.RunKeepsOwner | kernel/mm/heap.c:10-51 | over every run exactly the frames reserved at the start are reserved, and the stack pages are those at the start and those the run took |
| KernelRuns.RunPartition | kernel/mm/heap.c:10-51 | after every run from boot the set bits are exactly the disjoint union of the boot frames, the heap's two frames, the live blocks' ranges, the on-demand page tables and the stack pages taken for tasks |
| KernelRuns.RunKeepsFreed | kernel/mm/pmm.c:73-99 | over every run the cursor never goes back and a frame that is free behind it is never used again |
| KernelRuns.StepWithinLimit | kernel/mm/pmm.c:77-80 | with no sentinel at all, no operation reads past the bitmap, nested allocations included, except a block of several pages that does not fit below the count |
| KernelRuns.RunWithinLimit | kernel/mm/pmm.c:77-80 | so no operation of a run does whose blocks fit when asked for, and the cursor ends within the count |
| KernelRuns.StepUnderSentinel | kernel/mm/pmm.c:77-80 | while the page at the count is reserved, no step of any kind reads past the bitmap and the sentinel stays |
| KernelRuns.RunUnderSentinel | kernel/mm/pmm.c:77-80 | so it is for every run and each of its operations |
| KernelRuns.StepRefinesFlat | kernel/mm/heap.c:23-51 | each operation changes the flat map at its one page only, `heap_alloc` and `heap_free` at the block's first page |
| KernelRuns.RunKeepsTight | kernel/mm/vmm.c:58-85 | if every map is present, over every run each on-demand table translates at least one page |
| KernelRuns.EverythingReturned | kernel/mm/vmm.c:69-81 | a run of present maps that ends with no live block and nothing mapped above 4 MiB ends with exactly the boot frames, the heap's two and the stack pages it took set |
| KernelRuns.StepKeepsIdentityIff | kernel/mm/heap.c:26-27 | an operation keeps the identity map of the first 4 MiB iff its mapping is elsewhere or the same: for a block iff its frame is none of the 1024 from 1 GiB on |
| KernelRuns.RunKeepsIdentity | kernel/mm/heap.c:26-50 | so it lasts for every run whose operations all do |
| KernelRuns.RunKeepsFlags | kernel/mm/vmm.c:38-46 | over every run each present directory entry is present and writable and has no other flag, so no page is ever open to user code |
| KernelRuns.SmallMachineSparesIdentity | kernel/mm/heap.c:26-50 | with at most 1 GiB of managed memory every run does whose own maps and unmaps are above 4 MiB |
| KernelRuns.TakeStackKeepsInv | kernel/sys/sched.c:26 | the page taken for a task's stack keeps the whole invariant |
| KernelRuns.UseIsOwnership | kernel/mm/pmm.c:129-143 | in every reachable state the set bits number the owned frames, and the bytes in use are 4096 times that |
| KernelRuns.UserRangesDisjoint | kernel/mm/heap.c:23-34 | live blocks share no page, and a user range lies within its own block's pages iff the request is at most 2^32 - 4112 |
| Heap.PointerFindsBlock | kernel/mm/heap.c:33-49 | from the pointer `heap_alloc` returned, `heap_free` recomputes the very frame taken |
| Heap.KernelHeap.Create | kernel/mm/heap.c:10-20 | in memory, reaches the specified state and returns the heap's address, or panics |
| Heap.KernelHeap.FillHeader | kernel/mm/heap.c:28-31 | the four stores through the block's virtual address write next, prev, size and magic into its own frame and nothing else |
| Heap.KernelHeap.Alloc | kernel/mm/heap.c:23-34 | in memory, reaches the specified state and returns the address past the header, or panics |
| Heap.KernelHeap.Unlink | kernel/mm/heap.c:45-46 | the two relinking stores, made through the pointers in the header, leave memory as it was |
| Heap.KernelHeap.Free | kernel/mm/heap.c:37-51 | a bad magic number changes nothing; a good one frees the block as specified, with the page count recomputed from the header |
| Heap.LiveMagic | kernel/mm/heap.c:38-40 | for every live block the header before its pointer is readable and the magic number intact |
| Sched.ClosedForm | kernel/sys/sched.c:37-64 | with n tasks, after t >= 1 ticks task ((t-1)/21) mod n runs with quantum 20 - (t-1) mod 21 left |
| Sched.TickApproaches | kernel/sys/sched.c:37-64 | a tick keeps the state sound and either switches to slot j or lowers its remaining wait |
| Sched.SpawnKeepsWait | kernel/sys/sched.c:21-35 | creating a task delays nobody's bound |
| Sched.BoundedWaiting | kernel/sys/sched.c:21-64 | from any sound state, in every interleaving of ticks and creations, each task is switched to within 256*21 ticks |
| Sched.BoundIsTight | kernel/sys/sched.c:37-64 | in a full table a task whose turn is over is not current again before all the other 255 turns, and the state recurs after 256*21 ticks |
| Sched.Scheduler.constructor | kernel/sys/sched.c:66-70 | installs an empty table with the idle task, pid 0, and no current task |
| Sched.Scheduler.NewTask | kernel/sys/sched.c:21-35 | keeps the table a prefix of distinct tasks, adds the new one in the first free slot, returns null iff the table was full, and counts pids modulo 2^32 |
| Sched.Scheduler.GetNextTask | kernel/sys/sched.c:37-44 | the scan returns the task after the current one, or the first |
| Sched.Scheduler.Schedule | kernel/sys/sched.c:46-64 | takes task and quantum exactly one specified tick on |
| VgaModel.ClearShowsEmpty | kernel/dev/vga.c:28-46 | a cleared screen with the cursor home shows the empty log |
| VgaModel.FoundShowsEmpty | kernel/dev/vga.c:6-9 | whatever the screen holds, with the cursor home it shows the empty log over that |
| VgaModel.PutCharShows | kernel/dev/vga.c:73-111 | after any character but a backspace the screen and cursor are the 25-row window of the log with that character added, over what the screen was found with |
| VgaModel.PutsShowsOver | kernel/dev/vga.c:33-111 | for every string without backspace, clear and home, colour escapes included, and any screen it starts on, the screen is the last window of the unbounded log wrapped at 80 columns, over what was found, and printing it is safe |
| VgaModel.ShowsIff | kernel/dev/vga.c:33-111 | the window over one screen is the window over another iff the two agree in every cell that still shows |
| VgaModel.PutsFromFoundIff | kernel/dev/vga.c:6-111 | from boot, without any clearing, the screen after every such string is what a cleared one would show iff what still shows of the found screen is blank |
| VgaModel.ScrolledAwayShows | kernel/dev/vga.c:105-111 | once the first 25 rows have scrolled away it is |
| VgaModel.FirmwareScreenShowsThrough | kernel/dev/vga.c:28-111 | over a screen of grey spaces it is not after any single character |
| VgaModel.PutsShows | kernel/dev/vga.c:33-111 | on a screen that was cleared, every such string leaves the window over the cleared screen |
| VgaModel.LogKeepsEveryCharacter | kernel/dev/vga.c:73-103 | read row by row, the log is exactly the sequence of cells drawn, each in the colour last selected |
| VgaModel.LogBytes | kernel/dev/vga.c:73-103 | the low bytes of the log are the characters of the string without escapes and line feeds, a tab as four spaces, and the high bytes the colour in force at each |
| VgaModel.PutCharDraws | kernel/dev/vga.c:88-97 | a drawn character that does not scroll stands in the low byte of the cell under the cursor, the colour in its high byte (0xFF above 127), no other cell changes, and the cursor moves on or to the next row |
| VgaModel.BackspaceErases | kernel/dev/vga.c:78-84 | a backspace blanks exactly the cell before the cursor, across the row boundary too, and stays on it |
| VgaModel.BackspaceUndoes | kernel/dev/vga.c:78-97 | after a drawn character that did not scroll it brings the cursor back |
| VgaModel.ClearAndHome | kernel/dev/vga.c:38-50 | the clear escape blanks all 2000 cells in the current colour and leaves the cursor, the home escape moves only the cursor, and the rest of the string goes on from there |
| VgaModel.ClearHomeRestarts | kernel/dev/vga.c:33-71 | from any screen, clear and home followed by a string leave exactly the window of that string's own log |
| VgaModel.ColorEscape | kernel/dev/vga.c:52-69 | a colour escape sets the colour its decimal digits select and prints the character behind the `m` literally |
| VgaModel.ForegroundIsAnsi | kernel/dev/vga.c:11-64 | codes 30 to 37 set the foreground to the ANSI colour with red, green and blue as bits 0, 1 and 2, 90 to 97 to its bright form, and both keep the background |
| VgaModel.OtherCodes | kernel/dev/vga.c:61-67 | code 0 selects grey on black, and codes that name no colour change nothing |
| VgaModel.BackgroundIsBlackIff | kernel/dev/vga.c:11-62 | every background colour escape sets the background to 0, which is the colour asked for iff the code is 40 |
| VgaModel.Puts | kernel/dev/vga.c:33-71 | for every printable string, escapes and backspaces included, the cursor and buffer stay within 80x25 |
| Vga.Terminal.constructor | kernel/dev/vga.c:6-9 | the terminal at boot shows the empty log over its memory as found |
| Vga.Terminal.ClearScreen | kernel/dev/vga.c:28-31 | blanks every cell in the current colour |
| Vga.Terminal.ScrollUp | kernel/dev/vga.c:105-111 | the two loops move every row up by one, blank the last, and move the cursor up |
| Vga.Terminal.PutCharacter | kernel/dev/vga.c:73-103 | takes buffer and cursor exactly to the specified state, tabs through `vga_puts` included |
| Vga.Terminal.PutEscape | kernel/dev/vga.c:35-69 | handles one escape as specified: clear, home, or colour followed by the fall-through character |
| Vga.Terminal.PutString | kernel/dev/vga.c:33-71 | takes the screen exactly to the specified state for the whole string |
| IrqModel.LastPinNotFound | kernel/dev/ioapic.c:25-35 | `ioapic_get_gsi` never finds a controller for its own last pin: it returns another one that covers that interrupt, or null iff there is none |
| IrqModel.GsiCountMeaning | kernel/dev/ioapic.c:25-27 | the count is bits 16 to 23 of the version register |
| IrqModel.GetGsi | kernel/dev/ioapic.c:30-35 | finds the first controller that covers the interrupt, none before it |
| IrqModel.RegisterExactIff | kernel/dev/ioapic.c:52-54 | the register number survives the cut to 8 bits iff the pin is among the first 120 |
| IrqModel.RedirectBits | kernel/dev/ioapic.c:41-50 | the low word holds the vector in its low byte, flag bit 1 in bit 13, flag bit 3 in bit 15, the mask in bit 16, and nothing else |
| IrqModel.DestinationBits | kernel/dev/ioapic.c:50 | the high word holds the low byte of the APIC id in its top byte and nothing else |
| IrqModel.EffectiveIsFirst | kernel/dev/ioapic.c:58-69 | the first override that names the line gives its interrupt and flags, and without one the line is its own interrupt without flags |
| IrqModel.SlotsDistinct | kernel/dev/ioapic.c:52 | different interrupts have different redirection entries |
| IrqModel.RegisterEffect | kernel/cpu/tables/idt.c:73-77 | registering a line writes its own two registers, vector line+32 unmasked, and no other register of any controller |
| IrqModel.RegisterElsewhere | kernel/cpu/tables/idt.c:73-81 | lines above 15, all lines while routing is off, and every unregistration change only that handler |
| IrqModel.RunHandlers | kernel/cpu/tables/idt.c:73-81 | after every sequence of calls each table slot holds the handler last registered, or null |
| IrqModel.RunEntry | kernel/cpu/tables/idt.c:73-81 | after every sequence a line that was registered has its own unmasked entry, and one that was not has the entry it had |
| IrqModel.RunKeepsUnclaimed | kernel/cpu/tables/idt.c:73-81 | after every sequence each register of each controller that belongs to none of the registered lines holds what it held |
| IrqModel.OthersStayMasked | kernel/dev/ioapic.c:71-88 | from installation on, through every sequence, a pin of the first controller that belongs to none of the registered lines keeps its masked entry |
| IrqModel.RoutingIsCorrect | kernel/cpu/tables/idt.c:73-106 | an interrupt on a registered line, followed through override, controller, entry, vector and table, reaches the handler last registered for that line |
| IrqModel.MaskedStaysSilent | kernel/cpu/tables/idt.c:73-106 | a masked line that is never registered reaches no handler |
| IrqModel.SharedInterruptIsTakenOver | kernel/dev/ioapic.c:58-69 | when two lines resolve to one interrupt the later registration answers for both |
| IrqModel.RoutingIsRightIff | kernel/dev/ioapic.c:58-69 | for routable lines, every run leaves every registered line with its last handler iff no two of the lines have the same interrupt |
| IrqModel.TimerTakesLineTwo | kernel/dev/ioapic.c:58-69 | on a PC with line 0 overridden to interrupt 2, lines 0 and 2 are routable and routing is not right for every run |
| IrqModel.InstalledIsMasked | kernel/dev/ioapic.c:85-88 | right after installation every line routed to the first controller is masked |
| IrqModel.InstallIff | kernel/dev/ioapic.c:71-90 | if the top byte of the id register is not the announced id nothing changes; if it is, every pin has vector pin + 32, masked, no other register or controller changes, and routing is on |
| Irq.Router.FindController | kernel/dev/ioapic.c:30-35 | the loop finds the controller specified |
| Irq.Router.Redirect | kernel/dev/ioapic.c:38-55 | writes the specified entry of the specified controller |
| Irq.Router.RedirectIrq | kernel/dev/ioapic.c:58-69 | redirects by the first override for the line, or by its own number without flags |
| Irq.Router.Register | kernel/cpu/tables/idt.c:73-77 | takes controllers and handler table exactly to the specified state |
| Irq.Router.Unregister | kernel/cpu/tables/idt.c:79-81 | clears exactly the line's handler |
| Irq.Router.Handle | kernel/cpu/tables/idt.c:101-106 | looks up the handler for vector - 32 |
| Irq.Router.Install | kernel/dev/ioapic.c:71-90 | unless the id differs, masks every entry of the first controller with vectors from 32, writes no other register, and enables routing |
| Libc.Memcpy | kernel/lib/libc.c:3-12 | leaves what a copy byte by byte from the front leaves, overlapping or not |
| Libc.Memmove | kernel/lib/libc.c:24-39 | for every overlap the destination is the old source and nothing else changes |
| Libc.MemcpyCopiesIff | kernel/lib/libc.c:3-12 | for all contents `memcpy` is a copy iff the destination does not start inside the source |
| Libc.ForwardRepeats | kernel/lib/libc.c:7-9 | when it does, the bytes between source and destination are repeated over the whole destination, and nothing else changes |
| Libc.Strlen | kernel/lib/libc.c:54-61 | the distance to the terminator |
| Libc.Strchr | kernel/lib/libc.c:101-108 | the first such character, terminator included, or null iff there is none |
| Libc.Strncmp | kernel/lib/libc.c:71-83 | 0 if the strings agree for n characters or end together, else the difference at the first place they differ |
| Libc.Strstr | kernel/lib/libc.c:110-121 | the leftmost occurrence, or null iff there is none, with every read at or before a terminator |
| Libc.Atoi | kernel/lib/libc.c:123-131 | the value of the leading digits, and whether computing it stays within an `int` |
| Libc.FitsIntIff | kernel/lib/libc.c:123-131 | no intermediate value leaves the range of an `int` iff the final value is below 2^31 |
| PrintfModel.DigitsFitScratch | kernel/lib/printf.c:17-29 | every 32-bit number has at most 32 digits in every base from 2 |
| PrintfModel.NumberLength | kernel/lib/printf.c:16-35 | a printed number is as long as the greatest of width, digits and 1 |
| PrintfModel.NumberMeaning | kernel/lib/printf.c:16-35 | a printed number ends in its digits, or 0, with nothing but zeros or nothing but spaces before them, up to the width |
| PrintfModel.DigitsRoundTrip | kernel/lib/printf.c:26-34 | in every base from 2 to 36 the digits, A to Z after 9, read as a numeral give the number back, and the first is not 0 |
| PrintfModel.AtoiUndoesNumberIff | kernel/lib/printf.c:16-35 | `atoi` gives a printed decimal back without overflow iff the number is below 2^31 and zero-padded, not padded at all, or 0 |
| PrintfModel.HexRoundTrip | kernel/lib/printf.c:37-42 | the hexadecimal digits determine the number |
| PrintfModel.PrintsDecimal | kernel/lib/printf.c:60-78 | for every flag and width `%d` prints the padded base-ten numeral of its argument, which `atoi` reads back when it is zero-padded or not padded |
| PrintfModel.PrintsHex | kernel/lib/printf.c:79-81 | `%x` prints eight characters whose hexadecimal value is the argument, whatever the width |
| PrintfModel.PrintsCharacter | kernel/lib/printf.c:85-87 | `%c` prints the low byte of its argument |
| PrintfModel.PrintsString | kernel/lib/printf.c:82-84 | `%s` prints the string, and (null) for a null pointer |
| PrintfModel.PrintsOtherwise | kernel/lib/printf.c:75-91 | any other letter prints nothing and takes no argument, and a character that is not `%` prints itself |
| PrintfModel.ParseUndoesFormat | kernel/lib/printf.c:59-92 | a format written out from segments is read as exactly those segments: flag, width and conversion |
| PrintfModel.ParseConcat | kernel/lib/printf.c:59-92 | parsing distributes over the concatenation of two complete formats |
| PrintfModel.FormatsCompose | kernel/lib/printf.c:56-95 | a concatenated format prints what its parts print, each with its own arguments |
| Printf.ParseNum | kernel/lib/printf.c:16-35 | appends the specified padded number within 32 bytes of scratch and touches nothing else |
| Printf.ParseHex | kernel/lib/printf.c:37-42 | appends the eight digits by shifting |
| Printf.ParseString | kernel/lib/printf.c:44-54 | appends the string, or (null) |
| Printf.Sprintf | kernel/lib/printf.c:56-95 | writes exactly the rendering of the parsed format and its arguments, nothing behind it, and returns its length |

## Left out

- Overrun reads: a search that runs past the bitmap reads whatever memory follows; the model stops there and calls it `Overrun`, and methods require that it does not happen.
- Pmm.PhysicalMemory.Install: requires that the clearing loop stays inside the bitmap and ends, which `ClearsInsideIff` and `OffsetLeavesIff` make exact; beyond that the C code overwrites what follows the bitmap. The unused local top address is not computed, and `pmm_get_usable_mem` is only a field.
- Pmm.PmmInstall: requires an available region at or above 1 MiB, since the C code goes on with a null pointer without one, and a kernel that ends, page-aligned as linked, inside that region.
- KernelRuns.StepKeepsInv: requests whose page count wraps to 0 are not legal operations of a run, since they break the invariant (`HeapAllocKeepsInvIff`); only the first page of a block is mapped, so nothing is claimed about the virtual range of the others.
- KernelRuns.StoreKeepsInv: users write whole aligned words of the mapped first page, inside their block; stray writes are not modelled.
- Heap.KernelHeap.Free: the header must be readable and word-aligned, and a good magic number must be a live block's; memory is word-granular.
- Vmm.PageTables.MapPage: page tables, the directory and the list head are reached by their physical addresses, which are taken to be mapped; at boot that holds of the frames below 1024 only (`BootIsIdentity`), and stays so under `RunKeepsIdentity`. TLB flushes, CR0 and CR3 are hardware effects without state here.
- Sched.Scheduler.Schedule: register contexts, the local APIC timer and end-of-interrupt writes are left out.
- Sched.Scheduler.NewTask: the table and the pids only; the task's heap block and stack page are the operations `AllocBlock` and `NewStack` of the memory system.
- VgaModel.PutsShowsOver: strings with a backspace or the clear or home escape are outside the window theorem; a backspace, a clear and a home are specified one by one (`BackspaceErases`, `ClearAndHome`), and a clear followed by a home starts a new window (`ClearHomeRestarts`).
- VgaModel.Puts: a colour escape must end in an 'm' within its four-byte buffer and be followed by a character, and a backspace must not come in the top left corner, where the C code reads past the string or underflows `vga_y`.
- Vga.Terminal.PutCharacter: the cursor ports are not modelled.
- IrqModel.RoutingIsCorrect: for lines whose interrupts are distinct, covered, and among a controller's first 120 pins; the MADT lists are given, and the 8259 PIC and `isr_handler` are not modelled.
- Irq.Router.Register: the line's pin must be among the first 120, all that an I/O APIC with 8-bit register numbers can have; a line that no controller covers makes the C code use a null pointer.
- Irq.Router.Install: requires at most 120 entries, for the same reason; mapping the controller's page and reinstalling the PIT are left out.
- Irq.Router.Handle: the lookup only; calling the handler and the end-of-interrupt writes are left out.
- Libc.Atoi: what C's `int` overflow does is not modelled, only when it happens.
- Printf.Sprintf: arguments have the kinds the format asks for, the format does not end inside a directive, and widths are unbounded; the buffer is as large as the text. `printf` and `vprintf` only forward the result.
- `strcmp`, `strcpy`, `memset`, `memcmp`, `pmm_get_usable_mem`, `kmalloc` and `kfree` would add only easy members.
- ACPI and MADT parsing, the framebuffer console, GDT and IDT packing, PIT, serial, panic text, multiboot header and build files are not part of this model.
