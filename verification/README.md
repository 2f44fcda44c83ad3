# Memory, console and input of a small x86-64 kernel, modelled and proved in Dafny

The project models the parts of the kernel that other code stands on, and proves what they promise:

| module files | source | what is modelled |
|---|---|---|
| `Bits`, `Pte`, `PageTables`, `Mapping`, `AddressSpaces`, `BootMap`, `BootTables`, `BootFinal`, `BootFrames`, `Vmm` | `kernel/mm/vmm.c` | 4-level page tables in frames of physical memory: map, unmap, translate, map a range, copy an address space, build the boot map |
| `Frames`, `Bitmap`, `MemoryMap`, `Pmm` | `kernel/mm/pmm.c` | the bitmap frame allocator and its construction from the UEFI memory map |
| `Words`, `HeapModel`, `HeapLaws`, `HeapBytes`, `HeapAllocator` | `kernel/mm/heap.c` | the first-fit heap, its headers byte by byte, its free list and its counters |
| `Ownership`, `Translations`, `Spaces`, `OneMemory` | the three files above | who holds which frame, what every space translates over whole runs, address-space descriptors in the heap, page tables and heap in the same bytes |
| `CodePage`, `Console`, `FrameBuffer` | `kernel/fb/fb.c` | the UTF-8 console as a character grid, and the pixels that show it |
| `KeyboardRing`, `Scancodes`, `Keyboard`, `InputModel`, `DemoProgress`, `Input` | `kernel/drivers/keyboard.c`, `kernel/input/input.c` | the interrupt-driven key queue, the scancode decoder, the choice between real keys and the demo script, and the demo's timing |

Each stateful component appears twice. A class holds the fields of the source and its methods follow the
source statement by statement, with the same loops; its contracts equate the new state with a
function on values. The theorems are lemmas about those functions, over every state and every run.

The main results:

- **Page tables are a flat map.** A table carries a ghost label saying which indices lead to it and under
  which PDPT it hangs. Labels make walks that differ in an index end in different tables, and make sharing
  between address spaces an explicit relation. Over any run of maps and unmaps, through any address spaces
  and with any mixture of failures, every translation is the one a flat table of cells gives
  (`RunRefinesFlat`); from an empty PML4 that is the partial map the space's own calls build. A space
  copied from the kernel's agrees with it for ever on slots present at the copy, and is isolated from it
  on the others. `Translations` says the same of runs in which spaces are created, clients take and
  give back frames, and the processor sets accessed bits, and `OneMemory` of runs interleaved with heap calls
  on the same bytes. What the processor allows at a mapped address is exactly what the flags given to vmm_map
  say (`Mapping.MapGrants`).
- **The boot map is known page by page.** `BootFinal.FinalMap` gives the entry vmm_init leaves for every
  address, wherever memory lies below 2^48 - 2 GiB, and from it exactly when all it maps stays reachable
  and when its self-checks pass; `BootTables.EnoughFrames` says exactly when none of its ignored maps
  fails, by the number of 512 GiB, 1 GiB and 2 MiB slots they touch, and `BootFrames` what is left when the
  frames run out: each page has the entry of the closed form or none at all. All of it is writable, closed to
  user code, and uncached exactly where the framebuffer's pages keep their addresses (`BootGrants`).
- **The frame allocator starts with just the memory the firmware offers.** The region table holds exactly the
  first 128 descriptors it should (`MemoryMap.TableExact`), and after pmm_init a page is free exactly when it
  is ordinary RAM of one of them from 1 MiB up and holds no byte of the kernel or the stack (`FreeExact`).
- **The heap keeps two structures over the same bytes in step.** Headers and links in memory spell out the
  block map and the free list after every call, byte by byte, and no call touches a byte of another live
  block. Over any run of alloc, free, realloc and calloc that writes past no block, the model's blocks tile
  the heap if and only if no unsplit fit loses slack. Without lost slack memory ends up holding the model's
  heap (`HeapAllocator.Allocator.Perform`); on other runs `PerformOne` says of each call exactly when it does.
  heap_alloc refuses exactly what no free block has room for, and takes the first that has
  (`HeapLaws.AllocRefused`, `HeapLaws.AllocExact`).
- **Frames have one holder.** Page tables, heap, direct clients and the boot reservation are disjoint in
  every reachable state, all marked used, and with the free frames add up to the cover.
- **The pixels show the text.** After any bytes, the eight pixels of a row of a cell are the binary digits of
  the font's byte; after UTF-8 text with newlines the grid holds the CP1251 glyphs of its code points, each line
  of the text on rows of its own, the last rows in view.
- **The key queue is a FIFO** for every placement of interrupts between the reader's memory accesses, and
  in automatic mode a queued key always comes before the demo.
- **The demo is on time.** After 300 silent ticks it starts, and polled at every tick it delivers the k-th
  character of the script, repeated for ever, at exactly the tick the delays add up to
  (`DemoProgress.DemoOnTime`, `DemoProgress.DemoFromInit`).

Eight claims one might expect are false of the code; the code is kept as it is, and each has its exact condition:

- `kernel/mm/heap.c:115` shrinks a block that was not split, so 16 or 32 bytes can end up in no block.
  `HeapModel.AllocTiling` says exactly which bytes, `HeapModel.RunLaw` and `HeapModel.FreshRoundTrip` when
  a whole run is free of it, and `HeapModel.SlackExample` gives a size that shows it.
- In such a gap stale bytes may read as a free block, and `heap_free` of the block before it then merges
  them in. `HeapAllocator.Allocator.Free` follows the model exactly when they do not,
  `HeapBytes.LookalikePossible` finds such bytes for every gap, and `HeapAllocator.Lookalike` gets there by
  four calls and a client's write into its own block.
- `ALIGN_UP` in `kernel/mm/heap.c:23` wraps to zero for exactly the 15 sizes above 2^64 - 16; those and
  only those get a block that is too small (`HeapModel.AlignUpLaw`, `HeapModel.AllocRoom`).
- With such a size `heap_realloc` and `heap_calloc` write past the empty block they were given, which
  `HeapModel.OverrunExact` pins down; where the block was cut from a larger one they overwrite the header of
  its rest (`HeapAllocator.OverrunWrecks`, with inputs in `HeapAllocator.OverrunExamples`). The theorems about
  runs are stated for calls that do not.
- The higher-half loops of `vmm_init` wrap for pages from 2 GiB on and take over the page 2 GiB lower,
  unless that page is asked for again later (`BootFinal.KeptAtOwn`). `BootFinal.AllReachable` and
  `BootFinal.SelfCheckExact` say for which layouts nothing is lost and for which vmm_init panics, and
  `BootFinal.ThreeGibFails` gives a layout with 3 GiB of RAM where it does.
- `vmm_init` ignores maps that fail for want of frames, and its self-checks look at two pages only.
  `BootFrames.EveryPageMapped` says exactly when all it asks for is mapped, `BootFrames.SelfCheckOrNone` exactly
  when the checks pass, and `BootFrames.TightPasses` gives a boot that passes them with most of RAM unmapped.
- `add_region` in `kernel/mm/pmm.c:84-94` drops what comes after 128 regions, so RAM that pmm_init counts may
  never be free. `MemoryMap.NoneLost` says exactly when nothing is lost, `MemoryMap.TableExact` what is, and
  `MemoryMap.PieceLost` gives a map where it happens.
- The 300 ticks of silence before the demo starts are not measured from keys that a forced keyboard
  returned. `InputModel.AutoMode` says exactly when they also hold of the last key of any mode, and
  `InputModel.ForcedKeyForgotten` gives a run where the demo starts in the tick in which a key was read.

The comment at `kernel/mm/pmm.c:8` says the bitmap covers 1 GiB of RAM; 131072 bytes of bits cover 4 GiB, and
the model follows the code.

## Model

| member | source | states |
|---|---|---|
| `Pte.SamePage` | kernel/mm/vmm.c:15-18 | two addresses use the same four table slots exactly when bits 12 to 47 agree |
| `Pte.FrameFixed` | kernel/mm/vmm.c:20 | the address mask keeps an address exactly when it is page aligned and below 2^52 |
| `Pte.LinkLaw` | kernel/mm/vmm.c:46-57 | the entry that links a new table is present, is no huge page, and yields the table's address back |
| `Pte.LeafPresent` | kernel/mm/vmm.c:82 | the entry vmm_map writes is present whatever flags it was given |
| `Pte.LeafLaw` | kernel/mm/vmm.c:82 | the entry yields the physical address back exactly when that is a 52-bit page address and the flags add no address bit to it |
| `Pte.LeafBits` | kernel/mm/vmm.c:82-83 | the entry vmm_map writes, bit by bit: bit 0 is set, bits 12 to 51 are those of the physical address or of the flags, and every other bit, writable, user, caching and no-execute among them, is that of the flags |
| `Pte.IsLinkLaw` | kernel/mm/vmm.c:46-57 | a link entry whose accessed bit the processor has set is still present, no huge page, and yields the same table |
| `Pte.LinkRights` | kernel/mm/vmm.c:55 | a link forbids nothing, accessed or not: it is writable, open to user code and executable |
| `PageTables.WalkTyped` | kernel/mm/vmm.c:38-57 | a walk meets only tables labelled with the indices it consumed, so no table plays two roles |
| `PageTables.WalkUnique` | kernel/mm/vmm.c:65-80 | walks from two spaces that reach one page table consumed the same indices and went through the same top-level child |
| `PageTables.CreateLaw` | kernel/mm/vmm.c:38-57 | a table created for an empty entry is a free frame, zeroed and linked there; no other word of memory and no other frame changes, and the graph stays well formed; without a free frame nothing changes |
| `PageTables.GetOrCreateLaw` | kernel/mm/vmm.c:46-57 | get_or_create_table on a walk takes at most one free frame, links it into that walk, changes no translation and no sharing, and fails exactly when a table is missing and no frame is free |
| `PageTables.TouchLaw` | kernel/mm/vmm.c:321-332 | once the tables are in use, the accessed bits the processor sets in link entries change no translation, no sharing and no frame |
| `Mapping.MapLaw` | kernel/mm/vmm.c:65-87 | vmm_map succeeds exactly when its arguments are aligned and enough frames are free for the tables the walk lacks; success sets just the cells its page reaches, failure changes no translation; success takes exactly one frame for each table missing, failure at most that, each a new table on the walk, and the free count drops by their number |
| `Mapping.RightsAreLeafs` | kernel/mm/vmm.c:46-57 | through four levels of tables a mapped address is writable, open to user code, or closed to execution exactly when its page-table entry says so |
| `Mapping.MapGrants` | kernel/mm/vmm.c:65-87 | after a successful map every address of the page is writable, open to user code, and closed to execution exactly when the flags say so, and its entry has exactly the flags' bits outside the address and bit 0 |
| `Mapping.UnmapLaw` | kernel/mm/vmm.c:98-117 | vmm_unmap succeeds exactly when the walk has its page table, then removes just the cells the page reaches; otherwise nothing changes; it never takes or returns a frame |
| `Mapping.GetPhysLaw` | kernel/mm/vmm.c:119-141 | vmm_get_phys answers the frame of the page-table entry plus the offset, or 0 if there is none; well-formed tables never take its huge-page branch |
| `Mapping.MapThenGetPhys` | kernel/mm/vmm.c:65-141 | after a successful map every address of the page translates to the physical page plus its offset, exactly when phys is below 2^52 and the flags add no address bit |
| `AddressSpaces.RunRefinesFlat` | kernel/mm/vmm.c:65-141 | over any run of maps and unmaps through any spaces, every space translates every address as the flat table of cells does |
| `AddressSpaces.EmptyRootRefinesFlat` | kernel/mm/vmm.c:65-141 | a space that starts with an empty PML4 translates exactly what its own successful calls, the last one per page, say |
| `AddressSpaces.RunKeepsInv` | kernel/mm/vmm.c:38-117 | any run keeps the table graph well formed and the set of spaces the same |
| `AddressSpaces.CreateSpaceLaw` | kernel/mm/vmm.c:285-307 | creating a space fails exactly when no frame is free; otherwise it takes one free frame, copies the 512 top-level entries, and changes no existing translation or sharing |
| `AddressSpaces.CopyAgrees` | kernel/mm/vmm.c:285-307 | after any later run, the copy and the kernel's space translate alike every address of a slot present at the copy |
| `AddressSpaces.CopyIsolated` | kernel/mm/vmm.c:285-307 | in a slot absent at the copy, the kernel's space and the copy each translate as their own calls alone say |
| `AddressSpaces.MapRangeLaw` | kernel/mm/vmm.c:89-96 | vmm_map_range maps exactly the first k pages, all of them on success, and on failure page k is one that vmm_map refuses |
| `AddressSpaces.MapRangeReaches` | kernel/mm/vmm.c:89-96 | after it succeeds on page-aligned addresses that stay in range, byte k behind the virtual start translates to byte k behind the physical start, unless the flags add address bits |
| `BootMap.BootMapComplete` | kernel/mm/vmm.c:145-249 | with memory below 2 GiB and no map failing, vmm_init leaves every kernel and RAM byte reachable at its address and in the higher half, every heap byte in the higher half, every framebuffer byte at its address |
| `BootMap.LayoutOfLaw` | kernel/mm/vmm.c:177-249 | the pages vmm_init works on are exactly those that hold a byte of the kernel, the framebuffer or the heap, and the page inside which an empty one would lie; none for a framebuffer without an address or for no heap |
| `BootMap.HeapAtBoth` | kernel/mm/vmm.c:244-249 | a heap handed out while only ordinary RAM is free lies in RAM, so its bytes are reachable at both addresses |
| `BootMap.NoConflict` | kernel/mm/vmm.c:145-249 | two requests of the plan for one virtual page ask for the same physical page |
| `BootMap.HigherHalfWraps` | kernel/mm/vmm.c:203-205 | one higher-half map of page p goes to base plus p exactly below 2 GiB; from there on it takes over page p minus 2 GiB |
| `BootMap.FreshRootLaw` | kernel/mm/vmm.c:165-171 | the PML4 vmm_init allocates is a well-formed space that maps nothing; it is refused exactly when no frame is free |
| `BootTables.WalkGrew` | kernel/mm/vmm.c:65-80 | a completed walk gives tables to exactly the slots of its address, besides those that had one |
| `BootTables.EnoughFrames` | kernel/mm/vmm.c:145-249 | from an empty PML4 none of a sequence of page-aligned maps fails exactly when there is a free frame for each 512 GiB, 1 GiB and 2 MiB slot they touch |
| `BootTables.PlanNeeds` | kernel/mm/vmm.c:145-249 | with memory below 2 GiB vmm_init needs at most 2054 tables besides those of the framebuffer |
| `BootTables.FramebufferNeeds` | kernel/mm/vmm.c:226-238 | a framebuffer of n pages needs at most n/512 + n/2^18 + n/2^27 + 6 tables |
| `BootFinal.PlanCellFinal` | kernel/mm/vmm.c:145-249 | the last of all requests for a page is the one a closed form over kernel, RAM regions, framebuffer and heap names |
| `BootFinal.FinalMap` | kernel/mm/vmm.c:145-249 | for every address, wherever memory lies below 2^48 - 2 GiB, vmm_init ends with exactly the entry of that closed form |
| `BootFinal.FinalRights` | kernel/mm/vmm.c:145-249 | every entry of it is writable, closed to user code and executable; write-through and cache-disable are set exactly on the framebuffer's pages that no higher-half map takes over |
| `BootFinal.KeptAtOwn` | kernel/mm/vmm.c:189-249 | a page asked for at its own address is reachable there exactly when no page 2 GiB above is asked for in the higher half after it; otherwise its address leads to that page |
| `BootFinal.KeptHigh` | kernel/mm/vmm.c:203-249 | a page asked for in the higher half is reachable there exactly when it lies below 2 GiB, or no page keeps the address its own wraps to |
| `BootFinal.AllReachable` | kernel/mm/vmm.c:145-249 | all that vmm_init maps is reachable at each address it was mapped at exactly when no two of its pages lie 2 GiB apart with the upper one in the kernel, RAM or heap and the lower one in the kernel, RAM or framebuffer |
| `BootFinal.SelfCheckExact` | kernel/mm/vmm.c:251-274 | both self-checks pass on a byte of the kernel exactly when its page keeps its own address |
| `BootFinal.InitExact` | kernel/mm/vmm.c:165-281 | from any well-formed state with a frame for the PML4 and each slot of the plan, vmm_init reaches the switch of CR3 exactly when the page of the self-check keeps its address |
| `BootFinal.InitSucceeds` | kernel/mm/vmm.c:165-281 | it does with memory below 2 GiB and that many frames |
| `BootFinal.ThreeGibLost` | kernel/mm/vmm.c:189-211 | with RAM from 1 MiB to 3 GiB, kernel and heap at its start and a framebuffer behind it, the address 1 MiB ends up translated to 2 GiB + 1 MiB |
| `BootFinal.ThreeGibFails` | kernel/mm/vmm.c:251-274 | and vmm_init panics at its self-check there |
| `BootFrames.MapAllOrNone` | kernel/mm/vmm.c:145-249 | however few frames there are, each page of a sequence of ignored maps from an empty PML4 ends with what its last request asked for, or has no page table, and is asked for in vain only if the frames ran out |
| `BootFrames.FailedStaysUnmapped` | kernel/mm/vmm.c:65-87 | a page whose map fails once has no page table at the end, whatever is asked for later |
| `BootFrames.EveryPageMapped` | kernel/mm/vmm.c:145-249 | every page asked for is mapped at the end exactly when there was a free frame for each slot the requests touch |
| `BootFrames.FinalMapOrNone` | kernel/mm/vmm.c:145-249 | with any number of frames vmm_init leaves each address the entry of the closed form or none, and none for a planned page only with every frame taken |
| `BootFrames.BootGrants` | kernel/mm/vmm.c:145-249 | with any number of frames, whatever is mapped afterwards the processor may write and execute but user code may not touch, and its entry is uncached exactly on the framebuffer's pages that no higher-half map takes over |
| `BootFrames.BootMapSound` | kernel/mm/vmm.c:145-249 | with memory below 2 GiB and any number of frames nothing but planned pages is mapped, each to its frame, at v to v or at v to v minus the higher-half base |
| `BootFrames.SelfCheckOrNone` | kernel/mm/vmm.c:251-274 | with any number of frames both self-checks pass exactly when the two pages looked at got page tables and the first keeps its own address, or the byte is that of address 0, which passes a check unmapped |
| `BootFrames.InitOrNone` | kernel/mm/vmm.c:165-281 | from any well-formed state vmm_init reaches the switch of CR3 exactly when a frame was free for the PML4 and the self-checks pass so |
| `BootFrames.TightPasses` | kernel/mm/vmm.c:165-281 | with seven free frames and RAM from 1 MiB to 1 GiB it does, and leaves the RAM page at 2 MiB unmapped |
| `Vmm.PageTableManager.constructor` | kernel/mm/vmm.c:23-26 | over a valid frame allocator, physical memory without tables is a well-formed state |
| `Vmm.PageTableManager.AllocTable` | kernel/mm/vmm.c:38-44 | the in-place code hands out and zeroes the frame of the model |
| `Vmm.PageTableManager.GetOrCreateTable` | kernel/mm/vmm.c:46-57 | the in-place code follows or writes the link of the model |
| `Vmm.PageTableManager.Map` | kernel/mm/vmm.c:65-87 | the in-place code reaches the state and result of the model, which satisfy all that MapLaw says, and keeps the tables well formed |
| `Vmm.PageTableManager.MapRange` | kernel/mm/vmm.c:89-96 | the loop reaches the state and result MapRangeLaw is about |
| `Vmm.PageTableManager.Unmap` | kernel/mm/vmm.c:98-117 | the in-place code reaches the state and result UnmapLaw is about |
| `Vmm.PageTableManager.GetPhys` | kernel/mm/vmm.c:119-141 | the walk over memory answers what GetPhysLaw says |
| `Vmm.PageTableManager.CreatePml4` | kernel/mm/vmm.c:299-304 | the entry-by-entry copy makes the space CreateSpaceLaw is about |
| `Vmm.PageTableManager.MapHigherHalf` | kernel/mm/vmm.c:145-161 | the loop carries out exactly the higher-half requests of the interval, in order |
| `Vmm.PageTableManager.MapRam` | kernel/mm/vmm.c:189-214 | the nested loops carry out both requests for each page of each usable region, in order |
| `Vmm.PageTableManager.Init` | kernel/mm/vmm.c:165-281 | vmm_init takes a fresh PML4, carries out the whole plan, and succeeds exactly when both self-checks hold |
| `Spaces.Manager.Create` | kernel/mm/vmm.c:285-307 | creating a space answers NULL exactly when the heap has no room or no frame is free, leaving the tables alone; with no frame free the heap is as the allocation undone exactly when the bytes behind the descriptor do not read as a free block; otherwise the descriptor names a copy of the kernel's PML4 with one reference; no live heap byte changes |
| `Spaces.CleanAfterAlloc` | kernel/mm/vmm.c:289-293 | they do not on a tiled heap, if the allocation lost no slack |
| `Spaces.Manager.Destroy` | kernel/mm/vmm.c:309-319 | destroying drops one reference, or frees the descriptor alone as heap_free does; NULL and the kernel's space are left alone |
| `Frames.FirstFree` | kernel/mm/pmm.c:257-268 | the frame found is free and every lower one is in use |
| `Frames.LowestRun` | kernel/mm/pmm.c:270-290 | the run found is free and no run of that length starts lower |
| `Frames.AllocPageLaw` | kernel/mm/pmm.c:257-268 | pmm_alloc_page marks exactly one formerly free frame, lowers the count by one, and answers NULL exactly when none is free |
| `Frames.AllocPagesLaw` | kernel/mm/pmm.c:270-310 | pmm_alloc_pages marks exactly the lowest run of n free frames, answers NULL exactly when there is no such run or n is 0, and pmm_free_pages of the run restores the bitmap |
| `Frames.RegionLaw` | kernel/mm/pmm.c:296-336 | by address: pmm_region_set_used gives just the frames of the run the state asked for, pmm_free_pages frees just them, and every other frame keeps its state; frames past the cover are ignored, and so is a run that begins outside it |
| `Frames.RunOfOne` | kernel/mm/pmm.c:272 | the shortcut for one page gives what the run search would |
| `Frames.CountSetRange` | kernel/mm/pmm.c:270-310 | marking a free run or freeing a used one moves the free count by exactly its length |
| `Bitmap.SetByte` | kernel/mm/pmm.c:26-28 | or-ing a shifted one into a byte sets that bit and no other |
| `Bitmap.ClearByte` | kernel/mm/pmm.c:30-32 | and-ing a byte with its complement clears that bit and no other |
| `Bitmap.WriteBit` | kernel/mm/pmm.c:22-32 | a write to one bit of the packed bitmap is a write to one page of the page sequence |
| `Pmm.FrameAllocator.PhysToBitLaw` | kernel/mm/pmm.c:34-42 | an address has a bit exactly when it is a page of the cover, and the bit is its index there |
| `Pmm.FrameAllocator.AllocPage` | kernel/mm/pmm.c:257-268 | the scan reaches the pool and answer AllocPageLaw is about, keeping the cached count equal to the clear bits |
| `Pmm.FrameAllocator.AllocPages` | kernel/mm/pmm.c:270-290 | the single pass with its run counter finds the lowest run, keeping the cached count |
| `Pmm.FrameAllocator.FreeFrames` | kernel/mm/pmm.c:296-310 | pmm_free_pages frees exactly the frames of the run that lie in the cover, ignores other addresses, and keeps the cached count even when some were free already |
| `Pmm.FrameAllocator.RegionSetUsed` | kernel/mm/pmm.c:319-336 | pmm_region_set_used gives exactly the frames of the region that lie in the cover the wanted state and keeps the cached count |
| `Pmm.FrameAllocator.RegisterRegions` | kernel/mm/pmm.c:98-146 | pass 1 finds the smallest interval that holds all RAM descriptors, the number of RAM pages with none counted twice, and a table with the regions of exactly the first 128 wanted descriptors |
| `Pmm.FrameAllocator.FreeUsable` | kernel/mm/pmm.c:168-181 | pass 3 frees exactly the pages of usable regions and counts each once |
| `Pmm.FrameAllocator.MarkImage` | kernel/mm/pmm.c:182-224 | passes 4 and 5 take exactly the pages of an image that starts in the cover out of the free ones |
| `Pmm.FrameAllocator.MarkBoot` | kernel/mm/pmm.c:226-242 | pass 6 takes exactly the pages of boot-services regions out of the free ones |
| `Pmm.FrameAllocator.Init` | kernel/mm/pmm.c:98-253 | pmm_init succeeds exactly when there is RAM and its cover is at most 4 GiB; then the cached count is right and a covered page is free exactly when it lies in a type-7 descriptor from 1 MiB up that is among the first 128 wanted ones, and holds no byte of a kernel or stack that starts in the cover |
| `MemoryMap.RamKinds` | kernel/mm/pmm.c:44-80 | RAM is what has pages, starts at 1 MiB or above, and is of type 3, 4 or 7 |
| `MemoryMap.KeepExact` | kernel/mm/pmm.c:105-139 | a descriptor with pages goes into the region table exactly when it starts below 1 MiB, is of type 3, 4 or 7, or has 256 pages, as reserved below 1 MiB and else as usable, ACPI or reserved by its type |
| `MemoryMap.TableExact` | kernel/mm/pmm.c:84-139 | the table holds, in their order, the regions of exactly those descriptors that are wanted there and have fewer than 128 such before them |
| `MemoryMap.NoneLost` | kernel/mm/pmm.c:84-94 | every descriptor wanted in the table is in it exactly when there are at most 128 of them |
| `MemoryMap.PieceLost` | kernel/mm/pmm.c:84-94 | a map of 129 pages of RAM in pieces whose last one counts as memory and is never free |
| `MemoryMap.FreeExact` | kernel/mm/pmm.c:98-253 | a page the bitmap leaves free is, descriptor by descriptor, ordinary RAM outside kernel and stack, and the other way round |
| `MemoryMap.TotalCounts` | kernel/mm/pmm.c:98-146 | pmm_stat_total_pages is the number of different pages in RAM descriptors |
| `MemoryMap.FreeStaysRam` | kernel/main.c:134-152 | only ordinary RAM is free after pmm_init, and reserving the memory map and the framebuffer keeps that |
| `Pmm.FreeSet` | kernel/mm/pmm.c:168-242 | in usable but not in boot-services regions is the same as being ordinary RAM, address for address |
| `HeapModel.AlignUpLaw` | kernel/mm/heap.c:23 | the rounded size is aligned and less than 16 above the size, except for exactly 15 sizes where it wraps to 0 |
| `HeapModel.AllocLaw` | kernel/mm/heap.c:76-128 | heap_alloc answers NULL exactly for size 0, a rounded size of more than 32 bits, or one that no block of the free list has, and then changes nothing; otherwise it turns one free block into a used one of the rounded size, aligned, leaves every other block as it was, and keeps the blocks apart and the free list exact |
| `HeapLaws.AllocRefused` | kernel/mm/heap.c:76-91 | it answers NULL for nothing else: 0, more than 32 bits, or more than any free block has |
| `HeapLaws.AllocExact` | kernel/mm/heap.c:76-128 | first fit: every block before the one taken is too small, the block is cut exactly when 48 bytes or more are left over, the rest takes its place in the list, and nothing else changes but allocs, by one |
| `HeapModel.AllocRoom` | kernel/mm/heap.c:76-128 | a block handed out has room for the size asked for exactly when that is at most 2^64 - 16 |
| `HeapModel.AllocTiling` | kernel/mm/heap.c:91-118 | an allocation leaves a tiled heap tiled exactly when it loses no slack; the bytes that then belong to no block are exactly those between the new and old end, at most 32 |
| `HeapModel.SlackExample` | kernel/mm/heap.c:108-115 | a size that loses 16 bytes of a 1 MiB heap |
| `HeapModel.FreeLaw` | kernel/mm/heap.c:130-169 | heap_free makes just that pointer dead, leaves the other live blocks as they were, keeps the free list exact, and neither gains nor loses a byte |
| `HeapLaws.FreeExact` | kernel/mm/heap.c:130-169 | the block freed goes to the head of the list, merged with the block behind it exactly when that is free, which then leaves the list from wherever it stands; nothing else changes but frees, by one |
| `HeapModel.TiledIffOwned` | kernel/mm/heap.c:25-27 | following next_block meets no gap exactly when every byte of the heap belongs to a block |
| `HeapModel.OverrunExact` | kernel/mm/heap.c:182-198 | what heap_realloc copies and heap_calloc clears fits the block allocated exactly unless the size is one of the 15 that wrap and there is a byte to write |
| `HeapModel.WrappedTakesFirst` | kernel/mm/heap.c:76-128 | each of the 15 sizes gets an empty block out of the first free one, whenever there is one |
| `HeapAllocator.OverrunWrecks` | kernel/mm/heap.c:91-118 | where that block is split, the writing starts on the header of the rest, and memory holds the heap afterwards only if it reads as the free magic there |
| `HeapAllocator.OverrunExamples` | kernel/mm/heap.c:171-200 | calloc(1, SIZE_MAX) and realloc(p, SIZE_MAX) on a heap of 1 MiB are such calls |
| `HeapModel.StepCases` | kernel/mm/heap.c:76-200 | what each of the four calls does to the heap, case by case, as long as it writes past no block |
| `HeapModel.RunLaw` | kernel/mm/heap.c:76-200 | over any run of alloc, free, realloc and calloc that writes past no block, the blocks of the model stay apart and its free list visits each free block once; they tile the heap at the end exactly when no allocation lost slack |
| `HeapModel.RunHonours` | kernel/mm/heap.c:76-200 | over such a run the live pointers of the model are exactly those handed out and not given back, each with the bytes asked for exactly when the size is none of the 15 that ALIGN_UP wraps |
| `HeapModel.LivePayloads` | kernel/mm/heap.c:76-128 | live payloads are 16-byte aligned, inside the heap, and disjoint |
| `HeapModel.RoundTrip` | kernel/shell/shell.c:446-505 | without lost slack, allocating any sizes into one trailing free block and freeing in reverse order restores blocks and free list |
| `HeapModel.FreshRoundTrip` | kernel/shell/shell.c:446-505 | on a fresh heap the stress test ends with the single initial free block and both counts at one exactly when no allocation lost slack |
| `HeapModel.WalkTotals` | kernel/mm/heap.c:204-232 | on a tiled heap the bytes of used and of free blocks met by next_block add up to the heap |
| `HeapModel.BlockCounts` | kernel/mm/heap.c:35-38 | the free list has as many entries as there are free blocks, and used and free blocks make all blocks |
| `HeapLaws.RunCounts` | kernel/mm/heap.c:30-38 | over any run alloc_count counts the calls given a block and free_count those that gave one back, and their difference moves with the number of live blocks |
| `HeapBytes.SplitRepresents` | kernel/mm/heap.c:94-118 | memory after the stores of a split spells out the heap with the block cut in two |
| `HeapBytes.TakeRepresents` | kernel/mm/heap.c:108-118 | memory after unlinking a block spells out the heap with it taken off the list |
| `HeapBytes.ReleaseRepresents` | kernel/mm/heap.c:146-151 | memory after the stores of a release spells out the heap with the block at the head of the list |
| `HeapBytes.JoinRepresents` | kernel/mm/heap.c:153-168 | memory after unlinking the next block, wherever it stands in the list, spells out the heap with the two merged |
| `HeapBytes.PayloadWrite` | kernel/mm/heap.c:171-200 | writing a live payload disturbs no header, no link and no other block |
| `HeapBytes.LookalikePossible` | kernel/mm/heap.c:153-155 | where a block is followed by a gap, the same heap may be held by memory in which the gap reads as a free block |
| `HeapBytes.TiledPath` | kernel/mm/heap.c:262-275 | in a tiled heap the headers in memory lead from any block exactly to the end |
| `HeapAllocator.Allocator.Alloc` | kernel/mm/heap.c:76-128 | the list walk reaches the heap and pointer of the model, NULL exactly for size 0, more than 32 bits, or more than any free block has; memory and counters follow, only header bytes change, and none of a used block or outside the heap |
| `HeapAllocator.Allocator.Free` | kernel/mm/heap.c:130-169 | NULL and live pointers are freed with every other used byte kept, and memory, list and counters become the model's exactly when nothing behind the block is mistaken for a free one; pointers outside the heap, to free blocks or to corrupt headers stop before any store |
| `HeapAllocator.Lookalike` | kernel/mm/heap.c:76-169 | on a fresh heap of 1 MiB, four legal calls and a client's write into its own block after which memory does not hold the heap of the model's run |
| `HeapAllocator.Allocator.Realloc` | kernel/mm/heap.c:171-190 | heap_realloc of NULL or a live pointer that does not overrun answers NULL with memory untouched, or a block that begins with the old bytes with every other used byte kept, and reaches the realloc step of the model exactly when freeing the old block does |
| `HeapAllocator.Allocator.Calloc` | kernel/mm/heap.c:192-200 | heap_calloc refuses exactly products that are zero or need more than 64 bits, otherwise, unless it overruns, allocates the product as in the model and zeroes it, with every used byte kept |
| `HeapAllocator.Allocator.PerformOne` | kernel/mm/heap.c:76-200 | any of the four calls that a run of RunLaw may make takes memory to the model's heap exactly when what it gives back is freed cleanly, and changes nothing outside the heap |
| `HeapAllocator.Allocator.Perform` | kernel/mm/heap.c:76-200 | a run of calls from a tiled heap in which no allocation loses slack takes memory to the heap RunLaw and RunHonours are about |
| `HeapAllocator.Allocator.Check` | kernel/mm/heap.c:262-275 | on any bytes heap_check terminates and answers 1 exactly when a path of valid headers leads from start to end; it answers 1 on a tiled heap |
| `HeapAllocator.Allocator.GetStats` | kernel/mm/heap.c:204-232 | on any bytes the figures are those of the used headers met before the first bad magic; where gaps read as none they count the used blocks before the first gap and the rest as free; on a tiled heap each counts what its name says, bytes add up to the heap and blocks to all blocks |
| `HeapAllocator.Allocator.Init` | kernel/mm/heap.c:42-65 | heap_init succeeds exactly when the frame allocator has a run of 256 pages, and leaves one free block over it |
| `Translations.EventTranslates` | kernel/mm/vmm.c:38-307 | each call, new space, frame client or processor walk changes, of the spaces there are, exactly the translations a successful map or unmap reaches |
| `Translations.RunTranslates` | kernel/mm/vmm.c:38-307 | over any such run every space translates every address as the flat model says |
| `Translations.ShareForEver` | kernel/mm/vmm.c:65-117 | spaces that share a slot translate its addresses alike after any such run |
| `Translations.CopyAgreesForEver` | kernel/mm/vmm.c:285-307 | so does a copied space and its original on every slot present at the copy |
| `Translations.RunIsolated` | kernel/mm/vmm.c:65-117 | what a space translates in a slot is untouched by any run through spaces that have nothing in common with it there, or created empty or copied from such since |
| `Translations.RunOwnCalls` | kernel/mm/vmm.c:65-117 | in a slot a space has in common with no member of a family, any run through the space, the family, and spaces created empty or copied from members since leaves it translating as its own calls alone say |
| `Translations.CopyIsolatedForEver` | kernel/mm/vmm.c:285-307 | so do original and copy, in a slot absent at the copy, over runs with calls through both |
| `OneMemory.WriteBackReads` | kernel/mm/vmm.c:28-32 | words written to page tables and read back from the bytes of memory are the words written |
| `OneMemory.ByteStepLaw` | kernel/mm/heap.c:76-200 | anything that stays in the heap's interval and leaves a heap there, and any write of clients to frames they hold, leaves every word of every page table, every translation and every frame's holder as it was |
| `OneMemory.VmStepLaw` | kernel/mm/vmm.c:38-307 | each page-table event leaves every byte of the heap as it was |
| `OneMemory.CallHeap` | kernel/mm/heap.c:76-200 | the allocator's code on those bytes, over a run without lost slack, is such a step, and its heap is that of the model's run |
| `OneMemory.Interleaved` | kernel/mm/vmm.c:38-307 | over any interleaving of page-table events, heap calls and client writes on one memory, frames keep one holder, the bytes keep holding a heap, and every space translates as its successful maps and unmaps alone say |
| `OneMemory.BootSane` | kernel/mm/heap.c:42-65 | memory and frame allocator after heap_init are where such an interleaving starts |
| `Ownership.EventLaw` | kernel/mm/vmm.c:38-44 | every call keeps each frame with one holder, and page-table calls write no page the heap, a client or the reservation holds |
| `Ownership.RunOwned` | kernel/mm/pmm.c:257-310 | in every reachable state the frames of tables, heap, clients and reservation are disjoint and are exactly those marked used; the heap's and the reservation's pages are untouched |
| `Ownership.BootOwned` | kernel/mm/heap.c:43 | the state after pmm_init and heap_init is one of those |
| `Ownership.FramesAddUp` | kernel/mm/pmm.c:338-344 | tables, heap, clients, reservation and free frames add up to the cover |
| `CodePage.EncodeDecode` | kernel/fb/fb.c:7-81 | every CP1251 byte but the unassigned 0x98 is the glyph of its own code point |
| `CodePage.DecodeEncode` | kernel/fb/fb.c:7-81 | a code point is shown as itself exactly when CP1251 has it, otherwise as a question mark |
| `Console.FeedOnGrid` | kernel/fb/fb.c:195-264 | over any byte stream the cursor stays on the grid and the decoder waits for at most three bytes |
| `Console.OneCodePoint` | kernel/fb/fb.c:195-257 | the UTF-8 bytes of a code point from U+0020 on draw exactly one glyph, that of the code point, and leave the decoder idle |
| `Console.DecodesUtf8` | kernel/fb/fb.c:195-257 | the UTF-8 bytes of a text draw its CP1251 glyphs, one for each code point, in order |
| `Console.DecoderLaw` | kernel/fb/fb.c:223-250 | an idle decoder takes a lead byte's bits and awaits one, two or three more bytes, and drops any other byte from 0x80; within a sequence a byte from 0xC0 is lost and ends it |
| `Console.BrokenOff` | kernel/fb/fb.c:238-242 | an ASCII byte in the middle of a sequence ends it and is itself not shown |
| `Console.EmitLaw` | kernel/fb/fb.c:223-264 | a glyph changes just the cell under the cursor, which moves one cell on, or to the next line from the last column, the grid moving up by one line at the bottom |
| `Console.NewlineLaw` | kernel/fb/fb.c:204 | a newline goes to column 0 of the next row with the grid as it is, or in the last row moves the grid up by one line with a blank one below; the decoder is idle |
| `Console.ReturnLaw` | kernel/fb/fb.c:205 | a carriage return goes to column 0 of its row and changes no cell; the decoder is idle |
| `Console.BackspaceLaw` | kernel/fb/fb.c:206-214 | a backspace blanks just the cell before the cursor and goes there; in column 0 it does nothing but reset the decoder |
| `Console.TabLaw` | kernel/fb/fb.c:215-220 | a tab goes to the next column that is a multiple of 8 and draws nothing; without one in the row it is a newline |
| `Console.OtherControls` | kernel/fb/fb.c:221 | the other 28 control bytes change nothing, not even the decoder |
| `Console.ConsoleShowsText` | kernel/fb/fb.c:195-264 | on a cleared console of any size, after lines of printable code points with newlines between them, each line stands on rows of its own, broken at the width, the last rows in view and the cursor behind the last glyph |
| `FrameBuffer.OffsetLaw` | kernel/fb/fb.c:127-131 | pixels within the pitch have distinct places inside the buffer |
| `FrameBuffer.Terminal.ScrollPictures` | kernel/fb/fb.c:175-193 | moving all words one text line up and blackening the last 16 rows shows the grid without its first line and with a blank last one, residue rows black |
| `FrameBuffer.Terminal.DrawPictures` | kernel/fb/fb.c:163-173 | drawing a glyph at a cell shows the grid with that cell changed |
| `FrameBuffer.Terminal.constructor` | kernel/fb/fb.c:101-121 | fb_init shows the empty grid |
| `FrameBuffer.Terminal.PutPixel` | kernel/fb/fb.c:127-131 | one pixel changes, none if it is out of range |
| `FrameBuffer.Terminal.DrawGlyph` | kernel/fb/fb.c:163-173 | exactly the 8 by 16 pixels take the glyph's bits |
| `FrameBuffer.Terminal.PixelsSpellGlyphs` | kernel/fb/fb.c:163-173 | in any state, the eight pixels of row y of a cell are the binary digits of byte y of the font's glyph for it, highest on the left, white for 1 and black for 0 |
| `FrameBuffer.Terminal.MarginIsBlack` | kernel/fb/fb.c:101-121 | the pixels beyond the last whole cell are black |
| `FrameBuffer.Terminal.ScrollUp` | kernel/fb/fb.c:175-193 | the in-place copy moves every word by one text line and blackens the rest |
| `FrameBuffer.Terminal.Putc` | kernel/fb/fb.c:195-264 | after any byte every visible pixel is the bit of its cell in the next grid, or black outside the text area |
| `FrameBuffer.Terminal.Puts` | kernel/fb/fb.c:266-268 | after any bytes the pixels show the grid that results from them |
| `KeyboardRing.PushLaw` | kernel/drivers/keyboard.c:50-55 | a push is refused exactly when 255 entries lie between tail and head, otherwise it appends |
| `KeyboardRing.StepLaw` | kernel/drivers/keyboard.c:57-62 | each single memory access of buf_pop keeps the queue, whichever of its first two reads comes first |
| `KeyboardRing.KeyLaw` | kernel/drivers/keyboard.c:50-55 | a push between any two accesses of buf_pop keeps the queue |
| `KeyboardRing.RunFifo` | kernel/drivers/keyboard.c:50-62 | for every interleaving, popped values followed by buffered ones are the accepted pushes in order, and -1 is answered only when the ring was empty |
| `KeyboardRing.InitialFifo` | kernel/drivers/keyboard.c:168-169 | the ring keyboard_init leaves is an empty queue |
| `Keyboard.Driver.constructor` | kernel/drivers/keyboard.c:168-178 | keyboard_init leaves an empty queue, an empty log and no modifier |
| `Keyboard.Driver.Push` | kernel/drivers/keyboard.c:50-55 | the array code appends to the queue unless it holds 255 keys |
| `Keyboard.Driver.Pop` | kernel/drivers/keyboard.c:57-62 | the array code takes the oldest key off the queue, or answers -1 |
| `Keyboard.LogStep` | kernel/drivers/keyboard.c:29-34 | one step of the circular log keeps the last 16 scancodes in order |
| `Keyboard.Driver.LogScancode` | kernel/drivers/keyboard.c:29-34 | the log holds the last 16 scancodes since it was taken, and the total counts all |
| `Keyboard.Driver.TakeScancodes` | kernel/drivers/keyboard.c:36-44 | the oldest of the last 16 scancodes come out in order, at most max, and the log is emptied |
| `Scancodes.HeldStep` | kernel/drivers/keyboard.c:129-147 | a key group is held after a byte exactly when the byte presses it, or it was held and the byte does not lift it |
| `Scancodes.StreamDecoded` | kernel/drivers/keyboard.c:103-166 | over any scancode stream the flags and the keys pushed are those of the stream read as a whole: held groups, parity of caps lock, prefixed bytes apart |
| `Scancodes.TypedLaw` | kernel/drivers/keyboard.c:64-101 | a letter key types its letter, small or capital, or with control and no capital its number in the alphabet; any other key the sign on it, plain or shifted, whatever control does; keys without a sign nothing |
| `Scancodes.ArrowLaw` | kernel/drivers/keyboard.c:112-125 | of the prefixed keys, 48, 50, 4B and 4D push 0x100 to 0x103 and the others nothing |
| `Scancodes.ModifierLaw` | kernel/drivers/keyboard.c:129-147 | the two shift keys, control, alt and caps lock type nothing and set their own flag, caps lock turning over on presses only |
| `Keyboard.Driver.Handle` | kernel/drivers/keyboard.c:103-166 | the handler logs the byte, keeps the flags those of the whole stream, and queues what the byte types in it unless 255 keys wait |
| `InputModel.ScriptLines` | kernel/input/input.c:9-28 | each line of the script ends with its one carriage return |
| `DemoProgress.DemoScriptSolid` | kernel/input/input.c:9-28 | the script has no empty line, so the theorems on the demo's timing hold of it |
| `InputModel.DeliverStep` | kernel/input/input.c:107-140 | a delivered demo character is the next one of the script repeated for ever |
| `InputModel.DemoStep` | kernel/input/input.c:107-140 | every call of demo_get_char keeps the typed characters a paced prefix of the repeated script; that one due is delivered is `DemoProgress.DueCharacter` |
| `InputModel.NextOk` | kernel/input/input.c:161-243 | ticks, key arrivals, input_getchar calls, changes of source and resets keep the invariant of every run, in every mode |
| `InputModel.AutoMode` | kernel/input/input.c:161-243 | over any interleaving of these: demo characters since the last start are a prefix of the script repeated for ever, at least 5 ticks apart and longer at line and script ends; an unforced demo started 300 ticks or more after the last key returned in automatic mode, and so after the last key of any mode exactly when that holds of the last one a forced keyboard returned; in automatic mode a queued key is answered first and stops the demo |
| `InputModel.ForcedKeyForgotten` | kernel/input/input.c:183-243 | a run in which the demo starts in the very tick a forced keyboard returned a key |
| `InputModel.SourceDecides` | kernel/input/input.c:161-243 | after a source is chosen, in any run: a forced keyboard answers keys alone and in order, the USB stub nothing, a forced demo never a key and runs at once; any other choice lets keys through first and ends a running demo |
| `DemoProgress.StartsExactly` | kernel/input/input.c:227-233 | in automatic mode with no key queued, a call starts the demo exactly when 300 ticks have passed without a key |
| `DemoProgress.SilenceStarts` | kernel/input/input.c:183-243 | from any state of automatic mode without a queued key, the demo runs after 300 silent ticks and one call |
| `DemoProgress.DueCharacter` | kernel/input/input.c:135-139 | an active demo asked at its next tick or later, within a line, answers that line's character and is next due 5 ticks later |
| `DemoProgress.PollStep` | kernel/input/input.c:107-140 | a tick and a call deliver a character exactly at the tick when one is due |
| `DemoProgress.DemoOnTime` | kernel/input/input.c:107-140 | a demo just started and asked at every tick has delivered the k-th character of the repeated script exactly when its tick has come, and at that tick: 50 after the start, 5 within a line, 55 from line to line, 555 from the script's end to its beginning |
| `DemoProgress.DemoFromInit` | kernel/input/input.c:144-243 | so it does after input_init, 300 silent ticks and one call |
| `Input.Multiplexer.constructor` | kernel/input/input.c:144-157 | input_init starts in the first state of the runs AutoMode is about |
| `Input.Multiplexer.DemoStart` | kernel/input/input.c:71-93 | the field updates are those from which DemoStep goes on |
| `Input.Multiplexer.DemoGetChar` | kernel/input/input.c:107-140 | the field updates and the character are those DemoStep is about |
| `Input.Multiplexer.SetSource` | kernel/input/input.c:161-166 | the state reached is the one of which SourceDecides says what every later call answers |
| `Input.Multiplexer.ResetTimeout` | kernel/input/input.c:176-181 | the state reached is that of the reset event AutoMode covers: no demo for the next 300 ticks |
| `Input.Multiplexer.GetChar` | kernel/input/input.c:183-243 | state, key queue and answer are those of the call event AutoMode and SourceDecides are about, in every mode |

## Left out

- vmm_switch_to, vmm_dump_current and vmm_walk; loading CR3 and invlpg do nothing to table state. The accessed and dirty bits the processor sets in page-table (leaf) entries are not modelled: translations are stated by the entry as vmm_map wrote it.
- Vmm.PageTableManager.CreatePml4: models the table part of vmm_create_address_space; the descriptor is in `Spaces.Manager.Create`, which copies the entries before it fills the descriptor, not after.
- Physical memory appears in two views: page-table frames as 512 words a page, heap memory as bytes. The classes keep each view in a field of its own; `OneMemory` proves on values that the views are of the same bytes and that neither side disturbs the other.
- Pmm.FrameAllocator.Init: asks for page-aligned, non-overlapping descriptors below 2^52, as the UEFI Specification, section 7.2, promises them; the parsing of the descriptor array is left out, and a null memory map, which panics, is not an input.
- HeapAllocator.Allocator.Free: asks that a pointer whose preceding bytes read as a used header be a live allocation; the source cannot check this, and on another one its stores may tie the free list into a loop that its walk never leaves.
- HeapAllocator.Allocator.Realloc: asks that the copy not overrun the new block; `HeapAllocator.OverrunWrecks` says what it hits when it does, the damage after that is not modelled.
- HeapAllocator.Allocator.Calloc: asks the same of the bytes cleared.
- HeapModel.RunLaw: is about the model's blocks on runs that lose slack; the bytes follow them as long as each free on the way is clean, which `HeapAllocator.Allocator.PerformOne` says call by call.
- BootMap.BootMapComplete: asks for memory below 2 GiB and for maps that succeed; `BootFinal.FinalMap` and `BootFrames.FinalMapOrNone` say what happens otherwise, for physical memory below 2^48 - 2 GiB.
- BootMap.HigherHalfWraps: is about one map; `BootFinal.KeptAtOwn` is about the tables vmm_init ends with.
- Heap panics on a corrupted free list are proved unreachable from sound states; panic, kprintf and heap_dump output is left out.
- FrameBuffer.Terminal.constructor: asks for a mode of at least 8 by 16 pixels whose pitch covers the width and whose products stay below 2^32; disabled output, fb_fill_rect, fb_set_cursor and fb_info are left out.
- FrameBuffer.Terminal.Puts: takes the bytes before the terminating zero as a sequence; the font is any table of 256 glyphs whose space is empty.
- Keyboard.Driver.TakeScancodes: is modelled without interrupts between its steps, where the source has races.
- Keyboard.Driver.Handle: runs to completion, as interrupt 1 does on one processor; the port read becomes a parameter.
- KeyboardRing.RunFifo: assumes one reader, which cannot run inside itself.
- Input.Multiplexer.GetChar: takes the clock as a parameter that does not run backwards and keys that are not negative, as the scancode decoder produces them.
- The USB input stub never has a character; input_get_source, the blocking variants of getchar and the demo's messages are left out.
- Drivers and startup: PCI, EHCI, serial, PIC, PIT, GDT, IDT, the bootloader, ELF loading and the shell commands.
