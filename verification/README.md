# AhOS: a verified model of the memory stack, the keyboard path and the text codecs

AhOS is a small i386 kernel. This project models its most intricate parts in
Dafny and proves what they are for. `dafny verify dfyconfig.toml` checks
everything.

The code changes arrays, fields and page-table words in place, and so does the
model: the classes below have the fields of the C structures, and the loops of
the C functions. Each method is proved against a function on values, and the
lemmas about those functions carry the properties.

## The memory stack

* `Memory`, `Regions`, `Sorting`, `MemMove`, `PhysMemMap`, `MemoryBoot`: from
  the boot loader's map to the kernel's map of typed regions. Reserving a range
  splits entries in place.
* `Pagemap`, `FirstFit`, `FrameAllocator`, `PfaLayout`, `PfaBoot`: the frame
  allocator, first fit over byte maps of FREE, USED, HEAD, PART and TAIL, what it
  takes and what is left, and the metadata that it lays out by hand inside one of
  its own regions.
* `PageFlags`, `PageTables`, `Paging`, `PagingBoot`: physical memory as words,
  the processor's two-level walk as the meaning of the tables (Intel SDM volume
  3A, section 4.3, 32-bit paging), and the code that edits the tables through
  the self-mapped directory, with paging off and on.
* `Powers`, `Rounding`, `Blocks`, `HeapModel`, `HeapSteps`, `Kmalloc`, `HeapCycle`:
  power-of-two chunks in one-page blocks, big allocations whose metadata comes from
  the allocator itself, one invariant that ties chunk maps, metadata, frames and page
  tables together, the one step that each request makes, and what its release undoes.
* `BootPages`, `BootAddresses`, `KernelBoot`, `HeapRuns`: the boot of the whole stack,
  in page sets and in plain addresses, and every run of requests after it.

The strongest statement is `HeapRuns.BootAndRun`. From any sane boot loader map and
any list of requests, the boot ends as that map decides (`KernelBoot.BootsTo`), and
from the moment that it leaves behind each request makes the one step that kmalloc
or kfree makes: the lowest chunk of the first block with room, the lowest run of
pages, the frames for the page tables these lack. Addresses, NULLs and the request
at which the kernel stops for want of such a frame are all determined
(`HeapRuns.OutcomeUnique`), and the last two have conditions that could be checked
beforehand (`HeapSteps.StepReasons`). What the callers then hold, at the sizes they
asked for, shares no byte; and every byte handed out is memory that the boot loader
called available and that belongs to neither the kernel, the memory map, the module,
the allocator's metadata nor low memory. After the last request each page outside the
allocator is mapped exactly when it is one of the kernel, of the video memory, of the
allocator's metadata or of the module, and every mapped page is present, writable
and for the kernel only.

These statements are in addresses and literals, not in the functions that the code is
proved against: `BootAddresses` for the boot, `Blocks.WellCut` for the chunks of a
page, `MemoryBoot.ApartFromLoader` for the boot loader's structures,
`Keycodes.SetTwo` for the codes of the keys, `NumberReading.ReadNumber` for what
printf writes. A lemma connects each with the function.

`panic` ends the kernel. A panic that the code can reach is a result of the
method, with the condition under which it is reached; a panic for an internal
inconsistency is an `assert false`, or a result that is proved not to occur.

## The keyboard path

`Ps2Driver` is the receive queue that the interrupt handler fills, with receive
steps at every unmasked point, also between the look at the size and the
dequeue. `Keycodes` has the tables by code, and scan code set 2 by key.
`ScanDecoder` is the state machine, with an encoder that it inverts. `Keyboard` is keyboard_task on top,
with whole runs of interrupts and polls in any order: the bytes that are accepted
are those that arrived, in order, and all of them when the polls keep up.

## Lists and text

`IntrusiveList` is the circular list of links. `NumberText` is the number
formatting of printf, `NumberReading` a reader that gets the number back whatever the
field and the flags, `Hexadecimal` the reader of the kernel, `CStrings` holds
null-terminated strings in a buffer, `SymbolText` is the grammar and the meaning
of the symbol map, and `SymbolMap` the parser that writes into its input and
restores it.

## What the proofs brought up

* `kmalloc` of more than 2^31 bytes rounds to zero, and is then served from a
  block whose chunks all coincide (`Rounding.RoundsUp`,
  `Blocks.ZeroSizeChunksCoincide`).
* `kfree` of the metadata of a big allocation does not panic, although the address
  was never handed out. It frees the chunk, and the heap's invariant is gone
  (`Kmalloc.Heap.Kfree`, `HeapModel.FreedMetaBreaks`, and `HeapModel.MetadataExample`
  for a state with such an address).
* When `kernel_end` is page aligned, one page beyond the kernel is mapped at
  boot; otherwise exactly the pages of the kernel are
  (`BootPages.KernelPagesExact`). If something else is mapped there, the boot ends in
  the panic for a double mapping: the allocator's metadata, when its host starts at
  `kernel_end`, or the module (`BootPages.ClearIff` has the exact condition,
  `KernelBoot.ModuleAtKernelEnd` and `KernelBoot.ModuleAtTwoMegabytes` the case of a
  module). If the page is usable memory, it belongs to the frame allocator all the
  same (`BootPages.UsableMapped`). This does no harm: the kernel is linked at the end
  of low memory, so the page is the lowest of the allocator, and `paging_setup` takes
  it for the page directory (`KernelBoot.StrayIsDirectory`). The panic of
  `identity_map` for an existing mapping is therefore unreachable after the boot
  (`Kmalloc.Heap.NotStray`, `Kmalloc.Heap.IdentityMap`).
* `map_page` accepts an address in the self-mapping slot. It then writes a
  directory entry that the processor takes for a page table
  (`PageTables.WindowEntryBreaks`).
* A region that reaches four gigabytes is never usable for a reservation,
  because its end wraps to zero (`Regions.TopEntryUnusable`).
* `reserve_region` with length zero succeeds only when the first available entry
  around the address is itself empty, so a module of length zero makes the boot
  fail (`PhysMemMap.PhysMmap.ReserveRegion`).
* The comment at the search for the location of the memory map asks for sorted
  regions. Sorting is needed for the result to be clear of all of them
  (`MemoryBoot.UnsortedCollides`); that no clear place is below it holds in any
  order (`MemoryBoot.SkipRegions`).
* A scan code of 136 or more outside a sequence, or after 0xf0, reads beyond the
  end of the table (`ScanDecoder.OutsideTable`).
* A symbol map without its last line feed is an error only when no line feed
  follows it in memory (`SymbolText.MissingLineFeed`), and the last symbol is
  not found when its range reaches the end of the address space
  (`SymbolText.FoundIsLastBelow`).
* The comment at kernel/mem/paging.c:590-592 gives 0xfffc0000 as the base of the
  page-table window. The code uses 0xffc00000, and so does the model.

## Model

| member | source | states |
|---|---|---|
| HeapRuns.BootAndRun | kernel/kernel/init.c:55-77 | after any boot and any requests: the boot ends as the boot loader's map decides, and the answers are the run from the moment that it leaves behind; what the callers hold by them shares no byte, is reachable, and is available high memory outside the kernel, the memory map, the module and the allocator's metadata, all by address; outside the allocator's pages exactly the boot's pages are still mapped, to themselves, and every mapped page is writable and the kernel's only |
| HeapRuns.Run | kernel/mem/kmalloc.c:283-410 | each answer is the step of kmalloc or kfree from its moment to the next, up to the last request or the one that stops the kernel; what is held is what the answers gave, disjoint and identity mapped; the mappings outside the allocator are as they were at the boot |
| HeapRuns.RunUnique | kernel/mem/kmalloc.c:283-410 | the first moment and the requests determine every answer, every moment and where the run stops |
| HeapRuns.AnswerReasons | kernel/mem/kmalloc.c:283-346 | in a run NULL comes exactly when memory is exhausted for the size at that moment, and changes nothing |
| HeapRuns.OutcomeUnique | kernel/kernel/init.c:55-77 | the boot loader's map, in any order, and the requests determine how the boot ends, what it leaves behind and every answer |
| HeapRuns.LiveReachable | kernel/mem/kmalloc.c:94-191 | all bytes of live allocations lie in managed pages that the walk maps to themselves |
| HeapRuns.LivePages | kernel/mem/kmalloc.c:94-191 | each byte of a live allocation lies in a page group of the frame allocator that the heap uses |
| HeapRuns.StillMapsBoot | kernel/mem/paging.c:428-550 | when the mappings outside the allocator are those of the boot, a page there is mapped exactly when it is one of the boot by address |
| KernelBoot.MemInit | kernel/kernel/init.c:55-77 | how the boot ends is decided on the boot loader's entries: no memory map exactly without room for it or for the reservations, no allocator exactly without a host for the metadata, out of pages exactly when the managed pages are fewer than one and the slots of the boot pages, a double mapping exactly when the boot ranges are not clear; otherwise a valid empty heap at the stated first moment. A page below the window is then mapped, to itself, exactly when it is one of the kernel up to the one that holds kernel_end, of 0xa0000 to 0x100000, of all the metadata or of the module; the allocator has exactly the pages whose bytes are all free in one entry; the memory map is clear of the boot loader's structures |
| KernelBoot.BootUnique | kernel/kernel/init.c:55-77 | there is one way for the boot to end, and one location of map and metadata, set of managed pages and first moment of the heap |
| KernelBoot.StrayIsDirectory | kernel/mem/paging.c:562-569 | the page of the allocator that the kernel's mapping covers is the one that paging_setup takes for the directory |
| KernelBoot.ModuleAtKernelEnd | kernel/mem/paging.c:93-140 | with a module at a page-aligned kernel_end no boot succeeds |
| KernelBoot.ModuleAtTwoMegabytes | kernel/mem/paging.c:93-140 | a concrete map, kernel and module for which the memory map succeeds and the boot mappings collide |
| BootPages.KernelPagesExact | kernel/mem/paging.c:101-133 | the mapped kernel pages are those of the kernel exactly when kernel_end is not page aligned |
| BootPages.UsableMapped | kernel/mem/paging.c:93-140 | a usable page is mapped at boot exactly when kernel_end is page aligned and the page starts there |
| BootPages.ClearIff | kernel/mem/paging.c:93-140 | the boot ranges share no page exactly when the metadata does not start at a page-aligned kernel_end and the module, rounded down, is clear of the kernel's pages and of the video memory |
| BootPages.PageAfterBoot | kernel/mem/phys_mem_map.c:674-695 | a page lies whole in an available entry after the reservations exactly when it is high memory in one of the boot loader's available entries and meets no reserved range |
| BootPages.MetadataApart | kernel/mem/page_frame_allocator.c:167-190 | the allocator's metadata shares no byte with a reserved range |
| BootAddresses.PagesByAddress | kernel/mem/paging.c:93-140 | the pages of the boot ranges are, by address, those from 0x100000 to the one that holds kernel_end, from 0xa0000 to 0x100000, of every byte of the metadata and of the module |
| BootAddresses.UsableIsFree | kernel/mem/phys_mem_map.c:674-695 | a page is usable after the reservations exactly when it lies in one available entry and each of its bytes is high memory outside the kernel, the memory map of 12 bytes an entry, the module and the metadata |
| KernelBoot.InitAllocator | kernel/mem/page_frame_allocator.c:414-444 | fails exactly without a host; otherwise the managed pages are exactly the usable ones, and the allocator starts with the spans of the entries |
| KernelBoot.StartPaging | kernel/mem/paging.c:558-627 | which of the three outcomes comes is decided by the number of managed pages and the boot ranges; on success the empty heap is valid, at the first moment stated, of the allocator's pages at most its directory is mapped, and the pages mapped are by address those of the kernel, the video memory, the whole metadata and the module |
| HeapModel.LiveMemory | kernel/mem/kmalloc.c:94-346 | a live pointer has at least the bytes asked for, apart from all other owners, block headers, chunk maps and page tables |
| HeapModel.UniqueOwner | kernel/mem/kmalloc.c:356-410 | each live pointer has exactly one owner, a used chunk or a big allocation, and is never metadata |
| HeapModel.ExtentsApart | kernel/mem/kmalloc.c:94-346 | the memory of two owners does not meet |
| HeapModel.FoundInBlock | kernel/mem/kmalloc.c:366-376 | an address in the chunk area of a block is a used chunk of it exactly when it is live or metadata |
| HeapModel.FoundNowhere | kernel/mem/kmalloc.c:379-390 | an address that neither search finds is neither live nor metadata |
| HeapModel.AddBlockStep | kernel/mem/kmalloc.c:171-188 | linking a fresh block keeps the invariant |
| HeapModel.TakeChunkStep | kernel/mem/kmalloc.c:335-341 | taking a free chunk keeps the invariant and hands out a new address |
| HeapModel.GiveChunkStep | kernel/mem/kmalloc.c:394-406 | giving a live chunk back keeps the invariant |
| HeapModel.FreedMetaBreaks | kernel/mem/kmalloc.c:394-406 | freeing the chunk of some metadata breaks the invariant, and its address was not live |
| HeapModel.MetadataExample | kernel/mem/kmalloc.c:107-122 | there is a valid state with such a chunk |
| HeapModel.AddBigStep | kernel/mem/kmalloc.c:118-122 | linking a big allocation keeps the invariant and turns its metadata chunk into metadata |
| HeapModel.RemoveBigStep | kernel/mem/kmalloc.c:266-268 | unlinking a big allocation keeps the invariant and leaves its page group unused |
| HeapModel.MetaAfterRemove | kernel/mem/kmalloc.c:268-270 | the metadata chunk of an unlinked allocation is an ordinary live chunk, so kfree finds it |
| HeapModel.GroupsStep | kernel/mem/kmalloc.c:94-191 | the invariant survives whatever frames and page tables come and go, as long as the heap's groups stay |
| HeapModel.InUseAddBig | kernel/mem/kmalloc.c:124-131 | the pages in use grow by exactly those of the new big allocation |
| HeapModel.InUseRemoveBig | kernel/mem/kmalloc.c:256-266 | the pages in use shrink by exactly those of the freed big allocation |
| HeapModel.UnusedNotInUse | kernel/mem/kmalloc.c:101-131 | no page of a group the heap does not use is in use, so none is mapped already |
| HeapSteps.StepUnique | kernel/mem/kmalloc.c:283-410 | the moment and the request determine the answer and the next moment |
| HeapSteps.StepReasons | kernel/mem/kmalloc.c:283-346 | NULL exactly when memory is exhausted for the size, counting sixteen bytes of metadata for a big allocation; the panic exactly when it is not, but the free pages are fewer than the run, the page of a new block and the page tables that they lack |
| HeapSteps.RoundedMeans | kernel/mem/kmalloc.c:287-314 | the chunk size is the least power of two from 8 on that the request fits in |
| HeapSteps.AnswerMeans | kernel/mem/kmalloc.c:283-346 | up to 2048 bytes the pointer is a used chunk of the rounded size, and the big allocations stay; beyond that it is page aligned and heads their list; its size is recorded |
| HeapSteps.FreeMeans | kernel/mem/kmalloc.c:146-182 | a chunk is free exactly when it fits in the page with its byte in the chunk map, and is not used |
| HeapSteps.EmptyBlockCut | kernel/mem/kmalloc.c:146-188 | a new block has no used chunk, and its first one is the first multiple of 4 behind the chunk map |
| HeapSteps.BigStepUnique | kernel/mem/kmalloc.c:94-134 | the run, the metadata chunk and the mappings of a big allocation are determined |
| HeapSteps.FreeStepUnique | kernel/mem/kmalloc.c:356-410 | what a release changes is determined |
| Kmalloc.Heap.Kmalloc | kernel/mem/kmalloc.c:283-346 | the step of kmalloc from the state before the call: a pointer is new and recorded with its size; NULL comes exactly when memory is exhausted for that size, and leaves everything as it was; the panic exactly when the free pages before the call are fewer than the request takes |
| Kmalloc.Heap.Kfree | kernel/mem/kmalloc.c:356-410 | panics exactly when the address is neither live nor metadata; a live one goes and nothing else; metadata is freed silently, and then and only then the heap is broken |
| Kmalloc.Heap.FindHolder | kernel/mem/kmalloc.c:366-376 | the first block whose chunk area has the address, or none has it |
| Kmalloc.Heap.FindBig | kernel/mem/kmalloc.c:379-390 | the first big allocation at the address, or there is none |
| Kmalloc.Heap.BigAlloc | kernel/mem/kmalloc.c:94-134 | the lowest run, a chunk for the metadata and the mappings, as one step; NULL leaves everything as it was |
| Kmalloc.Heap.FramesAndMeta | kernel/mem/kmalloc.c:101-116 | page frames and a chunk for the metadata, or neither |
| Kmalloc.Heap.BigFree | kernel/mem/kmalloc.c:244-271 | the pages, the frames, the list entry and the metadata chunk of the allocation are released, and nothing else |
| Kmalloc.Heap.NewBlock | kernel/mem/kmalloc.c:138-191 | NULL exactly when no page is free, the panic exactly when the lowest one lacks a page table and no frame is left for it; otherwise a new first block on the lowest free page, cut into the most chunks that fit, all free |
| Kmalloc.Heap.FindNonFullBlock | kernel/mem/kmalloc.c:195-214 | the first block of the size with a free chunk |
| Kmalloc.Heap.AllocChunk | kernel/mem/kmalloc.c:321-346 | the lowest free chunk of the first block with room or of a new block, as one step |
| Kmalloc.Heap.TakeFrom | kernel/mem/kmalloc.c:335-343 | the chunk taken is not live before, and its size is recorded |
| Kmalloc.Heap.IdentityMap | kernel/mem/kmalloc.c:164-169 | maps a page of a group that holds no page table exactly when there is a frame for the table that it may lack; the panic for an existing mapping is unreachable |
| Kmalloc.Heap.MapToItself | kernel/mem/paging.c:428-486 | already mapped exactly for pages of the heap and those mapped since the boot, out of memory exactly without a frame for the page table |
| Kmalloc.Heap.NotStray | kernel/mem/kmalloc.c:124-169 | a page of a group that holds no page table was not mapped at the boot |
| Kmalloc.Heap.IdentityMapAll | kernel/mem/kmalloc.c:124-131 | all pages of the allocation get mapped to themselves, exactly when there are frames for the page tables that they lack |
| Kmalloc.Heap.AllocPages | kernel/mem/kmalloc.c:101-105 | first fit: the lowest run, whose pages are unused, not a page table and not mapped |
| Kmalloc.Heap.RollBack | kernel/mem/kmalloc.c:109-113 | giving the frames back restores the page maps exactly |
| Kmalloc.Heap.UnmapAll | kernel/mem/kmalloc.c:256-263 | exactly the pages of the allocation get unmapped |
| Kmalloc.Heap.UnmapOne | kernel/mem/kmalloc.c:257-261 | the page gets unmapped; the panic for a failure is unreachable |
| Kmalloc.Heap.BigMapped | kernel/mem/kmalloc.c:256-263 | the pages of every big allocation are managed and mapped |
| HeapCycle.AllocAndFree | kernel/mem/kmalloc.c:283-410 | kmalloc and then kfree of what it gave: the live addresses and the big allocations are as before, the blocks are but for a new empty one when no block had room, and every page is free again but the page of that block and one for each new page table; with neither, nothing has changed |
| HeapCycle.SmallUndone | kernel/mem/kmalloc.c:321-406 | a request of up to 2048 bytes and its release leave the moment as it was when a block had room, else with exactly the new block on the lowest free page |
| HeapCycle.BigUndone | kernel/mem/kmalloc.c:94-271 | a big request and its release: all pages are free again but that of a new block for the metadata and those of new page tables; without these the page maps are the same |
| HeapCycle.FreedPages | kernel/mem/page_frame_allocator.c:498-540 | giving back the group of a big allocation frees exactly as many pages as it has |
| Rounding.RoundsUp | kernel/mem/kmalloc.c:222-233 | the least power of two not below the size for 1 to 2^31, zero for all others |
| Rounding.SmearStep | kernel/mem/kmalloc.c:222-233 | each or-shift doubles the run of ones below the highest bit |
| Blocks.Geometry | kernel/mem/kmalloc.c:146-182 | for chunk sizes 8 to 2048, header, chunk map and aligned chunks fit in the page without overlap |
| Blocks.CutIsBest | kernel/mem/kmalloc.c:146-182 | for every chunk size the number of chunks is the greatest that fits with 28 bytes of header and alignment and a byte each, and the first one is at the first multiple of 4 behind the map |
| Blocks.ChunksApart | kernel/mem/kmalloc.c:339 | chunks do not overlap |
| Blocks.ZeroSizeChunksCoincide | kernel/mem/kmalloc.c:146-182 | with chunk size zero there are many chunks at one address |
| Blocks.Block.Take | kernel/mem/kmalloc.c:335-343 | takes the lowest free chunk; nb_frees counts the free chunks, so the panic is unreachable |
| Blocks.Block.Give | kernel/mem/kmalloc.c:394-409 | panics exactly when the address is not a used chunk |
| Blocks.Block.UsedApart | kernel/mem/kmalloc.c:335-341 | used chunks share no byte |
| Pagemap.RenderParse | kernel/mem/page_frame_allocator.c:300-378 | every reachable page map is a sentence of FREE, USED and HEAD PART* TAIL groups |
| Pagemap.ParseRender | kernel/mem/page_frame_allocator.c:300-378 | the parse into groups is unique |
| Pagemap.MarkAddsGroup | kernel/mem/page_frame_allocator.c:358-374 | marking a free run adds one group and leaves all others |
| Pagemap.ReleaseRemovesGroup | kernel/mem/page_frame_allocator.c:508-540 | releasing a group removes it and leaves all others |
| Pagemap.ReleaseUndoesMark | kernel/mem/page_frame_allocator.c:498-540 | freeing what was just allocated restores the map exactly |
| Pagemap.GroupShape | kernel/mem/page_frame_allocator.c:508-540 | inside a group the checks of pfa_free hold on every page |
| Pagemap.GroupsDisjoint | kernel/mem/page_frame_allocator.c:300-378 | two groups share no page |
| Pagemap.FirstRunUnique | kernel/mem/page_frame_allocator.c:457-484 | first fit determines region and page |
| FirstFit.TakeFree | kernel/mem/page_frame_allocator.c:457-484 | taking a run lowers the number of free pages by its length |
| FirstFit.NothingFree | kernel/mem/page_frame_allocator.c:300-312 | no page is free exactly when the count says so |
| FirstFit.MorePages | kernel/mem/paging.c:241-287 | mapping some pages and then more needs and takes the same frames for page tables as mapping them together |
| FrameAllocator.Region.AllocSingle | kernel/mem/page_frame_allocator.c:300-312 | the lowest free page, or none is free |
| FrameAllocator.Region.AllocMultiple | kernel/mem/page_frame_allocator.c:322-378 | the lowest run of free pages of that length despite the skip-ahead, or there is none |
| FrameAllocator.Region.FreeGroup | kernel/mem/page_frame_allocator.c:508-540 | frees exactly the group; panics exactly when the page starts none |
| FrameAllocator.Allocator.Alloc | kernel/mem/page_frame_allocator.c:457-484 | BAD_PAGE exactly when no region has the run; otherwise the lowest run of the first region that has one |
| FrameAllocator.Allocator.FindRegion | kernel/mem/page_frame_allocator.c:275-288 | the region of an address, or the address is not managed |
| FrameAllocator.Allocator.Free | kernel/mem/page_frame_allocator.c:498-540 | panics exactly when the address is no live group, otherwise releases exactly that group |
| FrameAllocator.Allocator.LiveDisjoint | kernel/mem/page_frame_allocator.c:457-484 | live groups share no page |
| FrameAllocator.Allocator.LiveManaged | kernel/mem/page_frame_allocator.c:457-484 | the pages of a live group are managed, above low memory and below the page-table window |
| FrameAllocator.Allocator.FreeIffNotLive | kernel/mem/page_frame_allocator.c:300-378 | a page is FREE exactly when no live group holds it |
| FrameAllocator.Allocator.FrameUnique | kernel/mem/page_frame_allocator.c:275-288 | a page address determines its region and its index |
| PfaLayout.ValidRegionPages | kernel/mem/page_frame_allocator.c:86-116 | a region is valid exactly when it is available high memory with a whole aligned page |
| PfaLayout.PfaMetaSize | kernel/mem/page_frame_allocator.c:124-151 | the page-aligned size of header, pointers, region headers and page maps |
| PfaLayout.FindHostingRegion | kernel/mem/page_frame_allocator.c:167-190 | the first valid region with room for the metadata |
| PfaLayout.InitPfaRegion | kernel/mem/page_frame_allocator.c:194-210 | header and page map of one region, and no byte outside them |
| PfaLayout.ReserveRegions | kernel/mem/page_frame_allocator.c:218-267 | every valid entry gets its region; their number, pointers, headers and page maps follow one another without a gap and none is overwritten, although the map of the hosting region is written before it shrinks; all bytes counted are used but one for each page that the hosting region gives up |
| PfaLayout.PlaceStep | kernel/mem/page_frame_allocator.c:237-264 | laying out one more region keeps all earlier ones intact |
| PfaBoot.PfaInit | kernel/mem/page_frame_allocator.c:414-444 | fails exactly when no region can host the metadata, which otherwise lie in the first that can; the managed pages are exactly the whole available pages above low memory outside the metadata, all free, in the spans of the entries |
| PfaBoot.RegionAllocatable | kernel/mem/page_frame_allocator.c:218-267 | the pages of a region and the metadata do not meet |
| PfaBoot.MetaBytesOf | kernel/mem/page_frame_allocator.c:124-151 | the metadata take four bytes, and for each entry with whole pages twelve more and one a page |
| PfaBoot.RegionPages | kernel/mem/page_frame_allocator.c:218-267 | a region has exactly the whole pages of its entry outside the metadata |
| PfaBoot.RegionsApart | kernel/mem/page_frame_allocator.c:218-267 | the regions ascend and share no page |
| PfaBoot.ManagedCount | kernel/mem/page_frame_allocator.c:218-267 | at the start the free pages are as many as the managed ones |
| PfaBoot.LowestPage | kernel/mem/page_frame_allocator.c:457-484 | the first page that first fit takes is the lowest managed page |
| PfaLayout.PlacedSpans | kernel/mem/page_frame_allocator.c:237-264 | the regions laid out are the spans of the valid entries, in order |
| PageFlags.DirectoryFlags | kernel/mem/paging.c:241-287 | a directory entry is present and keeps the consistent bits of the page flags |
| PageTables.SelfMap | kernel/mem/paging.c:577-605 | through the last directory entry, the two windows reach the directory and each page table |
| PageTables.AddTableSound | kernel/mem/paging.c:241-287 | a new page table keeps the tables sound |
| PageTables.AddTableWalks | kernel/mem/paging.c:241-287 | a new page table changes no translation |
| PageTables.PutEntry | kernel/mem/paging.c:466-486 | writing the entry of one page changes the translation of that page only, and keeps flags consistent |
| PageTables.WindowEntryBreaks | kernel/mem/paging.c:466-486 | an entry written in the self-mapping slot ends the soundness of the tables |
| PageTables.MappedKernelData | kernel/include/mem/memory.h:43-85 | both entries of every mapped page have bits 0, 1, 3 and 4 set and bit 2 clear: present, writable, supervisor, write-through, uncached |
| Paging.Mmu.SameEntry | kernel/mem/paging.c:466-471 | the code reaches the same physical entries with paging on and off |
| Paging.Mmu.NewPageTable | kernel/mem/paging.c:241-287 | a table that maps nothing, or NULL and no change exactly when there is one already or no page is free |
| Paging.Mmu.MapPage | kernel/mem/paging.c:428-486 | success adds exactly one binding, and keeps the tables sound exactly outside the last slot; each other outcome has its condition and changes nothing |
| Paging.Mmu.UnmapPage | kernel/mem/paging.c:502-550 | succeeds exactly on a mapped page outside the last slot, and removes exactly that binding |
| PagingBoot.MapRange | kernel/mem/paging.c:116-134 | out of memory exactly when the frames do not suffice for the pages up to one that is mapped already; otherwise all pages of the range are mapped, exactly when none was |
| PagingBoot.BootstrapMapping | kernel/mem/paging.c:93-140 | exactly the boot ranges are identity mapped, unless two share a page or the pages reached lack frames, each panic exactly then |
| PagingBoot.ReachedAll | kernel/mem/paging.c:93-140 | when no two ranges share a page, all pages are reached |
| PagingBoot.ReachedMore | kernel/mem/paging.c:93-140 | what was reached stays reached, and a double mapping ends the loops |
| PagingBoot.MakeDirectory | kernel/mem/paging.c:571-608 | a directory with nothing but the self-map maps nothing below the window |
| PagingBoot.PagingSetup | kernel/mem/paging.c:558-627 | out of memory exactly when the free pages are fewer than one and the slots of the pages reached; otherwise paging is on, the tables are sound and exactly the boot ranges are mapped, exactly when no two share a page; the directory is the lowest free page |
| Regions.SplitKeeps | kernel/mem/phys_mem_map.c:159-189 | a split keeps order, disjointness and the type of every byte |
| Regions.ReserveKeeps | kernel/mem/phys_mem_map.c:218-222 | retyping an entry reserves exactly its bytes |
| Regions.TypeUnique | kernel/mem/phys_mem_map.c:202-250 | in an ordered map no byte has two types |
| Regions.TopEntryUnusable | kernel/mem/phys_mem_map.c:211-221 | an entry that reaches four gigabytes never holds a range |
| Regions.FirstFitProgress | kernel/mem/phys_mem_map.c:218-246 | after one split the entry starts at the address, after two it is exact |
| Regions.SplitProgress | kernel/mem/phys_mem_map.c:236-245 | there are at most two splits |
| Regions.NoFitMeansNoSplit | kernel/mem/phys_mem_map.c:223-227 | a retry never loses the range that a split was made for |
| PhysMemMap.PhysMmap.SplitRegion | kernel/mem/phys_mem_map.c:159-189 | splits exactly when the address is strictly inside the entry |
| PhysMemMap.PhysMmap.ReserveRegion | kernel/mem/phys_mem_map.c:202-250 | succeeds exactly when an available entry holds the range, for length zero when the first such entry is empty; then exactly the bytes of the range become reserved, and the list is the old one with the range cut out of that entry |
| Regions.SplittingDone | kernel/mem/phys_mem_map.c:218-246 | after the splits the list is the old one with the range cut out of the first entry that held it |
| Regions.CarveFit | kernel/mem/phys_mem_map.c:202-250 | after a reservation a range has a place exactly when it had one before and is clear of what was reserved |
| MemMove.Move | libc/string/memmove.c:3-14 | the destination gets what the source held, however they overlap; nothing else changes |
| Sorting.BubbleSort | kernel/mem/phys_mem_map.c:460-489 | with the last-swap shortcut the result is a sorted permutation |
| Sorting.Pass | kernel/mem/phys_mem_map.c:472-486 | after a pass everything from the last swap on is in place |
| MemoryBoot.CollidesIff | kernel/mem/phys_mem_map.c:108-118 | collides is exactly overlap when no sum wraps |
| MemoryBoot.SkipRegions | kernel/mem/phys_mem_map.c:431-437 | no clear address, among the first one and the page boundaries above it, is below the end of the upward pass; on a sorted list the end is clear |
| MemoryBoot.UnsortedCollides | kernel/mem/phys_mem_map.c:431-437 | on an unsorted list the pass can end on a region |
| MemoryBoot.FindInSegment | kernel/mem/phys_mem_map.c:385-449 | the lowest room in the segment, or there is none |
| MemoryBoot.FindPmmLocation | kernel/mem/phys_mem_map.c:375-452 | the lowest room in the first segment that has any, and a failure only when none has |
| MemoryBoot.IdentifyRegions | kernel/mem/phys_mem_map.c:504-541 | the boot loader's structures, sorted; a range is clear of them exactly when it meets neither the information structure, the 24 bytes of each map entry, the module nor its 16-byte descriptor |
| MemoryBoot.ClearMeans | kernel/mem/phys_mem_map.c:504-541 | a range is clear of the regions exactly when it shares no byte with the information structure, the boot loader's memory map of 24 bytes an entry, the 16 bytes of the module's descriptor and the module |
| MemoryBoot.FilledTypes | kernel/mem/phys_mem_map.c:549-577 | a byte has exactly the type that the boot loader gave it |
| MemoryBoot.FilledOrdered | kernel/mem/phys_mem_map.c:549-577 | from a sorted map without overlaps the kernel's map is ordered |
| MemoryBoot.ReserveAll | kernel/mem/phys_mem_map.c:674-695 | succeeds exactly when the kernel lies in one available entry and the module, if any, is not empty, lies in one and is clear of the kernel; the map is then the boot loader's after those reservations |
| MemoryBoot.PhysMemMapInit | kernel/mem/phys_mem_map.c:589-703 | succeeds exactly when some segment has room for the map and the kernel and the module can be reserved; the map lies above the kernel, at the lowest room of the first such segment, clear of all structures of the boot loader by address, and its own reservation cannot fail; it takes 4 bytes and 12 for each of three entries a map entry, kernel, map and module, and the entries stay within that capacity |
| MemoryBoot.KeepKempt | kernel/mem/phys_mem_map.c:674-695 | a reservation keeps the map ordered, without empty entries, with exactly the kept bytes reserved, and made of the pieces that the kept ranges leave of the boot loader's entries |
| MemoryBoot.RoomFits | kernel/mem/phys_mem_map.c:385-449 | the place found for the map lies in one available entry and is clear of the kernel and the module |
| MemoryBoot.SameMap | kernel/mem/phys_mem_map.c:460-489 | whatever order the boot loader's entries come in, sorting gives one list |
| Ps2Driver.QueuedPush | kernel/drivers/ps2driver.c:81-86 | writing at last appends to the queue, also across the wrap |
| Ps2Driver.QueuedPop | kernel/drivers/ps2driver.c:153-160 | reading at head takes the oldest byte |
| Ps2Driver.Driver.Recv | kernel/drivers/ps2driver.c:69-89 | accepts exactly when fewer than 255 bytes are queued, and appends |
| Ps2Driver.Driver.Flush | kernel/drivers/ps2driver.c:97-109 | the queue is empty afterwards |
| Ps2Driver.Driver.Read | kernel/drivers/ps2driver.c:125-167 | with arrivals at every unmasked point the queue keeps exactly those that fit; a byte comes exactly when one was queued or arrives while the patience lasts, and it is the oldest one |
| Keycodes.OneByteAgrees | kernel/drivers/keyboard.c:131-202 | the table has under each code the key whose code it is in scan code set 2, or the unknown key |
| Keycodes.CodeAgrees | kernel/drivers/keyboard.c:131-202 | each key of scan code set 2, written by key, is found in the table of its one-byte or 0xe0 code; only Print Screen and Pause have other sequences, and only the unknown key and the second name of the keypad minus have none |
| Keycodes.AfterE0Agrees | kernel/drivers/keyboard.c:447-471 | a byte after 0xe0 that gives a key is the code of that key |
| ScanDecoder.FeedKeepsInv | kernel/drivers/keyboard.c:533-595 | on any byte stream need stays positive, the sequence fits in eight bytes and only known lengths are translated |
| ScanDecoder.EventsSplit | kernel/drivers/keyboard.c:475-595 | decoding a stream piece by piece is decoding it at once |
| ScanDecoder.DecodePrintScreen | kernel/drivers/keyboard.c:546-559 | the four and six byte sequences of Print Screen give one event each |
| ScanDecoder.DecodePause | kernel/drivers/keyboard.c:586-589 | the eight bytes of Pause give one event |
| ScanDecoder.DecodeOne | kernel/drivers/keyboard.c:475-595 | the code that scan code set 2 gives a key, pressed or released, decodes to that event and ends in the waiting state |
| ScanDecoder.DecoderInvertsEncoder | kernel/drivers/keyboard.c:475-595 | any sequence of key events, in the codes that scan code set 2 gives each key, decodes to exactly that sequence |
| ScanDecoder.EncodingIsUnique | kernel/drivers/keyboard.c:475-595 | two histories never have the same encoding |
| ScanDecoder.OtherCodesUnknown | kernel/drivers/keyboard.c:475-595 | a one-byte code or a byte after 0xe0 that is the code of no key is reported as the unknown key |
| ScanDecoder.OutsideTable | kernel/drivers/keyboard.c:479-492 | the table is read outside its bounds exactly for codes of 136 and more |
| Keyboard.Keyboard.TranslateState | kernel/drivers/keyboard.c:475-529 | reports the translation; the unknown length is unreachable |
| Keyboard.Keyboard.ReadMoreState | kernel/drivers/keyboard.c:533-564 | feeds one byte to the decoder, or changes nothing when none is there |
| Keyboard.Keyboard.WaitScanState | kernel/drivers/keyboard.c:568-595 | feeds the first byte of a sequence, or changes nothing when none is there |
| Keyboard.Keyboard.ResetState | kernel/drivers/keyboard.c:599-607 | the queue is empty and the decoder at its start |
| Keyboard.Keyboard.Task | kernel/drivers/keyboard.c:1117-1140 | every call stays in step with the decoder; what it accepts of the bytes that arrive is in order, and all of them when they fit |
| Keyboard.StaysInStep | kernel/drivers/keyboard.c:533-595 | one more byte keeps reported and pending events equal to those of the bytes read |
| Keyboard.TakeTurn | kernel/drivers/keyboard.c:1117-1140 | one turn accepts what fits, and a poll does one of the calls that are due |
| Keyboard.Run | kernel/drivers/keyboard.c:1117-1140 | in every schedule the accepted bytes are those that arrived, in order, and all of them when the polls keep up; the reported events are the first ones of what was typed |
| Keyboard.Session | kernel/drivers/keyboard.c:1117-1140 | when the polls keep up, a session reports exactly the events of the bytes that arrived, for typed keys exactly those keys |
| Keyboard.Reported | kernel/drivers/keyboard.c:1117-1140 | nothing is made up, lost, doubled or reordered, and everything is reported once all bytes are read |
| Keyboard.CatchUp | kernel/drivers/keyboard.c:1117-1140 | two calls a byte, and one more, report everything in the queue |
| IntrusiveList.Insert | kernel/include/kernel/list.h:61-69 | one link more on the same cycle, prev and next still inverse |
| IntrusiveList.Add | kernel/include/kernel/list.h:80-83 | the list gets the entry in front |
| IntrusiveList.AddTail | kernel/include/kernel/list.h:94-97 | the list gets the entry at the end |
| IntrusiveList.Bridge | kernel/include/kernel/list.h:108-112 | one link less on the same cycle |
| IntrusiveList.Del | kernel/include/kernel/list.h:122-125 | the list loses exactly that entry, which keeps its stale neighbours |
| IntrusiveList.Empty | kernel/include/kernel/list.h:133-136 | true exactly for the empty list |
| IntrusiveList.Traverse | kernel/include/kernel/list.h:173-176 | visits every element once, in order, and ends |
| IntrusiveList.LinksDetermineList | kernel/include/kernel/list.h:23-26 | the links alone determine what the list holds |
| NumberText.Number | libc/stdio/printf.c:50-120 | writes the specified text, which TextIsRead and TextLooks describe, and nothing around it; NULL exactly for a base below 2 or above 16 |
| NumberText.Generate | libc/stdio/printf.c:86-91 | the scratch array gets the digits in reverse, at most 32 of its 66 places |
| NumberText.TextLength | libc/stdio/printf.c:67-118 | the length is the larger of the width and sign, prefix and the larger of digits and precision |
| NumberText.DigitsMean | libc/stdio/printf.c:44-48 | the digits are the number in positional notation without leading zeros |
| NumberText.DigitsFit | libc/stdio/printf.c:57-91 | a number below 2^n has at most n digits in any base |
| NumberReading.TextIsRead | libc/stdio/printf.c:50-120 | whatever base, width, precision and flags, a reader that skips blanks, sign and prefix gets the number back, with SIGN as it is and else as an unsigned long |
| NumberReading.TextLooks | libc/stdio/printf.c:61-118 | minus, plus, x, X and letter case stand in the text exactly when number and flags ask for them; blanks come first only without LEFT and ZEROPAD or for the sign, and last only with LEFT |
| NumberReading.OctalPrefix | libc/stdio/printf.c:69-84 | with SPECIAL an octal number starts with a zero |
| Hexadecimal.Atoh | libc/stdlib/atoh.c:18-38 | reads the string at the pointer, aborting on the first character that is no digit |
| Hexadecimal.ReadMeans | libc/stdlib/atoh.c:18-38 | aborts exactly on a foreign character; digits of any number and case give the low 32 bits of their value |
| Hexadecimal.ShortValue | libc/stdlib/atoh.c:18-38 | up to eight digits are read without loss |
| Hexadecimal.ReadInvertsNumber | libc/stdlib/atoh.c:18-38 | reads back what number writes, for every 32-bit value |
| SymbolText.GrammarIsAccepted | kernel/kernel/symbol.c:53-122 | every line of the grammar is accepted with the values of its fields |
| SymbolText.AcceptedIsGrammar | kernel/kernel/symbol.c:53-122 | no other line is accepted |
| SymbolText.PanicIsForeignDigit | kernel/kernel/symbol.c:53-122 | a line makes the kernel panic exactly when a number in an otherwise well-formed line has a foreign character |
| SymbolText.SplitInvertsJoin | kernel/kernel/symbol.c:218-229 | a file that ends with a line feed is split into its lines, whatever follows it |
| SymbolText.MissingLineFeed | kernel/kernel/symbol.c:218-229 | a missing last line feed fails exactly when none follows in memory |
| SymbolText.MapIsRead | kernel/kernel/symbol.c:139-189 | a written map gives back its symbols in order |
| SymbolText.FoundIsLastBelow | kernel/kernel/symbol.c:268-309 | on a sorted map the last symbol at or below the address is found, the last of all only within its own range |
| SymbolText.NothingBelowFirst | kernel/kernel/symbol.c:268-309 | below the first symbol nothing is found |
| SymbolText.WrittenMapFinds | kernel/kernel/symbol.c:139-309 | from the text of a sorted map to the symbol for an address: the last one at or below it, with the length written or the gap to the next |
| SymbolMap.ParseLine | kernel/kernel/symbol.c:53-122 | the meaning of the line, and the file restored on every path that returns |
| SymbolMap.SymbolMap.Count | kernel/kernel/symbol.c:215-229 | counts the lines, or a line feed is missing |
| SymbolMap.SymbolMap.Parse | kernel/kernel/symbol.c:139-189 | success exactly when every line is good, failure exactly when the first line that is not is a bad one, the panic exactly when it has a foreign digit; success finds the counted lines, so every symbol has a slot, and lengths become the gaps; the file is restored |
| SymbolMap.SymbolMap.Init | kernel/kernel/symbol.c:202-255 | success exactly when the lines end, memory was got and every line is good, and then the symbols of the file are loaded; failure exactly when they do not end or the first line that is not good is a bad one, and then nothing is loaded; the panic exactly in the other cases; the file is restored |
| SymbolMap.WrittenLines | kernel/kernel/symbol.c:215-229 | the lines of a written map are good, and are the ones that were written |
| SymbolMap.SymbolMap.Find | kernel/kernel/symbol.c:268-309 | the answer defined by the loaded symbols; none for the null address |
| SymbolMap.LoadAndFind | kernel/kernel/symbol.c:202-309 | symbol_init on a written map in memory succeeds and loads all its symbols, and symbol_find then gives for every address of the map its symbol |

## Left out

- Port I/O, the interrupt controller, timers, serial and VGA output, control registers and TLB: hardware effects. The interrupt mask is a flag that guards the receive step, and the walk always reads current tables.
- The PS/2 controller protocol, the keyboard commands and the LEDs: bounded exchanges with a device.
- Log messages, dumps and the format parsing of vsprintf; the warnings for malformed long scan code sequences are among them and change no state.
- The page-fault handler, the stack walk, GDT and IDT, the scheduler: machine state or thin loops.
- symbol_lookup: a linear search by name.
- HeapRuns.BootAndRun: callers free only what they hold (the model does not make other releases) and ask for at most 2^31 bytes; RAM and the boot loader's structures lie below 0xffc00000, and map entries are not empty and do not overlap.
- KernelBoot.MemInit: under the same conditions on the boot loader's map.
- Kmalloc.Heap.Kmalloc: sizes above 2^31 are excluded; RoundsUp and ZeroSizeChunksCoincide say what happens there. After the panic for a missing page table nothing is promised of the state.
- Kmalloc.Heap.Kfree: after the metadata of a big allocation was freed, nothing but the new state itself is promised; the calls that follow are not modelled.
- IntrusiveList.Traverse: the two lists of the heap are sequences in Kmalloc, with insertion in front and removal of one element; that the links implement such sequences is proved for lists of bare links, without the cast from a link to its structure.
- Blocks.Block.Take: a block is an object beside the page that it occupies; its header, chunk map and chunks are placed in the page by address arithmetic only.
- PfaLayout.ReserveRegions: the metadata is an array of labelled bytes; the allocator that runs afterwards has its page maps as arrays of their own.
- Paging.Mmu.MapPage: after a mapping in the last directory slot the new words of memory are stated and no more. The 4 MB page bit is not modelled.
- PhysMemMap.PhysMmap.ReserveRegion: the end of the range lies below 2^32.
- MemoryBoot.PhysMemMapInit: entries of the boot loader's map have the standard size, are disjoint, and start below 0xffc00000 when they are available.
- Ps2Driver.Driver.Read: the timeout is the number of looks at an empty queue, and sleeping is a point where bytes may arrive.
- NumberText.Number: width and precision are unbounded integers, and the caller leaves room for the text.
- SymbolMap.SymbolMap.Init: the answer of kmalloc is a parameter, and a null byte follows somewhere after the file, as strchr needs. A symbol slot of a line that fails is not written.
- SymbolMap.SymbolMap.Find: the destination is not null.
