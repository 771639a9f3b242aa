# Memory layout of the L4Re bootstrapper

A Dafny model of the code that decides, in plain address arithmetic over mutable lists and buffers, where
everything lies before the kernel starts, with proofs of what that code promises. `dafny verify
dfyconfig.toml` checks all of it.

| files | subject |
|---|---|
| `page_tables`, `page_effects`, `paging_steps`, `paging_runs`, `paging`, `paging_limits`, `boot_paging` | the four-level page-table builder, measured against the walk of the hardware (AMD64 Architecture Programmer's Manual, Volume 2, section 5.3), and the static pool of pages for the first tables |
| `region`, `region_list`, `region_store`, `free_search`, `backward_search`, `memory` | the sorted region list of fixed size and the allocator on top of it |
| `fill_memory`, `kmem`, `elf_regions` | its users: presetting memory, carving kernel memory, loading and relocating ELF binaries |
| `copy_schedule`, `module_order`, `module_plan`, `boot_modules` | moving all boot modules into one block, over each other if need be |
| `unpack_plan`, `unpack_stage`, `unpack_modules`, `unpack_scan`, `unpack_run` | unpacking compressed boot modules next to or over their compressed data |
| `multiboot_format`, `multiboot_layout`, `multiboot` | the in-place conversion of a Multiboot2 information structure (section 3.6 of the Multiboot2 Specification, version 2.0) |
| `string_routines`, `long_division`, `parent_cache` | fast routines that refine simple ones |
| `options`, `arithmetic` | a result that may be missing; products, quotients and multiples |

State that the program updates in place is a class over arrays; what its methods compute is stated through
functions and predicates on values, about which the lemmas are proved. Addresses are natural numbers below
2^64 (2^32 for the 32-bit C library), and every place where the code relies on, or suffers from, unsigned
wrap-around is written out with a modulus. A panic or failed assertion is a failing result (`ok`, or
`None`), not a precondition, unless the list below says otherwise.

## What the proofs found

- Paging: the walk adds the whole size of an existing leaf even to a start in its middle. A range that starts
  there and reaches beyond the leaf passes over addresses behind it; and from a leaf in the last entry of its
  table the walk goes on at the first entry of the same table, and so can map an address outside the range.
  The promise is kept exactly if everything passed over is mapped already and nothing is spilled that way
  (`Paging.PageMemory.MapRange`, `PagingRuns.PromiseExact`, `PagingRuns.FirstStep`); `PagingLimits` has an
  input for each failure. With a start on the boundary of a leaf, or a range that does not leave it, the
  promise holds for every hierarchy.
- The bound check of the page pool lets one page behind the pool through; the identity mapping never asks
  for it (`BootPaging.BasePagingInit`).
- A one-byte region is dropped by `add` without a trace. Carving kernel memory ends if and only if no gap in
  front of an entry has a single byte, and carves the whole area if and only if no gap has
  (`KernelMemory.CarvingExact`). `sub` loses the last byte of an entry it splits when one byte, or no room
  within the size limit, remains (`RegionLists.SplitExact`).
- An address limit of zero extends regions instead of cutting them (`RegionLists.ZeroAddressLimitExtends`).
- The downward search wraps around when less than a block is left, at the end of its area or in front of a
  reserved region, in particular one that begins at zero. It then stops in an assertion if the alignment still
  fits, and otherwise can answer with a block at the top of the address space (`BackwardSearch.RevExact`,
  `BackwardSearch.UnderflowEscapes`). Whenever its differences stay in range or a block exists it is right,
  and so the search over all RAM finds the highest block whenever there is one
  (`MemoryManager.Memory.FindFreeRamRev`).
- Filling memory overwrites reserved bytes if a reserved region reaches up to the top address and begins in
  accessible RAM (`FillMemory.FillExact`).
- A search for a single byte misses a byte on its bounds at the edge of a RAM region
  (`MemoryManager.OneByteExact`).
- Unpacking in front of the modules needs the lowest module to start at or above its unpacked size; below
  that, and when no lower free block is used, the program stops in an assertion, unless the first module of
  the header brings the candidate back (`UnpackScan.CandidateExact`, `UnpackRun.WrapsInOrder`). Otherwise
  the order of the modules in the header does not matter.
- `memmove` takes every pair of buffers of more than 2^31 bytes for disjoint
  (`StringRoutines.LooksDisjointExact`).
- A later block of Multiboot2 module tags replaces an earlier one: all modules are passed on if and only if
  their tags follow each other (`MultibootFormat.EveryModuleTold`).
- If the root of a device tree is reported at depth one, its cached parent is a stack entry that was never
  written (`ParentCache.LookUpAgrees`).

## Model

| member | source | states |
|---|---|---|
| `PageEffects.WalkElsewhere` | server/src/ARCH-amd64/paging.c:83 | writing one invalid slot changes the hardware walk of no address outside the span of that slot |
| `PageTables.WalkIsManual` | server/src/ARCH-amd64/paging.c:79-83 | the walk that all is measured against is the one of the manual, spelled out level by level and bit by bit: three tables of 512 entries by address bits 39-47, 30-38 and 21-29, and a fourth by bits 12-20, a leaf of 1 GiB or 2 MiB by bit 7, the address from the frame and the low bits |
| `PageEffects.WalkNewTable` | server/src/ARCH-amd64/paging.c:107-116 | linking a zeroed table into an invalid slot changes the walk of no address |
| `PageEffects.SetLeafPlaced` | server/src/ARCH-amd64/paging.c:79-84 | storing a leaf of a size the CPU supports, aligned to that size, keeps the whole table hierarchy well-formed |
| `PageEffects.LinkPlaced` | server/src/ARCH-amd64/paging.c:107-116 | linking a fresh table keeps the hierarchy well-formed: every table has one place, is linked from all tables above it, and no valid entry is lost |
| `PageEffects.ServesBelow` | server/src/ARCH-amd64/paging.c:119 | if all addresses of a table are translated through it, so are those of the table below any of its non-leaf entries |
| `PageEffects.EffectLeaf` | server/src/ARCH-amd64/paging.c:79-84 | one new leaf has exactly the effect of a mapping run over the bytes it spans |
| `PageEffects.EffectLink` | server/src/ARCH-amd64/paging.c:107-116 | making a table has the effect of an empty run: no translation changes |
| `PageEffects.EffectTransitive` | server/src/ARCH-amd64/paging.c:70-123 | two runs one behind the other have the effect of one run over the joined range |
| `PageEffects.ExtendsTransitive` | server/src/ARCH-amd64/paging.c:107-116 | over several steps no valid entry is overwritten, no table is lost, and tables come from the allocator in order |
| `PageEffects.WrittenTransitive` | server/src/ARCH-amd64/paging.c:79-83 | over several steps every entry written is either a leaf with just the present bit, the mapping bits and, above the last level, the large-page bit, or such an entry without that last bit for a new table; all higher bits are zero, and all other entries are as they were, or zero in a new table |
| `PagingSteps.MappedAfter` | server/src/ARCH-amd64/paging.h:61-67 | after a run that reached its end from a clean start every address of the range is mapped, and the range starts cleanly again |
| `PagingRuns.RanRound` | server/src/ARCH-amd64/paging.c:70-123 | one more round of the loop extends what the rounds before did, wherever they started, and repeats nothing that was done |
| `PagingRuns.RanBelow` | server/src/ARCH-amd64/paging.c:102-119 | a walk in the table below an entry, made just before if need be, is a part of the walk in this one |
| `PagingSteps.NewPlacesTransitive` | server/src/ARCH-amd64/paging.c:107-119 | over several rounds from a clean start, every table made serves a part of the range, and none of them holds 4 KiB entries when superpages exist and the range is aligned to them |
| `PagingSteps.PageRangeCovers` | server/src/ARCH-amd64/paging.c:128-137 | the range of whole pages consists of exactly the pages that hold a byte of the range asked for, at the physical pages from the one of the physical address on |
| `Paging.PageMemory.MapEntry` | server/src/ARCH-amd64/paging.c:72-124 | one round from any start: exact effect on all translations, the remaining size strictly drops, and the assertion on the level cannot fail |
| `Paging.PageMemory.MapLevel` | server/src/ARCH-amd64/paging.c:66-124 | the recursive walk down to the pages terminates; from where it lands, following the existing leaves, it makes exactly the translations of the run, whatever leaves of 4 KiB, 2 MiB and 1 GiB exist, or it spills one translation into another address; before it lands nothing changes |
| `Paging.PageMemory.MapRange` | server/src/ARCH-amd64/paging.c:126-140 | from a clean start (no existing leaf is entered in its middle and left by the range): an address of the page-rounded range that was unmapped translates to the same offset behind pa, by a leaf whose bits are those asked for, the present bit and, above the last level, the large-page bit, and no other; every other translation is what it was; a range that is mapped already changes nothing. From any start: no valid entry is overwritten, every entry written is such a leaf or the link to a new table, and a run that succeeds keeps the first promise if and only if, in the tables before the run, every address that it passes over until it lands is mapped and it does not spill; it fails only when an assertion does or no page is left |
| `PagingRuns.PromiseExact` | server/src/ARCH-amd64/paging.c:89-123 | that condition on the tables before the run is exact |
| `PagingRuns.FirstStep` | server/src/ARCH-amd64/paging.c:89-95 | from the middle of a leaf the first step stays in the table of the leaf if the advanced address lies in its span, and else goes back to the begin of that table; where it then finds nothing mapped, it lands in the first case and spills in the second |
| `PagingRuns.OutsideKept` | server/src/ARCH-amd64/paging.c:70-123 | a run that does not spill changes no translation outside its range |
| `PagingRuns.Misses` | server/src/ARCH-amd64/paging.c:89-95 | no unmapped address that the run passes over before it lands gets the translation asked for, whether the run succeeds or not |
| `Paging.PageMemory.MapRangeTwice` | server/src/ARCH-amd64/paging.h:61-67 | mapping a range a second time allocates no table and changes no entry |
| `PagingLimits.MidPageStartSkips` | server/src/ARCH-amd64/paging.c:89-95 | a concrete well-formed hierarchy and range: the first page behind an existing large leaf is passed over, because the whole leaf size is added to a start in its middle |
| `PagingLimits.LastPageStartSpills` | server/src/ARCH-amd64/paging.c:89-123 | a concrete one where the leaf is the last of its table: the run goes on at the first entry of the same table, and spills 0x40001000 into 0x1000 |
| `PagingLimits.MapFromMidPage` | server/src/ARCH-amd64/paging.c:126-140 | after the first of these runs the page is not mapped as asked |
| `PagingLimits.MapFromLastPage` | server/src/ARCH-amd64/paging.c:126-140 | after the second one, if it succeeds, an address outside the range is mapped |
| `BootPaging.PtabPool.PtabAlloc` | server/src/ARCH-amd64/boot32/boot_cpu.c:383-404 | six pages of the static pool are handed out in order; the bound check lets a seventh page through that lies behind the pool; only the eighth request panics |
| `BootPaging.NewTableIsLow` | server/src/ARCH-amd64/boot32/boot_cpu.c:406-412 | an identity mapping of superpages up to 4 GiB makes tables only at five places below the root, none of them for 4 KiB pages |
| `BootPaging.FiveTables` | server/src/ARCH-amd64/boot32/boot_cpu.c:406-412 | hence it makes at most five tables besides the root |
| `BootPaging.LastPageUnused` | server/src/ARCH-amd64/boot32/boot_cpu.c:399-403 | and the page behind the pool stays unused |
| `BootPaging.BasePagingInit` | server/src/ARCH-amd64/boot32/boot_kernel.c:107-114 | for every superpage-rounded size up to 4 GiB, with or without 1 GiB pages, the set-up cannot panic and every address below the size is mapped to itself, present, writable and for user mode, by a large leaf with no other bit set |
| `Regions.OverlapMeansCommon` | server/src/region.h:229-246 | overlap means a common address, the intersection is exactly the set of common addresses, and containing means having every address |
| `Regions.MergeableExact` | server/src/region.cc:257-261 | two neighbours are merged if and only if they agree in all but their addresses and there is no whole page from the last byte of the first on that ends before the second |
| `Regions.FirstNotBelowDecides` | server/src/region.cc:88-103 | in a sorted disjoint list the first entry that is not below a region decides whether any entry overlaps it |
| `Regions.InsertedHas` | server/src/region.cc:104-109 | inserting an entry adds its addresses with its attributes and changes nothing about any other address |
| `Regions.OptimizedSorted` | server/src/region.cc:247-268 | merging keeps the list sorted and disjoint and leaves no pair that could still be merged |
| `Regions.OptimizedIdempotent` | server/src/region.cc:247-268 | merging twice is merging once |
| `Regions.OptimizedCovers` | server/src/region.cc:257-264 | merging loses no address and no attribute, and adds exactly the addresses strictly between two merged neighbours |
| `RegionLists.AddedMeaning` | server/src/region.cc:71-111 | with room in the store an `add` that may not overlap panics exactly when some entry overlaps, and otherwise adds exactly the region |
| `RegionLists.AddedFull` | server/src/region.cc:77-110 | a full list is optimized first: an `add` then panics exactly when no neighbours are joined, or when the region may not overlap and does; otherwise the region is added, and the addresses between joined neighbours |
| `RegionLists.AddedSorted` | server/src/region.cc:113-162 | whatever the store holds, an `add` that does not panic leaves a sorted disjoint list that fits the store |
| `RegionLists.ReserveMeaning` | server/src/region.cc:113-162 | a region within the limits is added as it is, as one more entry |
| `RegionLists.CutExact` | server/src/region.cc:124-159 | what the limits leave of a region, byte by byte: all in front of the address limit if the region reaches beyond it, as many bytes as the size limit has room for; when it is dropped, and when the cut stops in the assertion of the setter |
| `RegionLists.AddExact` | server/src/region.cc:113-162 | the whole of one `add` into a list with room: it panics exactly when the region begins right at the address limit and goes on, or when the bytes that the limits leave of it overlap an entry; otherwise exactly those bytes are added and counted, and a single one is not |
| `RegionLists.ZeroAddressLimitExtends` | server/src/region.cc:132-141 | the cut keeps the address limit if and only if the limit is above zero or the region does not begin at zero: with limit zero such a region is extended to the top of the address space, and any other is dropped |
| `RegionLists.WithoutMeaning` | server/src/region.cc:277-297 | `sub` without a second piece removes exactly the interval and keeps every other address with its attributes |
| `RegionLists.SplitExact` | server/src/region.cc:295-298 | with two pieces it does so if and only if the second piece has more than one byte and fits the size limit; otherwise the last byte of the old entry is lost |
| `RegionLists.SubExact` | server/src/region.cc:270-300 | the whole of one `sub`: without an entry that contains the region nothing happens; otherwise exactly its bytes go, or the last byte of the entry as well, and which of the two |
| `RegionLists.RemainingMeaning` | server/src/region.h:375-382 | `remove_if` keeps exactly the entries that the condition does not select |
| `RegionLists.StepKeeps` | server/src/region.cc:71-300 | every single operation that does not panic keeps the list sorted, disjoint and within its store |
| `RegionLists.RunKeeps` | server/src/region.cc:71-300 | and so does every sequence of `add`, `remove`, `remove_if`, `sub` and `optimize` |
| `RegionLists.AddKeepsLimits` | server/src/region.cc:132-161 | one `add` keeps the total size exact and both limits |
| `RegionLists.AddsKeepLimits` | server/src/region.cc:113-162 | every sequence of additions that never fills the store keeps the total size exact and both limits |
| `RegionStore.RegionList.Find` | server/src/region.cc:164-172 | the first entry that overlaps, or none overlaps |
| `RegionStore.RegionList.FindRev` | server/src/region.cc:174-190 | the last entry that overlaps, or none overlaps |
| `RegionStore.RegionList.ContainsRegion` | server/src/region.cc:192-200 | the first entry that contains the region |
| `RegionStore.RegionList.Remove` | server/src/region.cc:239-245 | removes exactly one entry, in place |
| `RegionStore.RegionList.RemoveMatching` | server/src/region.h:375-382 | the loop with removals in place leaves exactly the entries that are not selected |
| `RegionStore.RegionList.Optimize` | server/src/region.cc:247-268 | the loop in place computes the merged list |
| `RegionStore.RegionList.AddNoLimitCheck` | server/src/region.cc:71-111 | the array after the search, the shift and the store is the list with the region inserted; fails exactly when the model of the panics says so |
| `RegionStore.RegionList.AddRegion` | server/src/region.cc:113-162 | with the limits: entries and running total are those of the operation whose runs are studied above |
| `RegionStore.RegionList.SubRegion` | server/src/region.cc:270-300 | all four cases in place, including the panic of the `add` in the last one |
| `FreeSearch.TruncGreatest` | server/src/region.cc:55 | truncation gives the greatest aligned address not above |
| `FreeSearch.RoundLeast` | server/src/region.cc:30 | rounding gives the least aligned address not below, unless the sum wraps around |
| `FreeSearch.FreeMeansBytes` | server/src/region.cc:36-40 | a free block is aligned, has all its bytes in the area and none in an entry |
| `FreeSearch.ForwardMeaning` | server/src/region.cc:30-40 | the lowest remaining candidate is the answer of the upward search if it is free, and there is none if it does not fit |
| `BackwardSearch.RevCandidateMeaning` | server/src/region.cc:55-65 | the highest remaining candidate is the answer of the downward search if it is free, and there is none if it lies below the area |
| `BackwardSearch.RevDescends` | server/src/region.cc:53-68 | whatever the list and the area, the search runs downwards to the right answer, or until less than a block is left, and then nothing is free |
| `BackwardSearch.RevEnds` | server/src/region.cc:46-69 | when its differences stay in range, or a block exists, it ends with the right answer |
| `BackwardSearch.UnderflowExact` | server/src/region.cc:55 | when less than the block size is left, the candidate wraps around: its block reaches beyond the top if and only if a unit is left, and otherwise it ends right at the top |
| `BackwardSearch.UnderflowEscapes` | server/src/region.cc:55-67 | with less than a block left, at the end of the area or in front of any region in it, also one that begins at zero: the search ends in the assertion of the region constructor if and only if a unit is left; otherwise it answers with the block at the very top if that is free, and goes on from there if not |
| `BackwardSearch.RevExact` | server/src/region.cc:46-69 | the outcome of every search, for a unit that divides the address space, by the last place where the search stands |
| `BackwardSearch.RevNeverWrong` | server/src/region.cc:46-69 | if a unit fits below every place where the search can stand, no answer is wrong, and the assertion fires only if nothing is free |
| `BackwardSearch.EscapesFirstPage` | server/src/region.cc:55-65 | a concrete request: a page in an area below the first page is answered with the last page of the address space |
| `BackwardSearch.EscapesBelowZero` | server/src/region.cc:67 | another one: so is a page in an area of two pages that a region from address zero on covers |
| `RegionStore.RegionList.FindFree` | server/src/region.cc:21-44 | the lowest aligned block of the rounded size in the area that no entry overlaps; zero exactly when there is none |
| `RegionStore.RegionList.FindFreeRev` | server/src/region.cc:46-69 | the loop over the array does what the rounds say, including the assertion |
| `MemoryManager.Memory.FindFreeRam` | server/src/memory.cc:6-47 | the lowest aligned block inside one RAM region, one allocatable region and the bounds that no reserved region overlaps; zero exactly when there is none; of blocks of one byte, those on the bounds that the tests pass over are not considered |
| `MemoryManager.Memory.FindFreeRamRev` | server/src/memory.cc:49-92 | the highest such block whenever there is one, with no condition on the areas that are searched; if there is none, zero or the assertion, provided that in every area the differences stay in range or a unit fits below every place where the search can stand |
| `MemoryManager.UsableMeansBytes` | server/src/memory.cc:15-44 | the blocks looked for: aligned, within the bounds, every byte in one RAM region and in one allocatable region, and none in a reserved region |
| `MemoryManager.KeptIsSafe` | server/src/memory.cc:59-88 | as long as a block is still to be found, the differences stay in range in every area above it |
| `MemoryManager.ForwardArea` | server/src/memory.cc:28-44 | looking only at the first allocatable region that overlaps misses no lower block |
| `MemoryManager.BackwardArea` | server/src/memory.cc:72-88 | looking only at the last one misses no higher block |
| `MemoryManager.OneByteExact` | server/src/memory.cc:15-20 | the answers of both searches are right for every block of two bytes or more, and for single bytes if and only if no usable byte is lost where the search begins, nor, if nothing else is usable, where it ends; a byte is lost at the end of a RAM region on the lower bound and at the begin of one on the upper bound |
| `FillMemory.PhysicalMemory.FillMem` | server/src/startup.cc:509-556 | exactly the bytes of RAM at or below the end of accessible memory that no reserved region covers are set; and, if a region that reaches up to the top address begins in a working range, everything from zero up to the end of that range |
| `FillMemory.FillExact` | server/src/startup.cc:541-553 | so only free RAM is filled if and only if there is no such region |
| `FillMemory.PhysicalMemory.FillArea` | server/src/startup.cc:511-555 | the same for one RAM region |
| `KernelMemory.RoundKeeps` | server/src/startup.cc:769-794 | one round of the scan cannot panic when there is room; it moves on in the list or fills a gap, except that at a gap of one byte it starts over with the same list |
| `KernelMemory.CarvingEnds` | server/src/startup.cc:763-799 | without a one-byte gap in front of an entry the scan ends, although it edits the list and starts over; exactly the addresses of the area that were not covered become kernel memory, except for a single byte at its end; the result tells whether there were any |
| `KernelMemory.CarvingStalls` | server/src/startup.cc:775-785 | with such a gap it is still scanning after any number of rounds, and the byte is still uncovered |
| `KernelMemory.CarvingExact` | server/src/startup.cc:763-799 | when there is room: it ends if and only if no gap in front of an entry has one byte, and carves the whole area if and only if no gap at all has; it never panics |
| `KernelMemory.GapsOfTwoExact` | server/src/startup.cc:775-797 | every gap has two bytes or more exactly if no byte in front of an entry and no byte at the end of the area is on its own |
| `KernelMemory.AddKmemAreaOnRam` | server/src/startup.cc:763-799 | whenever the scan ends, the loop over the edited list gives the result of its rounds, panics included; with room the list is carved as above |
| `ElfRegions.TopIsMultiple` | server/src/startup.cc:621-623 | every power of two below 2^64 divides the address space |
| `ElfRegions.GatherInfo` | server/src/startup.cc:1281-1305 | the lowest start, the highest end and the largest alignment of the loaded segments, each taken by one of them; whether there is a segment of type PT_DYNAMIC with bytes; and whether relocation was asked for or some loaded segment cannot stay where it is linked |
| `ElfRegions.FindRegionOverlap` | server/src/startup.cc:1204-1213 | tells whether an entry other than a boot module or a temporary region overlaps |
| `ElfRegions.AddSegment` | server/src/startup.cc:1215-1264 | a segment is reserved, with exactly the entry named, if and only if it lies inside one allocatable region, nothing blocks it and the list takes it; otherwise the program panics |
| `ElfRegions.AddSegments` | server/src/startup.cc:656 | all segments are reserved, in any order, if and only if each can be at the start: they do not block each other |
| `ElfRegions.OffsetAligned` | server/src/startup.cc:611-645 | the 64-bit offset is a multiple of the power-of-two alignment, also for a binary that moves down |
| `ElfRegions.SegmentsInBlock` | server/src/startup.cc:634-645 | every moved segment lies in the block found, hence in one RAM and one allocatable region and clear of everything reserved |
| `ElfRegions.FindBlock` | server/src/startup.cc:631-643 | a block behind the boot program is preferred; none is found exactly when none exists anywhere |
| `ElfRegions.AddElfRegions` | server/src/startup.cc:589-675 | the binary is moved if and only if it has a PT_DYNAMIC segment and relocation was asked for or a loaded segment cannot stay. A move fails exactly when no block is large enough; otherwise every segment is moved by the same aligned offset into the lowest suitable block, behind the boot program if there is one, and the list is the old one plus the segments. A binary that is not moved is loaded as linked if and only if every segment fits |
| `CopySchedule.SourceIntact` | server/src/boot_modules.cc:310-334 | the source of a copy that no earlier copy writes to is still what it was |
| `CopySchedule.JobDone` | server/src/boot_modules.cc:310-334 | doing the next copy on either side of those already done extends the finished part and destroys nothing finished |
| `ModuleOrder.InsertionKeepsOrder` | server/src/boot_modules.cc:202-227 | insertion keeps the order by start address, adds exactly the one index, and its size to the total |
| `ModuleOrder.ModuleSorter.InsertSorted` | server/src/boot_modules.cc:202-227 | the array after the shift and the store is the ordered list with the index inserted; fails exactly when 256 indexes are stored |
| `ModuleOrder.PageRoundAdd` | server/src/boot_modules.cc:192-193 | rounding an end address up is rounding the size up, for an aligned start |
| `ModulePlans.UpSpares` | server/src/boot_modules.cc:316-325 | moving the upper group in reverse order never writes into a module that still has to be moved |
| `ModulePlans.DownSpares` | server/src/boot_modules.cc:327-334 | moving the lower group in order, after the upper one, does not either |
| `ModulePlans.StageStep` | server/src/boot_modules.cc:126-195 | a move whose source was spared cannot panic and leaves the state of a run with one more module at its target |
| `BootModules.NextInOrder` | server/src/boot_modules.cc:302-312 | modules on separate pages lie further and further ahead of their targets, so one split point is enough |
| `BootModules.SlotsLayout` | server/src/boot_modules.cc:302-334 | the targets tile the block in the order of the modules |
| `BootModules.FinalStage` | server/src/boot_modules.cc:316-334 | when all are moved, contents, order, clean page ends, untouched memory and reserved regions are as promised |
| `BootModules.ModulesCovered` | server/src/boot_modules.cc:192-194 | every byte of every module of more than one byte is reserved afterwards |
| `BootModules.ModuleMemory.CalcModulesSize` | server/src/boot_modules.cc:242-253 | the sum of the page-rounded sizes |
| `BootModules.ModuleMemory.MoveModule` | server/src/boot_modules.cc:126-195 | memory, module table and region list after one move, and exactly when it panics |
| `BootModules.ModuleMemory.FindSplit` | server/src/boot_modules.cc:302-312 | the index found splits the modules into those that move up or stay and those that move down |
| `BootModules.ModuleMemory.MoveModules` | server/src/boot_modules.cc:261-335 | panics exactly when there is no block or there are more than 256 modules; otherwise every module is whole at its target in the lowest block, followed by zeros up to the end of its page if it was moved, in the old order; no byte outside the block changes; the list is the old one without module entries plus one entry per module, from its first to its last byte with the type and number of the module |
| `UnpackPlans.BelowPermutation` | server/src/boot_modules.cc:608-616 | the unpacked size of all modules below an address does not depend on the order in which they are listed |
| `UnpackPlans.BehindInAnyOrder` | server/src/boot_modules.cc:646-651 | whatever the order of the header, each target handed out by ascending address begins behind the data of its module |
| `UnpackPlans.BeforeInAnyOrder` | server/src/boot_modules.cc:653-664 | and in front of the modules each target ends before the data of its module |
| `UnpackModules.BeforeIsSafe` | server/src/boot_modules.cc:653-664 | hence unpacking upwards in front of the modules overwrites no data still needed |
| `UnpackModules.BehindIsSafe` | server/src/boot_modules.cc:646-651 | and unpacking downwards behind the modules does not either |
| `UnpackModules.ElsewhereIsSafe` | server/src/boot_modules.cc:625-630 | a block clear of all reserved regions is safe upwards |
| `UnpackScan.BeforeStartExact` | server/src/boot_modules.cc:623 | the first candidate in front of the modules is right if and only if the lowest module starts at or above its unpacked size; otherwise it wraps around, and the module would end as far beyond the top |
| `UnpackScan.FrontStep` | server/src/boot_modules.cc:653-669 | one more module of the header in 64-bit arithmetic: the target stays as close to the modules as all of them allow, or stays near the top, decided once by the first module of the header |
| `UnpackScan.CandidateExact` | server/src/boot_modules.cc:672 | the block in front of the modules reaches beyond the top if and only if the lowest module lies below its unpacked size, the first module of the header does not move the target down into memory, and the last one does not begin at zero |
| `UnpackRun.WrapsInOrder` | server/src/boot_modules.cc:617-672 | with the lowest module first in the header: exactly if it lies below its unpacked size |
| `UnpackRun.Unpacker.Scan` | server/src/boot_modules.cc:635-670 | the scan over the header finds the page-aligned targets closest to the modules that every module allows at once, gives the lower one up only when there is none, and removes the entries of exactly the modules to be unpacked |
| `UnpackRun.Unpacker.ChooseNear` | server/src/boot_modules.cc:672-692 | which place is chosen and in which direction: right in front if that is free, else right behind if that is, else the lowest free block further up; zero only if there is none |
| `UnpackRun.Unpacker.Choose` | server/src/boot_modules.cc:617-696 | exactly which block is chosen on every branch (`TargetRule`); it is free RAM, and the direction spares all data that is still needed; zero only if no block exists behind the modules; the program stops in the assertion on the block in front of the modules exactly if that block is looked at and its last byte lies beyond the top |
| `UnpackStages.DropMeaning` | server/src/boot_modules.cc:417-432 | `drop_mod_region` removes exactly the entry of the module |
| `UnpackStages.StageStep` | server/src/boot_modules.cc:576-599 | unpacking a module whose data was spared cannot panic and leaves the state of a run with one more module unpacked |
| `UnpackRun.Unpacker.DecompMoveMod` | server/src/boot_modules.cc:576-599 | memory, module table and region list after one module, and exactly when it panics |
| `UnpackRun.Unpacker.DecompressMods` | server/src/boot_modules.cc:601-724 | every compressed module holds what the decompressor makes of its data, every other one its data, in the old order, within the block; base modules, other reserved regions and all memory outside the block are untouched; fails only with more than 256 modules to unpack, without a block behind the modules, or when the block in front of them is looked at and reaches beyond the top; in the first and the last case it always fails |
| `UnpackModules.FinalRegions` | server/src/boot_modules.cc:576-599 | the region list afterwards: the old one without the old entries of the modules, plus their new ones in whole pages |
| `MultibootFormat.ReadWritten` | server/src/multiboot2.cc:76-83 | a number written in little-endian order is read back |
| `MultibootFormat.ConvertedMeaning` | server/src/multiboot2.cc:106-123 | walking the converted memory map by the sizes in its entries yields the address, length and type of every original entry, in order |
| `MultibootFormat.EveryModuleTold` | server/src/multiboot2.cc:61-95 | every module is passed on, in order, if and only if the module tags follow each other; if they do not, fewer are |
| `MultibootFormat.ModulesTold` | server/src/multiboot2.cc:61-95 | what is passed on is always the end of the list of modules: a later block replaces the ones before |
| `MultibootFormat.LastTold` | server/src/multiboot2.cc:256-278 | the command line passed on is the one of the last tag of type 1, the memory map that of the last tag of type 6, the RSDP that of the last tag of type 14 or 15; each is missing exactly if there is no such tag |
| `MultibootLayout.RotatedTwice` | server/src/multiboot2.cc:214-223 | rotating in pieces is rotating as a whole |
| `MultibootLayout.RotateTag` | server/src/multiboot2.cc:206-226 | after a rotation the remaining tags start where the tag was, the tag is at the end, and what was set aside before is untouched |
| `MultibootLayout.DenotesKept` | server/src/multiboot2.cc:228-233 | whatever happens to the bytes not set aside, and however many more are set aside, everything told so far can still be found |
| `MultibootLayout.TableMoved` | server/src/multiboot2.cc:61-95 | the v1 entries made so far stay adjacent and keep their meaning when a later rotation moves them |
| `Multiboot.BlockStep` | server/src/multiboot2.cc:66-84 | one module tag more: its entry stands directly behind the entries before it |
| `Multiboot.ConvertibleBuffer.RotateToEnd` | server/src/multiboot2.cc:206-226 | the loop over pieces of at most 1024 bytes rotates the padded tag to the end and returns its new place |
| `Multiboot.ConvertibleBuffer.ProcessCmdline` | server/src/multiboot2.cc:51-58 | the command line is told, everything said before still is, and the next tag is at the old place |
| `Multiboot.ConvertibleBuffer.ProcessModule` | server/src/multiboot2.cc:66-84 | one module |
| `Multiboot.ConvertibleBuffer.ProcessModules` | server/src/multiboot2.cc:62-96 | a whole block of module tags becomes a table of v1 entries with the same address ranges and command lines, in the same order |
| `Multiboot.ConvertibleBuffer.ConvertEntries` | server/src/multiboot2.cc:106-123 | the loop over the entries converts the whole map in place and touches nothing else |
| `Multiboot.ConvertibleBuffer.ProcessMemmap` | server/src/multiboot2.cc:98-130 | the memory map is told |
| `Multiboot.ConvertibleBuffer.ProcessRsdp` | server/src/multiboot2.cc:166-176 | the RSDP is told |
| `Multiboot.ConvertibleBuffer.Finalize` | server/src/multiboot2.cc:179-201 | the information structure is written and the rest cleared without touching what was set aside; fails exactly when it does not fit |
| `Multiboot.ConvertibleBuffer.Convert` | server/src/multiboot2.cc:249-284 | for every valid sequence of tags all that the tags say can be found through the result: what `LastTold` and `ModulesTold` say; the size left is the total minus what the tags of types 1, 3, 6, 14 and 15 take; fails exactly when the final structure does not fit there |
| `StringRoutines.HasZeroMeaning` | server/src/ARCH-amd64/libc32/include/strutil.h:5-7 | the bit trick gives a non-zero word exactly when some byte is zero |
| `StringRoutines.HasByteMeaning` | server/src/ARCH-amd64/libc32/src/string/memchr.c:15-16 | combined with a repeated byte, exactly when that byte occurs |
| `StringRoutines.Strlen` | server/src/ARCH-amd64/libc32/src/string/strlen.c:6-20 | the distance of the first zero byte, for every alignment |
| `StringRoutines.Memchr` | server/src/ARCH-amd64/libc32/src/string/memchr.c:6-22 | the first of the n bytes that equals the low byte of c, or none does |
| `StringRoutines.LooksDisjointExact` | server/src/ARCH-amd64/libc32/src/string/memmove.c:16 | for distinct buffers in the 32-bit address space the comparison is true exactly if they are disjoint or n is above 2^31 |
| `StringRoutines.CopiesAddUp` | server/src/ARCH-amd64/libc32/src/string/memmove.c:19-33 | copying upwards to below reads no byte that was overwritten |
| `StringRoutines.CopiesAddDown` | server/src/ARCH-amd64/libc32/src/string/memmove.c:33-47 | copying downwards to above does not either |
| `StringRoutines.Memmove` | server/src/ARCH-amd64/libc32/src/string/memmove.c:9-50 | for every alignment and overlap the destination holds the old source, and no other byte changes |
| `StringRoutines.Memset` | server/src/ARCH-amd64/libc32/src/string/memset.c:4-96 | for every length and alignment every byte of the buffer is set and no other |
| `StringRoutines.FillWords` | server/src/ARCH-amd64/libc32/src/string/memset.c:52-89 | the word-wise part closes the gap between the bytes set at both ends |
| `LongDivision.SetBit` | server/src/gcc_lib.c:55-60 | the bit is not yet set in the quotient, so the bit-wise or is a sum that accounts for what is subtracted |
| `LongDivision.ModDiv` | server/src/gcc_lib.c:33-68 | dividend = quotient * divisor + remainder with remainder < divisor; zeros for the divisor zero |
| `LongDivision.Ullmoddiv` | server/src/gcc_lib.c:33-68 | 64-bit division and remainder |
| `LongDivision.Umoddiv` | server/src/gcc_lib.c:88-123 | 32-bit division and remainder |
| `ParentCache.ScanForest` | server/src/dt.h:193-216 | scanning a row of subtrees of any depth and length collects every node that is not too deep with its parent, as far as there is room, and leaves the stack above as it was |
| `ParentCache.KnownIsTrue` | server/src/dt.h:201-212 | what is collected about a node is its true parent in the tree |
| `ParentCache.KnownExact` | server/src/dt.h:201-212 | exactly the nodes on the first sixteen levels are collected |
| `ParentCache.KnownSorted` | server/src/dt.h:239-241 | the cache is sorted by offset |
| `ParentCache.ScanOfTree` | server/src/dt.h:193-216 | the cache of a whole tree is the first 1024 of its nodes that are less than 16 deep |
| `ParentCache.LookUpAgrees` | server/src/dt.h:218-235 | a look-up gives the true parent of every cached node but the root and -1 for every other; while the cache is not full, the cached nodes are those on the first sixteen levels; for a root reported at depth one it gives a stack entry that was never written |
| `ParentCache.Cache.Scan` | server/src/dt.h:193-216 | the loop with its array, counter and stack |
| `ParentCache.Cache.GetParent` | server/src/dt.h:218-235 | the binary search finds the element if there is one |
| `ParentCache.Cache.ParentNode` | server/src/dt.h:257-266 | with the fallback the result is the structural parent of every node but the root |
| `ParentCache.Cache.ScanAndAsk` | server/src/dt.h:193-266 | from the node stream of any tree to that parent in one contract |

## Left out

- Paging.PageMemory.MapRange: for a run that spills, only the first address that is spilled into is stated; the write and user bits along a table path are not combined, only the flags of the leaf are stated; mapping bits are the low twelve without the large-page bit; linear addresses lie below 2^48 and physical ones below 2^52.
- BootPaging.BasePagingInit: assumes superpage support; without it 4 KiB tables are needed and the pool does not suffice.
- RegionStore.RegionList.FindFree: assumes that no sum of the search reaches the top of the address space.
- RegionStore.RegionList.FindFreeRev: assumes that the search ends; when it does, and what it then means, is proved in `BackwardSearch`; only what it does after it has wrapped to a block at the top that is not free is left open.
- MemoryManager.Memory.FindFreeRam: without the `validate` callback and its node argument, and assumes that no sum of the search reaches the top of the address space.
- MemoryManager.Memory.FindFreeRamRev: without the `validate` callback; when no block exists, the areas in which the search would leave the area or not end are excluded.
- RegionLists.AddExact: assumes room in the store, an address limit above zero and a total that does not wrap around; `RegionLists.AddedFull` and `RegionLists.ZeroAddressLimitExtends` are about a full store and a limit of zero.
- RegionLists.SubExact: assumes room in the store and entries within the address limit.
- RegionLists.AddsKeepLimits: assumes an address limit above zero and regions that do not touch the top address.
- KernelMemory.CarvingExact: assumes room in the store for one entry per gap, and an area within the limits of the list; `KernelMemory.AddKmemAreaOnRam` itself needs neither.
- ElfRegions.AddElfRegions: assumes disjoint loadable segments and lists below 2^62, room in the store and within the limits of the list; the check of the ELF header, the announcement to the firmware and copying the segments are not part of the model; rounding with an alignment mask is truncation, since alignments are powers of two.
- BootModules.ModuleMemory.MoveModules: assumes non-empty modules on pages of their own, RAM within the modelled memory, and room for one entry per module; unpacking on access, the assertions on 32-bit addresses of the multiboot variant and the message output are not modelled.
- UnpackRun.Unpacker.DecompressMods: assumes at most 256 modules in all, since a region entry keeps the index of its module in one byte, unless more than that are to be unpacked; that every module has exactly its own entry in the region list, which no module of one byte has, and that decompression succeeds; the decompressor is a parameter that reads its source and writes its target; checksums and the final loop that moves base modules out of the way of ELF regions are not modelled.
- Multiboot.ConvertibleBuffer.Convert: framebuffer tags are excluded, because the code reserves the size of a structure that is unrelated to the tag; the bytes of the v1 structure are a parameter, since mb_info.h is not part of this model; flag bits are represented by the presence of the values.
- StringRoutines.Memmove: for buffers of at most 2^31 bytes; the assembly `memcpy` is a contract for disjoint buffers.
- StringRoutines.Strlen: memory consists of whole words and the string is terminated.
- ParentCache.Cache.ParentNode: the library that yields the nodes is represented by the stream of a tree with ascending offsets, and its own search for the parent by its result.
- The exactness of the running total after `remove`, `sub` and `optimize`, which those functions do not maintain.
- The reservation list and the allocator of the 32-bit stage (`reservation_add`, `mm_alloc`), whose coverage does not follow from the code.
- The shift and bit-count helpers of server/src/gcc_lib.c and `Range::translate` of server/src/dt.h, which would only add easy members.
- Placing of the final module information structure, the merging of module regions, and everything that concerns hardware, platform tables, firmware and printing.
