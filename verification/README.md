# Verified models of the Bao hypervisor

Bao is a static partitioning hypervisor: it decides once who owns which frame, region,
interrupt slot and CPU, and its data structures have to keep that decision. This project
models those structures in Dafny and proves what they keep. `dafny verify dfyconfig.toml`
checks everything.

| files | what they model |
|---|---|
| `page_table.dfy`, `pte_encoding.dfy`, `addr_space.dfy`, `mapping.dfy`, `unmapping.dfy`, `searching.dfy`, `inflating.dfy`, `frames.dfy` | the MMU build: Sv39 tables (RISC-V Privileged Specification v1.12, sections 4.3.2 and 4.4), mapping, unmapping, splitting, reserving and coloured mapping, against a flat map of pages |
| `granule.dfy`, `bitmap.dfy`, `colors.dfy`, `aligned_search.dfy`, `page_pool.dfy` | physical page pools over a bitmap of 32-bit granules |
| `phys_mpu.dfy`, `vmpu_state.dfy`, `vmpu.dfy` | the MPU build: the virtual MPU and its mirror in the entries of an Armv8-R core |
| `vgic_state.dfy`, `vgic.dfy` | the virtual GICv3's cache of list registers (Arm IHI 0069, chapter 6) |
| `circular_queue.dfy`, `barrier.dfy` | message queues and the counting barrier, over all interleavings |
| `remio.dfy` | the life of a Remote I/O request |
| `smmu.dfy` | stream match entries of the SMMUv2 driver |
| `vmm.dfy`, `vm_ids.dfy` | CPUs given to VMs, and virtual CPU numbers |
| `digits.dfy`, `printk.dfy` | the resumable formatter and the console loop |
| `arith.dfy`, `counting.dfy`, `options.dfy` | shared facts and types |

`ERROR` never returns in the source; a method that meets it ends in an outcome of its own
(`Halted`). Where the source goes on with a null pointer, with a data page taken for a
table, or past the end of an array, the outcome is `NoTable`, `WildWalk` or `Overrun`. Each
outcome is tied to its cause: a want of frames to a refusal of the pools, a full table to
its last free slot. Code under a lock is one step.

## What does not hold, and exactly when it does

The code keeps the following promises only under a condition, which is proved to be the
exact one and can be checked before the call, with an example as a lemma or as calls.

- `mem_unmap` steps up one level when it crosses from one root entry to the next
  (src/core/mmu/mem.c:422-491). If the next entry holds a superpage, the walk uses the frame
  behind it as a table. `Unmapping.Blocked` is the condition, read off the page table before
  the call; `AddrSpaces.AddrSpace.MemUnmap` succeeds or goes wild accordingly, and
  `Unmapping.BlockedExample` is a table with two pages to unmap.
- `mem_inflate_pt` steps through a range by whole blocks from an unaligned start, so it can
  miss the last block (src/core/mmu/mem.c:291-307). The coloured path of `mem_map` then writes
  through a null entry. `Inflating.Inflatable` is the condition, and `Inflating.MissedExample`
  two pages in an empty table.
- `mem_expand_pte` gives the pieces of a superpage the default flags of the address space.
  Frames and reservations are kept, the flags are not: `mem_unmap` changes those of a page
  outside its range exactly if the page's superpage meets the range (`Unmapping.KeptExactly`).
- `mem_regions_overlap` tests whether the first region lies inside the second
  (src/core/mpu/inc/mem_prot/mem.h:42-45). `mem_map` therefore accepts a region that starts in
  another one and ends outside it. The regions stay disjoint exactly if no VALID region meets
  the new one without containing it (`VmpuState.CutsAcross`, `VmpuState.OverlapExample`).
- For the same reason `mem_unmap_range` acts only on a range that lies inside one region. A
  range that is mapped, but by two regions, stays mapped and the call returns false
  (`VmpuState.SpanningExample`).
- `vgic_handle_trapped_eoir` clears `in_lr` of the interrupt named in the register it empties.
  If that interrupt has been placed in another register since the guest completed it, its live
  register is left without an owner. The invariant survives the step exactly if no register
  holds the interrupt live (`Vgics.AnsweredExactly`). A register write to an
  interrupt loses track of it in this way exactly if a completed copy of it still waits for
  its maintenance interrupt (`Vgics.Vgic.SetField`, `Vgics.CompletedExample`).
- A completion with request number -1 takes the oldest pending request off its list, and its
  vCPU is never resumed; every other completion keeps the invariant
  (`Remio.RemoteIo.Complete`).
- A stream match entry that is dropped keeps its group flag. A device passes for a group, and
  has another device merged with it instead of refused, exactly if its entry was marked as a
  group before (`Smmu.StaleGroup`, `Smmu.SmmuV2.Add`, `Smmu.StaleGroupCalls`).
- `vsnprintk` makes progress exactly if the next item fits an empty buffer; with fewer than
  20 characters a number may not (`Printk.Vsnprintk`, `Printk.StuckExample`).
- An aligned `pp_alloc` moves on from a misaligned run by the run's misalignment instead of by
  the distance to the next aligned page (src/core/mem.c:105-110), so the misalignment doubles at
  each hop and the search can leave a stretch of free pages without having looked at the
  aligned run in it. It succeeds exactly if in some stretch, from where one of its two passes
  enters it, the doubled misalignment vanishes while there is room
  (`PagePools.PagePool.PpAlloc`, `AlignedSearch.LandsIff`). For 2^t pages a stretch of
  t * 2^t + 1 free pages is always enough (`AlignedSearch.Pow2Reached`); an odd number of pages
  is found only where a pass enters at an aligned page. `PagePools.AlignedFails` is a call that
  misses a free aligned run.
- `mem_alloc_vpage` compares what is left of the section with the whole request even when part
  of it has been found, but only where it leaves a table or goes down a level
  (src/core/mmu/mem.c:343-393). It gives up, although the pages asked for are free, exactly if
  there is too little left at one of these pages (`Searching.GivesUp`, read off the page table
  before the call; `AddrSpaces.GivesUpCalls`). Where it does not give up it returns the first
  free run from the start of the section, wherever that is: inside the section exactly if the
  section has a free run (`Searching.FirstFitInside`). In a section that starts inside a busy
  superpage the search steps on by whole blocks and begins at `Searching.Landing`. `Searching.PastEndExample` returns a run
  that ends outside the section and `Searching.OutsideExample` one that lies outside it. A run
  at an address the caller asked for is always inside.
- `mem_map` notices an existing mapping only at the pages where it searches for a level: the
  first page, and each page at which the fill of the table before it ends. Given frames and
  tables enough, it stops exactly if one of these is mapped (`Mapping.Noticed`); every other
  mapped page is overwritten (`AddrSpaces.OverwrittenCalls`). Where no superpage fits, these
  pages are the first and each multiple of 512 (`Mapping.SmallPagesNoticed`).

## Model

| member | source | states |
|---|---|---|
| PageTable.DescentLabel | src/arch/riscv/page_table.c:41-56 | a descent that ends in an entry ends in the table of the right level and base, at the index of the page, and the page is decided from there |
| PageTable.DescentTerm | src/arch/riscv/page_table.c:41-56 | the deciding entry of a page is aligned and not a table; a descent reaches a level exactly if the deciding entry is not above it, and otherwise ends in null or in a data page |
| PageTable.SetEntryTerm | src/arch/riscv/inc/arch/page_table.h:107-111 | writing a leaf or an invalid entry decides exactly the pages of its block; every other page is decided as before |
| PageTable.AddTableTerm | src/core/mmu/mem.c:197-214 | a new table of equal entries under an invalid entry moves the decision of its pages down one level and changes no other page |
| PageTable.AddFreeTable | src/core/mmu/mem.c:197-214 | a new table that carries the reservation bits of its parent keeps every page and a well-formed tree |
| PteEncoding.WordLayout | src/arch/riscv/inc/arch/page_table.h:107-111 | pte_set writes the frame of the address to bits 53..10, the type and flags to bits 7..0, and zero elsewhere |
| PteEncoding.AddrLayout | src/arch/riscv/inc/arch/page_table.h:113-116 | pte_addr is the address of the frame in bits 53..10 of any word |
| PteEncoding.KindLayout | src/arch/riscv/inc/arch/page_table.h:118-139 | a word is valid exactly if V is set, and a table exactly if also R, W and X are clear |
| PteEncoding.FrameLayout | src/arch/riscv/inc/arch/page_table.h:113-116 | the walker reads the frame that the hardware reads, from any word |
| PteEncoding.FrameWritten | src/arch/riscv/inc/arch/page_table.h:107-111 | the frame the hardware reads from a written word is that of the address |
| PteEncoding.PageRoundTrip | src/arch/riscv/inc/arch/page_table.h:107-139 | a page entry written by pte_set reads back as a leaf with its flags and the frame in bits 53..10, which is that of the address, and with no reservation bits |
| PteEncoding.TableRoundTrip | src/arch/riscv/inc/arch/page_table.h:107-139 | a table entry reads back as a table whatever flags were passed, at the frame in bits 53..10, which is that of the address |
| PteEncoding.RswLayout | src/arch/riscv/inc/arch/page_table.h:123-126 | pte_set_rsw writes bits 9..8 and keeps all others |
| PteEncoding.RswRoundTrip | src/arch/riscv/inc/arch/page_table.h:123-131 | pte_set_rsw changes the reservation bits and nothing else the walk reads; pte_check_rsw tells a reserved invalid entry |
| AddrSpaces.AddrSpace.constructor | src/core/mmu/mem.c:933-950 | a new address space of a VM is well formed and maps nothing |
| AddrSpaces.AddrSpace.AsMapPhysicalIdentity | src/arch/riscv/mem.c:13-48 | for the hypervisor exactly the root entries that meet a region of physical memory map it one to one |
| AddrSpaces.AddrSpace.PtGetPte | src/arch/riscv/page_table.c:41-56 | the loop returns the entry that serves the page at the level, and that entry decides the page unless it is a table |
| AddrSpaces.AddrSpace.PteSet | src/arch/riscv/inc/arch/page_table.h:107-111 | exactly the pages of the block change, to the new entry; the tree stays well formed |
| AddrSpaces.AddrSpace.MemAllocPt | src/core/mmu/mem.c:197-214 | no page changes; the tree gains one table in a fresh frame |
| AddrSpaces.AddrSpace.MemFindSec | src/core/mmu/mem.c:177-186 | the first section that contains the address, or none |
| AddrSpaces.AddrSpace.MemTranslate | src/arch/riscv/mem.c:50-72 | on every byte address the walk returns what the page map says |
| AddrSpaces.AddrSpace.MapDescend | src/core/mmu/mem.c:538-551 | the descent ends at the first level where the block fits the range and both alignments, or halts because the page is mapped; no page changes, and only blocks that hold the page get new tables |
| AddrSpaces.AddrSpace.MapFill | src/core/mmu/mem.c:553-582 | one table is filled from the current entry to its end, or until no whole block is left; exactly the pages covered get their frames |
| AddrSpaces.AddrSpace.MapRound | src/core/mmu/mem.c:537-583 | one search and the fill after it: with given frames it covers exactly the pages up to the next search |
| AddrSpaces.AddrSpace.MapPages | src/core/mmu/mem.c:537-583 | the outer loop ends with each page of the range at its frame and every other page as before |
| AddrSpaces.AddrSpace.MemMap | src/core/mmu/mem.c:493-596 | mem_map overrides the flat page map on exactly the range: to base + i with given frames, to distinct fresh frames otherwise, and the pools lose just these and the frames of new tables; it is refused, without effect, exactly if the range is not in one section; with given frames it stops exactly if a page at which it searches is mapped, with the pages before it mapped, and overwrites all other mappings |
| Mapping.RoundStep | src/core/mmu/mem.c:537-583 | a round of search and fill notices its first page or nothing, and the tables it makes do not change where the later searches are |
| Mapping.SmallPagesNoticed | src/core/mmu/mem.c:537-583 | where no superpage fits, exactly the first page and the multiples of 512 can stop mem_map |
| Mapping.OverwrittenExample | src/core/mmu/mem.c:553-582 | a table with a mapped page that a request for it and the page before does not notice |
| AddrSpaces.OverwrittenCalls | src/core/mmu/mem.c:493-596 | two calls, the second of which silently replaces what the first mapped |
| AddrSpaces.AddrSpace.MemExpandPte | src/core/mmu/mem.c:229-289 | a superpage becomes a table of pieces at the same frames with default flags; a reserved or free entry keeps every page; nothing outside the block changes |
| AddrSpaces.AddrSpace.MemUnmap | src/core/mmu/mem.c:422-491 | a fully mapped range is cleared exactly, with free exactly its frames return, and every other page keeps its frame, and its flags exactly unless its superpage met the range; this happens if and only if no root boundary in the range is Blocked |
| Unmapping.KeptExactly | src/core/mmu/mem.c:447-468 | outside a cleared range the flags become the default ones exactly where a superpage met the range |
| AddrSpaces.AddrSpace.MapUnmap | src/core/mmu/mem.c:422-596 | mem_map of fresh frames followed by mem_unmap that frees them: the pools end where they began, but for tables, the range is unmapped, and all other pages keep their frames |
| Unmapping.BlockedExample | src/core/mmu/mem.c:422-491 | two mapped pages that mem_unmap cannot unmap |
| Unmapping.FreeWayStep | src/core/mmu/mem.c:471-478 | after a block is cleared the walk is stuck at the next page exactly under the condition stated on the table before the call |
| AddrSpaces.AddrSpace.MemAllocVpage | src/core/mmu/mem.c:309-420 | a returned range was free and unreserved and is exactly what becomes reserved; no other page changes; at a given address the call succeeds if and only if the range is free and the search does not give up on it, and then inside the section; from the start of a section it gives up exactly if GivesUpFrom, and otherwise returns the first free run, which lies in the section exactly if some free run does |
| AddrSpaces.AddrSpace.VSearch | src/core/mmu/mem.c:343-393 | the search ends at the first free run, or gives up exactly under the condition read off the table before the call |
| AddrSpaces.AddrSpace.VScan | src/core/mmu/mem.c:354-392 | within one table each entry is passed at the level foreseen, and the search leaves the table exactly at the pages where it tests the room |
| Searching.TakenThere | src/core/mmu/mem.c:188-195 | an entry is taken exactly if it is the highest whose block lies inside the request |
| Searching.StepTake | src/core/mmu/mem.c:369-374 | taking a free block lengthens the run, and inside the block the room is not tested |
| Searching.StepBusy | src/core/mmu/mem.c:360-367 | passing a busy block starts a new run and passes no free one |
| Searching.StepTable | src/core/mmu/mem.c:375-379 | making a table changes neither the pages nor the entries the search is going to use |
| Searching.SkipStep | src/core/mmu/mem.c:359-392 | a step from inside a busy superpage, and where the room is tested on the way out |
| Searching.NotBuried | src/core/mmu/mem.c:343-352 | for a section that starts at a block or a free page there is no such way: it gives up exactly if GivesUp |
| Searching.RoomForTwo | src/core/mmu/mem.c:343-352 | a free run that starts two requests before the end of the section is never given up |
| Searching.FirstFitInside | src/core/mmu/mem.c:359-392 | the first free run lies inside the section exactly if some free run does |
| Searching.GivesUpExample | src/core/mmu/mem.c:343-352 | 512 free pages inside a section of 768 that the search gives up on |
| AddrSpaces.GivesUpCalls | src/core/mmu/mem.c:309-420 | the same as a call |
| Searching.PastEndExample | src/core/mmu/mem.c:359-392 | a search that returns a range which ends outside the section |
| Searching.OutsideExample | src/core/mmu/mem.c:359-392 | a search that returns a range outside the section, though the section ends where the largest blocks do |
| AddrSpaces.AddrSpace.VReserve | src/core/mmu/mem.c:395-410 | the reservation loop reserves exactly the range, at whatever levels its entries are |
| AddrSpaces.AddrSpace.MemInflatePt | src/core/mmu/mem.c:291-307 | which blocks become tables at both levels, and that a walk through a superpage happens only if the range is not Inflatable |
| AddrSpaces.AddrSpace.MemMapColored | src/core/mmu/mem.c:524-534 | the coloured path maps page i of the range to the i-th coloured frame and keeps all other frames; it succeeds if and only if the range was Inflatable |
| Inflating.InflatedLevels | src/core/mmu/mem.c:291-307 | after inflating, every page of the range has a last-level entry exactly if the range was Inflatable |
| Inflating.InflatedKeeps | src/core/mmu/mem.c:291-307 | inflating keeps every frame and reservation |
| Inflating.MissedExample | src/core/mmu/mem.c:291-307 | two pages of an empty table that cannot be mapped with colours |
| Granule.PartIsBits | src/lib/bitmap.c:28-60 | the masked comparison of a word is true exactly if the bits of the part are equal |
| Bitmap.BitmapSet | src/lib/inc/bitmap.h:33-36 | exactly one bit becomes one |
| Bitmap.BitmapClear | src/lib/inc/bitmap.h:38-41 | exactly one bit becomes zero |
| Bitmap.BitmapClearConsecutive | src/lib/inc/bitmap.h:50-55 | exactly the run of bits becomes zero |
| Bitmap.BitmapFindNth | src/lib/bitmap.c:8-26 | the n-th equal bit from the start, or -1 exactly if there are fewer |
| Bitmap.BitmapCountConsecutive | src/lib/bitmap.c:28-60 | the word-wise count is the length of the run, exact below n |
| Bitmap.BitmapFindConsec | src/lib/bitmap.c:62-89 | the least start of a run of n equal bits inside the map, or -1 only if none exists |
| Bitmap.BitmapSetConsecutive | src/lib/bitmap.c:91-111 | exactly the run of bits becomes one |
| Colors.OffsetColor | src/core/mmu/mem.c:69-79 | the colour test relative to a base reduced modulo the colour cycle is the absolute colour of the page |
| Colors.PpNextClr | src/core/mmu/mem.c:69-79 | the loop ends at the least coloured index from the start |
| Colors.KthCovers | src/core/mmu/mem.c:69-79 | the indices found one after another are all the coloured ones |
| Colors.KthShift | src/core/mmu/mem.c:69-79 | counting coloured pages from another base only moves the indices |
| Colors.ColoredPagesAgree | src/core/mmu/mem.c:524-534 | the pages marked by the allocator and cleared by the free, counted from the pool, are those the coloured mapping uses, counted from the range |
| PagePools.PagePool.constructor | src/core/mem.c:276-295 | a new pool has every page free and nothing handed out |
| PagePools.PagePool.PpAlloc | src/core/mem.c:59-129 | a run that was free, inside the pool and aligned if asked for is handed out, without colours; sets handed out stay disjoint and the free count exact; an unaligned request succeeds if and only if a free run exists, an aligned one if and only if one of its two passes lands on a run |
| PagePools.PagePool.HopOn | src/core/mem.c:94-121 | the search stops at an aligned run, and from a misaligned one hops on without changing whether it will land |
| AlignedSearch.HopPast | src/core/mem.c:105-110 | after k hops the misalignment is 2^k times the first one, modulo the size of the request |
| AlignedSearch.LandsIff | src/core/mem.c:94-121 | the search lands in a stretch of free pages exactly if the doubled misalignment vanishes while there is room for a run |
| AlignedSearch.Pow2Reached | src/core/mem.c:94-121 | for 2^t pages a free stretch of t * 2^t + 1 pages is always found |
| AlignedSearch.OddNeverLands | src/core/mem.c:94-121 | an odd number of pages is never found from a misaligned entry |
| AlignedSearch.CaughtReached | src/core/mem.c:94-121 | an aligned run right after a used page, and any aligned run of one or two pages, is found |
| PagePools.AlignedExample | src/core/mem.c:105-110 | eight free pages with an aligned run of four in them that the search does not find |
| PagePools.AlignedFails | src/core/mem.c:59-169 | the same as calls: two reservations, and an aligned allocation that fails |
| PagePools.PagePool.PpAllocClr | src/core/mmu/mem.c:100-175 | the same for a run of colour-successive pages, which fails only if there is none |
| PagePools.PagePool.ArePpagesReserved | src/core/mem.c:137-155 | true exactly if the range is in the pool and not all of it free |
| PagePools.PagePool.ReservePpages | src/core/mem.c:157-169 | reserves exactly if the range is in the pool and all free, and keeps the invariant |
| Colors.KthAll | src/core/inc/mem.h:57-61 | a map of all colours leaves out no page |
| PagePools.PagePool.FreedAll | src/core/mmu/mem.c:81-98 | freeing with a map of all colours, or of none, is freeing the plain run |
| PagePools.PagePool.AllocFree | src/core/mmu/mem.c:81-98 | freeing what pp_alloc has just handed out restores every bit of the pool |
| PagePools.PagePool.ClrAllocFree | src/core/mmu/mem.c:81-175 | freeing what pp_alloc_clr has just handed out restores every bit of the pool |
| PagePools.PagePool.FreePpages | src/core/mmu/mem.c:81-98 | clears exactly the plain or coloured run of pages, for the same condition on colours the mapping uses |
| PhysMpu.Mpu.constructor | src/arch/armv8/armv8-r/mpu.c:204-211 | no entry is taken |
| PhysMpu.Mpu.MpuFindRegion | src/arch/armv8/armv8-r/mpu.c:23-37 | an entry of the address space with the base, or none exactly if there is none |
| PhysMpu.Mpu.MpuMap | src/arch/armv8/armv8-r/mpu.c:109-149 | one free entry takes the region, its enable bit set by the kind of the address space; nothing else changes; past the last entry only if all are taken |
| PhysMpu.Mpu.MpuUnmap | src/arch/armv8/armv8-r/mpu.c:151-172 | the entry of the region is emptied and leaves the mask; nothing else changes |
| PhysMpu.Mpu.MpuUpdate | src/arch/armv8/armv8-r/mpu.c:174-184 | only the limit register of the region is rewritten; fails exactly if no entry has the base |
| Vmpus.Vmpu.constructor | src/core/mpu/mem.c:254-269 | a new address space maps nothing and has no entries |
| Vmpus.Vmpu.ListInsertOrdered | src/lib/inc/list.h:123-154 | the list holds exactly the VALID slots in order of base |
| Vmpus.Vmpu.MemVmpuFreeEntry | src/core/mpu/mem.c:90-97 | the slot is free and exactly it has left the list |
| Vmpus.Vmpu.MemVmpuAllocateEntry | src/core/mpu/mem.c:99-117 | the first free slot, without effect on any lookup; none only if no slot is free |
| Vmpus.Vmpu.MemVmpuFindOverlappingRegion | src/core/mpu/mem.c:495-513 | a VALID region that contains the range, or none exactly if none does |
| Vmpus.Vmpu.MemVmpuInsertRegion | src/core/mpu/mem.c:360-377 | slot, list and physical entry are filled in agreement; other address spaces keep their entries |
| Vmpus.Vmpu.MemVmpuUpdateRegion | src/core/mpu/mem.c:379-393 | never fails on a mirrored address space, and keeps the agreement |
| Vmpus.Vmpu.MemVmpuRemoveRegion | src/core/mpu/mem.c:395-412 | slot, list and physical entry go together, and the agreement stays |
| Vmpus.Vmpu.MemVmpuCoalesceContiguous | src/core/mpu/mem.c:515-556 | the merge loop ends when no two unlocked regions with equal flags touch; lookup, sections and locks are unchanged, regions are disjoint exactly if they were, and the mirror agrees |
| Vmpus.Vmpu.MemMap | src/core/mpu/mem.c:558-590 | adds exactly the region to the lookup and keeps lists and mirror; refused exactly if a region contains it; regions stay disjoint if and only if none cuts across it |
| Vmpus.Vmpu.MemUnmapRange | src/core/mpu/mem.c:592-652 | true exactly if the range is empty or inside one region, and then exactly the range leaves the lookup; false leaves everything as it was |
| Vmpus.Vmpu.MemTranslate | src/core/mpu/mem.c:702-710 | the identity on mapped addresses, nothing elsewhere |
| VmpuState.TouchNext | src/core/mpu/mem.c:523-541 | of disjoint regions only neighbours in the list touch, so looking at neighbours is enough |
| VmpuState.AddDisjoint | src/core/mpu/mem.c:558-590 | adding a region none contains keeps the regions disjoint if and only if none cuts across it |
| VmpuState.MergeAt | src/core/mpu/mem.c:530-551 | merging unlocked neighbours with equal flags changes no lookup, section or lock |
| VmpuState.MergeDisjoint | src/core/mpu/mem.c:530-551 | merged regions are disjoint from the others exactly if the two were |
| VmpuState.CutLookup | src/core/mpu/mem.c:615-642 | cutting a range out of a region and putting the pieces back removes exactly the range |
| VmpuState.MirrorLess | src/arch/armv8/armv8-r/mpu.c:151-172 | freeing an entry by its base keeps slots and entries in one-to-one agreement |
| VmpuState.SpanningExample | src/core/mpu/mem.c:592-652 | a mapped range that mem_unmap_range leaves alone |
| VmpuState.OverlapExample | src/core/mpu/inc/mem_prot/mem.h:42-45 | two overlapping regions that the range test lets pass |
| Vgics.Vgic.constructor | src/arch/armv8/vgicv3.c:338-425 | nothing is pending, active, in a register or spilled, and the registers are zero |
| VgicState.LiveOnce | src/arch/armv8/vgic.c:61-101 | no interrupt is live in two list registers, of one vCPU or of two |
| Vgics.Vgic.GetOwnership | src/arch/armv8/vgic.c:103-115 | succeeds exactly for the owner or an interrupt without one |
| Vgics.Vgic.YieldOwnership | src/arch/armv8/vgic.c:122-130 | only a shared, inactive interrupt outside the registers loses its owner |
| Vgics.Vgic.GichGetLr | src/arch/armv8/vgic.c:66-81 | finds the register that holds the interrupt |
| Vgics.Vgic.AddSpilled | src/arch/armv8/vgic.c:154-169 | the interrupt is on its list once, and nothing else changes |
| Vgics.Vgic.RemoveSpilled | src/arch/armv8/vgic.c:340-346 | exactly the interrupt leaves its list |
| Vgics.Vgic.RemoveLr | src/arch/armv8/vgic.c:300-337 | the interrupt leaves its register with its whole state |
| Vgics.Vgic.SpillLr | src/arch/armv8/vgic.c:348-360 | the register is empty, its interrupt spilled, and no pending or active bit is lost |
| Vgics.Vgic.WriteLr | src/arch/armv8/vgic.c:219-298 | the register shows the number, priority and kind of the interrupt, and its pending bit only while that may be delivered; the state split between register and memory joins to what it was; a shared interrupt that still claimed the register lets go of it and has no owner |
| Vgics.Vgic.VictimLr | src/arch/armv8/vgic.c:378-414 | the victim is strictly less urgent than the newcomer and the least urgent of its class; none is chosen only if none may be evicted |
| Vgics.Vgic.AddLr | src/arch/armv8/vgic.c:362-434 | an enabled or active interrupt gets a free register, else its victim's, else is spilled; states of all software interrupts are conserved and the invariant kept |
| Vgics.Vgic.Route | src/arch/armv8/vgic.c:171-217 | no deliverable interrupt is lost: it ends in a register, and in one of this vCPU if that is a target and has a free one, on a list, or is forwarded; nothing happens to others |
| Vgics.Vgic.SetField | src/arch/armv8/vgic.c:737-784 | a register write sets the enable bit, the pending bit, the active bit or the priority of one interrupt as asked, keeps its others, and conserves all other interrupts; the interrupt is then in a register, on a list or forwarded if it is active, or pending and enabled, and a register shows its priority and never a disabled one in software as pending; completed interrupts stay answered if and only if it is not one of them; without ownership nothing changes |
| Vgics.Vgic.RouteMsg | src/arch/armv8/vgic.c:1101-1112 | a forwarded interrupt is taken only if nobody owns it; all states are conserved |
| Vgics.Vgic.InjectHw | src/arch/armv8/vgic.c:1058-1067 | an interrupt that no register holds becomes pending in a register or on a list |
| Vgics.Vgic.HighestPrioSpilled | src/arch/armv8/vgic.c:1139-1165 | the most urgent spilled interrupt with one of the flags, or none exactly if there is none |
| Vgics.Vgic.RefillOne | src/arch/armv8/vgic.c:1167-1211 | one round: the most urgent eligible interrupt moves from its list to the first usable register, unless another vCPU owns it; all states are conserved |
| Vgics.Vgic.RefillLrs | src/arch/armv8/vgic.c:1167-1211 | the rounds end with no usable register or no eligible interrupt left, unless another vCPU owns the best candidate; all states are conserved |
| Vgics.Vgic.EoirHighestSpilledActive | src/arch/armv8/vgic.c:1213-1252 | the most urgent spilled active interrupt loses its active bit and keeps its pending bit, unless another vCPU owns it |
| Vgics.Vgic.HandleTrappedEoir | src/arch/armv8/vgic.c:1254-1278 | empties exactly the completed registers and conserves all states |
| Vgics.AnsweredExactly | src/arch/armv8/vgic.c:1254-1278 | answering a completed register keeps the invariants if and only if no register holds its interrupt live |
| Vgics.CompletedExample | src/arch/armv8/vgic.c:737-760 | a reachable shape of state in which a register write leaves a completed copy unanswered |
| CircularQueues.CircularQueue.constructor | src/lib/inc/circular_queue.h:52-61 | the queue is empty |
| CircularQueues.CircularQueue.Push | src/lib/inc/circular_queue.h:76-90 | appends the element exactly if there is room |
| CircularQueues.CircularQueue.Pop | src/lib/inc/circular_queue.h:95-111 | takes the oldest element exactly if there is one |
| CircularQueues.RingFull | src/lib/inc/circular_queue.h:63-71 | the test for a full ring and the -1 encoding of an empty one are exact |
| Barriers.EnterTarget | src/core/inc/cpu.h:116-130 | the count rounded up is the count at which everybody has reached the same barrier |
| Barriers.LeaveReached | src/core/inc/cpu.h:116-130 | once the count has reached a CPU's target every CPU has entered its barrier |
| Barriers.BarrierSafety | src/core/inc/cpu.h:108-130 | in every interleaving no CPU leaves its k-th barrier before all have entered theirs |
| Barriers.LeaveExactly | src/core/inc/cpu.h:116-130 | a waiting CPU may go on if and only if everyone has entered its barrier |
| Barriers.Traffic | src/core/cpu.c:46-56 | along every run a queue holds what its actions say: the messages that found room, less those taken, the oldest first |
| Barriers.HandledInOrder | src/core/cpu.c:46-72 | a CPU handles the messages that found room in its queue, each once and in the order they were sent |
| Barriers.MessagesCleared | src/core/inc/cpu.h:132-154 | a message that finds room before its sender enters a cpu_sync_and_clear_msgs has been handled, in its place, when any CPU returns from that call; stated on the actions of the run alone |
| Barriers.HandlesAll | src/core/inc/cpu.h:132-154 | between barriers, and while it waits for the others in the first barrier, a CPU can handle all its messages on its own |
| Barriers.NeverStuck | src/core/inc/cpu.h:108-154 | from every state of every run the CPUs can go on until all have left any number of barriers |
| Barriers.Delivered | src/core/cpu.c:46-72 | what a CPU sends to a queue with room, between barriers or from a handler, is handled in a continuation of the run |
| Remio.RemoteIo.constructor | src/core/remio.c:308-408 | no request, and every vCPU running |
| Remio.SlotLeft | src/core/objpool.c:16-30 | while a CPU runs a slot of the pool is free |
| Remio.RemoteIo.Alloc | src/core/objpool.c:16-30 | a free slot, or none exactly if all are taken |
| Remio.RemoteIo.Create | src/core/remio.c:581-608 | an access never fails for want of a slot: it becomes the newest pending request of its device and pauses its vCPU |
| Remio.RemoteIo.Ask | src/core/remio.c:431-465 | the oldest pending request goes to processing, with the fields of its access |
| Remio.RemoteIo.Complete | src/core/remio.c:474-579 | exactly a processing request of the device completes and sends its one message; the number -1 takes the oldest request off the list of the device and changes nothing else; the invariant is kept if and only if the call does not take a request off the list by the number -1 |
| Remio.RemoteIo.PostWork | src/core/remio.c:498-523 | always finds its request, delivers the value that was read to the register that asked, frees the slot, and resumes the vCPU, once for each request |
| Remio.LostRequest | src/core/remio.c:186-201 | a request taken off the list and left pending breaks the agreement of list and states |
| Smmu.MeetExact | src/arch/armv8/armv8-a/smmuv2.c:279-283 | the bit test is zero exactly if the two entries share a stream |
| Smmu.InsideExact | src/arch/armv8/armv8-a/smmuv2.c:286 | of entries that meet, one mask is inside the other exactly if all streams of the one are streams of the other |
| Smmu.ClashExact | src/arch/armv8/armv8-a/smmuv2.c:284-303 | the tests find exactly the conflicts: a shared stream between two devices, between two contexts, or without one entry having all streams of the other |
| Smmu.Contained | src/arch/armv8/armv8-a/smmuv2.c:283-287 | with nested masks, entries that meet are nested |
| Smmu.MaskOrder | src/arch/armv8/armv8-a/smmuv2.c:294-299 | of two nested masks the numerically greater one is the outer |
| Smmu.SmmuV2.AllocSme | src/arch/armv8/armv8-a/smmuv2.c:246-257 | a free entry, or none exactly if all are taken |
| Smmu.SmmuV2.CompatibleSmeExists | src/arch/armv8/armv8-a/smmuv2.c:272-309 | ERROR exactly on a conflict, as a statement about sets of streams; included only with nothing dropped; otherwise exactly the contained entries, all of the same context, are dropped |
| Smmu.SmmuV2.Add | src/arch/armv8/armv8-a/iommu.c:42-65 | match sets stay disjoint and the streams of the context grow by exactly the added set; nothing is written exactly if an entry includes the new one; the entry written is a group exactly if the new one is or the slot was marked as one; out of entries nothing changes |
| Smmu.StaleGroup | src/arch/armv8/armv8-a/smmuv2.c:272-326 | a second device is merged with a device exactly if the slot of the first had been marked as a group before |
| Smmu.StaleGroupCalls | src/arch/armv8/armv8-a/smmuv2.c:272-326 | five calls after which a device passes for a group |
| Vmm.Assignment | src/core/vmm.c:26-77 | in every interleaving CPU sets are disjoint, counts are right and within the configuration, and a VM with CPUs has exactly one master |
| Vmm.FirstFit | src/core/vmm.c:30-74 | at every moment of every run a CPU has the first VM that lists it and was not full; only a CPU that found all VMs full that list it has another, the first that was not full, and only behind the barrier; one without a VM has found all of them full |
| Vmm.AffinityServed | src/core/vmm.c:30-74 | a VM whose CPUs no other VM lists takes no other CPU if it lists as many as it wants, and gets all of them if it wants as many as it lists; with equal numbers it gets exactly its affinity |
| Vmm.EveryRunEnds | src/core/vmm.c:26-77 | a run has a bounded number of steps, and until everyone is through some CPU has one to take |
| Vmm.FullyPopulated | src/core/vmm.c:53-74 | if the VMs want no more CPUs than there are, all are full when everybody is through |
| VmIds.RankCounts | src/core/inc/vm.h:150-157 | counting bits below a position is the popcount of the masked map |
| VmIds.Vm.constructor | src/core/vm.c:28-33 | the VM before its CPUs number themselves |
| VmIds.Vm.VmCalcVcpuId | src/core/vm.c:35-44 | the loop computes the rank of the CPU |
| VmIds.Vm.VmVcpuInit | src/core/vm.c:46-59 | every CPU takes a vCPU of its own, in any order |
| VmIds.Vm.RankAgrees | src/core/inc/vm.h:150-157 | the loop and the popcount agree |
| VmIds.Vm.IdsInverse | src/core/inc/vm.h:139-157 | the two translations invert each other and fail exactly outside the VM |
| VmIds.Vm.VmTranslateToPcpuMask | src/core/vm.c:399-409 | the mask of the physical CPUs of the vCPUs |
| VmIds.Vm.VmTranslateToVcpuMask | src/core/vm.c:411-421 | the mask of the vCPUs of the physical CPUs |
| VmIds.Vm.MasksInverse | src/core/vm.c:399-421 | the two mask translations invert each other on masks of the VM |
| Digits.TopPowBounds | src/lib/printk.c:84-89 | the first loop finds the greatest power of the base not above the number |
| Digits.DigitsDecode | src/lib/printk.c:91-97 | the digits of the second loop decode to the number |
| Digits.NumeralDecodes | src/lib/printk.c:60-100 | a numeral decodes to its number and has no leading zero |
| Printk.IntDecodes | src/lib/printk.c:60-100 | what is printed for an integer decodes to the argument modulo 2^64 or 2^32, without a sign in the unsigned and with one in the signed range |
| Printk.Conversions | src/lib/printk.c:122-206 | what each conversion prints and consumes, after any flags, width and precision and with each length |
| Printk.VPrintD | src/lib/printk.c:60-100 | prints the numeral with its sign, and counts the same without a buffer |
| Printk.PrintSN | src/lib/printk.c:32-53 | prints and counts at most the given number of characters |
| Printk.PrintItem | src/lib/printk.c:122-206 | prints an item whole or not at all, and moves the cursors past it |
| Printk.Vsnprintk | src/lib/printk.c:113-210 | what it prints followed by the rendering from where it stopped is the rendering; it stops only where the next item does not fit, and makes progress exactly if the first one fits |
| Printk.ItemFits | src/lib/printk.c:122-206 | twenty characters hold any item |
| Printk.ConsolePrintk | src/core/console.c:57-71 | for any buffer of at least 20 characters the chunks add up to the one rendering with strings cut to the buffer, and the loop ends |
| Printk.ConsoleWrite | src/core/console.c:42-52 | the characters in order, with a carriage return before each line feed |
| Printk.StuckExample | src/lib/printk.c:198-202 | a number that never fits a buffer of one character |

## Left out

- AddrSpaces.AddrSpace.MemUnmap: ranges with holes are not modelled; the walk then steps by whole blocks from wherever it stands.
- AddrSpaces.AddrSpace.MemAllocVpage: a search that runs off the end of the root table, where the source wraps to its first entry, ends in Astray.
- AddrSpaces.AddrSpace.constructor: the root table is the one as_init clears; the first one of the hypervisor comes from the boot code.
- AddrSpaces.AddrSpace.AsMapPhysicalIdentity: physical memory fits the root table, as the source takes for granted.
- AddrSpaces.AddrSpace.MemTranslate: virtual addresses are offsets into the root table, so those of the hypervisor, which are above BAO_VAS_BASE, stand for their value modulo the size of the address space, as the masked index of the source has it.
- AddrSpaces.AddrSpace.MemMap: frames come from the pools as any run that is free, as `PagePools` proves of them; the branch with some, not all, colours is `MemMapColored`.
- AddrSpaces.AddrSpace.MemMapColored: takes as many frames as pages, as both callers pass; what has been written when it fails is not stated.
- AddrSpaces.AddrSpace.MapUnmap: frees without colours; the coloured case is `PagePools.PagePool.FreePpages`.
- AddrSpaces.AddrSpace.MemInflatePt: for tables of three levels.
- PagePools.PagePool.FreePpages: the count of free pages is not restored, as in the source, so the invariant on it is for runs without frees.
- Bitmap.BitmapCountConsecutive: at the end of the map the source reads the next granule; a readable one is required, and the map is a multiple of 32 bits as the pools' are.
- Bitmap.BitmapFindConsec: as above, for maps of a multiple of 32 bits; the scans look at whole granules.
- PagePools.PagePool.constructor: for the same reason a pool has a multiple of 32 pages and one more granule that can be read.
- Colors.PpNextClr: a colour map is the set of its one bits.
- Vmpus.Vmpu.MemMap: addresses do not wrap, so the saturation in range_in_range never acts, and bases are page-aligned as the limit and base registers need; the source checks the size only.
- Vmpus.Vmpu.MemMap: a section is one of those callers use; SEC_HYP_ANY is not mapped.
- Vmpus.Vmpu.MemVmpuUpdateRegion: as the merge and the split of regions use it; updates that other cores ask for are broadcasts.
- Vmpus.Vmpu.MemUnmapRange: for page-aligned ranges.
- Vmpus.Vmpu.MemUnmapRange: what is left after an ERROR for want of slots is not stated beyond the shape of the lists.
- Vgics.Vgic.RefillLrs: while another vCPU owns the best candidate the source tries again; here the loop ends and says so.
- Vgics.Vgic.RefillOne: picking a candidate and locking it are one step, so the second look at it is not modelled.
- Vgics.Vgic.InjectHw: the pending bit of the hardware itself and of the distributor is not modelled, so states of hardware interrupts are not claimed to be conserved.
- Vgics.Vgic.Route: the routing registers are parameters, and a message is a parameter that says whether it was sent.
- Vgics.Vgic.SetField: the routing decision is a parameter, so the contract holds whatever is decided; writes to the real distributor are left out.
- Vgics.Vgic.HandleTrappedEoir: from states in which every completed register is still pointed back at; `AnsweredExactly` is the step from any state.
- Vgics.Vgic.GuestAck and GuestEoi are the steps of the guest, which acknowledges and completes interrupts in hardware; they keep the invariants. The maintenance interrupt bits of ICH_HCR are not modelled.
- Barriers.BarrierSafety: the counter does not wrap.
- Barriers.NeverStuck: some continuation gets everyone on; that every fair one does is not claimed.
- Barriers.MessagesCleared: all participants run the same sequence of barriers, outside message handlers; a message with an unknown handler counts as handled.
- Remio.RemoteIo.Create: the notification to the backend is not modelled, nor the wait for the device to be ready.
- Remio.RemoteIo.PostWork: no message is dropped on the way; numbers and bind keys fit eight bits.
- Smmu.SmmuV2.Add: the global mask fits fifteen bits; registers, context banks and their allocation are not modelled.
- Vmm.Assignment: a step is a section under the lock of one VM; installing the VM is not modelled.
- Printk.Vsnprintk: reading an argument that is missing or of another kind, undefined in C, yields zero or an empty string.
- PteEncoding.PageRoundTrip: without the Svpbmt extension, and for RV64.
- Recolouring of mapped memory and of the hypervisor image, and mem_map_cpy.
- Broadcasts of vMPU regions to other cores.
- The recursive page tables of Armv8-A and its address translation instructions.
- GICv2, the tables that decode distributor registers, and writes to the real distributor.
- TLB and cache maintenance, fences, spinlocks and weak memory: locks are atomic and memory is sequentially consistent.
- Smaller interrupt controllers (PLIC, APLIC, rh850, TriCore), PSCI, SBI, IPC and VM images.
- Configuration checks of remio_init, the UART and the platform descriptions.
