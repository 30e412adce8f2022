# Verification of the capability kernel's core

This project models the self-contained state machines and data structures of the
kernel and proves what they promise.  It is written in Dafny 4.11; `dafny verify
dfyconfig.toml` checks all of it.

The imperative parts of the source are classes and methods with the source's own loops,
proved against specification functions; the promises are lemmas about those functions
and about whole runs of them.  The main promises are stated in the hardware's, the disk's
or the caller's own terms: words at numbered places, single bits, bytes, core numbers and
pixels, without the functions that compute them.

| file | what it models |
|---|---|
| `PageTables.dfy` | 4-level page tables over a memory of 512-word pages, with a pool of fresh pages: the walk of section 4.5 of the Intel SDM vol. 3A, 4K and 2MB mappings, the invariant that the tables form trees that share no page, and how many pages building them takes |
| `Iommu.dfy` | the VT-d driver: root and context tables, domains, assigning and revoking a device, and the hardware's translation cache tagged by domain |
| `Starvation.dfy` | what an assignment leaves behind when the page allocator runs dry on the way |
| `AuthorityGraph.dfy`, `Authority.dfy` | the grant table and its projections, and the layer that drives the IOMMU from it |
| `Bootstrap.dfy` | the boot loader's temporary page tables: 2MB identity blocks and 4K kernel pages from one pool |
| `Heap.dfy` | the kernel heap: an address-sorted, coalescing free list kept in the free memory itself |
| `Bitmap.dfy`, `Pmm.dfy` | the physical page allocator: two bitmaps and a scan hint |
| `Capability.dfy` | objects with generations, capability tables, derivation and revocation, with derive's check and push as separate steps of concurrent threads |
| `KernelLock.dfy` | the recursive cross-core lock, one atomic access per step |
| `IpcRing.dfy`, `Rendezvous.dfy` | the 32-slot message ring and the blocking rendezvous, any number of threads, one load or store per step |
| `DirBlock.dfy`, `DirFormat.dfy`, `Path.dfy` | ext2 directory blocks as bytes, what the operations on them mean byte by byte, and path resolution through them |
| `Geometry.dfy`, `Renderer.dfy`, `Damage.dfy` | rectangles as pixel sets, occlusion, clipped blitting and window composition, and damage coalescing |
| `Sha256.dfy` | streaming SHA-256 against the padded one-shot definition of FIPS 180-4 |
| `Certificate.dfy` | the checksum that binds an impossibility certificate to a grant table |
| `Arith.dfy`, `Options.dfy` | machine words and division facts, `Option` |

Where a promise does not hold of the code on all inputs, the code is modelled as it is,
a lemma shows an input on which it fails, and another says exactly when it holds:

- A device grant whose base is not page-aligned gives the hardware a whole first page of
  which the graph knows only part (`UnalignedLeaks`), and one of more than 32 pages is cut
  to 32 in the hardware while the graph grants all of them (`LongGrantIsCut`).  For a first
  grant the two agree exactly when the base is aligned and at most 32 pages are asked for
  (`ExactIffAligned`).
- Assigning a device counts the pages of a range from its length alone, so the tail of a
  range with an unaligned base can be missed (`UnalignedTailIsMissed`); all its bytes are
  mapped exactly when the offset in the first page and the length together fit the counted
  pages (`RangeMappedIff`).
- `assign_device` does not look whether a page it asks for was there: with one page left
  a device given one page reaches its own tables (`StarvedDeviceReachesTables`).  It
  succeeds exactly when the allocator has a page for the domain's root, for every table
  under it and for a missing context table, and a domain number is left
  (`AssignSucceedsIff`).  With fewer, and page 0 and the pages of the ranges blank, no
  reading of the memory makes the result a good state (`AssignSoundIff`, `GrantSoundIff`);
  where they are not blank a stray write can hide the damage (`StrayWriteHidesIt`).
- Device and function numbers are only masked when a context entry is picked, so a grant
  to a number PCI cannot address is programmed for another device; the law holds of that
  device exactly when the graph had already given it every page programmed
  (`EntriesCollide`, `AliasBreaks`, `AliasedDevice`).
- Revoking a grant clears the device's whole entry, so graph and hardware agree afterwards
  exactly when all grants of the device that have a byte started at the revoked base
  (`RevokeExactIff`).
- The boot loader's kernel mapping shifts a kernel whose link and load address differ by
  part of a page (`MisalignedKernelIsShifted`); every byte is found at its link address
  exactly when the difference is a whole number of pages (`KernelMappedIff`).  The one
  caller passes such a difference.
- The kernel lock excludes exactly when the cores' numbers are pairwise different and at
  most one of them is 31 or more (`SharedIndexBreaks`, `ExcludesIffDistinct`).
- The message ring keeps the order of the messages exactly with one producer and one
  consumer, or with no producer or no consumer at all (`TwoProducersBreak`, `TwoConsumersBreak`,
  `InOrderIffOneToOne`).
- The rendezvous keeps its promise exactly with one sender and one receiver
  (`TwoSendersBreak`, `TwoReceiversBreak`, `HonestIffOneToOne`).
- `alloc` of the heap compares addresses that may have wrapped around 2^64, and a request
  that wraps seems to fit anywhere: one of a terabyte is served from a single page
  (`HugeRequestBreaks`).  The heap stays sound exactly when neither the rounding nor the
  end of the allocation nor the growth wraps (`AllocSoundIff`, `AlignUpWraps`).
- A page released by someone who does not hold it is accepted (`StrayReleaseIsAccepted`);
  every held page stays used, and `used_pages` their number, exactly while no such release
  is made (`OwnedIffFair`, `AlwaysOwnedIffFair`).
- `free_pages` is right after boot exactly when no two conventional descriptors overlap
  (`OverlapIsMiscounted`, `BootCountExactIff`); an empty range reserves a page exactly when
  it starts inside one (`RoundingExactIff`).
- `remove_dir_entry` shows a record that was hidden before exactly when the record in
  front had a name that overran it and, grown, has room for it (`OverrunRecordAppears`,
  `RemoveDeletes`); in the blocks the driver itself writes that never happens
  (`RemoveTiles`).
- `compute_visible_rects` drops fragments in a stage that makes more than 32, for instance
  in the eleventh of eleven pixels in a column (`EleventhSpotDrops`).  A stage is exact if
  and only if it makes at most 32 (`StageExactIffRoomy`), the whole if and only if no
  visible pixel is in a dropped fragment (`VisibleExactIff`).
- The composing loop reaches its end exactly with at most 16 windows; with more it stops at
  the seventeenth (`Compose`).
- `add_rect` loses dirty pixels exactly when one of its unions spans 2^31 pixels or more
  (`AddExactIff`, `WideUnionIsEmpty`).
- Revoking a grant and granting the same again can put it before another one
  (`RegrantReorders`); the live grants come back in their order exactly when no live grant
  lies between the first empty slot and the old one (`RegrantSameIff`), and then every
  certificate is valid again (`RegrantRevalidates`).

In three places the comments of the source say something else than its code; the code is
followed.  `heap.rs` says at its top that freed blocks are not coalesced; they are.
`impossibility_certificate.rs` says that any change of a live grant changes the checksum;
that is so for one field and not claimed here for several at once.  `geometry.rs` asks for
an output of at least 32 rectangles; its type is exactly 32.

## Model

| member | source | states |
|---|---|---|
| `PageTables.IndicesAreThePage` | boot_rs/src/bootstrap_paging.rs:60-71 | the three or four table indices determine the 2MB region or the 4K page of a 48-bit address, and are determined by it: the address is 2^39, 2^30, 2^21 and 2^12 times them plus its offset |
| `PageTables.TableHasOneParent` | kernel_rs/src/iommu.rs:472-499 | under the tree invariant every table page below a root hangs at exactly one slot of one table: two slots that lead to the same page are the same slot of the same page, and the page is the table of that slot's path |
| `PageTables.ThreeIsEnough` | kernel_rs/src/iommu.rs:472-499 | a mapping never needs more than three fresh pages, or two for a 2MB page |
| `PageTables.PdFitsIff` | boot_rs/src/bootstrap_paging.rs:73-93 | the way to the page directory can be built if and only if there is a fresh page for each of its tables that is missing |
| `PageTables.PtFitsIff` | kernel_rs/src/iommu.rs:472-499 | the way to the page table can be built if and only if there is a fresh page for each of its tables that is missing |
| `PageTables.EnsureKeeps` | boot_rs/src/bootstrap_paging.rs:73-87 | creating a missing table keeps the tree invariant, every translation under every root and every other table entry, and takes at most one page |
| `PageTables.Map4KExact` | kernel_rs/src/iommu.rs:472-499 | mapping a 4K page changes the translation of exactly that page, under that root only, keeps the tree invariant and with it that all entries are writable, takes exactly one fresh page for each table that was missing and writes no page that is neither in use nor fresh |
| `PageTables.Map2MExact` | boot_rs/src/bootstrap_paging.rs:89-93 | the same for a 2MB page, in tables that hold no 4K table yet |
| `PageTables.TranslatedIsWritable` | boot_rs/src/bootstrap_paging.rs:73-113 | under the tree invariant every address that translates can be written, by the writable bit of every entry on the way, and none can be reached from user mode |
| `Iommu.MapAllExact` | kernel_rs/src/iommu.rs:206-292 | mapping a list of addresses under an empty root, with a fresh page for each table they need, translates exactly the pages of those addresses, each to itself, and takes exactly those pages; every other root keeps its translations |
| `Iommu.AssignBuilds` | kernel_rs/src/iommu.rs:206-292 | the same for the whole assignment and any addresses the loops visit: the device's entry leads to the new domain, other devices' entries and translations are as before, and every page put to use was a fresh one |
| `Iommu.ThreeEachIsEnough` | kernel_rs/src/iommu.rs:206-292 | three fresh pages for each page mapped and two more are always enough |
| `Iommu.SuccessNeedsPages` | kernel_rs/src/iommu.rs:206-292 | no state in which the assignment has succeeded, with fresh pages as its tables, makes do with fewer pages or without a domain number |
| `Iommu.AssignSucceedsIff` | kernel_rs/src/iommu.rs:206-292 | in any memory the assignment succeeds if and only if the allocator has a page for the root, for every table under it and for a missing context table, and the domain counter does not wrap |
| `Starvation.MapAllStarved` | kernel_rs/src/iommu.rs:206-292 | if the fresh pages do not suffice for the addresses, the loops end with a table slot that leads to page 0, which no later write repairs |
| `Starvation.AssignSoundIff` | kernel_rs/src/iommu.rs:206-292 | where page 0 and the pages of the ranges are blank, some reading of the memory after the assignment is a good state if and only if the pages and the domain number were there |
| `Starvation.StrayWriteHidesIt` | kernel_rs/src/iommu.rs:206-292 | a family of states with words on page 0 in which pages are missing, the last write hides the spoilt slot, and the result is a good state without the assignment having succeeded |
| `Starvation.StarvedDeviceReachesTables` | kernel_rs/src/iommu.rs:206-292 | a state with one fresh page, in which a device given the page at 0x5000 reaches its own tables through address 0 |
| `Iommu.LoopsCoverRanges` | kernel_rs/src/iommu.rs:206-292 | the two loops visit exactly the pages counted from each range's base, for ranges below 2^48 |
| `Iommu.AssignExact` | kernel_rs/src/iommu.rs:206-292 | if the allocator has a page for the root, for each table needed and for a missing context table, assigning a device writes the new root and domain into words 2(8d + f) and 2(8d + f) + 1 of the bus's context page for function f of device d, and the new domain translates to itself, and lets the device write, every byte of the pages each range counts, and nothing else; for page-aligned ranges these are exactly the bytes from the base up to the length rounded up to pages; every other device's entry and everything it translates is unchanged; the tables stay trees |
| `Iommu.AlignedRangeIsExact` | kernel_rs/src/iommu.rs:206-292 | for an aligned range the pages counted are exactly those that hold a byte of it |
| `Iommu.RangeMappedIff` | kernel_rs/src/iommu.rs:206-292 | every byte of a range is on a counted page if and only if the offset of its base in the page plus its length is at most the counted pages' size |
| `Iommu.UnalignedTailIsMissed` | kernel_rs/src/iommu.rs:206-292 | after assigning the range of length 0x1000 at 0x800 its byte 0x1000 is not translated |
| `Iommu.RevokeExact` | kernel_rs/src/iommu.rs:332-396 | after a revocation the two words at the device's place in the context page are 0 and it has no entry, no cached translation of its domain is left, the result says whether there was an entry, and every other device is as before |
| `Iommu.CacheAddsNothing` | kernel_rs/src/iommu.rs:332-396 | in a good state what a device reaches, through tables or cache, is exactly what its tables translate |
| `Iommu.DmaGood` | kernel_rs/src/iommu.rs:206-292 | a DMA that fills the cache keeps the state good |
| `Iommu.EvictGood` | kernel_rs/src/iommu.rs:332-396 | dropping any cached translations keeps the state good |
| `Iommu.EntriesCollide` | kernel_rs/src/iommu.rs:206-292 | the entry the driver picks for function f of device d is number 8d + f for the numbers PCI can address, which never share one; two device numbers share an entry exactly when they agree modulo 32 devices and 8 functions |
| `Iommu.InitGood` | kernel_rs/src/iommu.rs:138-200 | after initialisation the state is good and no device reaches anything |
| `Iommu.Unit.AllocPage` | kernel_rs/src/iommu.rs:472-499 | takes the next fresh page and zeroes it, or fails with 0 |
| `Iommu.Unit.EnsureTable` | kernel_rs/src/iommu.rs:472-499 | the table below a slot, created if missing |
| `Iommu.Unit.MapPage` | kernel_rs/src/iommu.rs:472-499 | the driver's table walk is the 4K mapping step |
| `Iommu.Unit.MapRanges` | kernel_rs/src/iommu.rs:206-292 | the two nested loops map exactly the listed pages in order |
| `Iommu.Unit.MapRange` | kernel_rs/src/iommu.rs:206-292 | the inner loop over one range |
| `Iommu.Unit.HookBus` | kernel_rs/src/iommu.rs:206-292 | the bus's context table, created and hooked into the root table if missing |
| `Iommu.Unit.AssignDevice` | kernel_rs/src/iommu.rs:206-292 | the code computes the assignment the theorems are about and returns the new domain id |
| `Iommu.Unit.RevokeDevice` | kernel_rs/src/iommu.rs:332-396 | the code computes the revocation the theorems are about |
| `Iommu.Unit.ContextEntryPresent` | kernel_rs/src/iommu.rs:404-414 | in a good state the driver's own view of an entry agrees with what the hardware finds from the root table |
| `Iommu.Unit.constructor` | kernel_rs/src/iommu.rs:138-200 | a unit starts in the initial state |
| `AuthorityGraph.GrantReach` | kernel_common/src/authority_graph.rs:88-101 | a grant adds exactly its own range to its own principal, if a slot is free |
| `AuthorityGraph.RevokeReach` | kernel_common/src/authority_graph.rs:103-114 | a revocation takes away exactly the principal's grants with that base |
| `AuthorityGraph.GrantIsTheBytes` | kernel_common/src/authority_graph.rs:80-101 | after a grant its principal reaches what it reached before and every page, counted from the base, that the range begins: every byte of the range, the rest of its last page, and nothing more |
| `AuthorityGraph.CoversRangeIff` | kernel_common/src/authority_graph.rs:185-200 | a grant covers all bytes of its range if and only if the range is empty or its pages end below 2^64 |
| `AuthorityGraph.ProjectedIff` | kernel_common/src/authority_graph.rs:155-180 | an entry is in a principal's projection if and only if it is for a page of one of its grants and has that grant's writable and executable flags |
| `AuthorityGraph.CountIsSize` | kernel_common/src/authority_graph.rs:103-114 | the count a revocation returns is the number of matching slots |
| `AuthorityGraph.ProjectionIsReach` | kernel_common/src/authority_graph.rs:155-200 | for page-aligned grants an address is reachable exactly when the projection holds its page |
| `AuthorityGraph.FirstFree` | kernel_common/src/authority_graph.rs:88-101 | the first empty slot, which exists exactly when the table has room |
| `AuthorityGraph.GrantInto` | kernel_common/src/authority_graph.rs:88-101 | the first empty slot takes the grant as it is and no other slot changes; false, and no change, exactly when there is none |
| `AuthorityGraph.RevokeFrom` | kernel_common/src/authority_graph.rs:103-114 | every slot with a grant of that principal and base is emptied, every other slot is as before, and the number of them is returned |
| `AuthorityGraph.ProjectInto` | kernel_common/src/authority_graph.rs:155-180 | the output holds the projection, cut to its length, and the rest of it is untouched |
| `AuthorityGraph.ProjectGrant` | kernel_common/src/authority_graph.rs:155-180 | one grant's pages are appended as far as they fit |
| `AuthorityGraph.Reachable` | kernel_common/src/authority_graph.rs:185-200 | the scan decides reachability |
| `Authority.GrantKeeps` | kernel_rs/src/authority.rs:56-94 | a page-aligned device grant for which the pages and a domain number are there keeps the law that hardware reach is within graph reach and no other device changes; if at most 32 pages are projected the two are equal |
| `Authority.GrantProgramsIff` | kernel_rs/src/authority.rs:56-94 | the hardware is programmed if and only if the graph has a free slot and the device then has a grant of at least one byte |
| `Authority.PlentyIsReady` | kernel_rs/src/authority.rs:56-94 | 98 fresh pages and a free domain number are enough for any grant |
| `Authority.GrantSoundIff` | kernel_rs/src/authority.rs:56-94 | where page 0 and the pages to be programmed are blank, the layer is in order after a grant if and only if the pages and the domain number it needs were there |
| `Authority.RevokeKeeps` | kernel_rs/src/authority.rs:102-112 | a revocation leaves the device no reach at all, changes no other device, and returns true exactly when both a grant and a context entry were there |
| `Authority.RevokeExactIff` | kernel_rs/src/authority.rs:102-112 | after a revocation graph and hardware agree on the device if and only if the graph grants it nothing any more, which is if and only if every grant of it that had a byte started at the revoked base |
| `Authority.RunKeeps` | kernel_rs/src/authority.rs:56-112 | every run of such grants, of revocations, process grants, DMA and cache evictions keeps the law |
| `Authority.SiliconStaysWithinSoftware` | kernel_rs/src/authority.rs:56-112 | over every run from start-up no device reaches an address the graph does not grant it, and whatever it reaches is mapped to itself |
| `Authority.ExactIffAligned` | kernel_rs/src/authority.rs:56-94 | for a device's first grant, hardware and graph agree if and only if the base is a multiple of 4096 and the length at most 32 times 4096 |
| `Authority.UnalignedLeaks` | kernel_rs/src/authority.rs:56-94 | with an unaligned base the device reaches the start of the first page, which the graph does not grant |
| `Authority.LongGrantIsCut` | kernel_rs/src/authority.rs:56-94 | with an aligned base and more than 32 pages the graph grants the 33rd page and the device does not reach it |
| `Authority.AliasReach` | kernel_rs/src/authority.rs:56-94 | a grant to a number PCI cannot address gives the device it aliases exactly the pages programmed, and in the graph nothing |
| `Authority.AliasedDevice` | kernel_rs/src/authority.rs:56-94 | after a grant to a number PCI cannot address, the device it aliases reaches every page programmed, and the law holds of it if and only if the graph had already given it all of them |
| `Authority.AliasBreaks` | kernel_rs/src/authority.rs:56-94 | if the graph gives the aliased device nothing, the law fails for it after every such grant that programs a page |
| `Authority.Layer.GrantDevice` | kernel_rs/src/authority.rs:56-94 | the code is the grant the theorems are about, and records a writable, not executable grant of exactly that range in the first empty slot |
| `Authority.Layer.RevokeDevice` | kernel_rs/src/authority.rs:102-112 | the code is the revocation the theorems are about |
| `Authority.Layer.constructor` | kernel_rs/src/authority.rs:56-112 | the layer over a grant table of 32 empty slots and a unit |
| `Authority.ToRanges` | kernel_rs/src/authority.rs:56-94 | each projected entry becomes a range of one page |
| `Bootstrap.BuildExact` | boot_rs/src/bootstrap_paging.rs:122-170 | a completed build leaves one tree of pool pages that maps the memory map's 2MB blocks to themselves and the pages at the kernel's link addresses into the pages it was loaded to, and nothing else; everything that translates can be written, by the kernel only |
| `Bootstrap.MemoryIsIdentity` | boot_rs/src/bootstrap_paging.rs:122-170 | every byte of every descriptor translates to itself and can be written |
| `Bootstrap.AllBlocksAreShared` | boot_rs/src/bootstrap_paging.rs:122-170 | an address is in a mapped block if and only if its block holds a byte of some descriptor |
| `Bootstrap.KernelIsMapped` | boot_rs/src/bootstrap_paging.rs:122-170 | every address on the link page of a kernel page translates into that kernel page, at the address's own offset, and can be written |
| `Bootstrap.KernelByteIsMapped` | boot_rs/src/bootstrap_paging.rs:157-167 | if link and load address differ by a whole number of pages, each byte of the kernel is found, and can be written, as far from the link address as it lies from the load address |
| `Bootstrap.KernelMappedIff` | boot_rs/src/bootstrap_paging.rs:157-167 | every byte of the kernel is found at its link address if and only if link and load address differ by a whole number of pages, or the kernel is empty |
| `Bootstrap.MisalignedKernelIsShifted` | boot_rs/src/bootstrap_paging.rs:157-167 | a kernel linked half a page off, whose first byte's link address leads half a page further on |
| `Bootstrap.NothingElseIsMapped` | boot_rs/src/bootstrap_paging.rs:122-170 | whatever translates is either in a 2MB block that holds a byte of some descriptor and translates to itself, or is at the link address of a page between the start and the end of the kernel and translates into that page |
| `Bootstrap.NeverThroughABlock` | boot_rs/src/bootstrap_paging.rs:97-113 | no 4K walk ever goes through a 2MB entry as if it were a table |
| `Bootstrap.PoolIsFine` | boot_rs/src/bootstrap_paging.rs:41-57 | a page-aligned pool hands out each of its pages once |
| `Bootstrap.PoolSuffices` | boot_rs/src/bootstrap_paging.rs:122-170 | a pool with one page for the root, two for each 2MB block and three for each kernel page always lets the build complete |
| `Bootstrap.CompletesIff` | boot_rs/src/bootstrap_paging.rs:122-170 | the build completes if and only if the pool has a page for the root and one for each distinct table under it |
| `Bootstrap.Loader.Next` | boot_rs/src/bootstrap_paging.rs:41-57 | the next pool page, zeroed, or a halt when the pool is empty |
| `Bootstrap.Loader.EnsureTable` | boot_rs/src/bootstrap_paging.rs:73-87 | the table below a slot, created if missing, or a halt |
| `Bootstrap.Loader.WalkToPd` | boot_rs/src/bootstrap_paging.rs:73-87 | the page directory for an address, created on the way |
| `Bootstrap.Loader.MapBig` | boot_rs/src/bootstrap_paging.rs:89-93 | the 2MB mapping step, which completes exactly when the pool suffices |
| `Bootstrap.Loader.MapSmall` | boot_rs/src/bootstrap_paging.rs:97-113 | the 4K mapping step, which completes exactly when the pool suffices |
| `Bootstrap.Loader.MapDesc` | boot_rs/src/bootstrap_paging.rs:122-170 | the loop over one descriptor's blocks |
| `Bootstrap.Loader.MapKernelPages` | boot_rs/src/bootstrap_paging.rs:122-170 | the loop over the kernel's pages |
| `Bootstrap.Loader.Build` | boot_rs/src/bootstrap_paging.rs:122-170 | the code completes exactly when the specification does, with the same tables |
| `Bootstrap.Loader.constructor` | boot_rs/src/bootstrap_paging.rs:33-39 | a loader over a pool |
| `Heap.InsertTotal` | kernel_rs/src/heap.rs:68-113 | giving back a region adds its size to the free bytes, also when it merges with a neighbour or both |
| `Heap.InsertSorted` | kernel_rs/src/heap.rs:68-113 | the list stays strictly sorted with a gap between any two blocks |
| `Heap.InsertFree` | kernel_rs/src/heap.rs:68-113 | exactly the bytes of the region become free |
| `Heap.AlignUpWraps` | kernel_rs/src/heap.rs:115-117 | `align_up` is the next multiple exactly when the sum stays below 2^64; else it is 0 |
| `Heap.CarveKeeps` | kernel_rs/src/heap.rs:123-152 | serving from a block keeps the list sorted, takes the allocation and the lost slivers from it, frees nothing new and touches no other block |
| `Heap.GrowthFits` | kernel_rs/src/heap.rs:174-194 | after a growth of the computed number of pages that stays below 2^64 the request fits without wrapping, for every size and alignment, also when the new pages joined the last block |
| `Heap.AllocKeeps` | kernel_rs/src/heap.rs:174-194 | an allocation in which no address wraps keeps the invariant, is aligned and disjoint from all live ones, loses at most 30 bytes, and is null exactly when nothing fits and the growth is refused |
| `Heap.FirstFitIsLowest` | kernel_rs/src/heap.rs:123-152 | the rounded address in the first block that fits is the lowest aligned address at which the request lies inside one free block; nothing fits exactly when there is no such address |
| `Heap.AllocServesLowest` | kernel_rs/src/heap.rs:174-194 | if there is such an address the lowest is handed out and the heap does not grow; if not, the answer is null when the pages cannot be had, and else the lowest address in the grown heap |
| `Heap.GrowthIsLeast` | kernel_rs/src/heap.rs:183-185 | the growth is 256 pages, or the least number of pages that holds size, alignment and one page more |
| `Heap.AllocServes` | kernel_rs/src/heap.rs:174-194 | an allocation leaves a sound heap if and only if no address wraps, and then a layout that is served gets at least 16 bytes and its own size, aligned to at least 8 and its own alignment |
| `Heap.RoomIsSafe` | kernel_rs/src/heap.rs:174-194 | a request whose growth stays below 2^64 never wraps |
| `Heap.WrapSeemsToFit` | kernel_rs/src/heap.rs:123-152 | if an address wraps the comparison finds that the block fits |
| `Heap.WrapBreaks` | kernel_rs/src/heap.rs:123-152 | serving such a request leaves no heap: wrapped regions are freed outside the window, or the block handed out ends above it |
| `Heap.AllocSoundIff` | kernel_rs/src/heap.rs:174-194 | for every layout Rust admits an allocation keeps the invariant if and only if neither rounding, end nor growth wraps |
| `Heap.HugeRequestBreaks` | kernel_rs/src/heap.rs:123-152 | a heap of one free page on which a request of one terabyte succeeds and breaks the invariant |
| `Heap.DeallocKeeps` | kernel_rs/src/heap.rs:196-202 | a deallocation frees exactly the block's bytes |
| `Heap.RunKeeps` | kernel_rs/src/heap.rs:158-202 | every run of allocations, deallocations and growths keeps the invariant and loses at most 30 bytes per allocation |
| `Heap.HeapConserves` | kernel_rs/src/heap.rs:158-202 | over every run from the empty heap: sorted free list of blocks of at least 16 bytes, disjoint live blocks, each still aligned as asked for, none of them free, and free plus live plus lost bytes equal the heap's size above 0xFFFFFF0000000000 |
| `Heap.LockedHeap.Locate` | kernel_rs/src/heap.rs:68-113 | the search finds the neighbours of an address in the linked list |
| `Heap.LockedHeap.AddFreeRegion` | kernel_rs/src/heap.rs:68-113 | rewiring the nodes in place inserts and coalesces the region; a region below the node size is dropped |
| `Heap.LockedHeap.HeadRegion` | kernel_rs/src/heap.rs:68-113 | a region below the first block becomes the head, joined with that block if they touch |
| `Heap.LockedHeap.JoinLeft` | kernel_rs/src/heap.rs:68-113 | a region that starts where a block ends is added to it, and the block after too if they touch |
| `Heap.LockedHeap.InsertAfter` | kernel_rs/src/heap.rs:68-113 | any other region becomes a node after its predecessor, joined with the block after it if they touch |
| `Heap.LockedHeap.FindAndRemove` | kernel_rs/src/heap.rs:123-152 | serves the lowest-address block that seems to fit, at the rounded address, and gives the pieces around it back, for every layout Rust admits, also when an address wraps |
| `Heap.LockedHeap.Unlink` | kernel_rs/src/heap.rs:123-152 | takes one node out of the linked list |
| `Heap.LockedHeap.Restore` | kernel_rs/src/heap.rs:123-152 | gives the two leftover pieces back, by their wrapped differences |
| `Heap.LockedHeap.GrowBy` | kernel_rs/src/heap.rs:158-170 | grows at the top if the pages can be had, else changes nothing |
| `Heap.LockedHeap.Allocate` | kernel_rs/src/heap.rs:174-194 | the code, with its clamped size and alignment and its one retry, is the specified allocation, also when the growth passes the top of the address space, leaves a sound heap if and only if no address wrapped, and then the block it adds has the layout's size and alignment, at least 16 and 8 |
| `Heap.LockedHeap.Deallocate` | kernel_rs/src/heap.rs:196-202 | the code is the specified deallocation |
| `Heap.LockedHeap.constructor` | kernel_rs/src/heap.rs:61-66 | the heap starts empty |
| `Capability.ObjectTable.CreateObject` | kernel_rs/src/capability.rs:226-244 | appends a live object of generation 1 and returns its index |
| `Capability.ObjectTable.Revoke` | kernel_rs/src/capability.rs:276-286 | raises the object's generation, kills it if asked to, and ignores unknown objects |
| `Capability.CapabilityTable.Grant` | kernel_rs/src/capability.rs:304-323 | appends a capability with the object's present generation |
| `Capability.CapabilityTable.Resolve` | kernel_rs/src/capability.rs:352-388 | succeeds exactly when the slot holds a capability of the present generation of a live object and every single right asked for is among its rights; each other case has its own error |
| `Capability.CapabilityTable.Derive` | kernel_rs/src/capability.rs:400-436 | succeeds exactly when the source resolves, has right 4 and every single right requested; then the capability to the same object with the requested rights is appended to the target, which may be the same table; else each error has its own case and nothing changes |
| `Capability.ContainsIsCovers` | kernel_rs/src/capability.rs:83-85 | the mask comparison holds exactly when every right of the one is a right of the other, taken one by one |
| `Capability.ResolveAnswers` | kernel_rs/src/capability.rs:352-388 | the four answers of resolving and exactly when each is given |
| `Capability.CheckDeriveAnswers` | kernel_rs/src/capability.rs:412-436 | the five answers of the check before a derivation and exactly when each is given |
| `Capability.LiveAfter` | kernel_rs/src/capability.rs:226-286 | an object is alive from its creation until it is destroyed; a revocation that does not destroy leaves it alive |
| `Capability.GrantResolvesIff` | kernel_rs/src/capability.rs:304-323 | a new grant is the last of its table and resolves exactly if its object is alive and it has the rights asked for |
| `Capability.DeriveResolves` | kernel_rs/src/capability.rs:412-436 | a derivation with nothing between check and push delivers a capability with exactly the requested rights, which resolves for them |
| `Capability.RunInv` | kernel_rs/src/capability.rs:276-436 | every interleaving of the threads' steps keeps the system's invariant, and tables and generations only grow |
| `Capability.RevocationIsFinal` | kernel_rs/src/capability.rs:276-286 | after a revocation no capability to the object that existed before, in any table and at any depth, resolves ever again, whatever runs afterwards |
| `Capability.OvertakenDeriveIsDead` | kernel_rs/src/capability.rs:412-436 | a derivation checked before and pushed after a revocation delivers a capability that never resolves |
| `Capability.NoOldAncestor` | kernel_rs/src/capability.rs:276-286 | no ancestor of a capability that resolves after a revocation existed before it |
| `Capability.AccessMeansNewGrant` | kernel_rs/src/capability.rs:276-286 | whatever resolves to the object after a revocation descends from a root grant of that object made after it |
| `Capability.DestructionIsForever` | kernel_rs/src/capability.rs:276-286 | a destroyed object's capabilities never resolve, not even ones granted later |
| `Capability.OnlyRevocationKills` | kernel_rs/src/capability.rs:352-388 | without a revocation of its object a capability that resolves goes on resolving to the same |
| `Capability.RightsOnlyShrink` | kernel_rs/src/capability.rs:412-436 | right by right, a capability has none that one of its ancestors lacks; they all name the same object and generation, and every proper ancestor has right 4 |
| `Capability.HasRootGrant` | kernel_rs/src/capability.rs:412-436 | every capability descends from a root grant |
| `Capability.BootIsFine` | kernel_rs/src/capability.rs:226-436 | the invariant holds in every reachable state |
| `KernelLock.InsideMeansOwner` | kernel_rs/src/critical.rs:181-230 | while a core is inside a section, however nested, it owns the lock, under its number or 31 if that is larger |
| `KernelLock.MutualExclusion` | kernel_rs/src/critical.rs:181-230 | if the cores' numbers are pairwise different and at most one is 31 or more, in every reachable state at most one core is inside |
| `KernelLock.CountersBalance` | kernel_rs/src/critical.rs:181-230 | with no core mid-operation, acquires exceed releases by one exactly when the lock is held, which is exactly when a core is inside |
| `KernelLock.SharedIndexBreaks` | kernel_rs/src/critical.rs:181-208 | two cores with the same number, or both with numbers of 31 or more, can both be inside |
| `KernelLock.ExcludesIffDistinct` | kernel_rs/src/critical.rs:181-230 | the lock excludes in every reachable state if and only if the cores' numbers are pairwise different and at most one is 31 or more |
| `KernelLock.FreeLockIsTaken` | kernel_rs/src/critical.rs:181-208 | a core that finds the lock free and is left to itself owns it after the steps of `acquire` |
| `KernelLock.LastReleaseFrees` | kernel_rs/src/critical.rs:213-230 | a core inside one section that releases has freed the lock after the steps of `release` |
| `KernelLock.StrayReleaseIsCounted` | kernel_rs/src/critical.rs:213-230 | a release by a core that is inside no section is counted and changes nothing else |
| `IpcRing.FirstInFirstOut` | kernel_rs/src/ipc.rs:243-297 | over every interleaving of one producer and one consumer the messages returned are a prefix, whole and in order, of those accepted, and at most 32 wait |
| `IpcRing.RefusalsAreHonest` | kernel_rs/src/ipc.rs:243-297 | with one producer and one consumer a send is refused exactly when 32 messages wait, a receive is empty exactly when everything accepted was returned |
| `IpcRing.SendCompletes` | kernel_rs/src/ipc.rs:243-266 | in every reachable state with fewer than 32 messages waiting an idle producer can finish a send by its own steps, and its message joins the queue |
| `IpcRing.ReceiveCompletes` | kernel_rs/src/ipc.rs:268-297 | in every reachable state with a message waiting an idle consumer can finish a receive by its own steps, and gets the oldest |
| `IpcRing.TwoProducersBreak` | kernel_rs/src/ipc.rs:243-266 | with two producers a run in which the second message overwrites the first and is returned in its place |
| `IpcRing.TwoConsumersBreak` | kernel_rs/src/ipc.rs:268-297 | with two consumers a run in which one message is returned twice |
| `IpcRing.InOrderIffOneToOne` | kernel_rs/src/ipc.rs:243-297 | the messages returned are a prefix of those accepted in every reachable state if and only if there is one producer and one consumer, or no producer or no consumer at all |
| `Rendezvous.SendMeansTaken` | kernel_rs/src/ipc.rs:173-219 | with one sender and one receiver the n-th send returns only after the n-th receive took exactly its message |
| `Rendezvous.HandsOver` | kernel_rs/src/ipc.rs:173-219 | in every reachable state with an idle sender and an idle receiver a send and a receive can hand any message over and both return |
| `Rendezvous.TwoSendersBreak` | kernel_rs/src/ipc.rs:173-219 | with two senders a send can return although nobody took its message |
| `Rendezvous.TwoReceiversBreak` | kernel_rs/src/ipc.rs:173-219 | with two receivers one message can be taken twice |
| `Rendezvous.HonestIffOneToOne` | kernel_rs/src/ipc.rs:173-219 | the promise holds in every reachable state if and only if there is one sender and one receiver |
| `DirBlock.WriteEntryReads` | kernel_common/src/ext2.rs:161-167 | what is written as an entry is read back, and no other byte changes |
| `DirBlock.AddParses` | kernel_common/src/ext2.rs:208-239 | on any block, adding fails exactly when no record can hold the entry; else one record is replaced by one or two and all others are as they were |
| `DirBlock.AddInserts` | kernel_common/src/ext2.rs:208-239 | on any block, the entry is inserted at one place of the listing and all others keep their order |
| `DirBlock.AddIsHonest` | kernel_common/src/ext2.rs:208-239 | an addition to any block succeeds if and only if some record can hold the entry; `DirFormat.AddSucceedsIff` says in bytes which can |
| `DirBlock.RemoveDeletes` | kernel_common/src/ext2.rs:242-269 | removing fails exactly when the name is not listed; else exactly the first entry of that name goes, if and only if the record before does not become visible by growing |
| `DirBlock.OverrunRecordAppears` | kernel_common/src/ext2.rs:242-269 | a block whose first record overruns its length, in which removing the second entry does not just delete it from the listing |
| `DirBlock.FirstNamedShows` | kernel_common/src/ext2.rs:242-269 | the first matching record is the first matching entry of the listing |
| `DirBlock.AddTiles` | kernel_common/src/ext2.rs:208-239 | adding keeps the chain 4-aligned, sound and filling the block exactly |
| `DirBlock.RemoveTiles` | kernel_common/src/ext2.rs:242-269 | so does removing, and in such a block it deletes exactly the first match |
| `DirBlock.InitIsTiled` | kernel_common/src/ext2.rs:170-175 | a new block is whole and lists exactly itself and its parent |
| `DirBlock.StepRefines` | kernel_common/src/ext2.rs:208-269 | each operation on a whole block does to the listing what it does to a list, with the same answer: an addition that succeeds inserts exactly the one entry, one that fails changes nothing and no record had room, a removal takes the first entry of the name or finds none |
| `DirBlock.BlockRefinesList` | kernel_common/src/ext2.rs:161-269 | so does every sequence of them, answer by answer, and the block stays whole |
| `DirBlock.AddThenRemove` | kernel_common/src/ext2.rs:208-269 | removing what was just added under a new name restores the listing |
| `DirFormat.ListingIsOnDisk` | kernel_common/src/ext2.rs:178-194 | on any block the listing is, in order, what the records of the chain show, read off their bytes: inode, type and name of each record in use whose name is not empty and fits |
| `DirFormat.AddSucceedsIff` | kernel_common/src/ext2.rs:208-239 | on any block an addition succeeds if and only if some record of the chain has, from its start if its inode is 0 and else behind its own 8 bytes and name rounded up to 4, at least 8 bytes and the new name rounded up to 4 |
| `DirFormat.AddTakesFirstRoom` | kernel_common/src/ext2.rs:208-239 | the new entry goes into the first such record; its header and name are at the stated bytes, the record before it is cut to what it uses, and no other byte changes |
| `DirFormat.RemoveTakesFirst` | kernel_common/src/ext2.rs:242-269 | on any block a removal succeeds if and only if a record shows the name; the first that does loses its inode number if it starts the block and is otherwise added to the length of the record before it, and no other byte changes |
| `DirBlock.Put16` | kernel_common/src/ext2.rs:398-400 | two bytes are written, little end first |
| `DirBlock.Put32` | kernel_common/src/ext2.rs:401-403 | four bytes are written, little end first |
| `DirBlock.CopyName` | kernel_common/src/ext2.rs:392-395 | the name's bytes are copied |
| `DirBlock.WriteDirEntry` | kernel_common/src/ext2.rs:161-167 | the code writes the specified entry |
| `DirBlock.InitDirBlock` | kernel_common/src/ext2.rs:170-175 | the code writes the two first entries |
| `DirBlock.ReadDirEntries` | kernel_common/src/ext2.rs:178-194 | the walk reports exactly the listing, in order, for any block |
| `DirBlock.FindDirEntry` | kernel_common/src/ext2.rs:197-205 | the first entry of that name in the listing, if any |
| `DirBlock.FindHolder` | kernel_common/src/ext2.rs:208-239 | the search loop finds the first record that can hold the entry |
| `DirBlock.AddDirEntry` | kernel_common/src/ext2.rs:208-239 | the code is the specified addition; on failure the block is unchanged |
| `DirBlock.FindNamed` | kernel_common/src/ext2.rs:242-269 | the search loop finds the first record of that name and the one before it |
| `DirBlock.RemoveDirEntry` | kernel_common/src/ext2.rs:242-269 | the code is the specified removal and returns the inode of the first match |
| `Path.SlashSeparates` | kernel_common/src/ext2.rs:287-311 | the names of a path with a slash in it are those before and then those after the slash |
| `Path.NamesAreClean` | kernel_common/src/ext2.rs:287-311 | names are non-empty and hold no slash |
| `Path.SplitIsLast` | kernel_common/src/ext2.rs:273-280 | a path's names are its parent's names and then its last name, which is empty exactly when the path has no names |
| `Path.ResolveByParent` | kernel_common/src/ext2.rs:316-355 | resolving a path is resolving its parent and looking the last name up there; it fails exactly when that node is missing, unreadable, not a directory or does not list the name |
| `Path.ResolvesIff` | kernel_common/src/ext2.rs:316-355 | a path resolves to a node if and only if its names lead there from the start, each through the first entry of that name in the readable block of a node of directory type 2; so a path through anything else fails |
| `Path.CreatedPathResolves` | kernel_common/src/ext2.rs:208-355 | after adding an entry of a new name its path resolves to it and every path that resolved before still resolves to the same node |
| `Path.RemovedPathIsGone` | kernel_common/src/ext2.rs:242-355 | after removing a name listed once its path does not resolve, and no path resolves to anything new |
| `Path.AddExtends` | kernel_common/src/ext2.rs:197-239 | an entry of a new name is found and changes no other lookup |
| `Path.RemoveNarrows` | kernel_common/src/ext2.rs:197-269 | removing a name listed once makes it missing and changes no other lookup |
| `Path.PathIterator.constructor` | kernel_common/src/ext2.rs:287-292 | the iterator has exactly the path's names to give |
| `Path.PathIterator.Next` | kernel_common/src/ext2.rs:294-311 | gives the next name, and nothing exactly when there is none left |
| `Path.ResolvePath` | kernel_common/src/ext2.rs:316-355 | the loop resolves the path by following its names |
| `Path.LookIn` | kernel_common/src/ext2.rs:316-355 | one directory block is read and searched |
| `Geometry.Intersect` | kernel_common/src/geometry.rs:46-62 | the result covers exactly the pixels both cover and is absent when there are none; for all rectangles |
| `Geometry.SubtractExact` | kernel_common/src/geometry.rs:80-141 | at most four pieces that cover each pixel of the difference exactly once and no other pixel; for all rectangles |
| `Geometry.VisibleExact` | kernel_common/src/geometry.rs:147-183 | every pixel is covered at most once, and only if it is in the target and under no occluder; exactly those pixels are if no stage makes more than 32 fragments |
| `Geometry.VisibleFragments` | kernel_common/src/geometry.rs:147-183 | the fragments are pairwise disjoint, inside the target and clear of every occluder, and with enough room they cover all that is visible |
| `Geometry.VisibleAreas` | kernel_common/src/geometry.rs:147-183 | the fragments' areas add up to the number of uncovered pixels if no stage drops any, and never to more |
| `Geometry.AreaCounts` | kernel_common/src/geometry.rs:41-43 | the area is the number of pixels when the edges fit |
| `Geometry.CoversInNumbers` | kernel_common/src/geometry.rs:31-38 | the pixels a rectangle covers are those between its edges, below the largest coordinate; sizes of 2^31 and more cover nothing |
| `Geometry.StageExactIffRoomy` | kernel_common/src/geometry.rs:147-183 | one occluder's stage is exact if and only if it makes at most 32 fragments |
| `Geometry.VisibleExactIff` | kernel_common/src/geometry.rs:147-183 | the fragments cover exactly the visible pixels, each once, if and only if no visible pixel is in a fragment that some stage drops |
| `Geometry.EleventhSpotDrops` | kernel_common/src/geometry.rs:147-183 | for eleven to 49 single-pixel occluders in a column three wide, a pixel beside the first is visible and in no fragment |
| `Geometry.Subtract` | kernel_common/src/geometry.rs:80-141 | the code writes the specified pieces and their number |
| `Geometry.Append` | kernel_common/src/geometry.rs:147-183 | pieces are appended while there is room |
| `Geometry.Occlude` | kernel_common/src/geometry.rs:147-183 | the loop over the current fragments for one occluder |
| `Geometry.ComputeVisibleRects` | kernel_common/src/geometry.rs:147-183 | the code computes the fragments the theorems are about |
| `Renderer.BlitArea` | kernel_rs/src/renderer.rs:60-93 | a blit writes only pixels of the target inside clip and screen that no occluder covers, and all of them if no stage makes more than 32 fragments |
| `Renderer.RowFits` | kernel_rs/src/renderer.rs:60-93 | the source and destination offsets of every copied row are in bounds and do not wrap in 32 bits |
| `Renderer.CopyRow` | kernel_rs/src/renderer.rs:60-93 | a scanline is copied and nothing else |
| `Renderer.CopyFragment` | kernel_rs/src/renderer.rs:60-93 | a fragment's rows are copied from where they lie in the surface |
| `Renderer.CopyFragments` | kernel_rs/src/renderer.rs:60-93 | all fragments on the screen are copied |
| `Renderer.BlitSurfaceClipped` | kernel_rs/src/renderer.rs:60-93 | shown pixels get the surface's colour, all others and all memory past the last row are as before |
| `Renderer.BlitInNumbers` | kernel_rs/src/renderer.rs:60-93 | if no stage makes more than 32 fragments, element y * w + x of the frame becomes the surface's element for (x, y) exactly where (x, y) is inside surface and clip and outside every occluder |
| `Renderer.BarAndBody` | kernel_rs/src/window_manager.rs:544-550 | a window's bounds are the disjoint union of its title bar and its content |
| `Renderer.AnyOrderIsIdeal` | kernel_rs/src/window_manager.rs:552-556 | drawing every part of every window, in any order, clipped against the windows above, shows the topmost window everywhere inside clip and screen and changes nothing else |
| `Renderer.PaintingIsIdeal` | kernel_rs/src/window_manager.rs:552-556 | so does painting whole windows from back to front |
| `Renderer.IdealInNumbers` | kernel_rs/src/window_manager.rs:535-556 | the frame that shows the topmost window everywhere, in coordinates, window edges and buffer positions |
| `Renderer.CompositionIsPainting` | kernel_rs/src/window_manager.rs:552-556 | the two leave the same back buffer, pixel for pixel, if no blit makes more than 32 fragments |
| `Renderer.CollectBounds` | kernel_rs/src/window_manager.rs:544-550 | the bounding boxes of the first 16 windows |
| `Renderer.BlitWindow` | kernel_rs/src/window_manager.rs:518-530 | the bar and then the body are drawn, under the windows above |
| `Renderer.Compose` | kernel_rs/src/window_manager.rs:535-556 | the composing loop ends if and only if there are at most 16 windows; it draws every part of the first 16 in turn, and when it ends, if no blit makes more than 32 fragments, element y * w + x of the frame has the colour of the last window over (x, y), from its 20 rows of title bar or its content, or is as before where there is none or outside the clip; the same loop with a smaller clip redraws damage |
| `Damage.TouchMeansNear` | kernel_rs/src/damage.rs:91-99 | two rectangles overlap or touch exactly when some of their pixels are the same or neighbours |
| `Damage.UnionExactIff` | kernel_rs/src/damage.rs:102-113 | the union contains both if and only if it spans less than 2^31 both ways; else it is empty |
| `Damage.UnionIsLeast` | kernel_rs/src/damage.rs:102-113 | a union that is not too wide lies inside every rectangle both lie in |
| `Damage.WideUnionIsEmpty` | kernel_rs/src/damage.rs:102-113 | two overlapping rectangles whose union, and with it the region, loses both |
| `Damage.AddKeeps` | kernel_rs/src/damage.rs:49-80 | with no union too wide, an added rectangle leaves at most 16 rectangles, no two overlapping or touching, that cover all that was covered and all of the new one |
| `Damage.CoveredIsInsideOne` | kernel_rs/src/damage.rs:49-80 | a rectangle covered by rectangles that do not touch each other lies inside one of them |
| `Damage.AddExactIff` | kernel_rs/src/damage.rs:49-80 | a call loses no pixel if and only if none of its unions spans 2^31 or more |
| `Damage.FarRectIsStored` | kernel_rs/src/damage.rs:49-80 | a rectangle with no pixel on or next to another one is stored as it is while fewer than 16 are, and the others stay; the seventeenth makes them one |
| `Damage.NothingIsLost` | kernel_rs/src/damage.rs:44-80 | after any number of such calls every pixel added since the last clear is covered, the rectangles do not overlap or touch, and there are at most 16 |
| `Damage.OneBoxFits` | kernel_rs/src/damage.rs:49-80 | rectangles inside one box less than 2^31 wide and high never make a union too wide |
| `Damage.TotalIsExact` | kernel_rs/src/damage.rs:82-87 | the sum of the areas is the number of dirty pixels |
| `Damage.DamageRegion.constructor` | kernel_rs/src/damage.rs:17-27 | a region starts empty |
| `Damage.DamageRegion.Clear` | kernel_rs/src/damage.rs:44-46 | clearing empties it |
| `Damage.DamageRegion.MergeAll` | kernel_rs/src/damage.rs:54-66 | the restarting loop ends and leaves the specified rest and grown rectangle |
| `Damage.DamageRegion.AddRect` | kernel_rs/src/damage.rs:49-80 | the code is the specified addition |
| `Damage.DamageRegion.TotalPixels` | kernel_rs/src/damage.rs:82-87 | the sum of the stored areas |
| `Sha256.PaddingIsLeast` | kernel_common/src/crypto.rs:175-194 | the padding is the marker, the fewest zero bytes that fill whole blocks, and the length, as in section 5.1.1 of FIPS 180-4 |
| `Sha256.LengthFieldIsExact` | kernel_common/src/crypto.rs:175-194 | the length field is the length in bits for every message below 2^61 bytes |
| `Sha256.AbsorbTwice` | kernel_common/src/crypto.rs:144-172 | two updates are one update with the data joined |
| `Sha256.FinishIsHash` | kernel_common/src/crypto.rs:144-208 | updating once and finishing folds the compression function over the padded message |
| `Sha256.StreamingIsOneShot` | kernel_common/src/crypto.rs:144-208 | so does updating with the message cut into any pieces |
| `Sha256.Hasher.constructor` | kernel_common/src/crypto.rs:79-86 | a fresh hasher |
| `Sha256.Hasher.Copy` | kernel_common/src/crypto.rs:144-172 | bytes are copied into the buffer |
| `Sha256.Hasher.Update` | kernel_common/src/crypto.rs:144-172 | the code, filling up the buffer first, is the specified update |
| `Sha256.Hasher.UpdateBlocks` | kernel_common/src/crypto.rs:144-172 | whole blocks are compressed in turn and the rest is kept |
| `Sha256.Hasher.Finalize` | kernel_common/src/crypto.rs:175-194 | the code, with one or two last blocks, is the specified finish |
| `Sha256.Hasher.Clear` | kernel_common/src/crypto.rs:175-194 | part of the buffer is zeroed |
| `Sha256.Digest` | kernel_common/src/crypto.rs:204-208 | the one-shot hash |
| `Sha256.DigestChunks` | kernel_common/src/crypto.rs:144-208 | a hasher fed piece by piece gives the one-shot hash of the whole |
| `Bitmap.SetOne` | kernel_common/src/bitmap.rs:6-8 | setting a bit sets that bit and no other |
| `Bitmap.ClearOne` | kernel_common/src/bitmap.rs:10-12 | clearing a bit clears that bit and no other |
| `Bitmap.TestIsBit` | kernel_common/src/bitmap.rs:14-16 | index 8q + k is bit k, from the low end, of byte q |
| `Bitmap.Set` | kernel_common/src/bitmap.rs:6-8 | the byte is changed in place |
| `Bitmap.Clear` | kernel_common/src/bitmap.rs:10-12 | the byte is changed in place |
| `Pmm.ReservesOverlap` | kernel_common/src/bitmap.rs:22-29 | the rounded range holds exactly the pages with a byte of the range, and one page for an empty range that starts inside a page |
| `Pmm.RoundingExactIff` | kernel_common/src/bitmap.rs:22-29 | the rounding is exact if and only if the range is not empty or starts a page |
| `Pmm.AllocIsLowest` | kernel_rs/src/pmm.rs:302-322 | the hinted scan returns the lowest free page, as a scan from 0 would, and 0 exactly when none is free; the page is not reserved and nothing else changes |
| `Pmm.FreeKeeps` | kernel_rs/src/pmm.rs:331-359 | freeing is accepted exactly for the address of a used, unreserved page, which becomes free; everything else is rejected without effect; the invariant that all pages below the hint are used and the counter counts the free pages is kept |
| `Pmm.AllocThenFree` | kernel_rs/src/pmm.rs:302-359 | freeing what was just allocated restores the used pages and both counters |
| `Pmm.ReserveKeeps` | kernel_rs/src/pmm.rs:141-159 | reserving marks exactly the existing pages of the range and keeps the invariant |
| `Pmm.ReservedPage` | kernel_rs/src/pmm.rs:141-159 | a page is reserved afterwards if and only if it was, or exists and has a byte of the range or is the page an empty range starts inside |
| `Pmm.RunOwned` | kernel_rs/src/pmm.rs:141-359 | over every run in which callers free only what they hold: the invariant, reserved pages stay reserved, used plus free pages are all pages, `used_pages` counts the held ones, and only pages free or held at the start ever are |
| `Pmm.AnyRunKeeps` | kernel_rs/src/pmm.rs:141-359 | over every run, releases of pages nobody holds included, the invariant holds and reserved pages stay reserved |
| `Pmm.ReservedForGood` | kernel_rs/src/pmm.rs:141-359 | from boot on, whatever the callers do, page 0 and every page once reserved stay reserved and no allocation returns one |
| `Pmm.PagesAreExclusive` | kernel_rs/src/pmm.rs:302-359 | over every such run an allocation never returns a reserved page or one that is still held |
| `Pmm.StrayReleaseIsAccepted` | kernel_rs/src/pmm.rs:331-359 | a state in which freeing a used page nobody was given is accepted, brings `used_pages` below 0, and makes the next allocation return that page |
| `Pmm.OwnedIffFair` | kernel_rs/src/pmm.rs:302-359 | a step keeps the invariant, every held page used and `used_pages` their number if and only if it is not an accepted release of a page that is not held |
| `Pmm.AlwaysOwnedIffFair` | kernel_rs/src/pmm.rs:302-359 | the same for every state of every run |
| `Pmm.BootCountExactIff` | kernel_rs/src/pmm.rs:256-266 | after boot the free pages are exactly the conventional ones, and `free_pages` is their number if and only if no two conventional descriptors overlap |
| `Pmm.FreeAtBoot` | kernel_rs/src/pmm.rs:256-266 | a page is free after boot if and only if a descriptor of type 7 holds it |
| `Pmm.SpanAtBoot` | kernel_rs/src/pmm.rs:182-205 | the bitmaps end with the highest descriptor of types 1 to 7, 9 and 10, whatever the others say |
| `Pmm.OverlapIsMiscounted` | kernel_rs/src/pmm.rs:256-266 | one page described twice is counted twice |
| `Pmm.BootIsFine` | kernel_rs/src/pmm.rs:182-268 | with disjoint descriptors the invariant holds once page 0 is reserved |
| `Pmm.PagesInSpan` | kernel_rs/src/pmm.rs:182-205 | every conventional page has a bit in the bitmaps |
| `Pmm.FindHighest` | kernel_rs/src/pmm.rs:191-202 | the highest end of real memory |
| `Pmm.PageAllocator.constructor` | kernel_rs/src/pmm.rs:182-268 | the bitmap-filling code reaches the specified state |
| `Pmm.PageAllocator.AllocPage` | kernel_rs/src/pmm.rs:302-322 | the scan with its one restart is the specified allocation |
| `Pmm.PageAllocator.FreePage` | kernel_rs/src/pmm.rs:331-359 | the code with all its rejections is the specified release |
| `Pmm.PageAllocator.ReservePage` | kernel_rs/src/pmm.rs:141-159 | one page of the range |
| `Pmm.PageAllocator.ReserveRange` | kernel_rs/src/pmm.rs:141-159 | the loop over the range |
| `Pmm.PageAllocator.ClearRange` | kernel_rs/src/pmm.rs:256-266 | the loop over one descriptor |
| `Certificate.MixWord` | kernel_common/src/impossibility_certificate.rs:87-118 | mixing different words into the same value gives different values |
| `Certificate.MixState` | kernel_common/src/impossibility_certificate.rs:87-118 | mixing the same word keeps different values different |
| `Certificate.XorBit` | kernel_common/src/impossibility_certificate.rs:87-118 | the exclusive or, bit by bit |
| `Certificate.IsFnv` | kernel_common/src/impossibility_certificate.rs:87-118 | the checksum starts at 14695981039346656037 and multiplies by 1099511628211 modulo 2^64 |
| `Certificate.OneWordShows` | kernel_common/src/impossibility_certificate.rs:87-118 | streams that agree except perhaps in one word have equal checksums exactly when they agree there too |
| `Certificate.StreamIsLive` | kernel_common/src/impossibility_certificate.rs:87-118 | the checksum's words depend on the live grants alone, not on where the empty slots are |
| `Certificate.SameGrantsStayValid` | kernel_common/src/impossibility_certificate.rs:125-142 | a certificate is issued for every page that is unreachable, and while the live grants are those seen at issue it is valid and its page is unreachable |
| `Certificate.RegrantSameIff` | kernel_common/src/authority_graph.rs:88-114 | revoking a grant and granting the same again, which fills the first empty slot, restores the sequence of live grants if and only if no live grant lies between that slot and the old one |
| `Certificate.RegrantReorders` | kernel_common/src/authority_graph.rs:88-114 | a table in which the regranted grant comes to stand before the other |
| `Certificate.RegrantRevalidates` | kernel_common/src/impossibility_certificate.rs:125-142 | where the live grants come back, a certificate issued before verifies again and its page is still unreachable |
| `Certificate.OneWordIsStale` | kernel_common/src/impossibility_certificate.rs:137-142 | after a change of one word the certificate is stale |
| `Certificate.OneFieldIsStale` | kernel_common/src/impossibility_certificate.rs:87-142 | after a change of any one field of any one live grant, or of its principal from process n to device n:0.0 or back, the certificate is stale |
| `Certificate.ComputeChecksum` | kernel_common/src/impossibility_certificate.rs:87-118 | the loop over the slots computes the checksum |
| `Certificate.MixGrant` | kernel_common/src/impossibility_certificate.rs:87-118 | the seven words of one grant are mixed in |

## Left out

- IOMMU register handshakes, spin timeouts, fault records and the raw context-entry helpers: hardware plumbing; assigning and revoking are modelled by their effect on the tables and the translation cache.
- Iommu.AssignExact: ranges end at or below 2^48, and pages and a domain number are there as `AssignSucceedsIff` says they must be; nothing is claimed of the individual writes of a starved assignment in a memory that is not blank.
- The process side of `authority.rs`, its certificates bound to raw hardware entries, `cross_check` and `freeze_envelope_device`: process grants appear only as other users of the grant table; the last two call what is modelled.
- Bootstrap.BuildExact: assumes descriptors below 2^47, kernel pages below 2^52 and a kernel linked in the upper half; overlapping descriptors are allowed.
- Heap.AllocKeeps: only for requests in which no address wraps; `AllocSoundIff` shows that this is exactly when the invariant is kept.
- The spin lock inside the heap, interrupts, the audit log, object kinds and names: not modelled.
- Generations, object ids, message counters and the two lock counters are unbounded numbers here.
- Memory is sequentially consistent in `KernelLock`, `IpcRing` and `Rendezvous`; the acquire and release orderings of the source are not modelled.
- Capability and endpoint lookup around `send`, `receive`, `try_send` and `try_receive`: only the transfer itself is modelled.
- ext2 inodes, block and inode bitmaps, free counts and file data: not modelled; a directory is one block, read through a function from inode numbers to blocks that may fail.
- Renderer.Compose: windows whose outer edges can be computed in 32 bits and whose buffers hold fewer than 2^32 pixels.
- `clear_rect`, `present_rect`, the cursor, the menu and the copy to the display: they add easy members only.
- Damage.AddKeeps: rectangles whose edges fit in 32 bits, or empty ones.
- SHA-256's compression function is a parameter and writing out the eight state words is left out; HMAC and ChaCha20 are not modelled.
- Pmm: clearing the page, the search for a place for the bitmaps, the later reservations of `init`, the statistics other than `free_pages` and `used_pages`, and memory maps that wrap around 2^64. The counters are integers here; `used_pages` of the source, taken below 0, wraps or panics.
- Certificate: changes of several words at once, which can cancel out.
