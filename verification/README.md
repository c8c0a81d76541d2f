# Verified model of the Phoenix firmware interface

A Dafny model of the parts of the firmware that keep state by hand: the memory manager (`avmf.c` with
`pager.c`), the ready lists and the context switch of `smp.c`, the chained heap of `core.c`, the integer
printer of `serial.c` against the parser of `core.c`, and the delay loop of `acpi.c`. Each operation that
updates state in place is a method of a class with the program's own variables, equal to a function on
values; the results are lemmas about those functions, over all inputs and all runs.

`dafny verify dfyconfig.toml` checks everything.

## How it is laid out

| file | what it holds |
|---|---|
| `words.dfy` | 64-bit alignment, single-bit updates of words |
| `physical.dfy` | the page bitmap and the first-fit search of `avmf.c` |
| `regions.dfy`, `header_list.dfy` | virtual heaps, header records, the linked list and its cache |
| `paging.dfy`, `addresses.dfy` | table memory, the processor's walk, the tree of tables, ranges of pages |
| `memory.dfy` | the shared state of `avmf.c` and `pager.c`, every operation as a function |
| `mapping.dfy`, `ranges.dfy`, `unmapping.dfy` | what mapping, range mapping and unmapping do to translation |
| `bookkeeping.dfy` | bits, runs, headers and cache over every run, whatever the tables hold |
| `page_map.dfy`, `lost_entries.dfy` | the tables against a plain page map, over every run; entries written into page tables |
| `avmf_runs.dfy`, `avmf_safety.dfy`, `avmf_theorems.dfy` | records and tables agree: the invariant, its preservation, the results over runs; what a free leaves mapped |
| `avmf_exact.dfy` | `avmf_alloc` and `avmf_free` end to end: when exactly a request succeeds, what each outcome leaves |
| `boot.dfy`, `boot_room.dfy` | `pager_init`: direct map and identity maps, every run from power-on; that it finds memory for its tables |
| `system_maps.dfy`, `alloc_limits.dfy`, `low_pages.dfy` | the system's own maps against `avmf_alloc`: exact conditions, failing requests, the firmware's low pages |
| `manager.dfy` | the statics of both files as a class, each method equal to its function |
| `run_queues.dfy`, `queue_runs.dfy` | the ready lists as an interleaved step machine; what every run keeps, and what a failed creation breaks |
| `queue_progress.dfy` | what pops, pushes, yields and a shutdown end in when their core is left alone |
| `context_switch.dfy` | the switch routine, new stacks, threads taking turns |
| `block_heap.dfy` | `fmalloc`, `flink`, `ffree` on top of the memory manager |
| `integer_text.dfy`, `timer.dfy` | printer and parser, delay loop |

## How to read the memory manager

* Physical memory is a map from page number to 512 words; table memory is addressed by physical page.
  `Paging.Walk` is the 4-level walk of the Intel SDM Volume 3A, section 4.5, written without reference to the
  program. A virtual page is its four 9-bit indices, so every statement "for all pages" covers the whole
  48-bit space.
* `MemoryState.Mem` holds the statics plus two records the program does not keep: `runs`, the physical runs
  handed out with their holders (page table, client of a header, or stranded), and `failed`, set when a page
  table could not be allocated. The program then goes on with page 0 or NULL as the table
  (src/x86_64/src/pager.c:26-32, src/x86_64/src/pager.c:190-192), so the results are about runs in which this
  has not happened.
* Results come in three layers. `Bookkeeping.RecordsOk` (bits, runs, headers, cache) needs only sizes that
  fit and headers freed at most once. `PageMaps.Sound` adds that the tables form a tree of distinct pages taken
  for tables; on it `PageMaps.TablesFollowTheMap` says where every page goes after every run, wherever the areas
  lie, as long as no misdirected entry hits a page table, and `LostEntries.TablesFollowTheSteps` as long as none
  hits a table above the PTs. `AvmfRuns.Inv` adds that every live region is mapped as recorded.
* `AvmfTheorems.OpOk` is what keeps `Inv`: positive sizes that do not wrap when aligned or added to their heap,
  flags without bit 7, areas that are canonical and clear of the firmware window 0xFF000000-0xFFFFFFFF, frees of
  live regions or of addresses no header covers. The program checks none of this. For requests outside it
  `PageMaps.RegionMappedExactly`, `SystemMaps.CanonicalRequestExactly` and `SystemMaps.DirectMapExactly` say
  exactly what they get and break.

## What turned out false of the code

* `avmf_alloc_virt` compares with a wrapping sum. A request stays in its space exactly when the bump does not
  wrap (`Regions.VirtGuardExact`); a concrete kernel request moves the kernel heap onto the user heap
  (`Regions.KernelHeapWraps`).
* A 4 KiB mapping into a slot already mapped with 2 MiB is lost: it takes effect exactly when the slot is not
  mapped whole (`RangeMapping.SmallMapExact`). The entry is written into the slot's first frame; if that holds a
  page table, a PT entry of another page is replaced, or the client's page becomes a table
  (`RangeMapping.LostIntoPt`, `RangeMapping.LostIntoTable`). In the latter case exactly the pages whose walk uses
  the entry go on through the client's page (`LostEntries.UpperHitExact`).
* `avmf_alloc` may return a region that is not mapped as recorded. From every booted state two user requests hand
  out the firmware's page at 0xFF000000, which stays the firmware's
  (`AllocLimits.FirmwareWindowIsHandedOut`); the exact condition is `SystemMaps.CanonicalRequestExactly`.
* The user heap may leave the lower half, since its limit is the direct map's base. Its next page then shares the
  walk of the direct map's first page: one of the two is wrong (`AllocLimits.DirectMapIsHandedOut`), and where
  RAM starts at 2 MiB a page further up is written into the first page table, which spares the direct map
  (`AllocLimits.RootIsOverwritten`). When the direct map survives is `SystemMaps.DirectMapExactly`. All three
  requests succeed on every machine with one RAM area from 2 MiB on (`BootRoom.LimitsAreReached`).
* `avmf_free` unmaps one page, or one 2 MiB slot, of a longer region: the whole region is unmapped exactly when it
  is one page, or one slot mapped whole (`AvmfTheorems.FreeUnmapsRegionExactly`). The other pages still go to
  memory that may be handed out again (`AvmfTheorems.FreeLeavesPages`).
* The user heap starts at 0x1000, inside the identity-mapped stack of the firmware: the first user page replaces
  the mapping of its address (`LowPages.FirstUserPage`). A page mapped to itself is kept exactly when no recorded
  area with memory elsewhere contains it (`LowPages.IdentityKeptExactly`).
* The program keeps its first table's physical address as a pointer. The pointer still reaches the table exactly
  when the address was mapped to itself and no recorded area contains it (`LowPages.RootPointerExactly`); where
  that table is page 1 the first user page takes it away (`LowPages.RootPointerIsTaken`).
* `smp_push_task` does not test the result of `create_thread`. Page 0 is mapped and stays so
  (`LowPages.PageZeroStays`), so a failure links through NULL, empties the list and unlocks: the list's threads
  are lost (`QueueRuns.FailedCreationDropsList`), and an owner that has tested the list reads NULL for its next
  thread (`QueueRuns.ExposedOwnerReadsNull`); a run from the start does both (`QueueRuns.NullReadIsReached`). No
  thread is lost at any time exactly when every store of NULL meets an empty list
  (`QueueRuns.NoThreadLostExactly`). NULL is never read exactly when at every read the last store into the list
  since the owner's test was not that of NULL (`QueueRuns.NullReadExactly`); that no store catches an owner is
  enough (`QueueRuns.NoReadWithoutCatch`) but not needed (`QueueRuns.PushHidesNull`).
* `smp_yield` puts the thread in front of its core's own list, from which the core takes it again at once: left
  alone, a yield gives the turn to nobody (`QueueProgress.YieldResumesItself`).
* `fmalloc` adds its header's 34 bytes modulo 2^64: the block has room for the size asked for exactly when the sum
  does not wrap (`BlockHeap.BlockRoomExactly`).
* The end of the direct map is that of the last memory-map entry gone through, even if an earlier one reached
  further (`Boot.LastMapEndExactly`), and an area that reached the end of the 64-bit space would never be found
  (`Regions.AreaAtEndIsLost`).
* A failed `avmf_alloc` is not undone: the heap has moved, and where only a header was missing the pages stay taken
  for good (`AvmfExact.AllocSucceedsExactly`).
* `str_to_uint` says it stops at the first invalid character; in hexadecimal it has shifted by then, and the
  result is right exactly when it is zero (`IntegerText.InvalidHexShifts`).
* Numbers padded with blanks are not read back: the round trip holds exactly when no blank was needed or the
  value is zero modulo 2^32 (`IntegerText.DecimalRoundTrip`, `IntegerText.HexRoundTrip`).
* The printer has digits for the bases up to 16 only (`IntegerText.TableSuffices`); its buffer suffices in every
  base.
* `acpi_mdelay` loses ticks exactly when two reads are a period or more apart (`Timer.ElapsedExact`), its tick
  count is enough exactly when `ms * 3580` does not wrap (`Timer.TicksNeededExact`), and its 64-bit count is
  right for all readings exactly when the ticks and one period stay within 64 bits (`Timer.CountExact`).

## Model

| member | source | states |
|---|---|---|
| `Words.SetBitExact` | src/x86_64/src/avmf.c:40-42 | setting a bit of a word changes that bit and no other |
| `Words.ClearBitExact` | src/x86_64/src/avmf.c:44-46 | clearing a bit of a word changes that bit and no other |
| `Words.BitUpdateFits` | src/x86_64/src/avmf.c:40-46 | both updates stay inside the word |
| `Physical.FirstRun` | src/x86_64/src/avmf.c:94-122 | the result is the earliest free run that fits between start and end; none means there is none |
| `Physical.SkipPast` | src/x86_64/src/avmf.c:118-120 | a used page rules out every run that would contain it, so the run counter may restart after it |
| `Physical.AllocPhysFirstFit` | src/x86_64/src/avmf.c:74-128 | success is the earliest free run of the first range that has one, between the range's bytes and from the hint's page on if that lies between them too, and sets exactly its bits; failure means no range has one |
| `Physical.PhysBitmap.Init` | src/x86_64/src/avmf.c:212-226 | the ranges are copied in and no bit is set |
| `Physical.PhysBitmap.Set` | src/x86_64/src/avmf.c:40-42 | adds one page to the set of used pages |
| `Physical.PhysBitmap.Clear` | src/x86_64/src/avmf.c:44-46 | removes one page from the set of used pages |
| `Physical.PhysBitmap.Test` | src/x86_64/src/avmf.c:48-50 | reads membership of one page |
| `Physical.PhysBitmap.Scan` | src/x86_64/src/avmf.c:96-122 | the one-pass scan with a run counter finds the earliest free run of the range |
| `Physical.PhysBitmap.AllocContiguous` | src/x86_64/src/avmf.c:74-128 | new bitmap, hint and address equal the first-fit allocation |
| `Physical.PhysBitmap.Release` | src/x86_64/src/avmf.c:186-192 | removes exactly the pages of a run from the set of used pages |
| `Regions.AllocVirtIsNew` | src/x86_64/src/avmf.c:130-165 | a result lies inside its own space and past everything handed out before |
| `Regions.AllocVirtExactly` | src/x86_64/src/avmf.c:130-165 | for every kind and size: granted exactly if the new top, a 64-bit sum, is at most the base of what follows the space (0xFFFF800000000000, 0xFFFFC00000000000, 0xFFFFE00000000000, none); the result is the old top and only that heap moves |
| `Regions.FirstRequestExactly` | src/x86_64/src/avmf.c:29-32 | the first request of each kind is granted exactly if it is no longer than the kind's space, at the space's base |
| `Regions.VirtualNeverOverlaps` | src/x86_64/src/avmf.c:130-165 | over any sequence of calls and heap types results are disjoint from each other, from all earlier areas and from the direct-map window |
| `Regions.VirtGuardExact` | src/x86_64/src/avmf.c:154-161 | a request the guard lets through stays in its space exactly when the bump does not wrap |
| `Regions.KernelHeapWraps` | src/x86_64/src/avmf.c:157-161 | a concrete request after which kernel and user allocations coincide |
| `Regions.CoveredOnce` | src/x86_64/src/avmf.c:298-307 | no address is covered by two headers |
| `Regions.CachedFindIsScan` | src/x86_64/src/avmf.c:297-310 | the cached lookup returns the header a plain scan returns |
| `Regions.HeaderTranslates` | src/x86_64/src/avmf.c:52-60 | inside a header's area the records give the recorded physical address plus the offset |
| `Regions.LookupExactly` | src/x86_64/src/avmf.c:52-60 | every answer: distance from 0xFFFF800000000000 in the direct-map window, recorded address plus offset in a header's area (remembered by the cache), else 0 |
| `Regions.PhysToVirtExactly` | src/x86_64/src/avmf.c:62-72 | the first header in list order whose memory has the address answers, and NULL is answered exactly if there is none |
| `Regions.PhysVirtPhys` | src/x86_64/src/avmf.c:52-72 | physical to virtual and back is the identity wherever some header covers the address |
| `Regions.AddRegionKeepsHeaders` | src/x86_64/src/avmf.c:228-265 | recording a fresh virtual allocation keeps header areas disjoint |
| `Regions.AddRegionExactly` | src/x86_64/src/avmf.c:228-265 | a record keeps addresses and flags and rounds the size up to pages; exactly 2048 can be made |
| `Regions.AreaAtEndIsLost` | src/x86_64/src/avmf.c:303 | an area that reaches the end of the 64-bit space covers no address, since its end wraps |
| `HeaderList.RegionList.constructor` | src/x86_64/src/avmf.c:16-23 | the statics as the program finds them: an empty list and no cache |
| `HeaderList.RegionList.FindInList` | src/x86_64/src/avmf.c:301-309 | following next from the head is the scan in index order |
| `HeaderList.RegionList.Find` | src/x86_64/src/avmf.c:297-310 | node and cache equal the cached lookup on the records |
| `HeaderList.RegionList.Tail` | src/x86_64/src/avmf.c:232-239 | the walk to the end of the list reaches the last used static header |
| `HeaderList.RegionList.Append` | src/x86_64/src/avmf.c:245-261 | the list stays exactly the used static headers in index order, with one more at the end |
| `HeaderList.RegionList.AllocRegion` | src/x86_64/src/avmf.c:228-265 | appends one record with aligned size, or refuses when all static headers are used |
| `HeaderList.RegionList.VirtToPhys` | src/x86_64/src/avmf.c:52-60 | direct-map window first, where the answer is the distance from 0xFFFF800000000000, then the cached lookup |
| `HeaderList.RegionList.PhysToVirt` | src/x86_64/src/avmf.c:62-72 | the first header in list order that covers the address |
| `Paging.WalkFollowsTree` | src/x86_64/src/pager.c:180-217 | where the tables form a tree the processor's walk is the walk along the tree the pager builds |
| `Paging.RightsFollowLeaf` | src/x86_64/src/pager.c:189-213 | a mapped page can be written exactly if the entry that maps it says so, and none is reached from user mode: entries that name tables have bits 0 and 1 alone |
| `Paging.CutAt` | src/x86_64/src/pager.c:204-216 | writing an entry that names no table removes the tables below it and no other |
| `Paging.SmallLeafWalk` | src/x86_64/src/pager.c:216 | writing a PT entry changes the translation of one page |
| `Paging.SlotTables` | src/x86_64/src/pager.c:205 | writing a PD leaf keeps the tree and drops only the table of that slot |
| `Paging.SlotWalk` | src/x86_64/src/pager.c:204-206 | writing a PD leaf changes the translation of the 512 pages of its slot |
| `Paging.AttachTables` | src/x86_64/src/pager.c:189-213 | linking a fresh zeroed page adds one position to the tree and keeps tables distinct |
| `Paging.AttachWalk` | src/x86_64/src/pager.c:44-46 | linking a fresh zeroed page changes no translation |
| `Paging.StoreOutsideWalk` | src/x86_64/src/pager.c:212-216 | a write to a page that is no table changes no translation |
| `Paging.WholeSlotWalk` | src/x86_64/src/pager.c:205 | a slot mapped whole has no table, and its pages go to consecutive frames |
| `Paging.OverwrittenTable` | src/x86_64/src/pager.c:207-216 | a 4 KiB entry written into a table above the PTs turns the frame it names into a table |
| `Addresses.OffsetExact` | src/x86_64/src/pager.c:182-185 | the indices of the k-th page of a range identify it among all 2^36 pages |
| `Addresses.SlotOffsets` | src/x86_64/src/pager.c:73-75 | the slot of a 2 MiB aligned step is exactly the next 512 pages of the range |
| `Addresses.AddressDigits` | src/x86_64/src/pager.c:182-185 | the four indices and the page offset are the digits of the low 48 bits of the address |
| `Addresses.AttrsExact` | src/x86_64/src/pager.c:204-216 | a mapping gets bit 0, and of bits 1 to 11 but 7 exactly those set in the flags, no other |
| `Addresses.OrHugeExact` | src/x86_64/src/pager.c:74 | a 2 MiB step sets bit 7 of the flags and leaves the other bits |
| `Addresses.HugeEntryMaps` | src/x86_64/src/pager.c:205 | the entry of a 2 MiB mapping, its address rounded down, translates page i of the slot to frame plus i with the attributes asked for |
| `Addresses.SmallEntryMaps` | src/x86_64/src/pager.c:216 | the entry of a 4 KiB mapping translates to the frame with the attributes asked for |
| `Mapping.TakenRunIsNew` | src/x86_64/src/avmf.c:105-116 | a run just taken is disjoint from all runs handed out, and the set bits are again exactly the runs |
| `Mapping.AllocTableBooks` | src/x86_64/src/pager.c:25-51 | a page taken for a table was nobody's; bits, runs and headers stay right whatever is in memory |
| `Mapping.TableIsRecorded` | src/x86_64/src/pager.c:25-33 | a table's header, if one is left, records its page under the next sensitive address, 4096 bytes, flags 3, and the records translate that address to it |
| `Mapping.AllocTableOk` | src/x86_64/src/pager.c:25-51 | where the tables are a tree the new table is on a page that is no table yet, zeroed |
| `Mapping.MapRangeBooks` | src/x86_64/src/pager.c:66-81 | range mapping keeps the books and only adds runs and headers for tables, whatever is in table memory |
| `Mapping.DescendOk` | src/x86_64/src/pager.c:189-213 | following or creating a table keeps the tree and every translation |
| `Mapping.MapSmall` | src/x86_64/src/pager.c:174-219 | a 4 KiB mapping sets exactly its page and makes no slot huge |
| `Mapping.MapHuge` | src/x86_64/src/pager.c:204-206 | a 2 MiB mapping, its address rounded down, sets exactly the 512 pages of its slot |
| `RangeMapping.MapIsPointUpdate` | src/x86_64/src/pager.c:174-219 | seen by the processor, one pager_map changes the page or slot asked for, to the frame asked for with each attribute bit as asked, and nothing else |
| `RangeMapping.BeyondLimitIgnored` | src/x86_64/src/pager.c:175-178 | an address beyond the processor's physical space changes nothing |
| `RangeMapping.SmallMapExact` | src/x86_64/src/pager.c:207-217 | a 4 KiB mapping takes effect exactly when its slot is not mapped whole; else it is entry i1 of the slot's first frame, and changes no translation if that is no table |
| `RangeMapping.LostIntoPt` | src/x86_64/src/pager.c:207-217 | a lost entry that hits a PT maps the page at its index there instead |
| `RangeMapping.LostIntoTable` | src/x86_64/src/pager.c:207-217 | a lost entry that hits a table above turns the frame to be mapped into a table; the tables stay the pager's exactly if it hit a PT |
| `RangeMapping.MapRangeExact` | src/x86_64/src/pager.c:66-81 | on any page tables, where lost entries hit none of them, the promoting loop takes effect exactly on the pages of the range whose slot is not mapped whole or is set anew by a 2 MiB step |
| `RangeMapping.MapRangeFrom` | src/x86_64/src/pager.c:66-81 | the promoting loop maps exactly the pages of the range, partial last page included, and makes huge only slots inside it |
| `RangeMapping.MapPagesFrom` | src/x86_64/src/pager.c:76-79 | mapping page by page maps exactly the pages of the range |
| `RangeMapping.PromotionRefinesPlainLoop` | src/x86_64/src/pager.c:66-81 | after the promoting loop every virtual address translates as after the plain 4 KiB loop |
| `Unmapping.UnmapExact` | src/x86_64/src/pager.c:241-266 | unmapping removes exactly the page, or exactly the 2 MiB slot that maps it |
| `Unmapping.UnmapClearsOneBit` | src/x86_64/src/pager.c:241-266 | in any memory at most one entry changes, and of it bit 0 alone, which is cleared; nothing changes while no table is loaded |
| `Unmapping.UnmapUndoesMap` | src/x86_64/src/pager.c:241-266 | mapping an unmapped 4 KiB page and unmapping it restores the whole translation |
| `Unmapping.RemapGetsFreshTable` | src/x86_64/src/pager.c:207-216 | a 4 KiB mapping after a huge slot was unmapped gets a table on a page that was free |
| `Bookkeeping.AllocOutcome` | src/x86_64/src/avmf.c:167-179 | an allocation fails with at most its heap moved and a run stranded, or maps the header it recorded |
| `Bookkeeping.AllocKeepsRecords` | src/x86_64/src/avmf.c:167-179 | every request that fits keeps bits, runs and headers right on every path; a result is a live region with its own header |
| `Bookkeeping.ReleaseKeepsLedger` | src/x86_64/src/avmf.c:186-192 | giving a run back clears exactly its bits |
| `Bookkeeping.FreeKeepsRecords` | src/x86_64/src/avmf.c:181-195 | a free ends exactly the live region of its address, if there is one, and no run of a table |
| `Bookkeeping.RunsKeepRecords` | src/x86_64/src/avmf.c:167-195 | the books are right after every run in which sizes fit and headers are freed at most once, whatever areas and flags are asked for |
| `Bookkeeping.PagesAreConserved` | src/x86_64/src/avmf.c:74-128 | after every such run the runs out are disjoint, the set bits are their union and the bit count the sum of their lengths |
| `Bookkeeping.TablesAreNeverReissued` | src/x86_64/src/pager.c:25-51 | a page taken for a table is never returned by a later allocation |
| `Bookkeeping.LookupsIgnoreTheCache` | src/x86_64/src/avmf.c:297-310 | in every reachable state the cached lookup equals the plain scan |
| `Bookkeeping.InverseAfterRuns` | src/x86_64/src/avmf.c:52-72 | in every reachable state, stale headers included, physical to virtual and back is the identity |
| `PageMaps.AllocEffect` | src/x86_64/src/avmf.c:167-179 | an allocation whose lost entries hit no page table maps exactly the pages of its area that are not lost, and changes no other translation |
| `PageMaps.RegionMappedExactly` | src/x86_64/src/avmf.c:167-179 | where lost entries hit no page table, the returned region is mapped as recorded exactly if each of its pages in a slot mapped whole before is set anew with its slot or went there already |
| `PageMaps.PageKeptExactly` | src/x86_64/src/avmf.c:167-179 | where lost entries hit no page table, a page keeps its translation over an allocation exactly if it is outside the area, or lost, or recorded the same |
| `PageMaps.FreeEffect` | src/x86_64/src/avmf.c:181-195 | a free of a recorded address removes its page or slot; any other free changes nothing |
| `PageMaps.TablesFollowTheMap` | src/x86_64/src/avmf.c:167-195 | after every run in which no lost entry hits a page table, wherever the areas lie, the processor translates every page as the page map of placed and erased regions says |
| `PageMaps.PageKeptOverRuns` | src/x86_64/src/avmf.c:167-195 | over such a run a page keeps its translation exactly if no operation takes effect on it or the last one sets it to the same |
| `LostEntries.MapLoopExact` | src/x86_64/src/pager.c:66-81 | range mapping on any tables, step by step: a misdirected entry that hits a PT maps the page at its index there |
| `LostEntries.TablesFollowTheSteps` | src/x86_64/src/avmf.c:167-195 | after every run none of whose entries hits a table above the PTs the processor translates every page as the page map built step by step says |
| `LostEntries.UpperHitExact` | src/x86_64/src/pager.c:207-216 | an entry that hits a table above the PTs: walks that do not use it stay, the others go on from the frame to be mapped |
| `AvmfRuns.SlotOfRegion` | src/x86_64/src/pager.c:73-75 | a huge slot that holds a page of a region lies wholly inside that region |
| `AvmfRuns.NewRegionIsFree` | src/x86_64/src/avmf.c:168-176 | a new region clear of the system's maps meets no slot mapped whole |
| `AvmfRuns.MappingKeepsInv` | src/x86_64/src/avmf.c:175-178 | mapping the new region completes it and leaves every other region and the system maps alone |
| `AvmfSafety.ClearRequestIsSafe` | src/x86_64/src/avmf.c:167-179 | a request clear of the system's maps loses no page |
| `AvmfSafety.AllocKeepsInv` | src/x86_64/src/avmf.c:167-179 | an allocation clear of the system's maps keeps the invariant on every path, stranded runs included; a result is a live region with its own header |
| `AvmfSafety.UnmappedIsInRegion` | src/x86_64/src/avmf.c:193 | the one unmap of a free stays inside the freed region |
| `AvmfSafety.FreeKeepsInv` | src/x86_64/src/avmf.c:181-195 | a free keeps the invariant, ends exactly the region of its address, and keeps every table |
| `AvmfTheorems.RunsKeepInv` | src/x86_64/src/avmf.c:167-195 | the invariant holds after every run of lookups, frees and allocations clear of the system's maps |
| `AvmfTheorems.GoodRunsAreSafe` | src/x86_64/src/avmf.c:167-195 | such runs are runs for the books and for the page map |
| `AvmfTheorems.RecordsMatchTables` | src/x86_64/src/avmf.c:52-60 | at every address of a live region the page walk and the header records give the same physical address |
| `AvmfTheorems.RegionsSurviveRuns` | src/x86_64/src/avmf.c:167-195 | no run that spares a region changes what walk and records say of it |
| `AvmfTheorems.FreeUnmapsOnce` | src/x86_64/src/avmf.c:181-195 | a free removes one page or one slot from the translation and nothing else |
| `AvmfTheorems.FreeLeavesPages` | src/x86_64/src/avmf.c:181-195 | every page of a freed region may be handed out again, and those the one unmap does not reach still go there |
| `AvmfTheorems.FreeUnmapsRegionExactly` | src/x86_64/src/avmf.c:181-195 | after a free no page of the region is mapped exactly if it is one page, or one slot mapped whole |
| `AvmfExact.AllocSucceedsExactly` | src/x86_64/src/avmf.c:167-179 | for every kind and size: success exactly if space, a run of free pages in some range and a header are left; without space nothing changes, without a run the heap has moved, without a header the pages stay taken too |
| `AvmfExact.AllocExactly` | src/x86_64/src/avmf.c:167-179 | end to end: the header under the heap's old top, pages that were free and are taken, walk and records at each address give the memory at the same distance with the attributes asked for, no page outside the area moves |
| `AvmfExact.FreeExactly` | src/x86_64/src/avmf.c:181-195 | a free clears the bits of the region's pages and no other; heaps, headers, ranges and search hint stay |
| `Boot.BitLengthExact` | src/x86_64/src/pager.c:57-64 | the bit count is the least positive number of bits the value fits |
| `Boot.BitsNeeded` | src/x86_64/src/pager.c:57-64 | the shifting loop computes that bit count |
| `Boot.RamRangesExactly` | src/x86_64/src/pager.c:91-107 | the ranges handed to the allocator are the entries of type 1 that are not empty, byte for byte |
| `Boot.RamRangesInTwo` | src/x86_64/src/pager.c:91-107 | ... in the order of the memory map |
| `Boot.RootOk` | src/x86_64/src/pager.c:127-136 | the first table alone translates nothing and satisfies the pager's invariant |
| `Boot.EntryExtends` | src/x86_64/src/pager.c:143-158 | one memory-map entry extends the direct map from its end, and none of its pages lies in a slot already mapped whole |
| `Boot.DirectMapFrom` | src/x86_64/src/pager.c:138-159 | the gap-filling loop maps everything below its end, and its end is that of the last entry before the first beyond the processor's limit |
| `Boot.LastMapEndExactly` | src/x86_64/src/pager.c:138-159 | for every memory map, sorted or not: the loop ends at the first entry beyond the processor's limit, and the end it keeps is that of the last entry it went through |
| `Boot.IdentityEffect` | src/x86_64/src/pager.c:161-165 | an identity map sets exactly its pages to themselves |
| `Boot.IdentityMapsExact` | src/x86_64/src/pager.c:161-165 | the three identity maps put the firmware's pages at their own addresses, seven slots of its window whole, and leave the direct map alone |
| `Boot.BootMapsMemory` | src/x86_64/src/pager.c:83-172 | after pager_init the direct map translates every address below its end to itself, stack, data and window of the firmware are mapped to themselves, nothing else is mapped, and the invariant holds |
| `Boot.BooksFromBoot` | src/x86_64/src/pager.c:83-172 | pager_init leaves the books right for every memory map whose RAM fits the bitmap |
| `Boot.EveryRunFromBoot` | src/x86_64/src/pager.c:83-172 | every run from power-on keeps the invariant and the complete direct map |
| `Boot.DirectMapAgrees` | src/x86_64/src/pager.c:138-159 | after every good run, at each address of the direct map, page walk and avmf_virt_to_phys give the same memory, mapped with attributes 0x13 |
| `Boot.FirmwareAttributes` | src/x86_64/src/pager.c:161-165 | what is mapped to itself has attributes 3 |
| `Boot.OnlyRamIsUsed` | src/x86_64/src/pager.c:91-107 | over every run from power-on each used page lies wholly in an entry of type 1, and each such entry that is not empty is among the ranges |
| `BootRoom.MapRangeRoom` | src/x86_64/src/pager.c:66-81 | three tables for every slot touched are enough for a range |
| `BootRoom.SmallMachineBoots` | src/x86_64/src/pager.c:83-172 | with one RAM area of 4 MiB or more pager_init finds memory for all its tables and maps all of it |
| `BootRoom.LimitsAreReached` | src/x86_64/src/avmf.c:130-179 | with one RAM area from 2 MiB on, the three requests below succeed and do what they say |
| `SystemMaps.CanonicalIsSafe` | src/x86_64/src/avmf.c:167-179 | a canonical request loses pages to the firmware window only, never into a table |
| `SystemMaps.CanonicalRequestExactly` | src/x86_64/src/avmf.c:167-179 | after any good run a canonical request gets a region mapped as recorded exactly if it meets the seven whole slots of the firmware window only in slots set anew; the direct map is kept |
| `SystemMaps.WindowAfterRuns` | src/x86_64/src/pager.c:161-162 | the firmware window is kept by every run of requests clear of it |
| `SystemMaps.DirectMapExactly` | src/x86_64/src/avmf.c:151-161 | the direct map survives a request whose lost entries hit no page table exactly if each of its pages that the area aliases is lost to the region or recorded at its own place |
| `SystemMaps.UserHeapJumps` | src/x86_64/src/avmf.c:154-171 | a user request too long for memory fails but moves the heap anywhere up to the direct map |
| `AllocLimits.FirmwareWindowIsHandedOut` | src/x86_64/src/avmf.c:167-179 | from every booted state: the page at 0xFF000000 is returned and recorded in RAM, while the processor goes to the firmware |
| `AllocLimits.DirectMapIsHandedOut` | src/x86_64/src/avmf.c:151-179 | from every booted state: the page at 0x800000000000 and the direct map's first page are one page, and one of them is wrong |
| `AllocLimits.RootIsOverwritten` | src/x86_64/src/pager.c:207-216 | where the first table is the first frame of a whole slot, a user page makes client memory a page table; the direct map is kept |
| `LowPages.PageHistory` | src/x86_64/src/avmf.c:167-195 | after a run a lower-half page goes where the one area that took it says, or as before, and nowhere once freed |
| `LowPages.IdentityKeptExactly` | src/x86_64/src/pager.c:163-165 | from power-on a page mapped to itself is kept exactly if every recorded area that contains it has its memory there, same attributes, and no free reached it |
| `LowPages.FirstUserPage` | src/x86_64/src/avmf.c:130-179 | the first user page is at 0x1000 and replaces the identity mapping there |
| `LowPages.PageZeroStays` | src/x86_64/src/pager.c:163 | page 0 stays mapped to itself, present and writable, in every good run |
| `LowPages.RootPointerExactly` | src/x86_64/src/pager.c:180 | after every good run the pointer to the first table reaches it exactly if its address was mapped to itself and no recorded area contains it |
| `LowPages.RootPointerIsTaken` | src/x86_64/src/pager.c:180 | where the first table is page 1 the first user page takes the pointer's address |
| `Manager.MemoryManager.AllocVirt` | src/x86_64/src/avmf.c:130-165 | heap pointers and result equal the virtual allocation |
| `Manager.MemoryManager.AllocPageTable` | src/x86_64/src/pager.c:25-51 | bitmap, heap, headers and memory equal the table allocation |
| `Manager.MemoryManager.NextTable` | src/x86_64/src/pager.c:189-195 | one level of the descent, allocating when the entry is absent |
| `Manager.MemoryManager.Map` | src/x86_64/src/pager.c:174-219 | the whole state equals the mapping; refused exactly beyond the processor's physical limit |
| `Manager.MemoryManager.MapRange` | src/x86_64/src/pager.c:66-81 | the loop equals the range mapping |
| `Manager.MemoryManager.Unmap` | src/x86_64/src/pager.c:241-266 | table memory equals the unmapping |
| `Manager.MemoryManager.Alloc` | src/x86_64/src/avmf.c:167-179 | state and result equal the allocation |
| `Manager.MemoryManager.Free` | src/x86_64/src/avmf.c:181-195 | state equals the free |
| `Manager.MemoryManager.VirtToPhys` | src/x86_64/src/avmf.c:52-60 | result and cache equal the lookup |
| `Manager.MemoryManager.MapDirect` | src/x86_64/src/pager.c:138-159 | the loop equals the direct-map function |
| `Manager.MemoryManager.Init` | src/x86_64/src/pager.c:83-172 | state and end of the direct map equal pager_init |
| `Manager.MemoryManager.Load` | src/x86_64/src/pager.c:268-278 | the table given becomes the mapped one |
| `RunQueues.CreateStep` | src/x86_64/src/smp.c:249-253 | creating a thread puts it in its creator's hands and nowhere else |
| `RunQueues.StoreStep` | src/x86_64/src/smp.c:255-258 | the store of a push makes the thread the first of the list |
| `RunQueues.UnlinkStep` | src/x86_64/src/smp.c:198-201 | the store of a pop takes the first thread of a list that is never empty there |
| `RunQueues.LockStep` | src/x86_64/src/core.c:99-107 | taking or releasing a list's lock keeps mutual exclusion and every other core's promise |
| `RunQueues.OthersKeepPromises` | src/x86_64/src/smp.c:196-201 | what a core has read stays true while it waits, the untested non-empty list included |
| `RunQueues.DropStep` | src/x86_64/src/smp.c:255-258 | the store of NULL by a push without a thread drops the list and exposes an owner that has tested it |
| `RunQueues.StepKeepsInv` | src/x86_64/src/smp.c:190-258 | every step of every core keeps the invariant, failed creations included, up to a core that has read NULL |
| `QueueRuns.RunsKeepInv` | src/x86_64/src/smp.c:190-258 | so does every interleaving, until NULL is read |
| `QueueRuns.SafeUntilNull` | src/x86_64/src/smp.c:190-258 | until NULL is read: mutual exclusion, lists that end without repeats and hold no thread marked RUNNING, every thread in at most one place |
| `QueueRuns.NoThreadLostExactly` | src/x86_64/src/smp.c:253-258 | over every run every created thread is in some list or core at all times exactly if every store of NULL meets an empty list |
| `QueueRuns.NullReadExactly` | src/x86_64/src/smp.c:196-201 | over every run no owner reads NULL exactly if at every read the last store into its list since its test was not that of NULL |
| `QueueRuns.ExposureSteps` | src/x86_64/src/smp.c:196-201 | an owner is exposed only by a store of NULL after its test, and covered again by the store of a thread |
| `QueueRuns.NoReadWithoutCatch` | src/x86_64/src/smp.c:196-201 | no NULL is read if no store of NULL catches an owner between test and lock |
| `QueueRuns.NoNullWithoutFailure` | src/x86_64/src/smp.c:253-257 | where create_thread never fails no NULL is stored by a push |
| `QueueRuns.QueuesAreSafe` | src/x86_64/src/smp.c:190-258 | in every run in which stores of NULL meet empty lists, so in every run without a failed creation: no null read, mutual exclusion, lists that end without repeats, no listed thread marked RUNNING, every thread in exactly one place |
| `QueueRuns.FailedCreationDropsList` | src/x86_64/src/smp.c:253-258 | a push whose create_thread failed leaves an empty list and a free lock, and the threads of the list in no list and no core |
| `QueueRuns.ExposedOwnerReadsNull` | src/x86_64/src/smp.c:196-209 | an owner caught between test and lock reads NULL, puts back what page 0 holds and goes on with the stack found there |
| `QueueRuns.PushHidesNull` | src/x86_64/src/smp.c:196-201 | a thread pushed after the store of NULL hides it from a caught owner |
| `QueueRuns.NullReadIsReached` | src/x86_64/src/smp.c:190-258 | a run from the start in which a thread is lost and NULL is read |
| `QueueRuns.ThreadsStay` | src/x86_64/src/smp.c:231-258 | in every run in which stores of NULL meet empty lists a thread that is in some list or core stays in one |
| `QueueRuns.ListsAreStacks` | src/x86_64/src/smp.c:198-201 | read through the links, each list is a stack whose pushes and pops are single stores, and which a store of NULL drops |
| `QueueRuns.ThreadPush` | src/x86_64/src/smp.c:249-258 | a push left alone, from a task or the scheduler loop: the thread is the list's first, linked to the old head, the lock is free, the core goes on where it was |
| `QueueProgress.PopRunsFirst` | src/x86_64/src/smp.c:196-209 | a pop left alone: the core runs the first thread of its list, marked RUNNING, the rest is its list and the lock is free |
| `QueueProgress.LockHeldWaits` | src/x86_64/src/core.c:99-103 | while the lock is held a core that needs it waits and changes nothing |
| `QueueProgress.PushedRunsNext` | src/x86_64/src/smp.c:190-258 | a thread pushed onto a core's list is the next that core runs, ahead of all that waited |
| `QueueProgress.YieldGoesFirst` | src/x86_64/src/smp.c:231-247 | a yield left alone: the thread is in front of its core's list, no longer RUNNING, and the core is idle in its loop |
| `QueueProgress.YieldResumesItself` | src/x86_64/src/smp.c:231-247 | ... so that the core runs the very same thread again, lists as before |
| `QueueProgress.HaltedStays` | src/x86_64/src/smp.c:193-220 | a core told to shut down in its loop halts and stays halted in every run |
| `ContextSwitch.Processor.PushAll` | src/x86_64/src/asm/nasm/switch_thread_context.asm:8-13 | call and pushes lay down the frame |
| `ContextSwitch.Processor.PopAll` | src/x86_64/src/asm/nasm/switch_thread_context.asm:18-25 | pops and ret read a context from a frame |
| `ContextSwitch.Processor.ThreadContextSwitch` | src/x86_64/src/asm/nasm/switch_thread_context.asm:7-25 | registers, stack pointer, return address and memory equal the switch |
| `ContextSwitch.Processor.PrepareStack` | src/x86_64/src/smp.c:109-119 | create_thread's stores equal the prepared stack |
| `ContextSwitch.SwitchExact` | src/x86_64/src/asm/nasm/switch_thread_context.asm:7-25 | a switch resumes the other thread as it was left and leaves the old one resumable |
| `ContextSwitch.SwitchStores` | src/x86_64/src/asm/nasm/switch_thread_context.asm:7-16 | word for word: return address, rbp, rbx, r12, r13, r14, r15 go below the stack pointer, downwards, the new stack pointer into the old record, no other word changes |
| `ContextSwitch.SwitchReads` | src/x86_64/src/asm/nasm/switch_thread_context.asm:16-25 | the same seven words are read back from where the new record says |
| `ContextSwitch.NewStackStores` | src/x86_64/src/smp.c:105-119 | word for word: the entry at the top of 16384 bytes, six zeroes below, their address in the record, no other word |
| `ContextSwitch.CreateExact` | src/x86_64/src/smp.c:105-122 | a new thread is resumable at its entry on an empty stack with zeroed registers, and no other thread is disturbed |
| `ContextSwitch.SuspendedStays` | src/x86_64/src/smp.c:203-209 | until it is switched to again a thread's context stays as it was left |
| `ContextSwitch.SwitchRoundTrip` | src/x86_64/src/asm/nasm/switch_thread_context.asm:7-25 | after any sequence of switches, computations and creations a thread resumes with the registers, stack pointer and return address of its call |
| `ContextSwitch.FirstResume` | src/x86_64/src/smp.c:105-119 | whenever it is first switched to, a new thread starts at its entry, stack empty, registers zero |
| `BlockHeap.ChainIsUnique` | src/x86_64/src/core.c:245-251 | the blocks freed from an address on are determined |
| `BlockHeap.ChainMeetsOnce` | src/x86_64/src/core.c:245-251 | a chain that ends meets no block twice |
| `BlockHeap.ChainExactly` | src/x86_64/src/core.c:245-251 | a chain, without recursion: signed members, each linked to the next, the last to NULL or to a header without the signature |
| `BlockHeap.LinkedIsChain` | src/x86_64/src/core.c:235-241 | fresh blocks linked one after the other form exactly the chain of the first |
| `BlockHeap.LinkedBothWays` | src/x86_64/src/core.c:235-241 | blocks linked one after the other are linked both ways; the last keeps its next and the first its previous link |
| `BlockHeap.BlockRoomExactly` | src/x86_64/src/core.c:220-233 | the block returned has room for the size asked for exactly if adding the 34 bytes of the header does not wrap |
| `BlockHeap.FreeAllExact` | src/x86_64/src/core.c:243-252 | freeing a chain ends exactly the regions of its blocks and keeps the memory manager's invariant |
| `BlockHeap.LinkedBlocksAreFreed` | src/x86_64/src/core.c:235-252 | after linking, freeing the first block ends exactly the regions of all of them |
| `BlockHeap.Heap.FMalloc` | src/x86_64/src/core.c:220-233 | a block is a user region with a signed, unlinked header; failure changes no header |
| `BlockHeap.Heap.FLink` | src/x86_64/src/core.c:235-241 | sets the one next and the one previous link |
| `BlockHeap.Heap.FFree` | src/x86_64/src/core.c:243-252 | frees each block of the longest validly signed prefix once, in order, reading each link first |
| `IntegerText.DigitsFit` | src/x86_64/src/drivers/serial/serial.c:56-67 | in every base a k-bit value has at most k digits, so the 64-character buffer suffices |
| `IntegerText.DigitsMeanNumber` | src/x86_64/src/drivers/serial/serial.c:64-67 | in every base the digits stand for the value, without a needless leading zero |
| `IntegerText.TableSuffices` | src/x86_64/src/drivers/serial/serial.c:57-65 | the digit table has a digit for every 64-bit value exactly in the bases up to 16 |
| `IntegerText.FormatLength` | src/x86_64/src/drivers/serial/serial.c:69-86 | in every base the output is as long as the width or the number with its sign, whichever is more |
| `IntegerText.FillBuffer` | src/x86_64/src/drivers/serial/serial.c:56-67 | in every base the buffer holds the digits in reverse and is never overrun |
| `IntegerText.Serial.PrintInteger` | src/x86_64/src/drivers/serial/serial.c:55-87 | emits padding, sign and digits in the right order, in every base |
| `IntegerText.DigitsMeanValue` | src/x86_64/src/drivers/serial/serial.c:64-67 | in bases up to 16 the characters printed read as the value |
| `IntegerText.PrintedReads` | src/x86_64/src/drivers/serial/serial.c:55-87 | whatever width and padding: blanks, sign, zeroes and digits in that order, which read as the value in two's complement |
| `IntegerText.ParseUint` | src/x86_64/src/core.c:140-163 | the parsing loops compute the parse in 32-bit arithmetic |
| `IntegerText.DecimalParsesValue` | src/x86_64/src/core.c:156-159 | decimal digits parse to their value modulo 2^32 |
| `IntegerText.HexParsesValue` | src/x86_64/src/core.c:147-154 | hexadecimal digits parse to their value modulo 2^32 |
| `IntegerText.DigitsExactly` | src/x86_64/src/core.c:150-156 | the digits are 0-9, a-f and A-F with their values, and no other character |
| `IntegerText.CaseIsIgnored` | src/x86_64/src/core.c:140-163 | upper and lower case read alike, prefix included |
| `IntegerText.PrefixReads` | src/x86_64/src/core.c:144-154 | behind 0x or 0X hexadecimal digits read as their value modulo 2^32 |
| `IntegerText.DecimalStops` | src/x86_64/src/core.c:156-159 | without a prefix the digits up to the first other character count, modulo 2^32, whatever follows |
| `IntegerText.DecimalRoundTrip` | src/x86_64/src/core.c:140-163 | reading back a printed 64-bit value gives it modulo 2^32 exactly when no blank was put in front or the answer is zero |
| `IntegerText.HexRoundTrip` | src/x86_64/src/core.c:144-154 | the same behind the prefix 0x |
| `IntegerText.InvalidHexShifts` | src/x86_64/src/core.c:147-154 | at an invalid character the result has been shifted once too often, and is right exactly when it is zero |
| `Timer.ElapsedExact` | src/x86_64/src/acpi.c:92-105 | the count never exceeds the true ticks and equals them exactly when no two reads are a period or more apart |
| `Timer.Mdelay` | src/x86_64/src/acpi.c:84-108 | returns at the first reading by which enough ticks are counted, in 64-bit arithmetic |
| `Timer.CountExact` | src/x86_64/src/acpi.c:89-105 | the 64-bit count is right for all readings exactly if the ticks and one period stay within 64 bits |
| `Timer.DelayIsLongEnough` | src/x86_64/src/acpi.c:84-108 | on exit at least ms milliseconds have passed at 3.579545 MHz |
| `Timer.DelayEndsOnTime` | src/x86_64/src/acpi.c:84-108 | where no two reads are a period apart the delay ends at the first reading by which 3580 ticks a millisecond have passed |
| `Timer.TicksNeededExact` | src/x86_64/src/acpi.c:88 | the tick count is enough for ms milliseconds exactly when the product does not wrap |

## Left out

- Port I/O, LAPIC and IPI writes, MSR and CR3 writes, `invlpg`, interrupts, ATA, PS/2, VGA, PCIe, modules and the ACPI table scans: hardware plumbing and field tests.
- The change from identity to direct-map addressing of tables when paging is switched on: table memory is addressed by physical page throughout. When the program's own pointer to the first table is right is `LowPages.RootPointerExactly`.
- Runs in which a page-table allocation fails or wraps the sensitive heap: the program then uses page 0 or NULL as a table.
- `avmf_map`, `avmf_map_identity_virt`, `avmf_free_phys` and `pager_destroy_table`: they rewrite headers or free without a usable contract.
- Locks and interleaving inside `avmf.c`: it is modelled sequentially, interleaving is modelled for the ready lists.
- Memory maps that are unsorted, overlapping or not page aligned (but for `Boot.BooksFromBoot`, `Boot.OnlyRamIsUsed` and `Boot.LastMapEndExactly`), and processors with fewer than 32 or more than 52 physical address bits.
- The PCIe window that `pcie.c` maps inside the sensitive space without a header: runs do not include it.
- Version, signature, used and attribute fields of the header records: never read by the operations modelled.
- PageMaps.TablesFollowTheMap: speaks of runs in which no lost entry is written into a page table; entries that hit PTs are in `LostEntries.TablesFollowTheSteps`.
- LostEntries.TablesFollowTheSteps: ends where an entry hits a table above the PTs, since client memory is then read as a table; that one step is `LostEntries.UpperHitExact`, and that it happens `BootRoom.LimitsAreReached`.
- AvmfTheorems.RunsKeepInv: speaks of areas that are canonical and clear of the firmware window; for all other requests see `PageMaps.TablesFollowTheMap`, `SystemMaps.CanonicalRequestExactly` and `SystemMaps.DirectMapExactly`.
- LowPages.IdentityKeptExactly: speaks of the same runs, and so do `LowPages.PageZeroStays` and `LowPages.RootPointerExactly`.
- Manager.MemoryManager.Free: requires the header found to lie in the bitmap, which every live region does.
- Manager.MemoryManager.MapRange: requires the size to be 2 MiB below 2^64, because the loop's own offset wraps there.
- Manager.MemoryManager.Init: requires memory-map entries that end within 64 bits.
- BlockHeap.Heap.FFree: requires a chain that ends and whose blocks are live regions; on a cycle the program reads freed blocks.
- `fcalloc` and `frealloc`: they rest on assembly helpers and copy the old size.
- What a core runs once it has switched to the stack pointer found in page 0, and any other writer of page 0.
- Translations of addresses that are not canonical, beyond the table entries they select: the processor faults first.
- Thread ids, fairness of the last-in first-out lists, and a task that returns from its entry.
- Core status values, wake-up IPIs, reserving cores, and the BSP's missing scheduler loop beyond the fact that it takes no pop steps.
- ContextSwitch.SwitchRoundTrip: takes stack and record words as not overlapping, that is, 8-byte aligned.
- IntegerText.Serial.PrintInteger: takes what lies beyond the 16 digits of the table as given; the most negative value is negated modulo 2^64.
- `serial_printf` directives other than the integer conversion they call.
- Timer.Mdelay: takes the readings as an argument that suffices for the delay; with no timer port the program waits for ever.
