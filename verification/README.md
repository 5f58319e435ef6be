# Verification of the h0r.net kernel core

A Dafny 4.11 model of the state-keeping core of h0r.net, an x86_64 hobby kernel, with proofs.
Run `dafny verify dfyconfig.toml` to check everything.

The model follows the kernel's own layers, and they share one machine:

- **Memory** (`Words`, `Bitmap`, `Machine`, `Pmm`, `PmmInit`, `Ownership`, `Heap`). Physical memory is one
  byte array. The page bitmap, the heap's block headers, the page-table entries, the boot archive and the
  vector's elements are all bytes of that array. `Machine` holds the globals of `pmm.c`; its ghost fields
  say who owns the locked pages. `SystemInv` is the invariant: bitmap, tables and live blocks own
  disjoint locked pages, the three counters agree with the bitmap, and memory holds every table entry and
  block header.
- **Paging** (`PageEntries`, `PageTables`, `PageMapping`, `PagingSteps`, `Pager`, `Unmapping`, `PagerRanges`, `PagingRuns`,
  `PagingGroups`, `PagingHistory`).
  `PageTables` is the processor's 4-level walk over a forest of tables (sections 4.5 and 4.6 of the Intel
  SDM, Volume 3A). Every paging call is a method over memory whose contract says what it does to the walk
  of every page of every pagemap and that it is a `PagingSteps.Step`. `PagingRuns` proves that over runs of these steps
  the lower halves refine a plain map, and `PagingGroups` the same for what pagemaps share; `PagingHistory` says what the past of a page decides: its effective rights,
  whether the literal unmap finds it, and whether vmm_virt_to_phys tells the truth about it.
- **Whole runs** (`SystemRuns`): any sequence of malloc, free, realloc, paging calls and page requests.
- **Scheduler** (`Scheduler`, `SchedulerRuns`), and `KernelExec`, which composes it with memory and paging;
  `Inputs` builds machines on which calls go wrong.
- **Strings and files** (`Strings`, `Vector`, `TarFormat`, `Tar`, `Descriptors`, `Siv`, `SivRuns`): the tokenizer, the
  ustar reader on a heap vector, the tar driver, and the descriptor table that can preload files.

Conventions. Unsigned machine integers are natural numbers and the C operators `& | ^ ~ << >>` are defined
on their binary digits (`Bits`); wrap-around is written out where it can occur. A pointer is a physical
address: the constant HHDM offset is left out, except in `Unmapping`, where the code forgets it. The panic
of `trigger_psod` never returns, so a call that may panic returns `None` or `false` for "no result"; its
contract says that this happens only when the page search accepts no candidate (`Pmm.NoRoom`).
C's NULL is `None` where a function accepts or returns it.

## Where the code departs from its intent

- `PAGE_TO_BIT` divides by 4096, so for ordinary counts the page search tests one bit
  (`src/core/mm/pmm.h:13`, `src/core/mm/pmm.c:102`). The divisor is the constant `unit` of `Machine`: 4096
  is the code as written, 1 is what the macro's name says. `Pmm.RequestsAreFreshIff` proves that the pages of
  a request are always free exactly when the search tests as many bits as it hands out pages; for the
  literal code that is `num <= 1`. Paging results hold for any `unit`, since a table needs one page; `Heap.Malloc` and `KernelExec.Execute`
  say for any `unit` when the pages were free, and a run may contain requests that overlap other owners (`Overlapped`). The
  other heap results assume `Allocatable`: literally blocks of one page, and with divisor 1 every size.
- The search window is compared with the bitmap's size in bytes (`src/core/mm/pmm.c:100`). Failure is
  characterised relative to that window; `Inputs.RequestMissesLatePage` fails with a page free.
- `bitmap_set` accepts the index one past the end (`src/libk/bitmap.c:7`): `Bitmaps.SetStaysInsideIff`.
- A malloc payload fits its pages exactly when `size % 4096 <= 4088`: `Heap.PayloadFitsIff`.
- The bitmap is sized by the sum of the entries' lengths, so a memory map with holes can leave usable pages
  without a bit: `PmmInit.HolesAreNotCovered`; exactly when is `PmmInit.AllPagesHaveBitsIff`, and what `pmm_init` does then
  is in its contract; a map that tiles memory is fine: `PmmInit.TilingIsCovered`.
- `pmm_init` frees bootloader-reclaimable memory. The invariant holds at boot exactly when no page of
  the boot loader's page tables lies in an entry treated as free: `SystemRuns.BootInvariantIff`.
- `execute` asks for two pages, so with the literal search only the first one is known to be free: `KernelExec.Execute`
  holds for any divisor and says when the second one was free, `Inputs.StackOnOwnedPage` is a machine on which
  it belongs to the kernel's pagemap or to a live block.
- `vmm_unmap_page` uses `entry & ~0xFFF` as a pointer (`src/arch/x86_64/pager.c:129-137`). `UnmapPage` takes
  the literal pointer with a given offset, or the pointer that map forms. With an identity mapping the literal
  one works exactly where all tables were made for mappings with X: `Unmapping.LiteralUnmapIff`,
  `Unmapping.FollowableIff`, `PagingHistory.LiteralUnmapOverRunIff`.
- Mapping or editing without R leaves the address in a non-present entry when the page already has a last-level
  table, and `vmm_virt_to_phys` then returns it although the page is not mapped (`PagingHistory.StaleAddress`);
  on a page without such a table the address is lost. `PagingHistory.StaysCleanIff` is the exact condition.
- With 64 processes the scan ring includes slot 64. The scan gets there unless a slot after the current one is
  READY: `SchedulerRuns.StaysInsideIff`.
- `hdr_num` is a byte: `TarFormat.AllFoundIff`. `parse_size` keeps 32 bits: `TarFormat.ParseSizeInvertsIff`.
- `tar_read` and `tar_write` clamp the count but not the offset: `Tar.CopyInsideIff`.

## Model

| member | source | states |
|---|---|---|
| Bitmaps.BitmapSet | src/libk/bitmap.c:6-18 | accepts an index up to and including `size * 8` and then changes exactly one bit of memory; rejects larger indices without a change |
| Bitmaps.BitmapGet | src/libk/bitmap.c:20-26 | the bit of memory at that index, without a check of the index |
| Bitmaps.GetAfterSet | src/libk/bitmap.c:6-26 | after bitmap_set, bitmap_get gives the new value at that index and the old value at every other index |
| Bitmaps.SetStaysInsideIff | src/libk/bitmap.c:7-16 | an accepted call that flips a bit stays inside the buffer exactly when the index is not `size * 8` |
| Pmm.LockPage | src/core/mm/pmm.c:18-30 | for every readable index: the bit is set iff bitmap_set accepts it, the counters move iff that flips it, and the call fails iff the bit is clear and rejected; under the invariant the page is no longer free and the invariant is kept |
| Pmm.FreePage | src/core/mm/pmm.c:31-43 | the same with the bit cleared, pages outside usable memory included; under the invariant a usable page becomes free |
| Words.Memmove | src/libk/string.c:43-60 | the destination gets the original source bytes for every overlap, and nothing else changes |
| Words.Memcpy | src/libk/string.c:31-41 | the forward copy is right whenever the destination does not start inside the source, in particular when it starts below an overlapping source |
| Words.Memset | src/libk/string.c:62-71 | every byte of the range gets the value and no other byte changes |
| Pmm.LockPages | src/core/mm/pmm.c:66-72 | all accepted bits of the run are set, also if the call fails, and no others; the counters move by exactly the bits flipped, modulo 2^64; it fails iff some page is clear and rejected; under the invariant the run is no longer free and the invariant is kept |
| Pmm.FreePages | src/core/mm/pmm.c:73-79 | the same with the bits cleared; under the invariant every page of a usable run becomes free, already free ones included |
| Pmm.Conservation | src/core/mm/pmm.c:18-43 | free_mem + used_mem == total_mem without wrap-around in every state with the invariant that all calls keep |
| Pmm.CountedAfter | src/core/mm/pmm.c:23-39 | counters that move by PAGE_SIZE times the change in the number of clear bits keep agreeing with the bitmap, without wrap-around |
| Pmm.FindFreeRange | src/core/mm/pmm.c:99-112 | returns the first candidate of the window whose tested bits are all clear, and panics only if the window has none; never reads past the bitmap |
| Pmm.FirstFitUnique | src/core/mm/pmm.c:99-112 | the search condition fixes the result: no other page meets it |
| Pmm.LooksFreeIff | src/core/mm/pmm.c:99-112 | a candidate is accepted iff it and the num / unit pages after it are free |
| Pmm.LiteralFirstFitIff | src/core/mm/pmm.h:13 | as the macro is written, any request of fewer than 4096 pages is given the first free page of the window, whatever follows it |
| Pmm.RequestPages | src/core/mm/pmm.c:114-120 | first fit, and the free set shrinks by exactly the run; all its pages were free if the search tested them all; nothing is found iff no candidate of the window looks free (`NoRoom`) |
| Pmm.RequestsAreFreshIff | src/core/mm/pmm.c:99-112 | requested pages are free in every state iff num is at most the number of tested bits; with the literal divisor iff num <= 1, with divisor 1 always |
| Pmm.LiteralSearchOverlaps | src/core/mm/pmm.c:99-112 | a concrete bitmap in memory for which a request of two pages hands out a locked page |
| Inputs.RequestMissesLatePage | src/core/mm/pmm.c:100 | the input: a machine with page 5000 free and a bitmap of 4096 bytes, on which a request for one page panics |
| PmmInit.PmmInit | src/core/mm/pmm.c:124-161 | for every aligned ascending map: panics iff no usable, bootloader-reclaimable or ACPI-reclaimable entry can hold the bitmap; otherwise the pages of those entries are the usable ones, and total_mem is 4096 bytes for each; the clear bits are the usable pages that have a bit, minus the bitmap's own, which are all usable pages minus its own iff `LosesNothing`; no page of an entry of another kind is free; the counters agree when every page has a bit, and the invariant holds when the last bit is spare too |
| PmmInit.UnreservePages | src/core/mm/pmm.c:87-93 | clears exactly the accepted bits of the run, fails iff some page is locked and rejected, and leaves the counters alone |
| PmmInit.TilingIsCovered | src/core/mm/pmm.c:129-131 | sum-of-floors bound: for a map that tiles memory from 0, every free page has a bit in the aligned bitmap |
| PmmInit.AllPagesHaveBitsIff | src/core/mm/pmm.c:129-131 | every usable page has a bit iff every free entry ends at or below the number of bits |
| PmmInit.LosesNothingIff | src/core/mm/pmm.c:155-161 | pages that are not the bitmap's own are lost iff some free entry, other than one the bitmap fills, ends above the number of bits |
| PmmInit.BitsMeanReadsInside | src/libk/bitmap.c:20-26 | when every page has a bit, nothing behind the bitmap is read |
| PmmInit.HolesAreNotCovered | src/core/mm/pmm.c:129-131 | the input: a map with a hole in which page 0x100000 is usable and the bitmap has 32768 bits |
| PmmInit.AllOnesIsFull | src/core/mm/pmm.c:152 | after the memset no page is free |
| PmmInit.FreePagesCount | src/core/mm/pmm.c:134-145 | total_mem counts exactly the pages of the free entries |
| Heap.Malloc | src/core/mm/heap.c:9-17 | for every divisor: NULL iff no run for size / 4096 + 1 pages is found; otherwise stores the size in a header on the first-fit page, which was free, and changes no other byte outside the bitmap; the run becomes a new block iff all its pages were free, otherwise only its free pages leave the free set |
| Heap.Free | src/core/mm/heap.c:18-26 | reads the size back from the header and frees exactly the pages malloc took; NULL is ignored |
| Heap.FreeUndoesMalloc | src/core/mm/heap.c:9-26 | malloc then free restores the free set and the set of live blocks |
| Heap.Calloc | src/core/mm/heap.c:27-31 | a new block of count * size bytes modulo 2^64, all zero, or NULL iff no run for it is found |
| Heap.Realloc | src/core/mm/heap.c:32-43 | every byte below both the old and the new size is found again at the same offset, although the old block is freed before the copy; no byte outside the new block and the bitmap changes; NULL only when the new size finds no room with the old block free, which then stays free |
| Heap.ReallocPlus | src/core/mm/heap.c:44-53 | the same for every byte below both the size the caller gives as the old one and the new size |
| Heap.NewStartNotInside | src/core/mm/heap.c:38-40 | first fit never places the new block strictly inside the freed one |
| Heap.SourceIntact | src/core/mm/heap.c:38-40 | neither the bitmap updates nor the new header touch the old payload before it is copied |
| Heap.TakeBlock | src/core/mm/heap.c:11 | a run of free pages can become a block without touching any owner |
| SystemRuns.RunSafe | src/core/mm/heap.c:9-43 | in every state of every run blocks, tables and bitmap own disjoint locked pages and headers hold the sizes |
| SystemRuns.UntouchedBlockSurvives | src/core/mm/heap.c:9-43 | a live block not freed, moved or written by its owner keeps every byte over any run |
| SystemRuns.TablesAreNeverReused | src/arch/x86_64/pager.c:36-57 | a table page stays a table and is never among the free pages any later step takes |
| SystemRuns.TakenPagesAreUnowned | src/core/mm/pmm.c:114-120 | no page a step takes belongs to the bitmap, a table or a block that stays |
| SystemRuns.CallsAreSteps | src/core/mm/heap.c:9-43 | the contracts of the calls are steps of these runs |
| SystemRuns.BootInvariantIff | src/core/mm/pmm.c:153-161 | the invariant holds at boot iff no boot page table lies in memory that pmm_init frees |
| PageEntries.TransformFlags | src/arch/x86_64/pager.c:19-34 | each bit of the entry flags in terms of R, W, X and U |
| PageEntries.MappedEntry | src/arch/x86_64/pager.c:78 | frame, presence and rights read back from `paddr \| transform_flags(flags)` |
| PageTables.IndicesDetermine | src/arch/x86_64/pager.c:69-72 | a page number is determined by its four indices |
| PageTables.TranslateIsFourReads | src/arch/x86_64/pager.h:4-10 | a translation is four entry reads linked by address mask 0x000FFFFFFFFFF000; bit 0 of all four makes it present, bits 1, 2 and 63 its rights |
| Pager.IndicesOf | src/arch/x86_64/pager.c:69-72 | the four shift-and-mask expressions are the indices of bits 12 to 47 of the address |
| PageTables.WalkUnique | src/arch/x86_64/pager.c:36-48 | a table is on the walks of one page-number prefix only, up to shared upper halves |
| PageTables.LeafStoreTranslate | src/arch/x86_64/pager.c:78 | storing a last-level entry changes one page in the pagemaps that reach the table and no other translation |
| PageTables.NewTableTranslate | src/arch/x86_64/pager.c:41-46 | adding an empty table changes no translation of any pagemap |
| Pager.GetNextLevel | src/arch/x86_64/pager.c:36-48 | follows a present entry, or hangs from it a fresh zeroed page that was free and is in no other owner's hands; fails only for a missing table with no free page found |
| Pager.MapPage | src/arch/x86_64/pager.c:68-80 | the page translates to exactly the requested frame and flags (to nothing without R), effective rights limited by existing tables only, and vmm_virt_to_phys gives paddr iff R was asked or the page had a last-level table, else 0; every other page of every pagemap as before; one page is taken for each table missing on the path; it fails only when a table is missing and no free page is found, and then no translation has changed |
| Pager.EditFlags | src/arch/x86_64/pager.c:82-94 | keeps the frame of the old entry and replaces the flags; vmm_virt_to_phys gives for every page what it gave before; pages taken and failure as for MapPage |
| Pager.VirtToPhys | src/arch/x86_64/pager.c:143-153 | returns the address field of the last-level entry and changes no translation, no such field and no path rights, although it links non-present tables; pages taken and failure as for MapPage |
| Pager.CreatePagemap | src/arch/x86_64/pager.c:50-57 | pages from 0x800000000 on as the kernel's and shared with it, lower half empty, other pagemaps unchanged, all of it also for what vmm_virt_to_phys reads; fails only when no free page is found |
| Unmapping.UnmapPage | src/arch/x86_64/pager.c:119-141 | fails iff the page has no last-level table; afterwards the page does not translate, vmm_virt_to_phys gives 0 for it, and nothing else changes |
| Unmapping.LiteralPointerIff | src/arch/x86_64/pager.c:129-137 | the literal table pointer is right iff bits 52 to 63 of the entry spell the offset |
| Unmapping.LiteralUnmapIff | src/arch/x86_64/pager.c:129-137 | with an identity mapping the literal pointer finds a table iff the request that made it asked for X |
| Unmapping.FollowableIff | src/arch/x86_64/pager.c:129-137 | and the literal unmap follows a page's whole walk iff every table on it grants execution |
| PagerRanges.MapRange | src/arch/x86_64/pager.c:96-107 | exactly the overlay of npages consecutive pages on the old translation, wrapping ranges included; or, only when no free page is found, the overlay of fewer of them |
| PagerRanges.UnmapRange | src/arch/x86_64/pager.c:108-117 | exactly the removal of those pages, and success iff all had a table |
| PagingSteps.LastHitNoWrap | src/arch/x86_64/pager.c:96-107 | in a range that does not wrap, page v+i gets frame p+i |
| PagingRuns.RunRefinesPlainMap | src/arch/x86_64/pager.c:36-153 | over any run of single-page and range calls, lookups and new pagemaps, each of which the methods promise to be a step, the lower half of every pagemap translates as a plain map of last requests, with effective rights never above them |
| PagingRuns.Isolation | src/arch/x86_64/pager.c:50-80 | a lower-half change of one pagemap is invisible in every other |
| PagingRuns.SharingLasts | src/arch/x86_64/pager.c:53-55 | pagemaps that share a top-level entry translate everything below it alike for ever |
| PagingGroups.RunRefinesGroupMap | src/arch/x86_64/pager.c:36-153 | over any run, below any top-level entry, a pagemap translates as a plain map of the requests last made through any pagemap sharing the entry |
| PagingGroups.GroupAgrees | src/arch/x86_64/pager.c:53-55 | and so does every other pagemap that shares it at the end, as all do with the kernel's upper half |
| PagingHistory.RequestedRightsIff | src/arch/x86_64/pager.c:41-78 | in the lower half of a pagemap created in the run, effective rights equal the rights last asked for iff every table on the path was made by a request for at least those |
| PagingHistory.LiteralUnmapOverRunIff | src/arch/x86_64/pager.c:129-137 | there, the literal unmap reaches a page iff every table on its path was made by a request with X |
| PagingHistory.StaysCleanIff | src/arch/x86_64/pager.c:68-153 | if vmm_virt_to_phys gives 0 for all unmapped pages, it still does after a call iff the call asks for R, stores address 0, or finds no last-level table |
| PagingHistory.LookupsRefinePlainMap | src/arch/x86_64/pager.c:143-153 | over runs of such calls it gives the frame last asked for every lower-half page, and 0 for unmapped ones |
| PagingHistory.StaleAddress | src/arch/x86_64/pager.c:78 | the input: a page with its tables, mapped without R to 0x5000, is not mapped and yet looked up as 0x5000 |
| Scheduler.SchedulerState.NextProcess | src/core/sys/sched/sched_algo.c:9-24 | terminates when the scan stays in the table, selects the cyclically first READY slot: no slot it passes in ring order is READY, exactly the dead ones among those are zeroed, and no other slot changes |
| Scheduler.ChoiceIsNext | src/core/sys/sched/sched_algo.c:9-24 | the choice in ring order: nothing READY lies strictly between the current slot and the chosen one |
| Scheduler.SchedulerState.Schedule | src/arch/x86_64/constant_isrs.c:14-34 | starts the scheduler, saves the frame in the running slot only, then resumes the selected slot's registers and pagemap |
| SchedulerRuns.RunningIff | src/arch/x86_64/constant_isrs.c:15-16 | over any run the scheduler runs iff it did at the start or a tick has happened |
| Scheduler.SchedulerState.AddProcess | src/core/sys/sched/sched.c:12-22 | the new process takes slot num, the last one included, and no other slot changes; or -1 and no change when 64 are in use |
| Scheduler.SchedulerState.Kill | src/core/sys/sched/sched.c:23-33 | marks the slot, and switches away at once when it is the current one |
| Scheduler.SchedulerState.BlockProcess | src/core/sys/sched/sched.c:51 | marks the slot BLOCKED, dead and unused slots included, and changes nothing else |
| Scheduler.SchedulerState.UnblockProcess | src/core/sys/sched/sched.c:53 | marks the slot READY, dead and unused slots included, and changes nothing else |
| Scheduler.ScanStep | src/core/sys/sched/sched_algo.c:13-23 | one round moves one slot on, reaps the slot it leaves and never passes a READY one |
| SchedulerRuns.BoundedBypass | src/core/sys/sched/sched_algo.c:9-24 | a process that stays READY is selected within num + 1 ticks if none is added, and within 64 under any interleaving |
| SchedulerRuns.ContextIntegrity | src/arch/x86_64/constant_isrs.c:14-34 | over any run a resumed process gets its own pagemap and exactly the frame of the last tick that interrupted it, where every tick but the one that starts the scheduler interrupts the current process; before that, its first registers |
| SchedulerRuns.InterruptedFrameReturns | src/arch/x86_64/constant_isrs.c:14-34 | after an earlier tick, the frame a live process is interrupted with stays in its slot until it is interrupted again, and is what the next tick that selects it resumes |
| SchedulerRuns.AddedContext | src/core/sys/sched/sched.c:12-22 | a new process is READY with the name, registers and pagemap it was given, in a slot of its own |
| SchedulerRuns.OtherSlotsUntouched | src/core/sys/sched/sched_algo.c:13-20 | saving, reaping and adding leave every other live slot as it was |
| SchedulerRuns.StatesAfter | src/core/sys/sched/sched.c:12-53 | which slots each event makes READY, BLOCKED or DEAD; a tick only empties dead slots and selects a READY one |
| SchedulerRuns.StoppedStaysAway | src/core/sys/sched/sched_algo.c:13-20 | over any run a killed or blocked process is never selected until its slot is unblocked or given to a new process |
| SchedulerRuns.ChoiceExistsIff | src/core/sys/sched/sched_algo.c:13-23 | the scan has a slot to stop at iff some slot of the ring is READY |
| SchedulerRuns.ChoiceUnique | src/core/sys/sched/sched_algo.c:13-23 | and then there is only one |
| SchedulerRuns.StaysInsideIff | src/core/sys/sched/sched_algo.c:9-24 | the scan stays in the table iff some slot is READY and, with 64 processes, one after the current slot is |
| SchedulerRuns.FullTableLeaves | src/core/sys/sched/sched_algo.c:11-12 | the input: 64 processes of which only the running first one is READY |
| KernelExec.Execute | src/core/sys/krnlexec.c:11-26 | for the literal page search too: the new process is READY with the given name and entry point, its stack pointer at the end of its two pages and the selectors of its mode; below the kernel half it sees exactly those pages, with R, W, U; no other pagemap changes; the first stack page was free, the second iff it is the next free page; it fails only when a request for one or two pages finds none |
| KernelExec.PairFreshIff | src/core/mm/pmm.c:99-112 | of two requested pages the first was free, and both were iff the page after it was |
| Inputs.StackOnOwnedPage | src/core/sys/krnlexec.c:11-26 | the input: a machine with the system invariant, built byte by byte, on which the second stack page is always the kernel's pagemap or a live heap block |
| Strings.Strspn | src/libk/string.c:162-176 | stops at the first byte that is no delimiter, or at the end |
| Strings.Strcspn | src/libk/string.c:101-113 | stops at the first delimiter, or at the end |
| Strings.Strcmp | src/libk/string.c:84-92 | 0 iff the strings are equal, otherwise the sign of the first difference as unsigned bytes |
| Strings.Tokenizer.Strtok | src/libk/string.c:178-196 | one call: skips delimiters, cuts the token in place, moves the saved pointer; after NULL it keeps returning NULL |
| Strings.TokensAreTheWords | src/libk/string.c:178-196 | the tokens are exactly the maximal non-empty delimiter-free runs, in order |
| Strings.CallsYieldTheWords | src/libk/string.c:178-196 | the n-th call returns the n-th word, only terminators of returned words are overwritten, and the call after the last returns NULL |
| Strings.CutFrom | src/libk/string.c:189-192 | after n calls a byte is a terminator where one of the n tokens ends, and otherwise what it was |
| Vectors.VectorInit | src/libk/vector.h:19-22 | an empty vector that owns a new block of 500 bytes, or failure iff no page for it is found |
| Vectors.VectorGrow | src/libk/vector.h:27-31 | the elements move, unchanged and in order, to a block four times as long as needed; only that block is replaced; fails only when no run for it is found |
| Vectors.VectorPush | src/libk/vector.h:25-33 | appends, keeping all elements when they move to a larger block, and disturbs no other block; fails only when it has to grow and no run is found |
| TarFormat.OctalRoundTrip | src/libk/tar.c:4-14 | the octal value of the w-digit encoding of n is n |
| Tar.ParseSize | src/libk/tar.c:4-14 | the octal value of eleven digits modulo 2^32 |
| TarFormat.ParseSizeInvertsIff | src/libk/tar.c:4-14 | parse_size inverts the 11-digit encoding iff the size is below 2^32 |
| TarFormat.ParsingFindsTheMembers | src/libk/tar.c:17-46 | parsing any archive gives the header of every member, in order |
| TarFormat.ParseInvertsEncode | src/libk/tar.c:17-46 | round trip from members to bytes and back to header offsets |
| Tar.ParseTar | src/libk/tar.c:17-46 | the heap vector holds exactly the chain of headers, the count is their number modulo 256, and nothing else the kernel owns changes; fails only when the vector finds no run |
| Tar.FindFile | src/libk/tar.c:47-55 | the first counted header with that name, or NULL |
| TarFormat.SearchFindsTheMember | src/libk/tar.c:47-55 | searching an archive's headers finds the first member of the name |
| TarFormat.AllFoundIff | src/libk/tar.h:20 | with distinct names every member is found iff there are fewer than 256 |
| Tar.TarGetProps | src/drivers/filesys/tar.c:14-33 | size, kind and path of the file the search finds, or the empty record |
| Tar.FieldsAreRead | src/libk/tar.h:6-16 | name, size and kind are read from the first, fifth and last field of struct tar_header, whose widths give their places; typeflag '5' is a directory |
| Tar.ThousandBytes | src/libk/tar.c:4-14 | a literal size field: 00000001750 is 1000 bytes, and the next header is 1536 bytes on |
| Tar.TarRead | src/drivers/filesys/tar.c:34-40 | the buffer gets min(size, file size) bytes from the offset, nothing else changes |
| Tar.TarWrite | src/drivers/filesys/tar.c:41-47 | those bytes of the file are replaced, nothing else changes |
| Tar.WriteThenRead | src/drivers/filesys/tar.c:34-47 | an in-range write then read gives the written bytes; header list and all other members are unchanged |
| Siv.TarInit | src/drivers/filesys/tar.c:64-88 | mounts the drive with the archive's headers and disturbs nothing the kernel owned; fails only when the header list finds no room |
| Descriptors.RegisterDriver | src/core/sys/resman/SIV.c:32-36 | ids are given in order and no earlier entry changes |
| Descriptors.RegisterDrive | src/core/sys/resman/SIV.c:26-30 | the same for drives |
| Siv.Preload | src/core/sys/resman/SIV.c:59-65 | a new block that holds exactly the file's bytes, or failure iff no run for it is found |
| Siv.SivOpen | src/core/sys/resman/SIV.c:38-72 | error iff no header has the name or its type byte is '5', with no change of memory; otherwise the next descriptor, with path and size of the header found; it gets a block of its own holding the file's bytes iff flag 2 is set, or flag 1 is and the driver is not virtual; halts only when no run for that block is found |
| Siv.SivRead | src/core/sys/resman/SIV.c:86-97 | in range: the buffer gets the copy's bytes for a preloaded descriptor, the file's current bytes otherwise, and no other byte of memory changes |
| Siv.SivWrite | src/core/sys/resman/SIV.c:99-105 | in range: the file's bytes are replaced and no block or table changes |
| Siv.SivClose | src/core/sys/resman/SIV.c:74-83 | empties the descriptor and nothing else, and frees exactly its copy |
| SivRuns.PreloadIsASnapshot | src/core/sys/resman/SIV.c:38-105 | over any run of open, close, read, write and other kernel steps, until a preloaded descriptor is closed or its copy is used as a buffer, it keeps its block and every read of it gives the bytes the file had at open |
| SivRuns.ReadsAgreeIff | src/core/sys/resman/SIV.c:86-97 | preloaded and unpreloaded reads agree iff the file's bytes there are those at open |
| SivRuns.ReadsAgreeUntilWritten | src/core/sys/resman/SIV.c:86-105 | and a read of it gives the file's current bytes on a stretch that no siv_write overwrote since the open |
| SivRuns.OpenCloseRestores | src/core/sys/resman/SIV.c:38-83 | open and then close of a file, preloaded or not, restore free pages, blocks and the other copies, and so (`SameFreeSameState`) every bit and counter |
| SivRuns.StepFilesOk | src/core/sys/resman/SIV.c:38-105 | every call keeps each descriptor's block live, of the file's size, its own and apart from the header list |
| SivRuns.MountedAfterWrite | src/drivers/filesys/tar.c:41-47 | writing a member leaves the drive mounted |

## Left out

- Events, registry, interrupt and timer hardware, ACPI, logging, TTY, fonts, framebuffer and LAI glue.
- sched_save_state, sched_restore_state and event delivery: they rewrite a live context on purpose.
- TLB effects, cr3 loads, large pages and accessed/dirty bits; a context switch is one atomic step.
- User accesses through the mappings: the model says what a page translates to, not what programs store there.
- reserve_page, reserve_pages and the RAM getters: one-line variants of what is modelled.
- vector_erase and its variants, strcat, strcpy, strncpy, memchr, memcmp: not used by the modelled code.
- Owner and group ids of tar_get_props, and the file times; drive signatures and the stub driver functions.
- Pmm.LockPage: requires that the bit it reads is in memory.
- Pmm.LockPages: requires the same for every page of the run.
- Pmm.FreePage: requires that the bit it reads is in memory.
- Pmm.FreePages: requires the same for every page of the run.
- PmmInit.UnreservePages: requires the same for every page of the run.
- PmmInit.PmmInit: requires that the bits read behind the bitmap, if any, are in memory.
- Heap.Malloc: requires a request that is fully tested or at most 7 pages per bitmap byte, as RequestPages does.
- Heap.Free: requires a block that malloc made; freeing a run that overlapped other owners is not modelled.
- Siv.Preload: requires a size whose block can be allocated and fits its pages.
- KernelExec.Execute: requires less than 2^47 bytes of physical memory, so that the stack's address is in the lower half.
- Pmm.RequestPages: requires a request that is fully tested or at most 7 pages per bitmap byte, so that locking stays inside the bitmap.
- Pager.MapPage: requires a page-aligned frame below 2^52; the code would or other bits into the entry's flags.
- Heap.Realloc: requires a live block (the code dereferences NULL), that the smaller size fits its pages, and a new size
  whose pages are all tested by the search.
- Unmapping.UnmapPage: requires that the pointers formed reach the tables; what a stray store would do is not modelled.
- Heap.Calloc: requires a size whose pages are all tested by the search, and a payload that fits its pages, since it clears all of it.
- Heap.ReallocPlus: requires the caller's old size to be at most the block's; more would copy foreign bytes.
- PagerRanges.MapRange: requires page-aligned frames below 2^52, as MapPage does.
- PagerRanges.UnmapRange: requires what UnmapPage does, for every page of the range.
- Vectors.VectorGrow: requires that the new size can be allocated, with the literal divisor at most one page.
- Vectors.VectorPush: requires the same when it grows.
- Scheduler.SchedulerState.NextProcess: requires that the scan stays in the table; otherwise the code reads past it or scans for ever.
- Scheduler.SchedulerState.Schedule: requires the same after saving the frame.
- Scheduler.SchedulerState.Kill: requires the same when a process kills itself.
- Tar.ParseTar: the header chain must stay in memory, and with the literal page search the list is limited to 252 members, the last for which the vector needs one page only.
- Siv.SivOpen: requires a free descriptor (the code does not check) and, to preload, a size whose block fits its pages
  and can be allocated, with the literal divisor at most one page.
- Paths are values, so the aliasing of the path pointer kept in an open file is not modelled.
