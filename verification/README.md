# Kokos kernel: a model and its proofs

Kokos is a small x86-64 kernel. This project models its five stateful components in Dafny and proves what they
are for. Everything is stated about the code as it is written; where the code and its intent part, the model
follows the code and a lemma says exactly when the intent is met. Three places are not followed: the mask `1 << bit` of
the physical page bitmap is modelled as it is meant, a search for free virtual memory that wraps around past the end of
an address space ends instead, and a run that goes astray is described up to its first stray store.

- **Page tables.** `PageTables` has the entry format (section 5.3 of the AMD64 Architecture Programmer's Manual,
  Volume 2) and the trees of 512-entry tables; `AddressSpace` says what a tree means: the translation of an address.
  `PagingCursor` and `UnmapRun` describe the turns of the mapping and unmapping loops, `Placement` the search for
  free virtual memory. The class `Paging.Pager` has the operations of `src/common/paging.c` with their loops;
  `PagingProperties`, `UnmapProperties` and `PlacementProperties` state what they mean for translated addresses and
  over whole runs. Memory is a map from table addresses to tables; slot `n` of level `k` is the entry reached by the
  index path whose base-512 digits spell `n`.
- **Physical pages.** `PhysicalMemory.Allocator` is the bitmap of `src/common/memory_physical.c` over an array of
  64-bit words. `SpinLock` is the same allocator as a state machine of any number of CPUs that interleave single
  memory accesses under the lock of `src/common/lock.c`, `LockedCalls` says what whole calls do in its runs.
- **Heap.** `HeapLayout` is the chunk list as blocks in address order, `Heap` the doubly linked chunks and the bytes
  of `src/common/memory.c`.
- **Scheduler.** `RoundRobin` is the state machine of ticks and new processes over whole runs, `SpaceSetup` the
  address space every process gets, `Scheduler` the classes of `src/common/scheduler.c` that refine the one and build
  the other.
- **Numbers.** `NumberText` has the printers of `src/common/util.c`.

An operation that the source never finishes when physical memory runs out (its bitmap scan spins forever) ends in the
model with the outcome `Spins`, about which nothing is promised beyond the invariants. The other endings of a mapping
call are `Succeeds`, `Refuses`, `Overruns` (it stepped past the last slot and returned 0 although every page may be
mapped) and `Strays` (the next store goes through a pointer that is no table); `PagingProperties.SmallRefused`,
`HugeRefused` and `MapStraysOrOverruns` decide which from the tables before the call.

## Where the code and its intent part

- `src/common/paging.c:611` links a new level-1 table at the level-3 index; that is the wrong slot exactly when the
  table was missing and the two indices differ. The call goes on, returns the address and counts its pages.
  `MapReaches` says that the address is then not mapped, `MisplacedTranslates` what is mapped and lost instead.
- `src/common/paging.c:253` loads a level-3 pointer without the address mask: the run goes astray exactly when it
  enters an existing level-3 table before its last page (`MapStraysOrOverruns`, `StrayExample`).
- `src/common/paging.c:562-564` and every other link of a table store pointers without the user bit, which the processor
  demands on every level. So no page is accessible in user mode, although `src/common/scheduler.c:124` asks for it on the
  stack: `WalkAllows`, `BuiltAllows`.
- `src/common/scheduler.c:139-143` makes the first process of a CPU current without loading it. The first switch away from
  it overwrites the context it was to start with, so that its entrypoint is never run: `FirstLoad`.
- `src/common/memory_physical.c:42` compares a page number with a word count: `ReserveReachesAll`.
- `1 << bit` in `src/common/memory_physical.c` shifts a 32-bit int. The bitmap is modelled with the 64-bit mask that is
  meant; `IntShiftExact` says for which bits the two agree.
- `src/common/memory_physical.c:74` keeps a word index in 32 bits, so that freeing an address of 2^50 or more frees another
  page: `FreeIsSafe` says exactly which frees are safe, `FreeExample` gives an input.
- `-num` overflows for the least signed value: `ParseSignedText` and `SignedBuffersHold`.
- `paging_unmap` and the mapping loops step past their last page before they return, so success also needs the slot
  after the run (`MapStraysOrOverruns`, `UnmapEndsWhen`, `OverrunExample`, `NoTableExample`).

## Model

| member | source | states |
|---|---|---|
| PageTables.EntryCodec | src/include/kokos/paging.h:28-47 | A decoded entry and its 64-bit word agree on every test the source makes: empty exactly when the word is 0, present, size, and both address masks. |
| PageTables.OnePath | src/common/paging.c:36-185 | In a tree of tables each table is reached by exactly one index path from one level-4 table. |
| PageTables.SlotHome | src/common/paging.c:908-982 | Every entry a walk can read lies in the table whose recorded place spells the walk's indices, and satisfies the format's rules for its level. |
| PageTables.WriteElsewhere | src/common/paging.c:242-242 | A store to an entry changes only the slot it hits and the slots under it, in that one address space. |
| PageTables.WriteKeepsTree | src/common/paging.c:242-242 | A leaf or zero stored in any entry keeps the tables trees. |
| PageTables.WriteLeaf | src/common/paging.c:859-862 | A stored leaf or zero makes the slot read that entry, everything below it vanish, and nothing else change. |
| PageTables.LinkKeepsTree | src/common/paging.c:253-259 | Linking a fresh, cleared table keeps the tables trees and gives the table its one place. |
| PageTables.LinkSlots | src/common/paging.c:562-564 | Linking a fresh, cleared table makes one slot a pointer with nothing below it and changes no other slot of any address space. |
| AddressSpace.TranslateIsLookup | src/common/paging.c:908-982 | For every address the literal walk of paging_get_physical_address equals the slot-by-slot definition of translation; bits above 47 are ignored. |
| AddressSpace.WalkAllows | src/common/paging.c:562-564 | For every mapped page of every tree of tables: stores are allowed if and only if the leaf allows them, since all pointers are writable; user mode never has access, since no pointer has the user bit. |
| AddressSpace.FilledStep | src/common/paging.c:240-261 | One turn of a mapping loop (store a leaf, move on with carries and new tables) extends the run by exactly that leaf. |
| AddressSpace.FilledIsRemapped | src/common/paging.c:208-387 | A filled run means for every page of every address space: pages of the run lie where its leaves say, all others where they were, whatever empty tables were created on the way. |
| PagingCursor.Carry | src/common/paging.c:342-362 | On index overflow the index held exactly 511, the level above stands on its slot, and the end of the level is reached exactly when the level above is at its end. |
| PagingCursor.CarryMoves | src/common/paging.c:338-386 | After a carry through any number of levels the cursor stands on the next slot, its table pointers being those its indices select; an unmasked level-3 load of an existing table leaves a pointer that is no table. |
| PagingProperties.MoveAddsPage | src/common/paging.c:244-386 | In each of the three loops bumping the indices with their carries adds exactly one page size to the virtual address they spell, even where the 1 GiB loop goes astray. |
| PagingProperties.IndexAddressIs | src/common/paging.c:635-635 | The address composed from the indices is the slot number times the page size of the level. |
| PagingProperties.LeafWord | src/common/paging.c:188-206 | The 64-bit word stored for a page: its address bits, present, writable and user bits exactly as the flags ask, size bit exactly for huge pages. |
| PagingProperties.PointerWord | src/common/paging.c:562-564 | The word stored for a new table is its address with the present and writable bits, and masks back to the address. |
| PagingProperties.PageCountCovers | src/common/paging.c:239-239 | The page count covers the bytes asked for and less than one page more, for each page size. |
| PagingProperties.MapTranslates | src/common/paging.c:685-705 | After a call that returned success and misplaced no table every offset of the page-rounded range translates to the physical address plus that offset, for all three page sizes and any tables crossed or created. |
| PagingProperties.MapAllows | src/common/paging.c:188-206 | After such a call each page of the range allows stores if and only if the flags ask for it; its leaf has the user bit as asked, but no entry above it has, so that user mode is kept out. |
| PagingProperties.MapKeepsOthers | src/common/paging.c:685-705 | However a call ends that misplaced no table and did not go astray, no address outside the page-rounded range of the pages it mapped, in this or any other address space, is translated differently. |
| PagingProperties.LeavesRemap | src/common/paging.c:208-387 | The translation of every page of every address space after any such mapping call, given the leaves it wrote. |
| PagingProperties.MapEndsAs | src/common/paging.c:208-387 | The ending of a call is a function of the tables before it; the next rows give it in explicit terms. |
| PagingProperties.SmallRefused | src/common/paging.c:324-334 | A 4 KiB call is refused if and only if the address or the physical address is misaligned, nothing is to be mapped, or the address was translated before. |
| PagingProperties.HugeRefused | src/common/paging.c:219-284 | A 1 GiB or 2 MiB call is refused if and only if an address is misaligned, nothing is to be mapped, 1 GiB pages are not supported, or its first slot is taken, by a page or by a table, and not to be replaced; a 4 KiB call that meets a 2 MiB page only replaces. |
| PagingProperties.MapsUnmapped | src/common/paging.c:219-334 | A call that is not refused overwrites nothing: no address of its first page was translated, unless a huge page was to be replaced. |
| PagingProperties.MapStraysOrOverruns | src/common/paging.c:242-387 | A call that is not refused goes astray if and only if it uses 1 GiB pages and a later one starts an existing level-3 table, and otherwise runs off the end if and only if its pages reach the last slot of the address space; counts in bytes and page numbers. |
| PagingProperties.FramesRefusedWhen | src/common/paging.c:390-560 | Mapping free frames at an address is refused if and only if it is misaligned, for no bytes, for huge pages or over one, or the address was translated before. |
| PagingProperties.CountedPages | src/common/paging.c:262-263 | used_virtual_pages grows, modulo 2^64, by the 4 KiB pages of the pages mapped, and by a call that returns success only. |
| PagingProperties.MapReaches | src/common/paging.c:554-623 | After any call that returned success the address translates to the physical address asked for if and only if no table was misplaced; otherwise it is not translated at all. |
| PagingProperties.MisplacedTranslates | src/common/paging.c:606-622 | When the level-1 table was linked at the level-3 index, the translation of every address of every address space after the call: pages up to the next 2 MiB boundary took their places in the 2 MiB of the slot hit, whose other pages are gone, the later pages are where they belong, all else stays. |
| PagingCursor.AsideDone | src/common/paging.c:336-386 | The mapping loop, run on a cursor whose level-1 table hangs at the wrong slot, does exactly that to every page, whatever the carries overwrite. |
| PagingProperties.MisplacedExample | src/common/paging.c:611-611 | Mapping 4 KiB at 2 MiB in an empty address space returns success, maps page 0 and leaves page 512 unmapped. |
| PagingProperties.OverrunExample | src/common/paging.c:348-352 | Mapping the last page of the address space maps it and returns 0. |
| PagingProperties.StrayExample | src/common/paging.c:253-253 | A 1 GiB run across a 512 GiB boundary with an existing level-3 table behind it goes astray. |
| Paging.Pager.constructor | src/common/paging.c:24-33 | No tables, no pages counted; page 0 is taken, so a null table address is never a table. |
| Paging.Pager.Descend | src/common/paging.c:558-564 | The table an entry points to, or a fresh cleared one linked there; nothing else changes. |
| Paging.Pager.HangTable | src/common/paging.c:561-563 | A free page becomes a cleared table linked at exactly the given entry; the trees, and ownership of every table frame, are kept. |
| Paging.Pager.Advance | src/common/paging.c:342-386 | The odometer step: from slot n to slot n+1 with carries, growing tables only on the way there; it overruns exactly from the last slot. |
| Paging.Pager.MapRun | src/common/paging.c:336-386 | A mapping loop writes exactly the leaves of the range at consecutive slots, and stops early exactly at the end of the address space or at a stray level-3 table. |
| Paging.Pager.MapIndexPhysical | src/common/paging.c:208-387 | Page-size dispatch, refusals and their exact conditions, the run of leaves, and used_virtual_pages changed by success only. |
| Paging.Pager.VirtualAddressToIndex | src/common/paging.c:554-623 | A cursor whose indices spell the address, tables created only on the way; alignment refusals exactly as checked; its level-1 table hangs at the address's slot, or, when it was missing and the level-2 and level-3 indices differ, at the slot the source links it to. |
| Paging.Pager.LastTable | src/common/paging.c:606-612 | The 4 KiB case's table, found or linked at the level-3 index as the source does, and what that link empties. |
| Paging.Pager.MapPhysicalAt | src/common/paging.c:685-705 | Returns the address on success and 0 otherwise, with the full effect of each ending, misplaced tables included; after a stray write only what was done before it. |
| Paging.Pager.MapIndexCurrent | src/common/paging.c:390-552 | Maps fresh frames, each distinct and given to nobody before; refuses every huge-page request before writing. |
| Paging.Pager.TakeFrame | src/common/paging.c:506-506 | A frame handed out is no table and no frame handed out earlier. |
| Paging.Pager.MapAt | src/common/paging.c:713-733 | Maps fresh frames at a given address, with the full effect of each ending, misplaced tables included. |
| PlacementProperties.MapAtRemaps | src/common/paging.c:713-733 | After success without a misplaced table the range, of 4 KiB pages at an aligned address, and nothing else was remapped. |
| PlacementProperties.FramesTranslate | src/common/paging.c:713-733 | Then each page of the range translates to the frame it was given. |
| PlacementProperties.FramesMisplaced | src/common/paging.c:606-622 | Through a misplaced table each page of every address space lies where the table hit and the carries put it. |
| Paging.Pager.SkipTaken | src/common/paging.c:51-81 | The search loops stop on the first empty slot of the level, having created tables only on the way to it. |
| Paging.Pager.OpenTables | src/common/paging.c:151-170 | Below an empty slot fresh tables are hung down to level 1, and the cursor stands on the first slot under it. |
| Paging.Pager.FindSpot | src/common/paging.c:36-185 | Refuses exactly zero bytes; otherwise the cursor stands on the spot of SpotIs, or of the first empty level-4 slot for a fresh cursor, which is empty with nothing above it, or the spot lies past the end. |
| Placement.SpotMovesUp | src/common/paging.c:43-91 | The spot is never below the cursor, and a request of at most 2 MiB never crosses a level-1 table. |
| Placement.SpotIs | src/common/paging.c:43-141 | The spot in slot arithmetic: a cursor in use stays if and only if the first and the last page, 2 MiB unit or 1 GiB unit of the request lie in one table, and otherwise moves to the first slot of the next such table. |
| Placement.NextTableStart | src/common/paging.c:51-81 | That first slot is the least multiple of the table's slots above the cursor. |
| Placement.StillClear | src/common/paging.c:658-677 | Filling a run at or above the cursor leaves everything at or above its end empty. |
| Placement.ReadyUnused | src/common/paging.c:658-677 | No page from the slot a cursor is ready for on is mapped. |
| Placement.CursorAddressIs | src/common/paging.c:662-662 | The virtual address returned is the address of the slot the cursor stands on. |
| Paging.Pager.Map | src/common/paging.c:658-677 | Maps fresh frames at the spot and returns its address: up to 2 MiB exactly that of the cursor or, if the last page would lie in another level-1 table, of the next table; leaves the cursor on the slot after them with nothing at or above it; open where there is no spot below the end. |
| Paging.Pager.MapPhysical | src/common/paging.c:631-650 | The same for given physical memory; refused exactly for zero bytes, with no effect, or, once the cursor has moved to the spot, for a misaligned address. |
| PlacementProperties.MapIsCall | src/common/paging.c:658-677 | A successful paging_map is a step of the run theorems: pages previously unmapped, frames nobody had, all else unchanged, cursor ready again. |
| PlacementProperties.MapPhysicalIsCall | src/common/paging.c:631-650 | So is a successful paging_map_physical: page i of the range lies on page i of the physical range, all else unchanged, cursor ready again. |
| PlacementProperties.MisalignedIsCall | src/common/paging.c:631-650 | So is one refused for a misaligned address: no page moves, and the cursor is ready for the spot it moved to. |
| PlacementProperties.SameReady | src/common/paging.c:36-185 | A cursor stays ready for its slot through everything that happens in other address spaces. |
| PlacementProperties.BelowKeepsReady | src/common/paging.c:685-906 | A run mapped or cleared at addresses below a cursor, with the slot after it below too, leaves the cursor ready for the same slot. |
| PlacementProperties.MapAtIsBelow | src/common/paging.c:685-733 | Mapping at an address below the cursor, however it ends, is a step that touches only its range, unless it misplaces a table. |
| PlacementProperties.UnmapIsBelow | src/common/paging.c:735-906 | Unmapping below the cursor, however it ends, is a step that touches only the slots it cleared. |
| PlacementProperties.CursorMovesUp | src/common/paging.c:631-906 | Over any run of calls on any number of address spaces each cursor only moves up and frames stay handed out. |
| PlacementProperties.EarlierStays | src/common/paging.c:631-906 | Over any such run what lies below a cursor keeps its translation until a call in its own address space names its address. |
| PlacementProperties.GrantsApart | src/common/paging.c:631-677 | Any two grants of a run, of one process or of two: no common free frame, and in one address space disjoint ranges, the later one above the earlier one. |
| PlacementProperties.GrantStays | src/common/paging.c:631-677 | Each page granted was unmapped before the call and translates to the frame it was given for as long as no call in its address space names its address. |
| PlacementProperties.GrantedMemoryApart | src/common/paging.c:658-677 | Any two pages granted from the free frames, of one process or of two, translate to different bytes of physical memory while both are as granted. |
| PlacementProperties.AboveStaysUnmapped | src/common/paging.c:631-906 | Over any run everything at or above each cursor stays unmapped. |
| UnmapRun.WalkEnds | src/common/paging.c:737-850 | The walk decides correctly: an empty entry means the page is unmapped, a leaf means it is mapped with that page size. |
| Paging.Pager.Unmap | src/common/paging.c:735-906 | Refuses exactly unmapped or misaligned addresses; otherwise clears consecutive slots, ending at a missing table or the end exactly where the next slot has none; counts on success only. |
| Paging.Pager.Follow | src/common/paging.c:863-900 | The unmapping step: next slot, missing table, or end of the address space, each exactly when it is so; no table is created. |
| UnmapProperties.UnmapEndsAs | src/common/paging.c:735-906 | The ending of a call is a function of the tables before it; the next two rows give it in explicit terms. |
| UnmapProperties.UnmapRefusedWhen | src/common/paging.c:737-850 | Refused if and only if the address is not translated, or not aligned to the 1 GiB, 2 MiB or 4 KiB page it lies on. |
| UnmapProperties.UnmapEndsWhen | src/common/paging.c:850-906 | Success if and only if each page of the range and the one after it lie under an entry of the level above that is not zero; off the end if and only if the range reaches the last slot and all up to it do. |
| UnmapProperties.NoTableExample | src/common/paging.c:863-900 | Unmapping the last page of a level-1 table clears it and returns 0 when the next table does not exist. |
| UnmapProperties.PageAloneSlots | src/common/paging.c:863-900 | Tables in which that is so. |
| UnmapProperties.UnmapTranslates | src/common/paging.c:735-906 | After success no address of the range is translated, and every other address of every address space is where it was. |
| UnmapProperties.MappedIsUnmappable | src/common/paging.c:735-906 | After a successful map of unmapped pages, unmapping the same range is sure to succeed if no table was misplaced, and sure to be refused otherwise. |
| UnmapProperties.MapThenUnmap | src/common/paging.c:735-906 | Map then unmap of the same range: the second call succeeds if and only if the first misplaced no table, and then the translation of every address of every address space is restored, for all three page sizes. |
| UnmapProperties.MapThenUnmapUsed | src/common/paging.c:903-904 | Map then unmap of the same range restores used_virtual_pages. |
| UnmapProperties.UncountedPages | src/common/paging.c:903-904 | used_virtual_pages shrinks, modulo 2^64, by the 4 KiB pages of the range, and by a call that returns success only. |
| PhysicalMemory.IntShiftExact | src/common/memory_physical.c:55-57 | The mask `1 << bit` with an int 1 hits the intended bit alone exactly for the 31 lowest bits of a word. |
| PhysicalMemory.MarkOne | src/common/memory_physical.c:57-57 | Setting a bit adds exactly that page to the marked pages. |
| PhysicalMemory.ClearOne | src/common/memory_physical.c:89-89 | Clearing a bit removes exactly that page. |
| PhysicalMemory.FullWords | src/common/memory_physical.c:110-110 | A page is free exactly when some word is not all ones. |
| PhysicalMemory.ReservedOverlap | src/common/memory_physical.c:33-40 | The page count covers exactly the pages that share a byte with the region, and the pages reserved are those of them below the bound. |
| PhysicalMemory.ReserveReachesAll | src/common/memory_physical.c:42-46 | Because the loop compares a page number with the word count, a reservation is complete if and only if it ends below that count or starts past the table. |
| PhysicalMemory.ReserveMissesPages | src/common/memory_physical.c:42-46 | A concrete reservation that has no effect. |
| PhysicalMemory.Allocator.constructor | src/common/memory_physical.c:15-27 | All pages free, counter 0, scan position 0. |
| PhysicalMemory.Allocator.Reserve | src/common/memory_physical.c:29-63 | Marks exactly the pages of the region below the loop's bound and counts each newly marked page once. |
| PhysicalMemory.Allocator.Free | src/common/memory_physical.c:66-100 | Clears exactly the page's bit and keeps the counter equal to the marked pages; the word index is a 32-bit int. |
| PhysicalMemory.Allocator.Allocate | src/common/memory_physical.c:102-146 | Ends whenever a page is free and takes the lowest free page of the first word with one in circular order, changing that bit only. |
| PhysicalMemory.Allocator.FindWord | src/common/memory_physical.c:109-116 | The circular scan ends and every word before its result in circular order is full. |
| PhysicalMemory.ScanOrder | src/common/memory_physical.c:109-116 | Circular order is the order of the distance from the scan position, modulo the table length. |
| PhysicalMemory.LowestClearBit | src/common/memory_physical.c:118-136 | The lowest zero bit; the branch for a 64th bit cannot be taken. |
| PhysicalMemory.Allocator.FindRun | src/common/memory_physical.c:155-176 | The scan for consecutive empty words ends whenever a long enough run exists, even if the start cuts it and the scan must wrap, and it finds the first one in circular order. |
| PhysicalMemory.Allocator.AllocateConsecutive | src/common/memory_physical.c:148-188 | Fills exactly one in-bounds run, the first in circular order, none of whose pages was taken; leaves the counter alone and the scan position in bounds exactly when the run does not end the table. |
| PhysicalMemory.FullRunMarks | src/common/memory_physical.c:178-182 | Filling words marks exactly their pages. |
| PhysicalMemory.RunCovers | src/common/memory_physical.c:153-153 | The words taken cover the pages asked for exactly when those are a multiple of 64. |
| SpinLock.StepTouches | src/common/lock.c:18-48 | An access touches no other CPU; only a compare-exchange that finds the lock free takes it, one that finds it taken leaves exactly if the call does not wait, only a release frees it, only a store changes one bitmap word. |
| SpinLock.StepInv | src/common/memory_physical.c:29-146 | Every access of every CPU keeps exclusion, balance, ownership, counting and what each CPU inside relies on, when frees act on pages of their callers or past the table. |
| SpinLock.IndexInv | src/common/memory_physical.c:109-109 | The invariant holds for any in-range scan position: it is only a hint. |
| SpinLock.RunIsSafe | src/common/lock.c:18-48 | In every state of every interleaving in which frees act on pages of their callers or past the table: one CPU inside at most, releases match acquisitions, no page owned twice or owned and reserved, counter right whenever the lock is free. |
| LockedCalls.CallIsAtomic | src/common/lock.c:3-48 | In any interleaving a call that waits returns only after it acquired and released the lock exactly once, one that does not wait returns so, or unchanged if and only if its compare-exchange found the lock taken; from that compare-exchange to the release the bitmap and the caller's pages change exactly by the call's effect: the first free page from the scan position read is taken, the page named is given back, or the region below the loop's bound is marked. |
| LockedCalls.AloneReturns | src/common/lock.c:18-48 | Nobody gets stuck behind a free lock: a CPU that is inside, or waits while the lock is free, and then runs alone releases it after finitely many accesses, unless it looks for a page and there is none. |
| SpinLock.FreeIsSafe | src/common/memory_physical.c:66-100 | That demand is exact: a free is safe whatever the other CPUs did meanwhile if and only if the page its 32-bit word index names is the caller's own or lies past the table. |
| SpinLock.FreeKeeps | src/common/memory_physical.c:74-99 | In a given state a free keeps every owner if and only if that holds or the page is free anyway. |
| SpinLock.FreeSteps | src/common/memory_physical.c:66-100 | What a free does is what the accesses of its CPU do, one after the other. |
| SpinLock.FreeExample | src/common/memory_physical.c:74-74 | Freeing the address 2^50 + 0x1000 frees page 1, which another CPU owns. |
| SpinLock.FreeExampleBefore | src/common/memory_physical.c:66-68 | Before that call the state is one the invariant allows. |
| SpinLock.TakesFirstFree | src/common/memory_physical.c:109-141 | Whatever other CPUs do meanwhile, an allocation chooses the lowest free page of the first word that is not full, in circular order from the position it read, and then stores that word as the next position. |
| SpinLock.TakenWasFree | src/common/memory_physical.c:138-141 | The page an allocation marks belonged to nobody and then belongs to that CPU alone. |
| SpinLock.LowestClearIs | src/common/memory_physical.c:120-126 | The bit scan of a word that is not full finds a zero bit inside it. |
| AddressSpace.NewSpaceTree | src/common/scheduler.c:88-97 | A cleared page becomes an empty address space; the others keep every slot. |
| SpaceSetup.IdentitySucceeds | src/common/scheduler.c:99-117 | In an empty address space the identity mapping succeeds for every memory size up to 512 GiB, with 1 GiB or 2 MiB pages. |
| SpaceSetup.ApicSucceeds | src/common/scheduler.c:119-120 | The APIC mapping then succeeds, its level-2 and level-3 indices being equal. |
| SpaceSetup.ApicSlots | src/common/scheduler.c:124-124 | The first free spot for the stack is then at 1 TiB. |
| SpaceSetup.BuiltTranslates | src/common/scheduler.c:88-124 | In the finished address space every address below the top of memory translates to itself, the APIC's fixed address to its page, and the eight stack pages to their frames. |
| SpaceSetup.BuiltAllows | src/common/scheduler.c:106-124 | There stores are allowed everywhere; exactly the stack's leaves have the user bit, and user mode has access to none of it. |
| SpaceSetup.AlignsUp | src/include/kokos/util.h:5-5 | The identity mapping is rounded up to the least multiple of its page size. |
| SpaceSetup.SetUpIsStep | src/common/scheduler.c:85-124 | Setting up a process's address space is a step of the runs of calls above, its stack a grant of free frames. |
| SpaceSetup.StacksApart | src/common/scheduler.c:124-124 | However many processes are started, and whatever all of them map and unmap in between, their stack pages are pairwise distinct frames. |
| SpaceSetup.StackMemoryApart | src/common/scheduler.c:88-124 | At any time the stacks of two processes, at the same virtual addresses, translate to different bytes of physical memory, unless one of them unmapped or remapped its own stack page. |
| Scheduler.BuildSpace | src/common/scheduler.c:85-124 | Adds one new address space with that content, its eight stack pages on distinct frames that nobody had and its cursor ready after them, changes no other, and ends with the stack pointer 32 KiB above 1 TiB, or physical memory ran out. |
| Scheduler.MapLowMemory | src/common/scheduler.c:99-117 | The identity mapping ends with every page below the top of memory at its own address, writable and closed to user mode, in pages of 1 GiB if those are supported and of 2 MiB otherwise. |
| Scheduler.Cpu.Execute | src/common/scheduler.c:81-147 | A new process enters the ring right after the current one, with its own address space, its stack on distinct frames nobody had, the entrypoint as instruction pointer, the end of the eight stack pages as stack pointer, flags 0x246 with interrupts on, and all registers 0; nothing else of the ring changes. |
| Scheduler.StartsAtEntrypoint | src/common/scheduler.c:47-54 | The first switch to a process that is not the first of its CPU loads exactly these values, field by field, and its page table. |
| Scheduler.Cpu.InsertProcess | src/common/scheduler.c:130-144 | The next links still form one cycle, with the new process after the current one. |
| Scheduler.Cpu.HandleInterrupt | src/common/scheduler.c:16-61 | The tick is exactly a tick of the round-robin machine: each field of the interrupted context saved, each of the next one and its page table loaded, ring turned; with one process nothing changes. |
| Scheduler.Switch | src/common/scheduler.c:41-51 | The interrupted context is saved in the current process alone and the next one's is loaded into the frame. |
| Scheduler.LinksTurn | src/common/scheduler.c:23-57 | Turning the current position keeps the links one cycle. |
| RoundRobin.AfterIsValid | src/common/scheduler.c:16-61 | Neither a tick, nor a new process, nor computing leads out of the valid states of the machine. |
| RoundRobin.SavedIsLastHeld | src/common/scheduler.c:41-45 | In any run a process's saved context is what it held when last preempted, or was started with. |
| RoundRobin.ResumesWhereItLeft | src/common/scheduler.c:47-56 | Every switch resumes the next process with exactly that context and loads its page table. |
| RoundRobin.FirstLoad | src/common/scheduler.c:130-144 | In any run the first switch to a new process loads the context it was started with if another process was there then; the first process of a CPU gets what the CPU held when it was first preempted instead. |
| RoundRobin.SpaceLoaded | src/common/scheduler.c:53-54 | From the first switch on the loaded page table is always the current process's. |
| RoundRobin.Waiting | src/common/scheduler.c:23-57 | A waiting process's distance from the current one drops by one per tick and grows by one per new process, in any run. |
| RoundRobin.RingTurns | src/common/scheduler.c:23-57 | Without new processes the ring is the first ring turned by the number of ticks. |
| RoundRobin.FullTurn | src/common/scheduler.c:23-57 | With n processes and no new ones, n ticks return to the start and interrupt each process exactly once. |
| HeapLayout.AlignRoundsUp | src/common/memory.c:53-53 | Sizes are rounded up to the next multiple of 8, and rounding twice changes nothing. |
| HeapLayout.Disjoint | src/common/memory.c:51-77 | On an ordered list the extents of any two chunks are disjoint and in address order. |
| HeapLayout.PlacedOrdered | src/common/memory.c:58-70 | A chunk inserted where the gap test passes keeps the list ordered and ends strictly below its successor. |
| HeapLayout.FirstFitExists | src/common/memory.c:55-76 | First fit has exactly one answer on every list: an allocation never fails. |
| HeapLayout.FirstFitIs | src/common/memory.c:55-76 | In addresses: a chunk is passed over if and only if a block right behind it would reach the next header, so that the block goes to the lowest place where it ends strictly below the next header, or behind the last chunk. |
| HeapLayout.PlacedThenRemoved | src/common/memory.c:79-91 | Removing the chunk just placed gives the old list. |
| HeapLayout.InPlaceOnlyLast | src/common/memory.c:99-99 | On an ordered list the in-place test of memory_resize passes for the last chunk and no other. |
| HeapLayout.RunKeepsOrder | src/common/memory.c:51-111 | After any sequence of allocate, free and resize the chunks are strictly ordered with pairwise disjoint extents. |
| Heap.Heap.Allocate | src/common/memory.c:51-77 | First fit, in addresses: the chunk, of the rounded size, goes right behind the first one with room up to strictly below the next header, linked both ways, and no byte outside its header changes. |
| Heap.Heap.FindGap | src/common/memory.c:55-76 | The walk along the next links ends at the first chunk behind which the block ends strictly below the next header; all before it have no such room. |
| Heap.LinkIn | src/common/memory.c:62-69 | Previous links stay the inverse of next links when a chunk is linked in. |
| Heap.Unlink | src/common/memory.c:83-90 | Previous links stay the inverse of next links when a chunk is unlinked. |
| Heap.Heap.Free | src/common/memory.c:79-91 | Exactly that chunk leaves the list; memory is untouched. |
| Heap.Heap.AllocateAndFree | src/common/memory.c:51-91 | Freeing what was just allocated restores the list link for link. |
| Heap.Heap.Resize | src/common/memory.c:93-111 | Where the returned pointer leads: the same block grown in place, or the block first fit placed, which holds the first min(old, new) bytes; the list otherwise loses the old block only, and every byte of every other live block is preserved. |
| Heap.MovePreserves | src/common/memory.c:106-108 | Why: the copy may run past the old block into the new chunk, but no live byte it needs is overwritten first. |
| Heap.Heap.Copy | src/common/memory.c:42-49 | Bytes not overwritten before their turn arrive unchanged, and nothing outside the destination changes. |
| Heap.Heap.Set | src/common/memory.c:9-25 | Exactly the bytes of the range hold the value, every other byte is as it was. |
| NumberText.ReverseInPlace | src/common/util.c:35-43 | The first characters are reversed in place, the others untouched. |
| NumberText.WriteDigits | src/common/util.c:58-64 | The digit loop ends and writes the digits, the lowest first, with C's truncating division. |
| NumberText.FromUnsigned | src/common/util.c:113-151 | string_from_u32 and string_from_u64 write the text of the number and a terminator and return its length. |
| NumberText.FromSigned | src/common/util.c:47-111 | string_from_i32 and string_from_i64, with the negation that overflows for the least value. |
| NumberText.ParseText | src/common/util.c:113-151 | Reading the text of any number in bases 2 to 36 gives the number back. |
| NumberText.DigitChars | src/common/util.c:47-151 | The digit of each value from 0 to 35 is that character of 0-9A-Z. |
| NumberText.ParseSignedText | src/common/util.c:47-111 | For signed numbers it does so if and only if the number is not the least of its type. |
| NumberText.NoLeadingZero | src/common/util.c:58-64 | The first character is '0' only for 0. |
| NumberText.BuffersHold | src/common/console.c:138-157 | Every unsigned number and its terminator fit the callers' buffers of 33 and 65 characters. |
| NumberText.SignedBuffersHold | src/common/console.c:131-150 | Every signed number, sign and terminator fit them if and only if it is not the least value printed in base 2. |

## Left out

- Paging.Pager.Advance: where it overruns nothing is said of the cursor, which the source leaves with an index of 512.
- Paging.Pager.MapPhysicalAt: what a run does after going astray through an unmasked pointer is not followed: the tables
  are described as they were before that store, the result and the page count are left open. It demands that no larger
  leaf lies above the pages of the run or the slot after it, since the source would walk into the mapped memory as if it
  were a table.
- Paging.Pager.VirtualAddressToIndex: a 2 MiB leaf that maps physical address 0 reads as a missing table; excluded.
- Paging.Pager.MapAt: the same demands as for mapping given memory.
- Paging.Pager.Unmap: demands that no larger leaf lies above the later pages; emptied tables are not freed, as in the source.
- Paging.Pager.FindSpot: 4 KiB requests of at most 512 GiB on a cursor with nothing mapped at or above the spot it is
  ready for; where the source wraps around to level-4 index 0 the model ends the call, and huge-page flags, for which
  the source sets up too little, are not modelled.
- Paging.Pager.Map: nothing is said of the cursor after a call that ran off the end of the address space; where there is no
  spot below the end, the result, the page count and the frames are left open, and so they are in Paging.Pager.MapPhysical.
- Paging.Pager: accesses to tables go through the identity mapping; table memory is a map, so a table cleared by a stray
  write is not modelled. One CPU uses an address space at a time, as the source has no lock there.
- Page 0 is taken as reserved before paging starts, as the boot code does, so that a null table pointer means no table.
- PhysicalMemory.Allocator: the 64-bit mask in place of the int shift, and fewer than 2^32 words, so that the 32-bit word
  index is exact except where stated; the used-page counter is unbounded.
- PhysicalMemory.Allocator.Allocate: demands a free page; without one the source scans forever.
- PhysicalMemory.Allocator.AllocateConsecutive: demands a long enough free run; it is not part of the counter and
  lock theorems, since the source writes the scan position outside the lock and does not count the pages.
- SpinLock.RunIsSafe: about runs in which every free acts on a page of its caller or past the table, the exact condition
  of `FreeIsSafe`, and so is LockedCalls.CallIsAtomic. Memory accesses are sequentially consistent; fairness is not
  modelled, and the prints are not.
- Heap.Heap.Allocate: byte counts from 0 to 2^31 - 8; negative or larger counts, whose rounded size does not fit an int,
  and the end of the address space, which the source does not check, are not modelled. Header bytes are arbitrary once
  written, so nothing is said of a payload that overlaps one.
- Heap.Heap.Free: the pointer must be one that was allocated and not freed, as the source demands silently.
- Scheduler.Cpu.Execute: up to 512 GiB of memory and a page-aligned APIC address; the process id counter and the
  previous links, which nothing reads, are left out, and so are registers r12 to r15 and the xmm state, which the
  source does not save.
- Scheduler.Cpu.HandleInterrupt: end-of-interrupt and timer writes to the APIC are left out.
- PlacementProperties.MapAtIsBelow: a call below the cursor that misplaces a table is not a step of the run theorems,
  since the slot it hits may hold pages of the cursor; nor is a call that runs off the end, goes astray or never ends.
- RoundRobin: ticks and insertions do not interleave; the source disables interrupts around the insertion.
- memory_physical_allocated indexes the table by page instead of word; it is not modelled.
- string_format and string_format_args: variadic formatting is not modelled.
- Ports, serial line, keyboard, PCI, interrupt controllers, cpuid and model-specific registers, boot code, console output,
  ACPI and multiboot walks, and the descriptor tables: hardware access, output and short table walks.
