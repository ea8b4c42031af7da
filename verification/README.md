# SimpleOS-rs: a verified model of its memory management, loader and terminal

SimpleOS-rs is a small x86_64 operating system: a UEFI bootloader that builds page tables and loads
an ELF kernel, and a kernel with a buddy allocator for physical pages, a spin lock and a framebuffer
terminal. This project models those parts in Dafny and proves what they promise.

`dafny verify dfyconfig.toml` checks everything.

## How the model is laid out

| file | models |
|---|---|
| `Common.dfy`, `Bits.dfy` | shared types; `&`, `\|`, `^`, `& !`, shifts and bit counts on machine words as natural numbers |
| `Blocks.dfy` | aligned power-of-two blocks, buddies, combined blocks, size orders |
| `BuddyLists.dfy` | the allocator on nine lists of free heads: invariant, free, allocate, canonical form |
| `BuddyRegions.dfy` | freeing many blocks; how `add_region` cuts a range |
| `BitmapLimits.dfy` | the length of the bitmap and the frees that index past it |
| `FreeMemory.dfy` | bitmap words, the record inside each free page, list heads; the coupling to the lists |
| `PhysMemoryManager.dfy` | the manager as a class that mutates bitmap, records and heads in place |
| `MemoryMap.dfy` | building the manager from the firmware's memory map |
| `Ledger.dfy` | the public calls on lists; conservation of pages over whole runs |
| `BlockSteps.dfy`, `JobTasks.dfy` | the allocator's bodies and calls as steps with one memory access each |
| `Cores.dfy` | any number of cores, the spin lock, clients writing into their pages |
| `PageTables.dfy`, `Paging.dfy` | the processor's walk, the table builder, high addresses, dropping the low half |
| `ElfImage.dfy`, `ElfLoader.dfy` | ELF fields, segment loading, relocation |
| `Terminal.dfy` | the character grid, its rendering, the drawing loops |

The allocator is proved in three layers. `BuddyLists` says what the operations do to nine lists of
block heads; `Canonical` is kept by every operation and makes the lists a function of the set of free
pages. `FreeMemory.Coupled` ties those lists to the bitmap, to the `FreeEntry` records and to the
head pointers. The class `Manager` and the step machine of `BlockSteps` both refine the lists through
that coupling, one as imperative code, the other cut up so that other cores can run in between.

A page is its index; a `FreeEntry` pointer is `Null` or the index of the page it lies in, because
`InlineStorage` puts the record of page i at page i. That goes through `phys_to_virt` and
`virt_to_phys`, so it assumes that `get_index(get_entry(i))` is i for every page, which holds if and
only if the number of PML4 entries is a power of two (`Paging.EntryIndexing`). `entries[p]` is
whatever the first bytes of page p hold, free or not. Panics are explicit results (`None`, `false`,
`OutOfMemory`, `IndexPanic`, `Panicked`). A core that panics keeps the lock forever, since the panic
handler loops.

The step machine reads or writes one bitmap word, one field of one record or one list head per step
(`BlockSteps.OneAccess`). A record field or bitmap word that the source reads again after a write is
read again; one it reads several times before its next write is read once, and so is a list head,
which the source holds by an exclusive reference during a push or pop.

## Findings

- The bitmap has a word for every page, but a merge also reads the word of the buddy. The only block
  whose buddy word can be missing is the last one of 64 pages (if n is an odd multiple of 64) or of
  128 pages (if n is an odd multiple of 128); a free panics exactly when it would leave that block
  entirely free (`BitmapLimits.OverrunPages`). So some legal free panics if and only if n is a
  multiple of 64 and not of 256 (`BlockSteps.PanicReachable`); with 192 pages, freeing pages 128 to
  191 first of all does (`BlockSteps.BitmapOverrunExample`). On such a machine `new` itself panics if
  the firmware reports that block as entirely Free (`MemoryMap.New`); if it does not, no later free
  of a held block can panic (`Ledger.HeldNeverOverruns`, `Cores.ConcurrentSafety`).
- `alloc_linear_pages` panics for a count of 0 and for counts above 256 (`Ledger.RequestInRange`): the
  order lies beyond the nine lists. For 0 the subtraction in `get_size_order` wraps first, or panics
  where overflow is checked.
- High addresses are formed with `|`. That reaches the mirror, is undone by `virt_to_phys` and keeps
  addresses apart exactly when the number of PML4 entries is a power of two
  (`Paging.OrAddressing`); otherwise a nonzero mapped address shares the high address of address 0
  (`Paging.OrCollides`), and the allocator takes the record of another page for that of page 0
  (`Paging.EntryLost`). Below 1 TB of memory the count is 1 or 2 and all is well.
- Every address below the highest one of the memory map is mapped to itself if and only if that
  highest address is below 2^47 (`Paging.CoverageLimit`). At exactly 2^47 the mask leaves a size of 0,
  and only the first 2 MB are covered.
- The builder takes its buffer as `alloc_pages * 4096` words although it allocated `alloc_pages * 512`
  (bootloader/src/paging.rs:86). Every write stays inside the allocated words, so the model's buffer
  has exactly those.
- `get_size` adds address and size in 64 bits: the result holds every loadable segment if and only if
  no segment ends at or beyond 2^64 (`ElfLoader.GetSize`).
- A screen with room for the margins but for fewer than one row or column still prints, and all writes
  stay inside the framebuffer. The row stays 0 for every text if and only if there is at most one row,
  the column if and only if there is at most one column, and only cell (0, 0) is ever drawn if and
  only if both hold (`Terminal.RowStaysZero`, `ColumnStaysZero`, `OnlyFirstCell`).

## Model

| member | source | states |
|---|---|---|
| `Blocks.SizeOrderIsLeast` | kernel/src/memory/phys_manager.rs:215-222 | `get_size_order` is the least order whose blocks have room for the count |
| `Blocks.BuddyHalves` | kernel/src/memory/phys_manager.rs:204-212 | on an aligned index, `^` and `& !` give the other half and the start of the block both halves form; the buddy of the buddy is the block |
| `BuddyLists.FreeBlockCorrect` | kernel/src/memory/phys_manager.rs:273-307 | freeing an allocated aligned block keeps the invariant and makes exactly its pages free, through any number of merges |
| `BuddyLists.FreeBlockPages` | kernel/src/memory/phys_manager.rs:273-307 | the set of free pages grows by exactly the block, which was disjoint from it |
| `BuddyLists.AllocBlockCorrect` | kernel/src/memory/phys_manager.rs:312-355 | a returned block is aligned, in range and was entirely free; exactly its pages stop being free; lower lists do not change; the invariant is kept |
| `BuddyLists.AllocationComplete` | kernel/src/memory/phys_manager.rs:312-355 | allocation fails if and only if no aligned run of the requested size is entirely free |
| `BuddyLists.CanonicalForm` | kernel/src/memory/phys_manager.rs:273-355 | a block is on the list of its order if and only if it is a maximal fully free aligned block |
| `BuddyLists.PagesDetermineBlocks` | kernel/src/memory/phys_manager.rs:273-355 | two canonical states with the same free pages have the same blocks on every list |
| `BuddyLists.AllocShape` | kernel/src/memory/phys_manager.rs:312-355 | the block returned is the first of the least non-empty list at or above the order, at its own first page; every split leaves the upper half on its list; no other list changes |
| `BuddyLists.FreeShape` | kernel/src/memory/phys_manager.rs:273-307 | the merged block goes to the front of its list, the merged buddies leave theirs, and no other list changes |
| `BuddyLists.AllocThenFree` | kernel/src/memory/phys_manager.rs:312-355 | freeing what was just allocated restores all nine lists, element order included, however many levels were split |
| `BuddyRegions.FreeAllCorrect` | kernel/src/memory/phys_manager.rs:378-386 | freeing blocks one after the other keeps the invariant and adds exactly their pages |
| `BuddyRegions.GroupingIsIrrelevant` | kernel/src/memory/phys_manager.rs:273-307 | freeing the same pages in any order and grouping gives the same blocks on every list |
| `BuddyRegions.RegionOrderIsLargest` | kernel/src/memory/phys_manager.rs:188-193 | `add_region` picks the largest order allowed by alignment, remaining pages and MAX_ORDER |
| `BuddyRegions.TilesLegal` | kernel/src/memory/phys_manager.rs:182-200 | any tiling of an allocated range by aligned blocks can be freed and covers exactly the range |
| `FreeMemory.UnlinkLinked` | kernel/src/memory/phys_manager.rs:227-238 | removal from any position leaves next, prev and head spelling out the list without the element, and touches no record outside the list |
| `FreeMemory.PushLinked` | kernel/src/memory/phys_manager.rs:243-251 | the element becomes the first of a well-linked list; other records and heads do not change |
| `FreeMemory.PopLinked` | kernel/src/memory/phys_manager.rs:255-268 | the head was the first element; the rest is well linked |
| `FreeMemory.AttachCoupled` | kernel/src/memory/phys_manager.rs:299-305 | setting the bit, writing the record and pushing keeps the coupling and writes only into free heads and the new block |
| `FreeMemory.DetachCoupled` | kernel/src/memory/phys_manager.rs:292-294 | clearing the buddy's bit and unlinking it keeps the coupling |
| `FreeMemory.PopCoupled` | kernel/src/memory/phys_manager.rs:313-353 | popping a block and clearing its bit keeps the coupling |
| `FreeMemory.FreeBuddyIsListed` | kernel/src/memory/phys_manager.rs:287-291 | the merge test holds if and only if the buddy is on the list of that order; a record behind a clear bit is never trusted |
| `FreeMemory.BitmapMeans` | kernel/src/memory/phys_manager.rs:275-299 | bit p modulo 64 of word p / 64 is set if and only if a free block starts at page p |
| `BitmapLimits.MissingIsTop` | kernel/src/memory/phys_manager.rs:279-291 | at most one block below n has its buddy's word past the bitmap: the last 64 or 128 pages of a page count that is a multiple of 64 and not of 256 |
| `BitmapLimits.OverrunPages` | kernel/src/memory/phys_manager.rs:279-296 | a legal free, with all its merges, indexes past the bitmap if and only if the page count is unsafe and the free would leave that last block entirely free |
| `BitmapLimits.BitmapBounds` | kernel/src/memory/phys_manager.rs:66-82 | no legal free in any state indexes past the bitmap if and only if n is not a multiple of 64 or is one of 256 |
| `FreeMemory.PagesDetermineBitmap` | kernel/src/memory/phys_manager.rs:273-355 | the free pages determine every word of the bitmap |
| `FreeMemory.ListsDetermineMemory` | kernel/src/memory/phys_manager.rs:227-355 | the lists determine the bitmap, the heads and the record of every free block |
| `FreeMemory.ClientDataIrrelevant` | kernel/src/memory/phys_manager.rs:285-306 | replacing the contents of every page that heads no free block by anything keeps the coupling |
| `PhysMemoryManager.Manager.constructor` | kernel/src/memory/phys_manager.rs:143-149 | for every page count, a manager with a zeroed bitmap and empty lists is valid whatever the pages hold |
| `PhysMemoryManager.Manager.RemoveBuddyListEntry` | kernel/src/memory/phys_manager.rs:227-238 | the pointer writes are those of `Unlink` |
| `PhysMemoryManager.Manager.PushBuddyListEntry` | kernel/src/memory/phys_manager.rs:243-251 | the pointer writes are those of `Push` |
| `PhysMemoryManager.Manager.PopBuddyListEntry` | kernel/src/memory/phys_manager.rs:255-268 | the pointer writes are those of `Pop`; returns the old head |
| `PhysMemoryManager.Manager.FreeBlock` | kernel/src/memory/phys_manager.rs:273-307 | for every page count, refines `BuddyLists.FreeBlock` and keeps the coupling, or panics at a bitmap index exactly when the free overruns; leaves the records of pages that stay allocated alone in both cases |
| `PhysMemoryManager.Manager.ReleaseBlock` | kernel/src/memory/phys_manager.rs:273-307 | between calls, a free panics if and only if the pages free afterwards would include the whole last block of an unsafe page count; otherwise the free pages grow by exactly the block |
| `PhysMemoryManager.Manager.AllocBlock` | kernel/src/memory/phys_manager.rs:312-355 | refines `BuddyLists.AllocBlock`; failure changes nothing at all; pages that were not free are not written |
| `PhysMemoryManager.Manager.AddRegion` | kernel/src/memory/phys_manager.rs:182-200 | terminates, frees blocks that tile the range, each the largest aligned one that still fits, and grows the free pages by exactly the range, or panics if and only if the last block of an unsafe page count would become entirely free |
| `PhysMemoryManager.Manager.FreePage` | kernel/src/memory/phys_manager.rs:358-364 | one more free page, or the panic, with its exact condition; the outcome is that of the call on lists |
| `PhysMemoryManager.Manager.FreeLinearPages` | kernel/src/memory/phys_manager.rs:369-375 | the block of the rounded-up size becomes free, or the panic, with its exact condition; the outcome is that of the call on lists |
| `PhysMemoryManager.Manager.FreeManyPages` | kernel/src/memory/phys_manager.rs:378-386 | exactly the listed pages become free, or the panic, with its exact condition on the pages; the outcome is that of the call on lists |
| `PhysMemoryManager.Manager.AllocPage` | kernel/src/memory/phys_manager.rs:389-395 | fails if and only if no page is free; otherwise returns the address of a free page and takes only that page; the outcome is that of the call on lists |
| `PhysMemoryManager.Manager.AllocLinearPages` | kernel/src/memory/phys_manager.rs:398-404 | for every count, fails if and only if the count is not from 1 to 256 or no aligned run of the rounded-up size is free; otherwise takes exactly one such run, of less than twice the count; the outcome is that of the call on lists |
| `PhysMemoryManager.Manager.AllocManyPages` | kernel/src/memory/phys_manager.rs:409-417 | succeeds if and only if enough pages are free; fills in the addresses of the pages taken, before a panic too, and leaves the other slots alone; the outcome is that of the call on lists |
| `Ledger.SinglePages` | kernel/src/memory/phys_manager.rs:409-417 | asking for single pages succeeds if and only if enough are free; the pages taken are distinct, were free and are all that stops being free; before the panic all free pages are taken |
| `PhysMemoryManager.Manager.AllocThenFreeLinear` | kernel/src/memory/phys_manager.rs:369-404 | for every count and page count, allocating and freeing with the same count never hits the bitmap panic and restores bitmap, heads and every free record in place |
| `PhysMemoryManager.Manager.ClientWrite` | kernel/src/memory/phys_manager.rs:285-306 | a write into a page that heads no free block keeps the manager valid with the same lists |
| `PhysMemoryManager.GroupingSameBitmap` | kernel/src/memory/phys_manager.rs:273-307 | freeing the same pages in any order and grouping gives the same bitmap |
| `MemoryMap.MaxAddress` | kernel/src/memory/phys_manager.rs:138-140 | the least address no segment ends beyond |
| `MemoryMap.PagesCounted` | kernel/src/memory/phys_manager.rs:138-143 | every segment ends at or below the page count, and one ends exactly there |
| `MemoryMap.StorageIsTight` | kernel/src/memory/phys_manager.rs:66-67 | the reserved pages hold the bitmap and one fewer would not |
| `MemoryMap.FirstSuitable` | kernel/src/memory/phys_manager.rs:71-73 | the first Free segment with enough pages |
| `MemoryMap.PlaceOfBitmap` | kernel/src/memory/phys_manager.rs:66-73 | the segment reserved is the first Free one whose bytes hold a bit per page in words of eight bytes, and none is reserved only if there is none |
| `MemoryMap.ReserveBitmap` | kernel/src/memory/phys_manager.rs:69-83 | shrinks exactly that segment from the front, or panics if there is none |
| `MemoryMap.New` | kernel/src/memory/phys_manager.rs:134-176 | for every page count, panics if and only if no segment has room for the bitmap or the pages to be freed include the whole last block of an unsafe page count; otherwise the manager has the page count at which the last segment ends and a bitmap word per 64 pages, and the free pages are the Free segments minus the bitmap's pages |
| `MemoryMap.NeverHandedOut` | kernel/src/memory/phys_manager.rs:134-155 | over any allowed run of calls no page of an Occupied segment or of the bitmap is part of a block handed out |
| `Ledger.HeldNeverOverruns` | kernel/src/memory/phys_manager.rs:273-307 | freeing a block that was handed out never indexes past the bitmap, on any page count |
| `Ledger.FreesOverrun` | kernel/src/memory/phys_manager.rs:378-386 | whether legal frees panic depends on the pages alone, not on their order or grouping |
| `Ledger.JobBalanced` | kernel/src/memory/phys_manager.rs:358-417 | every call keeps free pages and held blocks a partition of the initial pages, and a call that frees never panics |
| `Ledger.RequestInRange` | kernel/src/memory/phys_manager.rs:215-222 | a request has one of the nine orders if and only if it asks for 1 to 256 pages; the block has room for them and less than twice as much |
| `Ledger.PageServed` | kernel/src/memory/phys_manager.rs:389-395 | a call for one page takes one free page and panics only if there is none |
| `Ledger.LinearServed` | kernel/src/memory/phys_manager.rs:398-404 | a call for count pages succeeds if and only if 1 <= count <= 256 and an aligned run of the least power of two at least count is free; it takes one such run and nothing else |
| `Ledger.ManyServed` | kernel/src/memory/phys_manager.rs:409-417 | a call for count single pages takes count distinct free pages, or all there are before it panics |
| `Ledger.FreePageServed` | kernel/src/memory/phys_manager.rs:358-364 | the page of the address becomes free, or the panic, with its exact condition |
| `Ledger.FreeLinearServed` | kernel/src/memory/phys_manager.rs:369-375 | the pages from the address on, as many as the least power of two at least count, become free, or the panic, with its exact condition |
| `Ledger.FreeOddCount` | kernel/src/memory/phys_manager.rs:369-375 | a free with a count of 0 or above 256 panics |
| `Ledger.FreePagesServed` | kernel/src/memory/phys_manager.rs:378-386 | exactly the pages of the addresses become free, or the panic, with its exact condition |
| `Ledger.ServedFits` | kernel/src/memory/phys_manager.rs:358-417 | a call that does not panic is answered with as many blocks, of such sizes, as it asks for |
| `Ledger.UndoNamesGot` | kernel/src/memory/phys_manager.rs:358-417 | the free call with the returned addresses and the same count names exactly the blocks the allocating call obtained |
| `Ledger.CallUndone` | kernel/src/memory/phys_manager.rs:358-417 | that free call is allowed, does not panic and leaves the same blocks on every list and in the clients' hands as before the allocation |
| `Ledger.RunSnoc` | kernel/src/memory/phys_manager.rs:358-417 | in a run without a panic, one more call goes on from where the calls before it ended |
| `Ledger.Conservation` | kernel/src/memory/phys_manager.rs:358-417 | over any run of public calls with addresses and counts, up to a panic, held blocks are pairwise disjoint, disjoint from free pages, inside the initially free pages, and nothing is lost |
| `BlockSteps.OneAccess` | kernel/src/memory/phys_manager.rs:227-355 | the next step and the one place it changes depend on the content of that one place alone; every other place stays |
| `BlockSteps.ExecFree` | kernel/src/memory/phys_manager.rs:273-307 | for every page count, the steps of a free, uninterrupted, compute `FreeBlock` or end in the index panic exactly when the free overruns, and touch only free pages and the block |
| `BlockSteps.ExecAlloc` | kernel/src/memory/phys_manager.rs:312-355 | the steps of an allocation compute `AllocBlock`, or change nothing and run out of memory |
| `BlockSteps.ExactRoundTrip` | kernel/src/memory/phys_manager.rs:273-355 | allocate then free, step by step, never panics and restores every bitmap word, every head and every free record |
| `BlockSteps.TopFreePanics` | kernel/src/memory/phys_manager.rs:291-291 | on any unsafe page count, freeing the last block first of all ends in the index panic |
| `BlockSteps.PanicReachable` | kernel/src/memory/phys_manager.rs:291-291 | the steps of some legal free end in the index panic if and only if the page count is unsafe |
| `BlockSteps.BitmapOverrunExample` | kernel/src/memory/phys_manager.rs:279-291 | with 192 pages, the first free of pages 128 to 191 ends in the index panic: it reads a fourth bitmap word out of three |
| `JobTasks.JobTask` | kernel/src/memory/phys_manager.rs:358-417 | a guarded call run alone, step by step, has the outcome of the call on lists, panics included, on every page count |
| `JobTasks.ClientDataCannotMatter` | kernel/src/memory/phys_manager.rs:285-353 | arbitrary contents of pages that head no free block change no result, bitmap word, head or free record of any call |
| `JobTasks.ScribbleCoupled` | kernel/src/memory/phys_manager.rs:285-306 | overwriting every page that heads no free block with any contents keeps the coupling |
| `JobTasks.NoiseCannotMatter` | kernel/src/memory/phys_manager.rs:285-353 | over any sequence of calls, with every such page overwritten arbitrarily before each call, every outcome is that of the calls on lists |
| `Cores.RequestSafe` | kernel/src/memory/phys_manager.rs:358-417 | a client may ask for pages or give back pages it holds at any time |
| `Cores.TryLockSafe` | kernel/src/mutex.rs:46-54 | the swap keeps the invariant whether or not it obtains the lock |
| `Cores.WorkSafe` | kernel/src/memory/phys_manager.rs:358-417 | each step under the lock, of one memory access, keeps the invariant |
| `Cores.UnlockSafe` | kernel/src/mutex.rs:26-59 | dropping the guard re-establishes the coupling with the clients' writes in memory |
| `Cores.ClientWriteSafe` | kernel/src/memory/phys_manager.rs:285-306 | a client's unlocked write into a held page keeps the invariant, even while another core is inside |
| `Cores.ClientCanWrite` | kernel/src/memory/phys_manager.rs:285-306 | a client can write anything into any page it holds, in every state |
| `Cores.ConcurrentSafety` | kernel/src/mutex.rs:8-58 | in every state of every run at most one core is inside, each core received the replies its own calls have in the sequential run of all calls in lock-acquisition order, with the blocks each call asks for, pages are conserved, only an allocation can panic, and memory is coupled whenever the lock is free |
| `Cores.CallCompletes` | kernel/src/mutex.rs:8-58 | whenever the lock is free, some run completes any allowed call of an idle core that does not panic on lists, with that reply, and leaves the lock free |
| `PageTables.MaskedIsMod` | bootloader/src/paging.rs:62-64 | the mask keeps the size modulo 2^47 |
| `PageTables.TableLayout` | bootloader/src/paging.rs:67-79 | at most 256 PML4 entries in one page; a PDP page per PML4 entry and a directory page per PDP entry; the size is covered |
| `PageTables.TableEntryFields` | bootloader/src/paging.rs:89-109 | for an aligned address below 2^52 the address assertion holds and the entry is present, writable and points to that address, with every other low bit clear |
| `PageTables.PageEntryFields` | bootloader/src/paging.rs:112-118 | the 2 MB entry passes its assertion and is present, writable, large and points to its address, with every other low bit clear |
| `PageTables.PageWalk` | bootloader/src/paging.rs:64-118 | the walk sends every covered physical address to itself, writable, from the low half and from the mirror |
| `Paging.FillPml4` | bootloader/src/paging.rs:89-100 | each PML4 entry is in its low slot and its mirror slot; nothing else is written |
| `Paging.FillPdp` | bootloader/src/paging.rs:103-109 | every PDP entry points to its directory page; nothing else is written |
| `Paging.FillPd` | bootloader/src/paging.rs:112-118 | every directory entry maps its 2 MB; nothing else is written |
| `Paging.Bootloader.Init` | bootloader/src/paging.rs:43-136 | the finished buffer is complete, other words keep their contents, and the reported sizes and high base are those of the tables |
| `Paging.HighestAddress` | bootloader/src/paging.rs:161-167 | the highest end address of the memory map |
| `Paging.CoverageLimit` | bootloader/src/paging.rs:62-79 | whatever the unwritten words hold, every address below the highest one translates to itself if and only if that one is below 2^47 |
| `Paging.Start` | bootloader/src/paging.rs:150-174 | scan and builder together: all memory of the map is mapped to itself if and only if all of it ends below 2^47 |
| `Paging.HighMemBaseValue` | bootloader/src/paging.rs:120-123 | the high base is the first address of the mirror, 2^64 minus 2^39 per entry |
| `Paging.MapArithmetic` | kernel/src/memory/virt_manager.rs:13-23 | `phys_to_virt` falls short of addition by the common bits, and `virt_to_phys` of it loses exactly those |
| `Paging.OrIsAddition` | bootloader/src/paging.rs:140-142 | with a power of two entries `\|` is addition and the maps are inverse on every mapped address |
| `Paging.OrCollides` | bootloader/src/paging.rs:140-142 | otherwise some nonzero mapped address has the high address of address 0 |
| `Paging.OrAddressing` | kernel/src/memory/virt_manager.rs:13-23 | walking `p \| base` gives p for all mapped p, the maps invert, and the map is injective, each if and only if the entry count is a power of two |
| `Paging.EntryIndexing` | kernel/src/memory/phys_manager.rs:99-109 | `get_index(get_entry(i))` is i for every mapped page if and only if the entry count is a power of two |
| `Paging.EntryLost` | kernel/src/memory/phys_manager.rs:99-109 | otherwise the record of some other page is taken for that of page 0 |
| `Paging.DropLowHalf` | kernel/src/arch/x86_64/virt_manager.rs:6-10 | the first entries are zero, all other words as before |
| `Paging.LowHalfDropped` | kernel/src/arch/x86_64/virt_manager.rs:6-10 | afterwards every low address of the cleared slots faults, covered or not, and every mirror address translates as before, up to 256 entries |
| `ElfImage.LEByte` | bootloader/src/elf.rs:118-170 | byte i of a field has weight 256^i |
| `ElfImage.LayoutField` | bootloader/src/elf.rs:118-170 | a field of a record laid out field by field is read back at the sum of the widths before it |
| `ElfImage.HeaderRead` | bootloader/src/elf.rs:118-139 | entry point, program header offset and count of an image laid out as the source's `Header` are read back |
| `ElfImage.SegmentsRead` | bootloader/src/elf.rs:141-151 | type, file offset, address, file size and memory size of every program header laid out as the source's `SegmentHeader` are read back |
| `ElfImage.ImageRoundTrip` | bootloader/src/elf.rs:118-151 | entry point and program headers of an image encoded field by field are read back |
| `ElfImage.DynamicRead` | bootloader/src/elf.rs:156-160 | a dynamic table laid out with a null tag at its end is read back entry by entry |
| `ElfImage.RelaRead` | bootloader/src/elf.rs:165-170 | target, info and addend of a relocation record are read back |
| `ElfImage.ScanFindsLast` | bootloader/src/elf.rs:73-91 | the scan of the dynamic table yields the value of the last tag 7 and the last value of tag 8 divided by 24 |
| `ElfImage.ApplyUntouched` | bootloader/src/elf.rs:93-111 | relocation changes no byte outside target words |
| `ElfImage.ApplyCovered` | bootloader/src/elf.rs:93-111 | a byte in target words belongs to the last relocation over it |
| `ElfImage.ApplyWord` | bootloader/src/elf.rs:97-106 | a target word that no later relocation overlaps is base plus addend modulo 2^64 |
| `ElfLoader.GetSize` | bootloader/src/elf.rs:4-20 | the least size that holds the end, modulo 2^64, of every segment of type 1; it holds the segments themselves if and only if none ends at or beyond 2^64 |
| `ElfLoader.LoadedByte` | bootloader/src/elf.rs:63-71 | after loading, a segment byte is its file byte or zero padding, any other byte is as before |
| `ElfLoader.LoadSegment` | bootloader/src/elf.rs:66-70 | copies the file bytes and zeroes the padding of one segment, nothing else |
| `ElfLoader.FindRelocations` | bootloader/src/elf.rs:73-91 | the loop over the dynamic table terminates and computes the scan |
| `ElfLoader.Relocate` | bootloader/src/elf.rs:93-111 | stores addend plus base modulo 2^64 at each record's target, each record read from memory as it is by then, or panics at the first record whose type is not 8, with the buffer written so far |
| `ElfLoader.DynamicMeans` | bootloader/src/elf.rs:72-111 | a dynamic segment applies the records the last tags 7 and 8 describe, and none without a tag 8 |
| `ElfLoader.Prepare` | bootloader/src/elf.rs:59-116 | for program headers in any order, unless an access leaves the image or the buffer: ends with the buffer the run over the headers gives and base plus entry point modulo 2^64, or panics with the buffer written so far |
| `ElfLoader.PrepareMeans` | bootloader/src/elf.rs:59-116 | for an image that keeps the usual promises the run stays inside the buffer, panics if and only if a relocation is unsupported, and otherwise gives the prepared image |
| `ElfLoader.PreparedByte` | bootloader/src/elf.rs:59-116 | every byte of the prepared image: relocated word, else file byte, else zero, else the old contents |
| `ElfLoader.PreparedWord` | bootloader/src/elf.rs:93-111 | read back from the prepared image, a target word that no later record overlaps is the record's addend field plus the base modulo 2^64 |
| `ElfLoader.BaseIndependent` | bootloader/src/elf.rs:72-115 | at two bases, outside targets loaded bytes agree and other bytes wherever the buffers agreed; target words and entry points differ by the base difference modulo 2^64 |
| `Terminal.RunConcat` | kernel/src/terminal.rs:166-173 | text printed in pieces, cut anywhere, even inside an escape, is the text printed whole |
| `Terminal.GridFills` | kernel/src/terminal.rs:57-58 | the grid is as many 8 by 8 cells as fit inside margins of 16 pixels |
| `Terminal.EscapeSetsColor` | kernel/src/terminal.rs:105-127 | an escape sets the colour to the three next characters modulo 256 and neither draws nor moves the cursor |
| `Terminal.NewLineWraps` | kernel/src/terminal.rs:93-100 | a newline goes to the start of the next row, wrapping at the bottom |
| `Terminal.PlainTextPosition` | kernel/src/terminal.rs:80-91 | n plain characters move the cursor n cells around the grid |
| `Terminal.PlainTextCells` | kernel/src/terminal.rs:134-163 | each plain character's glyph, or the space's if the font has none, stands in its cell unless overwritten a full grid later |
| `Terminal.PlainTextShown` | kernel/src/terminal.rs:134-163 | of every such character, pixel (dx, dy) of its cell has the colour's bytes in the order of the format if bit dx of row dy of the glyph is set, and is black otherwise |
| `Terminal.RowStaysZero` | kernel/src/terminal.rs:80-100 | no text leaves row 0 if and only if there is at most one row |
| `Terminal.ColumnStaysZero` | kernel/src/terminal.rs:80-100 | no text leaves column 0 if and only if there is at most one column |
| `Terminal.OnlyFirstCell` | kernel/src/terminal.rs:80-163 | every text is drawn into cell (0, 0) alone if and only if there is at most one row and one column |
| `Terminal.CellsApart` | kernel/src/terminal.rs:143-161 | distinct cells share no byte |
| `Terminal.Device.constructor` | kernel/src/terminal.rs:51-69 | cursor at the origin, white, nothing drawn |
| `Terminal.Device.Clear` | kernel/src/terminal.rs:71-78 | a black framebuffer and an empty grid, cursor and colour kept |
| `Terminal.Device.DrawGlyph` | kernel/src/terminal.rs:143-161 | the loops set exactly the colour bytes of the cursor's cell to the glyph in the current colour |
| `Terminal.Device.AdvanceCursor` | kernel/src/terminal.rs:80-91 | one cell on, wrapping at the end of row and screen |
| `Terminal.Device.NewLine` | kernel/src/terminal.rs:93-100 | start of the next row |
| `Terminal.Device.PrintChar` | kernel/src/terminal.rs:102-164 | one step of the grid's state machine, with the framebuffer still showing the grid |
| `Terminal.Device.Print` | kernel/src/terminal.rs:166-173 | after any text the framebuffer shows the grid the text produces over the background, and plain text pixel by pixel |

## Left out

- The UEFI calls, file reading and video-mode choice of bootloader/src/main.rs, io.rs and allocator.rs: firmware I/O; the memory map and the buffers are inputs.
- Inline assembly, descriptor tables and interrupt stubs: hardware effects; `LowHalfDropped` is about the tables in memory, not about cached translations.
- The generated interrupt lists, the logging macros, the font tables, `get_text_addr` and the builder: finite facts, formatting, data and debug helpers.
- `set_high_mem_base` and the kernel's own copy of HIGH_MEM_BASE: an assignment; the address maps take the base as an argument.
- Acquire and Release orderings, fairness and progress of the lock: swap and store are atomic steps in one order, and only safety is claimed.
- The lock inside the sequential class `Manager`: its methods are the bodies that run under the guard; the guard is modelled in `Cores`.
- Aliasing between the bitmap and the page records: the bitmap lies in pages that are never free, and the model keeps the two in separate arrays.
- PhysMemoryManager.Manager.FreeBlock: says nothing about bitmap and lists after the index panic, because the lock is then held forever; only the records of allocated pages are promised.
- Wrap-around of the end addresses in the two memory-map scans: the firmware's segments end below 2^64.
- PageTables.PageWalk: claims nothing about addresses beyond the covered range, because the builder leaves those entries as it found them.
- ElfLoader.Prepare: requires that no access leaves the image or the buffer and that the dynamic table ends, because the source has no meaning otherwise.
- ElfLoader.PreparedByte: describes single bytes for images whose loadable segments do not overlap and precede the only dynamic segment, with relocation targets clear of the relocation table; `Prepare` itself does not need this.
- Terminal.Device.constructor: requires scanlines that reach past the last column, because beyond them a glyph's rows run into the next scanline, and a framebuffer whose byte count is below 2^32, because the source multiplies in 32 bits.
