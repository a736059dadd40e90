# RedactedOS: verified models of the kernel core

Dafny models of the parts of RedactedOS, a 64-bit ARM kernel, in which many operations
share one piece of state, and proofs of what those operations keep together. The models
follow the C and C++ code branch by branch; state that the code edits in place is edited
in place here.

| files | what they model |
|---|---|
| `Descriptors`, `TableForest`, `TableTeardown`, `PageTables`, `TableRuns`, `TableCounts` | translation tables: tables in frames, shown to be a forest that means a page map, and how many a page map needs |
| `Asid` | address-space identifiers, as a protocol over the TLB |
| `PageBitmap` | the physical page allocator |
| `Vmas`, `MmapWindow`, `AddressSpace` | the areas of an address space and its mmap window |
| `Backing`, `ProcessState`, `UserAreas`, `Process` | demand paging, palloc and pfree of one process |
| `Loading` | creation of a process from its segments |
| `UserBytes`, `Uaccess`, `Heap`, `ProcessRuns` | the bytes a process sees, kernel copies to and from them, fresh regions, and whole runs |
| `PacketBank`, `MetaSlab`, `PacketState`, `Packets`, `PacketRuns` | network packets: pages and byte counters, the object slab, shared buffers, and whole runs |
| `Scheduler` | ready queue, sleep list, slot reuse and dispatch |
| `FatChains`, `Fat` | cluster chains of a FAT32 table |
| `Calendar`, `Clock` | civil dates and the slewed wall clock |
| `Tlv`, `Dhcpv6`, `Dhcpv6Replies`, `Dhcpv6Requests` | DHCPv6 options and messages |

Results worth knowing that a reader of the code would not expect:

- The step of `mm_remove_vma` that pulls the mmap cursor back never applies while every
  removal lies inside the window (`MmapWindow.RemoveTiled`).
- The page bitmap can hand out pages below the start of RAM: `PageBitmap.Allocator.Boot`
  says exactly when the first page it hands out is one, `PageBitmap.SealedIff` exactly
  when none can be.
- A run of pages can be refused although enough free words lie side by side, as neither
  pass looks across the word of the hint (`PageBitmap.NoRoomIff`): after 2 MB have been
  taken and given back, all managed pages are free and cannot be had
  (`PageBitmap.Stranded`).
- Leaving user mode does not reload the translation register. The release of the space it
  selects leaves it behind, and so does every new generation (`Asid.FreshStep`); a walk
  cached then puts an entry into the TLB that another space can hit later
  (`Asid.Allocator.ForeignAfterRelease`, `Asid.Allocator.ForeignAfterRollover`). Without
  such a walk none is hit through a fresh register (`Asid.NoForeignHit`).
- Of two segments of an image that share a page only the first gets an area, since the
  answer of `mm_add_vma` is not looked at (`Loading.SharedPageRefused`).
- Mapping a page of kernel RAM again can make it executable in user mode, though never
  readable or writable (`PageTables.RemapOpens`); and once the kernel has taken back a
  shared page, mapping it writable again is a panic (`PageTables.TakenTwice`).
- `ready_process` queues a process that has not been loaded, and marks the running one
  ready if asked to; `Scheduler.Sched.ReadyProcess` says exactly when all stays in order.
- `resize_fat` from a free cluster links that cluster to itself exactly when it is the
  lowest free one from 3 up, and then does not return (`Fat.Fs.Resize`, `Fat.SelfLink`).
- Years past 65535 do not survive the 16-bit year field, and times before 1970 in local or
  universal time are clipped (`Calendar.DateTimeRoundTrip`, `Calendar.UnixMsRoundTrip`).
- A second translation after a fault that was served, the source's test of a chosen
  process before it is dispatched, and the fallback scan of the slab's full list cannot
  fail or be reached.

What the models take from outside is a parameter or an assumption:

- Frames for tables come from a pool of distinct frames; physical memory is a map from
  frames to bytes; time, interrupts and what `palloc` answers to the packet layer are
  arguments. An answer of `palloc` is 0 or whole pages the packet layer does not hold.
- The hardware raises a translation fault only for a page that is not mapped.
- Hardware table walks fall between two calls into the identifier allocator and go
  through the translation register.
- A panic ends the run: after it nothing is claimed.
- Counters that the code keeps in 16, 32 or 64 bits are unbounded where they count events
  (process ids, generations, references, milliseconds, microseconds); sizes and addresses wrap as in
  the code.

## Model

| member | source | states |
|---|---|---|
| `Descriptors.PartsRecovered` | kernel/memory/mmu.c:57-80 | address, type and attribute bits of a descriptor do not overlap: each mask reads back exactly what `make_pte` put in |
| `Descriptors.WordDiffIsAttrDiff` | kernel/memory/mmu.c:253-255 | comparing two words outside address and access flag compares their attributes outside the access flag |
| `Descriptors.GrantedRights` | kernel/memory/mmu.c:57-80 | the stage 1 rights that an attribute word grants are those asked for: user pages readable by the user, writable and executable as requested and never executable by the kernel; kernel pages invisible to the user |
| `Descriptors.GivenSharing` | kernel/memory/mmu.c:57-80 | user and shared pages belong to one address-space identifier and kernel pages to all, normal memory is inner shareable and device memory is not, and a new page has its access flag: bits 11 to 8 of the word |
| `TableForest.ReferencedOnce` | kernel/memory/mmu.c:82-97 | in a forest of tables no table is referenced by two slots |
| `TableForest.LocateInverse` | kernel/memory/mmu.c:82-97 | walking indices from a root ends at the one table recorded for that place, so table and place determine each other |
| `TableForest.WalkFrame` | kernel/memory/mmu.c:296 | writing one slot changes no translation that does not pass through it |
| `TableForest.LeafForest` | kernel/memory/mmu.c:296 | writing a page descriptor keeps the tables a forest |
| `TableForest.LeafWalk` | kernel/memory/mmu.c:296 | a page descriptor sets the translation of its own page to its frame and attributes |
| `TableForest.BlockWalk` | kernel/memory/mmu.c:129-143 | a block descriptor sets the translation of all 512 pages of its region |
| `TableForest.AttachWalk` | kernel/memory/mmu.c:215-232 | hanging a table below an entry with the same meaning, as splitting a 2 MB block does, changes no translation of any page and no attribute |
| `TableForest.DetachWalk` | kernel/memory/mmu.c:917-951 | pruning an empty table changes no translation |
| `TableForest.DetachForest` | kernel/memory/mmu.c:917-951 | pruning an empty table leaves a forest |
| `TableTeardown.PopDone` | kernel/memory/mmu.c:557-589 | leaving a table of the explicit stack, everything below it has been visited |
| `TableTeardown.PushStack` | kernel/memory/mmu.c:557-589 | descending adds the one level that is missing: the stack follows a path of the tree, so it never needs a fifth entry |
| `TableTeardown.FinishedEnd` | kernel/memory/mmu.c:557-589 | when the stack is empty, exactly the tables of the root have been freed |
| `TableTeardown.OtherWalk` | kernel/memory/mmu.c:557-589 | freeing the tables of one root changes no translation of another |
| `PageTables.PageOfInjective` | kernel/memory/mmu.c:641-660 | canonical addresses with the same page and offset in the same half are equal |
| `PageTables.Tables.constructor` | kernel/memory/mmu.c:419-420 | the tables start as two empty kernel roots that map nothing |
| `PageTables.Tables.WalkOrAlloc` | kernel/memory/mmu.c:82-97 | returns the table one level down, allocating it if need be, changes no translation, and fails only when the pool is empty |
| `PageTables.Tables.SplitBlock` | kernel/memory/mmu.c:215-234 | replaces a block by a table with the same 512 translations |
| `PageTables.Tables.SetPage` | kernel/memory/mmu.c:242-297 | writes a page, or refuses exactly when another mapping is in the way; what a page that is mapped already becomes is `RemapMeans` |
| `PageTables.Tables.MapPage` | kernel/memory/mmu.c:175-297 | mapping a page is an update of the page map at that page and nowhere else, and leaves no empty table; a user mapping in a kernel root is refused; a page mapped before keeps its frame and its access bits or gives up user access as the remap rules say, and with three tables to spare the call panics exactly where they conflict |
| `PageTables.Tables.FillTable` | kernel/memory/mmu.c:145-167 | a block over existing pages succeeds exactly when all 512 descriptors agree, and then completes them |
| `PageTables.Tables.MapBlock` | kernel/memory/mmu.c:110-172 | mapping a 2 MB block is an update of the page map at its 512 pages, or a panic where alignment, a differing block or differing pages demand it |
| `PageTables.Tables.UnmapTable` | kernel/memory/mmu.c:321-385 | unmapping removes exactly the page, splitting its block first, if it maps to the expected frame |
| `PageTables.Tables.UnmapAndGetPa` | kernel/memory/mmu.c:875-954 | unmapping returns the frame the page had, removes exactly that page and prunes every table that became empty on a user root |
| `PageTables.Tables.PruneUp` | kernel/memory/mmu.c:917-951 | after the three pruning steps no table emptied by the unmap is left |
| `PageTables.Tables.ReleaseTables` | kernel/memory/mmu.c:557-589 | the depth-first loop terminates with a stack of four and frees each table of the root exactly once and no other |
| `PageTables.Tables.FreeTtbr` | kernel/memory/mmu.c:557-589 | the root maps nothing any more, all other roots are unchanged, and its tables are back in the pool |
| `PageTables.Tables.NewTtbr` | kernel/memory/mmu.c:591-593 | a fresh root that maps nothing, or nothing when the pool is empty |
| `PageTables.Tables.Translate` | kernel/memory/mmu.c:641-723 | translation equals the page map, and each status code is given exactly when the walk ends at its level |
| `PageTables.CanonicalMeans` | kernel/memory/mmu.c:645-648 | the addresses that translation accepts are the 128 TB at either end of the 64-bit space |
| `PageTables.Tables.SetAccessFlag` | kernel/memory/mmu.c:956-992 | sets the access flag of the page or block, and succeeds exactly when the page is mapped |
| `PageTables.RemapMeans` | kernel/memory/mmu.c:252-293 | in terms of the old and the new descriptor: the frame never changes; outside kernel RAM a remap changes nothing and is refused exactly when attributes other than the access flag differ; in kernel RAM one with other access bits ends writable by the kernel alone with the execute bits it had, one with the same takes the new memory type and execute bits, and it is refused exactly when bits besides those differ |
| `PageTables.RemapOpens` | kernel/memory/mmu.c:252-293 | no remap gives user mode a right to read or write that it lacked; one gives it the right to execute exactly in kernel RAM with the same access bits and that right asked for |
| `PageTables.OpenedExample` | kernel/memory/mmu.c:252-293 | a remap that makes a writable shared page executable in user mode |
| `PageTables.TakenTwice` | kernel/memory/mmu.c:252-293 | a shared page of kernel RAM that the kernel takes stays tied to one address-space identifier, so that the kernel can map it a second time read-only, but not writable |
| `PageTables.MapAgain` | kernel/memory/mmu.c:175-297 | the page map after mapping a page again, in the terms of `RemapMeans`, whether a table or a block held it |
| `PageTables.BlockRefused` | kernel/memory/mmu.c:110-172 | a 2 MB mapping is refused exactly when one of its 512 pages is mapped to another frame or with other attributes than it would get |
| `PageTables.BlockMeans` | kernel/memory/mmu.c:110-172 | where it is not, each of the 512 pages has its frame and attributes, and no other page changes |
| `PageTables.BlockWhole` | kernel/memory/mmu.c:110-172 | all 512 pages of a block lie side by side and carry the same attributes |
| `PageTables.TouchMeans` | kernel/memory/mmu.c:956-992 | setting an access flag changes no frame and no right of any page; the flag of the page looked up is set, and that of no page outside its block |
| `PageTables.UntabledEmpty` | kernel/memory/mmu.c:110-172 | a region without a level 3 table and without a block maps nothing |
| `TableRuns.Apply` | kernel/memory/mmu.c:110-992 | every operation, on a user root or a kernel root, is a step of the page map that reserved RAM and roots determine; it panics only where the page map allows no such step or fewer than three tables are left |
| `TableRuns.OneMeaning` | kernel/memory/mmu.c:129-167 | whether a block fits does not depend on whether an empty region has a table, so the step of the page map does not either |
| `TableRuns.Run` | kernel/memory/mmu.c:110-992 | every run of operations on any root refines a run on page maps up to where it stops, and leaves all other roots alone; it stops only at an operation the page map refuses or for want of three tables an operation; on a user root it leaves no empty table behind |
| `TableRuns.StepElsewhere` | kernel/memory/mmu.c:175-992 | no step on one root changes what another root translates |
| `TableRuns.OnlyRootLeft` | kernel/memory/mmu.c:875-954 | an address space built by mapping and unmapping that maps nothing any more consists of its root table alone |
| `TableRuns.Lifetime` | kernel/memory/mmu.c:557-593 | from creation to teardown, whatever was mapped in between: the page map of everyone else is as before and the pool holds the same frames again; it fails only with too small a pool, or at an operation that the page map reached refuses |
| `TableCounts.PlacesAre` | kernel/memory/mmu.c:875-954 | the tables of a user root are the root and those on the way down to its pages, no more |
| `TableCounts.CountTables` | kernel/memory/mmu.c:875-954 | so their number is a function of the page map |
| `TableCounts.Balance` | kernel/memory/mmu.c:82-954 | conservation of table frames: pool and tables that the page map needs add up to the same before and after any mapping and unmapping |
| `TableCounts.AboveMore` | kernel/memory/mmu.c:175-200 | one page more needs at most three tables more |
| `Asid.Allocator.constructor` | kernel/memory/mmu.c:410-417 | 256 identifiers, or 65536 where the processor has them; generation 1, only identifier 0 taken, a clean TLB |
| `Asid.Allocator.Scan` | kernel/memory/mmu.c:831-848 | takes the first free identifier from the cursor on, wrapping once, and finds none exactly when all are taken |
| `Asid.Allocator.EnsureAsid` | kernel/memory/mmu.c:826-855 | ends with a current identifier: the one held, or the first free one from the cursor on; a new generation, with a flushed TLB, begins exactly when none is held and all are taken |
| `Asid.Allocator.Release` | kernel/memory/mmu.c:857-873 | frees the identifier after flushing its TLB entries; an identifier of an old generation is only forgotten; the invariant survives exactly when the space is not the running one |
| `Asid.Allocator.SwitchTo` | kernel/process/scheduler.c:153-154 | after a switch the running space holds a current identifier |
| `Asid.Allocator.EnterUser` | kernel/memory/mmu.c:799-804 | on the way to user mode the translation register selects the running space under its current identifier |
| `Asid.Allocator.UsedExactly` | kernel/memory/mmu.c:826-873 | the bitmap marks identifier 0 and those of current-generation spaces, and no others |
| `Asid.Allocator.NoSharing` | kernel/memory/mmu.c:826-873 | no two spaces of the current generation share an identifier |
| `Asid.Allocator.Do` | kernel/memory/mmu.c:793-873 | one event has its effect on allocator, register and TLB, a walk through the register included whatever that selects, and keeps identifiers in order |
| `Asid.Allocator.Run` | kernel/memory/mmu.c:793-873 | every run of creations, switches, entries to user mode, releases and hardware walks is a trace of their effects, at every moment of which the running space has a current identifier and no two spaces share one |
| `Asid.HitsAreOwn` | kernel/memory/mmu.c:793-873 | while the register is fresh and the TLB clean, no entry of another space can be hit through the register |
| `Asid.FreshStep` | kernel/memory/mmu.c:793-873 | a fresh register is left behind exactly by a new generation and by the release of the space it selects, since only entering user mode loads it |
| `Asid.CleanStep` | kernel/memory/mmu.c:793-873 | a clean TLB stays clean in every step but a walk through a register that has been left behind |
| `Asid.FreshUntil` | kernel/memory/mmu.c:793-873 | in every trace the register is fresh as long as nothing has left it behind since it was loaded |
| `Asid.CleanIff` | kernel/memory/mmu.c:793-873 | in every trace the TLB is clean throughout exactly when each walk finds the register fresh |
| `Asid.NoForeignHit` | kernel/memory/mmu.c:793-873 | in every trace in which nothing leaves the register behind between its loading and a walk, the TLB is clean at every moment, and no entry of another space can be hit until something leaves the register behind |
| `Asid.Allocator.ForeignAfterRelease` | kernel/memory/mmu.c:793-873 | from every state with two spaces a run that ends with an entry of another space hit through a fresh register: the space that the register selects is released, the hardware walks, the identifier is given out again |
| `Asid.Allocator.ForeignAfterRollover` | kernel/memory/mmu.c:793-855 | the same by a new generation, with the space never released |
| `PageBitmap.Allocator.constructor` | kernel/memory/page_allocator.c:145-177 | the bitmap marks its own pages and what lies past the end; pages outside the managed range are sealed off exactly when the first managed word starts at or above the start of RAM |
| `PageBitmap.SealedIff` | kernel/memory/page_allocator.c:145-177 | the exact condition under which no page below the managed range can be handed out |
| `PageBitmap.Allocator.Boot` | kernel/memory/page_allocator.c:145-177 | the first page handed out after boot lies below the start of RAM exactly when the word of the first managed page starts there, and is the first managed page otherwise |
| `PageBitmap.Allocator.MarkUsed` | kernel/memory/page_allocator.c:337-355 | sets exactly the bits of the range |
| `PageBitmap.Allocator.AllocPage` | kernel/memory/page_allocator.c:257-319 | hands out the first free page from the word of the hint on, or from the first word if there is none, and marks only it; fails exactly when every page searched is used; on a sealed bitmap the page is a managed one and failure means that all those are used, whatever the hint |
| `PageBitmap.Allocator.AllocRun` | kernel/memory/page_allocator.c:198-255 | hands out a free run of more than 64 pages, aligned as asked, and marks exactly it; fails exactly when no such run of free words lies wholly on one side of the word of the hint; on a sealed bitmap the run is managed |
| `PageBitmap.Allocator.Free` | kernel/memory/page_allocator.c:91-111 | clears exactly its run; the out-of-range panic is exactly a run of some pages outside the managed ones |
| `PageBitmap.RunInside` | kernel/memory/page_allocator.c:207-218 | on a sealed bitmap a run that passes the mask tests lies inside the managed range |
| `PageBitmap.RunBits` | kernel/memory/page_allocator.c:207-218 | words that pass the mask tests have every page of the run free |
| `PageBitmap.Do` | kernel/memory/page_allocator.c:91-319 | one request is met, or all pages are in use, or neither pass has a place for the run; what is held stays accounted for |
| `PageBitmap.NoRoomIff` | kernel/memory/page_allocator.c:203-207 | neither pass has a place for a run exactly when every place for it where the words are free lies across the start of the word of the hint |
| `PageBitmap.TakeAndGive` | kernel/memory/page_allocator.c:91-255 | from boot, taking 2 MB and giving them back leaves all managed pages free and the hint inside the managed words |
| `PageBitmap.Stranded` | kernel/memory/page_allocator.c:198-255 | after that a request for all managed pages, which are free, is refused, whether it is to be aligned to 2 MB or not |
| `PageBitmap.SkewedExample` | kernel/memory/page_allocator.c:145-177 | a RAM where that happens |
| `PageBitmap.Run` | kernel/memory/page_allocator.c:91-319 | in every run of allocations and frees a request for a page is met unless all are in use, one for a run unless neither pass over the words has a place for it, and at every moment the spans that are held lie in managed RAM, apart from each other, and the pages in use are those of before and theirs exactly |
| `Vmas.AddedAttr` | kernel/memory/mm_process.c:17-56 | adding an area is an update of the attribute of every address of the area and of no other |
| `Vmas.AddedCoalesced` | kernel/memory/mm_process.c:17-56 | adding keeps the list maximally coalesced and grows it by at most one |
| `Vmas.AddedUser` | kernel/memory/mm_process.c:17-56 | regions of one allocation each are never fused |
| `Vmas.CanAddIffDisjoint` | kernel/memory/mm_process.c:17-30 | an area is refused exactly when it overlaps another or the list is full |
| `Vmas.RemovedAttr` | kernel/memory/mm_process.c:58-94 | removing erases the attribute of exactly the overlap with the first area met |
| `Vmas.NothingRemoved` | kernel/memory/mm_process.c:58-72 | a removal is refused exactly when no address of it has an area, or when it would split an area of a full list |
| `Vmas.RemovedCoalesced` | kernel/memory/mm_process.c:58-94 | removing keeps the list maximally coalesced |
| `MmapWindow.ReturnedOk` | kernel/memory/mm_process.c:98-119 | returning a range keeps the free list sorted, disjoint and merged, and adds exactly the range |
| `MmapWindow.RemoveTiled` | kernel/memory/mm_process.c:58-131 | a removal inside the window loses no address: what leaves the areas joins the free list; the step that pulls the cursor back never applies |
| `MmapWindow.AllocFreeTiled` | kernel/memory/mm_process.c:133-151 | an allocation out of a free range keeps every address in exactly one area or free range |
| `MmapWindow.AllocCursorTiled` | kernel/memory/mm_process.c:153-160 | an allocation below the cursor does too |
| `MmapWindow.FreeListFits` | kernel/memory/mm_process.c:108-113 | with an area below and one above the window there are fewer free ranges than areas, so the 128-entry free list never overflows |
| `MmapWindow.RemoveExact` | kernel/memory/mm_process.c:64-77 | removing by the bounds of an area removes that area and nothing else |
| `AddressSpace.RoundingAligned` | kernel/memory/mm_process.c:17-28 | rounding on 64 bits, wrap-around included |
| `AddressSpace.CursorBase` | kernel/memory/mm_process.c:153-157 | the cursor subtraction wraps exactly when the request is larger than what lies below the cursor |
| `AddressSpace.Mm.FindVma` | kernel/memory/mm_process.c:7-15 | finds the area an address lies in, and none exactly when it lies in none |
| `AddressSpace.Mm.AddVma` | kernel/memory/mm_process.c:17-56 | the array edited in place holds the list with the area added, or is unchanged when it overlaps or the list is full |
| `AddressSpace.Mm.RemoveVma` | kernel/memory/mm_process.c:58-131 | the arrays edited in place hold the list with the range removed and the free list with it returned; inside a window nothing is lost |
| `AddressSpace.Mm.AllocMmap` | kernel/memory/mm_process.c:133-161 | for every 64-bit size either 0 with nothing changed, under the exact condition, or an aligned range inside the guarded window that overlaps no earlier area; where the guard passes the cursor it is always 0 |
| `AddressSpace.Mm.LayOut` | kernel/process/loading/process_loader.c:376-407 | the layout of a new process is refused exactly when the image ends too high; otherwise it establishes the tiled window between image and stack, or one too small for any allocation |
| `AddressSpace.Mm.constructor` | kernel/process/loading/process_loader.c:308 | a new address space has no areas and no window |
| `Backing.PageRoundTrip` | kernel/memory/mmu.c:175-200 | page numbers and table indices determine each other |
| `Backing.PageOfLookup` | kernel/memory/mmu.c:956-962 | the top sixteen bits of an address take no part in finding its page |
| `Backing.Memory.MapFrame` | kernel/memory/mmu.c:175-297 | mapping an unmapped user page changes nothing that another root maps, conserves the table frames between pool and page map, and cannot fail with three in the pool |
| `Backing.Memory.Unmap` | kernel/memory/mmu.c:875-954 | unmapping returns the frame and as many tables to the pool as the page map needs fewer, and changes nothing that another root maps |
| `Backing.Memory.Populate` | kernel/memory/mm_process.c:219-226 | an unmapped page gets a frame that was free, zeroed on request; without a frame nothing changes; it panics only with fewer than three tables in the pool, and conserves table frames |
| `ProcessState.GrowOne` | kernel/memory/mm_process.c:198-213 | one page of stack growth keeps page map, frames, areas, stack bounds and counters in agreement |
| `ProcessState.ShrinkOne` | kernel/memory/mm_process.c:201-206 | so does undoing one |
| `ProcessState.GrownScarce` | kernel/memory/mm_process.c:198-208 | growth that stops for want of a frame means that fewer frames were free than pages were needed |
| `Process.User.UndoGrowth` | kernel/memory/mm_process.c:201-206 | the undo loop restores mapping, frames and counters of before the fault |
| `Process.User.GrowStack` | kernel/memory/mm_process.c:198-216 | all pages from the faulting one to the commit point are mapped to zeroed frames, or nothing has changed for want of so many frames, or the kernel panics for want of three tables a page |
| `Process.User.FaultStack` | kernel/memory/mm_process.c:191-217 | a stack fault is served exactly inside the reach of the stack pointer, the limit and the cap, unless frames or tables run out |
| `Process.User.FaultPage` | kernel/memory/mm_process.c:219-230 | any other fault maps one page with the rights of its area, counted if anonymous; at the cap it is refused, below it only without a frame; panics only with fewer than three tables |
| `Process.User.HandleFault` | kernel/memory/mm_process.c:163-231 | a fault sets an access flag, brings in the page (for a stack all up to the commit point) with the rights of its area and zeroed, or changes nothing; a translation fault that is served leaves a leaf that grants the access, and one in an area filled on demand whose leaf would grant it, within 128 KiB of the stack pointer and under the caps, is served whenever there are frames and three tables for each page wanted; refused although allowed only for want of frames; it panics only where it is allowed and the pool has fewer than three tables for each page wanted; every byte in use anywhere keeps its value |
| `Process.SyndromeMeans` | kernel/memory/mm_process.c:163-181 | the syndrome register by its fields: exception class, write bit and fault status |
| `Process.ServedGrants` | kernel/memory/mm_process.c:186-231 | the leaf a served translation fault leaves behind lets user mode make the access that faulted |
| `Process.AllowedIs` | kernel/memory/mm_process.c:182-222 | the tests of area, protection, stack bounds and caps pass exactly when a leaf with the protection of the area would grant the access, the page is within reach, and the caps have room |
| `Process.User.Palloc` | kernel/process/syscall.c:59-71 | a successful palloc adds one region of its own on addresses that belonged to nothing; failure changes nothing and has an exact condition |
| `Process.User.Pfree` | kernel/process/syscall.c:80-103 | a pfree of any address of a region unmaps exactly its pages, returns exactly their frames and lowers the counter by their number; any other address changes nothing; what other roots map is as before, and table frames are conserved |
| `UserAreas.PallocOk` | kernel/process/syscall.c:65-71 | a region placed where nothing was keeps the process in order |
| `UserAreas.PfreeOk` | kernel/process/syscall.c:80-103 | so does releasing one with all its pages |
| `UserAreas.RemovesOwner` | kernel/process/syscall.c:90-92 | removing a region by its bounds removes that region and no other, and every address of it had its attributes |
| `Loading.Extent` | kernel/process/loading/process_loader.c:290-298 | the loop computes the start and end that the image is mapped from and to |
| `Loading.ExtremesMet` | kernel/process/loading/process_loader.c:290-298 | which are the start of some segment and the end of some segment |
| `Loading.Extremes` | kernel/process/loading/process_loader.c:290-298 | and no segment starts lower or ends higher |
| `Loading.Rights` | kernel/process/loading/process_loader.c:331-343 | what the segments that meet one page ask for |
| `Loading.TouchedWhole` | kernel/process/loading/process_loader.c:335-339 | the two comparisons admit exactly the pages that the rounded segments cover |
| `Loading.MapImage` | kernel/process/loading/process_loader.c:330-357 | every page that a segment touches is mapped to its frame with the rights of its segments and no other page is; refused exactly over a page that is to be written and executed where that is not allowed |
| `Loading.WriteXorExecute` | kernel/process/loading/process_loader.c:345-356 | an image page is never both writable and executable unless that is allowed |
| `Loading.AddAreas` | kernel/process/loading/process_loader.c:361-366 | the areas are exactly those of the segments that share no page with an earlier one that has got its area, with their rights; every segment gets its area exactly when no two share a page |
| `Loading.AllGet` | kernel/process/loading/process_loader.c:361-366 | which segments get an area is decided by the pages they share: all do exactly when none is shared |
| `Loading.SharedPageRefused` | kernel/process/loading/process_loader.c:361-366 | of two segments that share a page the second gets no area, and its own pages none at all |
| `Loading.NewSound` | kernel/process/loading/process_loader.c:374-414 | page map, frames, areas, stack bounds and counters of a new process agree |
| `Loading.Create` | kernel/process/loading/process_loader.c:282-425 | a process that is created is in order if no two of its segments share a page, and ready to run if its image leaves room for a window; it starts with an empty stack of 8 MB that is filled on demand and with the caps on stack and anonymous pages; creation fails, unless tables run out first, exactly for an image too high, for want of frames, or over a page to be both written and executed where that is not allowed, and then tables and pool are as before; all other roots map what they did |
| `Loading.FirstPush` | kernel/process/loading/process_loader.c:373-414 | a new process may read and write the 128 KiB below its stack pointer, and at most 32 pages come in for it |
| `Loading.PageRights` | kernel/process/loading/process_loader.c:330-357 | what user mode may do with an image page: write it exactly when a segment that touches it may be written, execute it exactly when one may be executed and either none may be written or both at once were allowed |
| `Loading.AreaMeans` | kernel/process/loading/process_loader.c:361-366 | the area of a segment: whole pages round it, with its rights to write and execute |
| `Loading.FirstProcess` | kernel/process/loading/process_loader.c:282-425 | from boot a first process is reached that every later result applies to |
| `Uaccess.AccessOk` | kernel/process/uaccess.c:8-31 | true exactly when every address of the range lies in an area with the needed right, wrap-around included |
| `Uaccess.ValidateAddress` | kernel/process/uaccess.c:64-89 | succeeds only if the areas admit the range and every byte of it translates afterwards, and always when all of it was mapped to begin with; fails on an admitted range only at an address whose fault is denied; panics only for want of tables; nothing readable changes |
| `Uaccess.EnsureMapped` | kernel/process/uaccess.c:64-89 | an address translates after its fault has been taken, except where that fault is denied, and then nothing has changed |
| `Uaccess.CopyToUser` | kernel/process/uaccess.c:91-120 | the bytes are at their addresses and every other byte of the process and of everyone else is as before; a copy that fails has written a prefix up to an address whose fault is denied; nothing happens without the right; it panics only for want of tables |
| `Uaccess.CopyFromUser` | kernel/process/uaccess.c:33-62 | returns the bytes of the range, changes none, never fails or faults on a mapped range, and on one with the right only at an address whose fault is denied; pages that came in on the way read zero where their area asks for it |
| `Uaccess.CopyStrFromUser` | kernel/process/uaccess.c:122-157 | returns the string up to its terminator, or its first size - 1 bytes when none of them ends it; fails only at bytes that may not be read or whose fault is denied, and never on a mapped range with the right |
| `Uaccess.Echo` | kernel/process/uaccess.c:33-120 | what was copied to a range is read back from it, and no other byte of the process or of anyone else has changed; only the first copy can fail, and never on a mapped range with the right, otherwise only at an address whose fault is denied or for want of tables |
| `Uaccess.FaultExtends` | kernel/memory/mm_process.c:163-231 | a fault takes away no page and changes no readable byte, of this process or another |
| `Uaccess.FaultPaid` | kernel/memory/mm_process.c:163-231 | a fault uses at most one frame, one anonymous page of the cap and three tables for a page outside the stack, and for the stack no more than its growth accounts for |
| `Heap.FirstUse` | kernel/process/syscall.c:59-71 | after palloc, a fault on any address of the region by a read or a write is served with one frame and three tables to be had; its page can then be read and written, not executed, and holds zeros; a fetch is refused |
| `Heap.ReadFresh` | kernel/process/syscall.c:59-71 | palloc and then copy_from_user: any part of the region reads zero, and the copy succeeds when frames and tables suffice |
| `Heap.StoreFresh` | kernel/process/syscall.c:59-71 | palloc and then copy_to_user: the copy succeeds when frames and tables suffice, and its bytes are read back |
| `ProcessRuns.Step` | kernel/memory/mm_process.c:163-231 | one fault, allocation, release or copy keeps the process in order, every region it does not release, every byte that was resident in those, in image and stack and that it does not write, all that other roots map, and the sum of pool and tables in use; it has the effect of its call, failure only for the exact reasons included; it panics only with too small a pool for the stack and what it brings in |
| `ProcessRuns.Run` | kernel/process/syscall.c:59-103 | every run of faults, allocations, releases, copies and moves of the stack pointer is a trace of their effects through states that are in order; it keeps what no call of it releases or writes, has both counters within their caps, changes nothing that other roots map and conserves table frames; a run that panics had fewer tables than three a page for the whole stack and all its calls |
| `PacketBank.Bank.Take` | kernel/networking/netpkt.c:266-280 | charges and holds exactly the pages asked for, or changes nothing, exactly when the page allocator has none or the limit of 32 MiB would be passed |
| `PacketBank.Bank.Give` | kernel/networking/netpkt.c:227-237 | only pages that are held are given back, and no guarded subtraction saturates |
| `MetaSlab.Slab.Carve` | kernel/networking/netpkt.c:103-146 | a new page is carved into as many objects as fit behind its header, each a whole stride from the next |
| `MetaSlab.ObjectsApart` | kernel/networking/netpkt.c:103-146 | no byte belongs to two objects of a page, or to an object and a header, and every byte of an object lies in its page |
| `MetaSlab.Slab.Alloc` | kernel/networking/netpkt.c:64-168 | hands out an object that was not live and makes only it live; keeps every page on the list its use count dictates; fails, without effect, exactly for a bad size or when no page has room and none can be had; charges a page exactly when none had room |
| `MetaSlab.Slab.Free` | kernel/networking/netpkt.c:170-239 | the object and only it stops being live, and at most two empty pages are kept |
| `MetaSlab.PutObject` | kernel/networking/netpkt.c:170-184 | the free list of a page holds exactly its unused objects, each once |
| `MetaSlab.ReturnedFirst` | kernel/networking/netpkt.c:170-183 | what is given back to a slab page is what it hands out next, and then the page is as before |
| `MetaSlab.EmptyHasNoLive` | kernel/networking/netpkt.c:227-237 | a page that goes back to the page allocator holds no live object |
| `MetaSlab.BankedCount` | kernel/networking/netpkt.c:87-101 | a slab has as many pages as are held for it |
| `Packets.Net.constructor` | kernel/networking/netpkt.c:55-62 | no packets, no buffers, no spare page |
| `Packets.Net.MakeBuf` | kernel/networking/netpkt.c:258-302 | a buffer of whole pages, from the spare page or the page allocator; failure leaves buffers, spare page, the pages held and the objects in use as they were; succeeds exactly when an object and the pages are to be had within the limit |
| `Packets.Net.ReleaseRef` | kernel/networking/netpkt.c:312-343 | a buffer goes with its last packet: its memory becomes the spare page, is given back, or is returned to its owner by one callback |
| `Packets.Net.Alloc` | kernel/networking/netpkt.c:348-428 | an empty packet with the room asked for and a buffer of its own, of the fewest pages that hold it; failure changes no packet, no buffer and not the spare page; succeeds exactly when the size is in bounds and both objects and the pages are to be had within the limit |
| `Packets.Net.Wrap` | kernel/networking/netpkt.c:430-463 | a packet that shows the given part of foreign memory, through a buffer of one reference that keeps its owner's bounds and callback; succeeds exactly when the part lies in the memory and both objects are to be had |
| `Packets.Net.View` | kernel/networking/netpkt.c:465-489 | a packet of exactly the given part of its parent, with no room beyond it, that shares its buffer; succeeds exactly when the part lies in the parent and an object is to be had |
| `Packets.Net.Ref` | kernel/networking/netpkt.c:491-494 | one more reference |
| `Packets.Net.Unref` | kernel/networking/netpkt.c:496-537 | the last reference takes the packet away; no other packet shows anything else; the owner of foreign memory is called exactly when its last packet goes |
| `Packets.Net.Realloc` | kernel/networking/netpkt.c:241-346 | the packet shows the same bytes from a new buffer of its own, of the fewest pages that hold the request, with the head room asked for; the old buffer's owner is called exactly when that was its last packet; failure changes nothing, and happens exactly for views, too small a request, or when no new buffer can be had |
| `Packets.Net.EnsureHeadroom` | kernel/networking/netpkt.c:559-580 | the packet shows the same bytes, has the head room (its own if that was enough, the one asked for if it moved) and is the only user of its buffer; succeeds without any memory where that is so already, and otherwise exactly when it can move |
| `Packets.Net.EnsureTailroom` | kernel/networking/netpkt.c:581-599 | the same with tail room |
| `Packets.Net.Shrink` | kernel/networking/netpkt.c:630-652 | the pages behind the last byte shown go back, all of them, exactly when the packet is the only one on an internal buffer with whole pages to spare; the counters fall by as much and nothing else changes |
| `Packets.Net.Push` | kernel/networking/netpkt.c:601-611 | the packet shows so many bytes in front of what it showed, from a buffer of its own; every other packet shows what it did; succeeds exactly when the head room can be had |
| `Packets.Net.Put` | kernel/networking/netpkt.c:613-622 | the same behind what it showed |
| `Packets.Net.Prepend` | kernel/networking/netpkt.c:601-611 | pushing and writing a header is prepending it |
| `Packets.Net.Append` | kernel/networking/netpkt.c:613-622 | putting and writing data is appending it |
| `Packets.Net.Pull` | kernel/networking/netpkt.c:624-655 | dropping bytes in front, exactly when there are as many; every whole page behind the packet goes back and is counted, exactly when the packet is the only one on an internal buffer |
| `Packets.Net.Trim` | kernel/networking/netpkt.c:657-687 | keeping bytes in front, exactly when there are as many; every whole page behind the packet goes back and is counted, exactly when the packet is the only one on an internal buffer |
| `Packets.Net.Conserved` | kernel/networking/netpkt.c:55-62 | payload bytes are the live internal buffers and the spare page, meta bytes the pages of both slabs, the total their sum and at most 32 MiB |
| `Packets.NothingLeft` | kernel/networking/netpkt.c:266-280 | a page allocator that has nothing left is among those the results are for |
| `PacketRuns.Do` | kernel/networking/netpkt.c:348-687 | one operation has its effect, succeeding and failing under its exact condition |
| `PacketRuns.Run` | kernel/networking/netpkt.c:241-687 | every run of operations on any packets is a trace of their effects, at every moment of which packets and buffers fit together and the byte counters say what is in use |
| `PacketRuns.StepKeeps` | kernel/networking/netpkt.c:348-687 | no operation on another packet changes what a packet or view shows, its parent and its views included |
| `PacketRuns.RunKeeps` | kernel/networking/netpkt.c:348-687 | so in every run a packet or view shows the same bytes for as long as nobody operates on it |
| `PacketState.PayloadSum` | kernel/networking/netpkt.c:241-428 | every payload page belongs to exactly one internal buffer or is the spare page |
| `PacketState.WriteOk` | kernel/networking/netpkt.c:304 | writing into a buffer is seen only by the packets that use it |
| `Scheduler.Sched.constructor` | kernel/process/scheduler.c:466-503 | the kernel process is current and nothing is queued or asleep: the state that every run may start from |
| `Scheduler.QueuedMore` | kernel/process/scheduler.c:81-87 | putting a loaded process into the queue keeps exactly the ready processes marked, queued and able to run |
| `Scheduler.Sched.ReadyProcess` | kernel/process/scheduler.c:246-255 | a process that may start joins the end of the queue, any other call changes nothing; the queue stays in order exactly when such a process has been loaded, and one process goes on running exactly when it is not the running one |
| `Scheduler.Sched.Switch` | kernel/process/scheduler.c:120-158 | the first queued process that is ready, counting the one that was running, becomes the running one, and the idle process exactly when none is; every other ready process moves up |
| `Scheduler.Sched.NextReady` | kernel/process/scheduler.c:129-137 | the search skips only stale entries |
| `Scheduler.Sched.Sleep` | kernel/process/scheduler.c:625-654 | the running process is inserted behind everyone who wakes no later, and another runs |
| `Scheduler.Sched.RemoveSleeper` | kernel/process/scheduler.c:89-102 | removes the process from the sleep list, and says whether it was there |
| `Scheduler.Sched.Stop` | kernel/process/scheduler.c:572-602 | the process with the id stops and leaves the sleep list; if it was running another runs; an unknown or stopped id changes nothing |
| `Scheduler.Sched.Wake` | kernel/process/scheduler.c:656-674 | a sleeping process becomes ready, any other stays as it is |
| `Scheduler.Sched.WakeAll` | kernel/process/scheduler.c:676-700 | exactly the processes that are due wake, in order of their times |
| `Scheduler.Sched.Init` | kernel/process/scheduler.c:505-557 | a new process in the first slot of a stopped one to which nobody refers, or in a new slot exactly when there is none; never in that of the current process |
| `Scheduler.Sched.Load` | kernel/process/loading/process_loader.c:409-422 | a blocked process gets what it needs to run |
| `Scheduler.MovesUp` | kernel/process/scheduler.c:129-137 | every ready process that is not chosen has fewer entries ahead of it than before |
| `Scheduler.Sched.Do` | kernel/process/scheduler.c:81-700 | every step does what its function does, and keeps at most one process running, every ready process queued despite stale entries, and the sleep list sorted and exact |
| `Scheduler.Run` | kernel/process/scheduler.c:81-700 | every run of steps is a trace: each moment of it is in order with one process running, and follows from the one before by its step |
| `Scheduler.Progress` | kernel/process/scheduler.c:120-158 | a step leaves a ready process running, stopped, or ready and further up the queue by at least one place for a switch |
| `Scheduler.Waiting` | kernel/process/scheduler.c:120-158 | as long as a ready process has neither run nor been stopped, it has moved up by one place for each switch |
| `Scheduler.BoundedWait` | kernel/process/scheduler.c:120-158 | in every trace a process that is ready behind k entries has run or been stopped by the time there have been more than k switches |
| `FatChains.ChainUnique` | kernel/filesystem/fat32.cpp:330-343 | a chain is determined by its first cluster |
| `FatChains.LinkWellFormed` | kernel/filesystem/fat32.cpp:364-367 | linking a free cluster behind the end of a chain keeps every chain well formed |
| `FatChains.CutWellFormed` | kernel/filesystem/fat32.cpp:372-375 | cutting a chain and freeing the rest does too |
| `FatChains.ReachedThrough` | kernel/filesystem/fat32.cpp:372-375 | whoever reaches a cluster behind the cut passes the cut |
| `Fat.Fs.Count` | kernel/filesystem/fat32.cpp:330-343 | the length of the chain |
| `Fat.Fs.Resolve` | kernel/filesystem/fat32.cpp:345-355 | the cluster at an index of the chain, and 0 past its end |
| `Fat.Fs.AllocFat` | kernel/filesystem/fat32.cpp:392-401 | the lowest free cluster from 3 up, and 0 exactly when there is none |
| `Fat.Fs.DeallocFat` | kernel/filesystem/fat32.cpp:383-390 | frees a cluster and everything after it, and nothing else; a cluster out of range changes nothing |
| `Fat.Fs.Resize` | kernel/filesystem/fat32.cpp:357-381 | the chain is cut or extended to the length asked for, old clusters first; cut clusters are free; when clusters run out it is as long as they allow; the table stays well formed; the call does not return exactly when start is free, is the lowest free cluster, and successors are asked for |
| `Fat.ResizedSuccessors` | kernel/filesystem/fat32.cpp:357-381 | after a successful resize start has exactly count successors, if and only if it was in use or any were asked for |
| `Fat.ResizedOthers` | kernel/filesystem/fat32.cpp:357-381 | chains that share no cluster with it are as they were |
| `Fat.SelfLink` | kernel/filesystem/fat32.cpp:362-368 | resizing from a free cluster that is the lowest free one links it to itself, and it starts no chain any more |
| `Fat.SelfLinkExample` | kernel/filesystem/fat32.cpp:362-368 | a table where that happens |
| `Calendar.Civil` | kernel/exceptions/timer.c:213-226 | every day number gives a valid Gregorian date whose number it is |
| `Calendar.CivilOfDays` | kernel/exceptions/timer.c:204-226 | every valid date is the date of its day number |
| `Calendar.CivilCounts` | kernel/exceptions/timer.c:213-226 | the date of the next day number is the next day of the calendar |
| `Calendar.DaysOfNext` | kernel/exceptions/timer.c:204-211 | the number of the next day is one more |
| `Calendar.EpochIsZero` | kernel/exceptions/timer.c:204-226 | day 0 is 1 January 1970 |
| `Calendar.YearBack` | kernel/exceptions/timer.c:216-219 | the division formula for the year of an era inverts the formula for its days |
| `Calendar.DateTimeRoundTrip` | kernel/exceptions/timer.c:233-272 | milliseconds to date and time and back, in any 32-bit offset, loses the milliseconds and nothing else exactly when the local time is not before 1970 and its year fits 16 bits |
| `Calendar.ClippedExample` | kernel/exceptions/timer.c:233-272 | an hour behind, the epoch comes back as an hour past it |
| `Calendar.UnixMsRoundTrip` | kernel/exceptions/timer.c:233-272 | a valid date and time of 1970 to 65535, in any 32-bit offset, comes back as it was exactly when it is not before 1970 in universal time |
| `Calendar.ClippedTimeExample` | kernel/exceptions/timer.c:233-272 | an hour ahead, the first midnight comes back as one o'clock |
| `Calendar.DateMended` | kernel/exceptions/timer.c:254-272 | a date field out of range counts as its least value, a year before 1970 as 1970 |
| `Calendar.TimeMended` | kernel/exceptions/timer.c:254-272 | so does a time field |
| `Calendar.DaysRunOn` | kernel/exceptions/timer.c:204-211 | a day past the end of its month runs on into the next |
| `Clock.StretchBound` | kernel/exceptions/timer.c:105-125 | frequency correction and slew step stay within 500 parts per million and one microsecond |
| `Clock.TickRead` | kernel/exceptions/timer.c:105-131 | a read never takes the clock back, is off the elapsed time by at most a thousandth and one microsecond, and works off some of the slew, never more than there is |
| `Clock.Wall.Advance` | kernel/exceptions/timer.c:105-131 | the fields updated in place make the step that `TickRead` is about |
| `Clock.Run` | kernel/exceptions/timer.c:105-160 | every run of reads, slews, tunings and settings is a trace of such steps within the caps, and the times returned are those of the trace |
| `Clock.Drift` | kernel/exceptions/timer.c:105-160 | between two settings, however the clock is slewed and tuned, it never falls and is off the elapsed time by at most a thousandth and one microsecond an event |
| `Clock.SlewAccount` | kernel/exceptions/timer.c:105-160 | between two settings every microsecond of slew that the cap let in has been applied once or is still to come |
| `Clock.ReadAfterSet` | kernel/exceptions/timer.c:105-150 | a read after a setting shows the time set and what has passed since within a two-thousandth, and nothing of the slew pending before |
| `Clock.StretchSign` | kernel/exceptions/timer.c:105-131 | a positive correction never shortens an interval and a negative one never lengthens it |
| `Clock.SlewSpeed` | kernel/exceptions/timer.c:105-127 | a read after dt microseconds works off dt / 2000 of the pending slew, at least one and never more than there are |
| `Clock.Speeds` | kernel/exceptions/timer.c:105-131 | between two reads a clock tuned up runs at least as fast as the counter, one tuned down at most as fast, and of two clocks the one tuned higher is never behind |
| `Clock.Asked` | kernel/exceptions/timer.c:152-160 | requests to slew and to tune are taken as they are within their caps, and at the cap beyond them |
| `Tlv.DecodeAll` | kernel/networking/application_layer/dhcpv6.c:6-19 | decoding what was encoded gives the options back (section 21.1 of RFC 8415) |
| `Dhcpv6.FindSub` | kernel/networking/application_layer/dhcpv6.c:239-309 | finds the first inner option of a kind that the nested decoder finds, reading only inside its bounds |
| `Dhcpv6.ParseOpts` | kernel/networking/application_layer/dhcpv6.c:181-317 | on any bytes, what the options found by the nested decoder mean in order; for a message put together from server, address, prefix, DNS and NTP options that meaning is `Dhcpv6Replies.Receive` |
| `Dhcpv6Replies.Receive` | kernel/networking/application_layer/dhcpv6.c:181-330 | the bytes of a server message, written out, come back as the fields of its parts in any order: of each kind the last one that the client expects, and blank where there is none; accepted exactly when the header is whole |
| `Dhcpv6Replies.LastSays` | kernel/networking/application_layer/dhcpv6.c:181-317 | the last expected part of a kind decides its fields, whatever stands before and between |
| `Dhcpv6Replies.NotExpected` | kernel/networking/application_layer/dhcpv6.c:224-234 | an address under another identity association than the one expected changes nothing |
| `Dhcpv6Replies.AbsentKept` | kernel/networking/application_layer/dhcpv6.c:181-317 | a kind that does not occur leaves its fields alone |
| `Dhcpv6Replies.WireIs` | kernel/networking/application_layer/dhcpv6.c:181-317 | the bytes written out are the encoded options |
| `Dhcpv6.ParseMessage` | kernel/networking/application_layer/dhcpv6.c:319-330 | the same for a message whose transaction id is expected; refuses short messages and others |
| `Dhcpv6.OptAppend` | kernel/networking/application_layer/dhcpv6.c:6-19 | appends the encoding of an option if it fits, and otherwise nothing |
| `Dhcpv6.Build` | kernel/networking/application_layer/dhcpv6.c:32-179 | the message is its header and the encodings of the options that fit, in order |
| `Dhcpv6Requests.Ask` | kernel/networking/application_layer/dhcpv6.c:32-179 | a message of any type, for a client with or without a lease, decoded by option code: client id from the link-layer address, the server chosen, the request for DNS and NTP servers in the eight message types that carry it, the address association with the lifetimes held unless a new one is to be chosen, the prefix likewise under its own association; 253 bytes hold it |
| `Dhcpv6Requests.OptionsFound` | kernel/networking/application_layer/dhcpv6.c:46-176 | the same of the option list, of which each code is found at its first place |
| `Dhcpv6.RenewMeans` | kernel/networking/application_layer/dhcpv6.c:32-317 | the options of a renewing client mean its server id, lifetimes and delegated prefix |
| `Dhcpv6.Exchange` | kernel/networking/application_layer/dhcpv6.c:32-330 | parsing a Renew or Rebind that fits its buffer recovers transaction id, server id, lifetimes and prefix |
| `Dhcpv6.Xid` | kernel/networking/application_layer/dhcpv6.c:21-25 | transaction ids are 24 bits and never 0 |

## Left out

- `palloc_inner` for 2 to 64 pages: its run search shifts by an amount that is not kept below 64.
- `kalloc`, `kfree` and the page index: raw in-page tags.
- `mmu_init` beyond its two empty roots, `mmu_copy`, `register_*` and the choice of root in `mmu_translate` for a null root: they only call what is modelled.
- The refill of the table pool when it runs dry: the pool is a sequence that may be empty, and an empty pool is the panic.
- Instruction and data cache maintenance, TLB flushes of single pages, and registers other than the user translation register.
- `reset_process` beyond its effect on the scheduler: it unmaps and frees what the process models already describe.
- The bytes of a new process's image, which `create_process` clears and copies from the file, and what `reset_process` undoes when it fails.
- Loading.Create: not for images that reach the last seven pages of the 64-bit space, where sums of addresses wrap, nor for more than 126 segments, which fill the area list; the frames are what `palloc` answers, and an image too high is refused before it is mapped, where the source does so after.
- `block_process`, `resume_blocked_process`, signals and the `/proc` files of the scheduler.
- `pending_reset` and `proc_count` of the scheduler: nothing modelled sets the first, and the second only guards a panic.
- The kernel's own list and queue types: linked lists and queues are sequences, so aliasing of list nodes is not modelled.
- Null kernel pointers passed to the copy and packet functions: they return an error before anything else.
- `copy_argv_from_user`: a loop over two modelled copies.
- FAT directories, long names, disk reads and writes; the table in memory is the state.
- `timer_now_datetime`, time zones beyond an offset, and text formatting of dates.
- DHCP daemons and sockets; the codec is modelled from bytes to fields and back.
- Process.User.HandleFault: after a panic for want of a table frame nothing is stated.
- Scheduler.Sched.Sleep: for a time above 0 only of a running process other than the idle one, which is how the system call makes it.
- Uaccess.CopyStrFromUser: the destination buffer is the returned sequence, so its bytes behind the string are not modelled.
- Packets.Net.Unref: gives the packet object back before the buffer, where the source does so after.
- PacketState.WriteOk: memory is kept per buffer; that internal buffers do not overlap is proved, that wrapped memory is apart from all else is the caller's.
