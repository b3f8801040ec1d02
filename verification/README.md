# Relis kernel: a verified model

Relis is a small x86_64 kernel in C and assembly. This project models its core and proves what
the rest of the kernel relies on: page tables that behave as a flat map from pages to frames,
address spaces that share the kernel half and copy the user half, a loader that builds the
image the ELF headers describe, a scheduler and a context switch that give every task back what
it left, locks, pipes and rings that stay correct under every interleaving, and four smaller
parts with their own laws (PCI enumeration, the one-block file system, path resolution, the
IPv4 header checksum).

`dafny verify dfyconfig.toml` checks everything.

## How the model is built

| file | models |
|---|---|
| `Pgtable.dfy` | table entries: the 64-bit word and its masks, cut without loss into a frame number and flags; the words that arch/mm/init.c builds; the four indices of an address |
| `FrameAlloc.dfy` | the frame allocator: an abstract memory (`Mem`), and the class `PhysMemory` with the bitmap, free count and search hint |
| `Paging.dfy` | `arch_map_page` and `walk_page_table` as functions, the processor's translation (`Lookup`), and the invariant `Shape` |
| `CloneSpace.dfy`, `CloneStores.dfy` | what creating and cloning an address space mean, and what any stores after a clone can reach |
| `Outside.dfy` | what mapping and unmapping leave alone: other address spaces, frames in use, the entries of other frames |
| `FrameCosts.dfy` | how many frames mappings take: what one mapping takes, and what it leaves missing for every other page |
| `Access.dfy`, `AccessRuns.dfy` | what the processor lets an access do, since it needs its right at every level: after a mapping, after a fork, and over runs from the boot tables |
| `Mmu.dfy` | the class with `cr3`, `current_pgd` and the loops of arch/mm/init.c, run in place on `PhysMemory` |
| `SharedKernel.dfy` | runs of map, unmap, create, clone, switch, allocate and store, starting from the boot tables |
| `Elf.dfy` | the ELF structs as bytes and what the loaders read of them |
| `PageContents.dfy`, `Loader.dfy`, `Exec.dfy` | bytes of a page, the image that ELF headers describe, the loading loops |
| `Program.dfy` | the address space that a loaded program finds |
| `VmArea.dfy`, `Vmalloc.dfy` | the vmalloc region, its areas, `vmalloc` and `vfree` |
| `RegionRuns.dfy`, `ExecRuns.dfy` | the vmalloc region in runs from the boot tables; exec as steps of such runs, and exec followed by fork |
| `Lists.dfy`, `SchedSpec.dfy`, `Scheduler.dfy` | the intrusive lists, the scheduler on sequences, the scheduler on the lists |
| `ContextSwitch.dfy` | the assembly of `switch_to` and the interrupt path as instruction lists with an interpreter, and the stacks built by hand |
| `Spinlock.dfy`, `Pipe.dfy`, `Keyboard.dfy`, `NicRing.dfy` | step machines: one step per atomic access, any interleaving |
| `Pci.dfy`, `RelisFs.dfy`, `Vfs.dfy`, `IpChecksum.dfy` | the smaller parts |
| `Bytes.dfy` | numbers and bit-vectors as little-endian bytes |
| `Wrappers.dfy` | `Option`, for null pointers and for calls that halt the kernel |

`Shape` is what keeps the page tables apart. It gives every table frame a role that names its
parent frame and index, or, for the top-level tables of the upper half, only the index. A frame
has one role, so a table has one parent, except that all address spaces may share the upper
half's tables. The role map is ghost state: it follows from the operations and is never read by
the code.

An out-of-memory halt (`alloc_page` panics, mm/page_alloc.c:48-49) is the result `None` or
`false`. Every method that can halt promises that no frame was free when it did. Cloning, exec
and vmalloc promise more: each halts exactly when fewer frames are free at the call than it
takes, a number that the state at the call gives (`CloneCost`, `Need`, `SpanCost`), and when it
does not halt it takes exactly that many.

## Where the code falls short of a property

- `arch_map_page` tests only the present bit on its way down (arch/mm/init.c:31-54), so under a
  2 MiB entry it writes into the big page and the mapping does not take effect. `MapUnderHuge`
  says what happens instead and `MapTakesEffectIff` that this is the only failing case.
  arch/smp/smp_boot.c:28 makes such a call: it maps 0x8000, which arch/entry.asm:85-96 covers
  with a 2 MiB entry. `TrampolineMapLost` shows it on the boot tables. `walk_page_table` has the
  same gap (`WalkUnderHuge`).
- `relisfs_read` clamps the count with the 64-bit sum `f_pos + count` (fs/relisfs/relisfs.c:31),
  and kernel/entry/syscall.c:103 hands it a count from user mode unchecked. `ClampIff`: below
  the end of the file, the clamp is right, and the copy stays inside the block, exactly when the
  sum does not wrap. `ClampWraps` is an input where it does: position 1 of 2 bytes, count
  2^64 - 1.
- The frame allocator's free count starts as total minus kernel pages (mm/page_alloc.c:31).
  The constructor of `PhysMemory` is right exactly when the kernel image fits the memory;
  otherwise the count wraps.
- `free_page` keeps the frame number in 32 bits (mm/page_alloc.c:54). `ReleaseIff`: it frees the
  frame of the address, or nothing if that is out of range, exactly when the address is below
  2^44 or the narrowed number hits no frame in use. `ReleaseWraps`: freeing 2^44 frees frame 0.
- `vmalloc` keeps its page count in 32 bits (mm/vmalloc.c:22), so above 2^44 - 4096 bytes it maps
  too few pages. `PagesNeededExact` is the exact condition.
- `vmalloc` maps whatever comes next in its region and tests nothing (mm/vmalloc.c:25-29), while
  arch_paging_init has mapped the local APIC and the I/O APIC at the region's first two pages
  (arch/mm/init.c:17-18, include/asm/apic.h:7-8). `Vmalloc.Alloc` promises the exact condition
  (`TakesOverIff`): what was mapped survives if and only if the pages handed out were unmapped.
  `VmallocTakesLapic`: the first page handed out after paging init takes the APIC's window.
  nic_hw_init maps its registers at the same address (nic_hw.c:10, :25; `NicTakesLapic`).
- `vmalloc_ptr` never goes back and VMALLOC_END is never tested (mm/vmalloc.c:8, 28).
  `InsideIff`: the pages that a run of calls gets lie in the region if and only if there are at
  most 262144 of them in all, whatever is freed. `FreedPagesDoNotReturn` is a run that leaves it.
- Process ids come from a 32-bit counter (kernel/sched/core.c:11). `PidsDistinctIff`: they are
  distinct exactly while no more than 2^32 tasks have been made.
- The positions of a pipe never go back (kernel/ipc.c:26, 43), so a pipe accepts 4096 bytes in
  its whole life. `WholeIff`: a write is accepted whole if and only if it fits into what is left
  of them, however much has been read. `EmptyAndFull` is an input: 4096 bytes written, 4096 read,
  and the next write takes nothing. `FullForEver`: a write that is cut short is the last that is
  accepted.
- Nothing ever leaves the realtime queue and its head never moves (kernel/sched/rt.c:14-20).
  `RealtimeMonopoly`: once a realtime task exists, no other class runs again. `FairTurnIff` is
  the exact condition: the task at position i of the fair queue gets the (i+1)-th turn if and
  only if no realtime task exists and none is created before that turn.
- `sys_fork` reports "(CoW)" (kernel/fork.c:49), but `clone_address_space` copies every page at
  once; the model follows the code.

## Model

| member | source | states |
|---|---|---|
| `Pgtable.SplitJoin` | include/asm/pgtable.h:9-22 | the address and flag masks cut a 64-bit entry into frame number, four flags and twenty other bits without loss, and every combination is an entry |
| `Pgtable.EncodeDecode` | include/asm/pgtable.h:21-22 | the model's entry (frame as a number, flags) and the fields of the word translate into each other, in both directions |
| `Pgtable.HardwareBits` | include/asm/pgtable.h:9-19 | the fields of an entry are the present, writable, user, huge, cache-disable and no-execute bits of the word |
| `Pgtable.OrUserEntry` | arch/mm/init.c:35-51 | or-ing `user_flag` into a word is the model's `OrUser` on the entry, for both values of the flag |
| `Pgtable.AddressOrFlags` | arch/mm/init.c:33-55 | a masked address or-ed with flag bits has that address and those flags |
| `Pgtable.LeafEntry` | arch/mm/init.c:55 | the word written for a page is the model's `LeafWord` of the page's frame and flags |
| `Pgtable.RetargetEntry` | arch/mm/init.c:96-120 | a masked flag part or-ed with an address that has no flag bits is the old entry with the new frame |
| `Pgtable.ClonedEntry` | arch/mm/init.c:93-120 | so the word written for a cloned page or table is the old entry on the frame that alloc_page gave |
| `Pgtable.TableEntry` | arch/mm/init.c:33-49 | the word written for a new table is the model's `TableWord` of the table's frame |
| `Pgtable.IndicesArePageNumber` | include/asm/pgtable.h:29-32 | the four indices are exactly the base-512 digits of the page number, so they identify the page |
| `FrameAlloc.LowestFree` | mm/page_alloc.c:37-39 | the index found is free and everything below it is in use; nothing is found only when all are in use |
| `FrameAlloc.Alloc` | mm/page_alloc.c:36-51 | an allocation fails exactly when no frame is free and otherwise takes the lowest free frame |
| `FrameAlloc.CountFreeUpdate` | mm/page_alloc.c:41 | the number of free frames moves by exactly the change of one bit |
| `FrameAlloc.CountFreeZero` | mm/page_alloc.c:48-49 | the free count is zero exactly when every frame is in use |
| `FrameAlloc.ReleaseFrame` | mm/page_alloc.c:53-58 | freeing the address of a frame in range clears that frame's bit and no other |
| `FrameAlloc.ReleaseIff` | mm/page_alloc.c:53-58 | for an address of any size, exactly that frame or nothing is freed if and only if narrowing the frame number to 32 bits hits no frame in use |
| `FrameAlloc.ReleaseWraps` | mm/page_alloc.c:53-58 | an address where it does: 2^44 frees frame 0 |
| `FrameAlloc.StaysUsed` | mm/page_alloc.c:36-62 | over any run, a frame in use stays in use until an operation frees it |
| `FrameAlloc.NoDoubleIssue` | mm/page_alloc.c:36-62 | over any run, a frame issued twice was freed in between |
| `FrameAlloc.BitWritten` | mm/page_alloc.c:28-58 | of the 64-bit words: or-ing the mask of bit k in, or and-ing its complement, makes bit k read as written and leaves the other 63 |
| `FrameAlloc.MaskShift` | mm/page_alloc.c:28-58 | the mask of bit k is 1 shifted left by k |
| `FrameAlloc.BitmapWritten` | mm/page_alloc.c:28-58 | so writing one bit of the bitmap changes the state of exactly that frame |
| `FrameAlloc.PhysMemory.constructor` | mm/page_alloc.c:17-34 | after init exactly the kernel's frames are in use and the total is capped at 65536; the free count is right exactly when the kernel image fits the memory |
| `FrameAlloc.PhysMemory.Mark` | mm/page_alloc.c:28-58 | bitmap and abstract state change together in one frame, and the count follows |
| `FrameAlloc.PhysMemory.AllocPage` | mm/page_alloc.c:36-51 | the scan from the hint is the lowest-free allocation, zeroes the frame, keeps hint and count right and halts only when every frame is in use |
| `FrameAlloc.PhysMemory.FreePage` | mm/page_alloc.c:53-62 | frees the frame of the address truncated to 32 bits, ignores frames out of range and double frees, and keeps hint and count right |
| `Paging.WalkFindsEntry` | arch/mm/init.c:60-74 | off huge pages the walk returns the entry that the processor's translation uses, or null exactly when a table is missing |
| `Paging.WalkUnderHuge` | arch/mm/init.c:60-74 | under a 2 MiB entry the walk returns a word of the big page, which is no entry |
| `Paging.EnsureTableKeeps` | arch/mm/init.c:30-52 | adding a table or a user bit changes no translation of any address space |
| `Paging.LeafWriteKeeps` | arch/mm/init.c:55 | writing a page-table entry changes exactly the translations that reach it |
| `Paging.MapFromShape` | arch/mm/init.c:26-58 | mapping keeps every table an allocated frame with one parent |
| `Paging.TableIdentifiesPath` | arch/mm/init.c:38-54 | two paths to one page table are the same path, from the same PML4 unless the table serves the upper half |
| `Paging.MapRefinesFlatMap` | arch/mm/init.c:26-58 | mapping a page updates a flat map: that page translates to the frame with the flags and present, every other page as before, whatever tables were allocated |
| `Paging.MapTakesOnly` | arch/mm/init.c:32-48 | mapping takes exactly the frames of the tables it adds |
| `Paging.MapEffects` | arch/mm/init.c:26-58 | all effects at once: the flat map, the tables, and untouched contents of every frame in use that is no table |
| `Paging.MapSeenByOthers` | arch/mm/init.c:26-58 | another address space sees the new page exactly when it holds the upper-half table the page went under, and nothing else changes for it |
| `Paging.MapGivesUser` | arch/mm/init.c:28-55 | a page mapped for the user has the user bit at all four levels |
| `Paging.MapUserAccess` | arch/mm/init.c:28-55 | user access to any page after a mapping: the mapped page has what its flags ask for, and every other page has what it had |
| `Paging.MapHaltsWhenShort` | arch/mm/init.c:31-49 | the mapping halts exactly when fewer frames are free than tables are missing on the path |
| `Paging.MapUnderHuge` | arch/mm/init.c:46-55 | under a 2 MiB entry the translation stays and a word of the big page's first frame is overwritten |
| `Paging.MapTakesEffectIff` | arch/mm/init.c:46-55 | the mapping takes effect exactly when no 2 MiB entry covers the page |
| `CloneSpace.CreateSpaceLookup` | arch/mm/init.c:129-138 | a new space has an empty lower half and the current upper half; all other spaces translate as before |
| `CloneSpace.CopyStable` | arch/mm/init.c:98-124 | a finished copy of a subtree stays one while tables above it are filled |
| `CloneSpace.PageCopied` | arch/mm/init.c:115-121 | one turn of the page loop: a private frame with the old contents and flags |
| `CloneSpace.TableCopied` | arch/mm/init.c:98-124 | one turn of a table loop: a private table that is a copy all the way down |
| `CloneSpace.HugeCopied` | arch/mm/init.c:107-108 | one turn over a 2 MiB entry: copied as it is |
| `CloneSpace.CloneTranslations` | arch/mm/init.c:82-127 | every lower-half 4 KiB page of the child has the parent's presence, flags and contents on a frame that was free; 2 MiB entries and the upper half are the same; every existing space is untouched |
| `CloneSpace.ClonePagesPrivate` | arch/mm/init.c:117-120 | the frame behind a lower-half page of the child is mapped nowhere else, by any space |
| `CloneSpace.ShortAt` | arch/mm/init.c:92-124 | with too few frames for one entry of a table there are too few for the whole table, so a clone that halts half-way was short from the start |
| `CloneStores.TranslationsKept` | arch/mm/init.c:82-127 | after any sequence of stores through 4 KiB pages of any spaces, onto frames that are no tables, every space translates as before |
| `CloneStores.ChildKeepsItsOwn` | arch/mm/init.c:117-120 | after a clone and any such sequence, a lower-half page of the child holds the last page stored through it, or the parent's contents at the clone if there was none |
| `CloneStores.OthersKeepTheirs` | arch/mm/init.c:117-120 | a page of any other space, or of the upper half, holds what it would hold without the child's lower-half stores |
| `CloneStores.ParentKeepsItsOwn` | arch/mm/init.c:117-120 | a parent's page that was mapped once holds the last page stored through it, or what it held at the clone |
| `Outside.UndisturbedMap` | arch/mm/init.c:26-58 | mapping under a new space, or at an allowed page, leaves every other translation of every older space and every frame in use alone |
| `Outside.UndisturbedClear` | mm/vmalloc.c:49-53 | so does clearing the entry of an allowed page |
| `Outside.MapEntries` | arch/mm/init.c:26-58 | every present page-table entry after a mapping is the new one or was there before |
| `Outside.MapNoDangling` | arch/mm/init.c:26-58 | mapping a frame in use leaves no entry that refers to a free frame |
| `Outside.ClearNoDangling` | mm/vmalloc.c:51-53 | so does clearing the only entry of a frame and freeing it |
| `FrameCosts.MapCost` | arch/mm/init.c:26-58 | a mapping takes exactly as many frames as tables are missing on its path |
| `FrameCosts.TakeAndMapCost` | mm/vmalloc.c:26-27 | taking a frame and mapping it halts exactly when fewer frames are free than one and the missing tables, and otherwise takes exactly those |
| `FrameCosts.MissingAfter` | arch/mm/init.c:30-52 | after a mapping, every other page lacks what it lacked, or the tables past the point where its path leaves the mapped one, whichever is less |
| `FrameCosts.TablesNext` | arch/mm/init.c:30-52 | the tables of a set of pages, counted as distinct index prefixes, grow by exactly the prefixes that a page adds |
| `FrameCosts.TabledMap` | arch/mm/init.c:26-58 | a lower half that holds exactly the tables of a set of pages holds, after mapping one more, exactly those of the larger set |
| `Access.CanIff` | arch/mm/init.c:30-55 | an access succeeds exactly when the page is mapped with the right and no table on the way withholds it |
| `Access.MapOpen` | arch/mm/init.c:30-55 | a mapping makes no table withhold a right from any page of any space, and lifts no such hold |
| `Access.MapAccess` | arch/mm/init.c:26-58 | after a mapping the page can be written (or executed) exactly when its flags say so and no table that was there withholds it, and every other page exactly when it could before |
| `AccessRuns.CloneAccess` | arch/mm/init.c:92-124 | after a clone the child can read, write and execute exactly what the parent can, in user mode and out of it, and every other space what it could |
| `AccessRuns.StepKeepsOpen` | arch/mm/init.c:26-138 | no step of a run makes a table withhold a right |
| `AccessRuns.LeafDecides` | arch/mm/init.c:30-55 | in every state of every run from the boot tables a page can be written or executed, under any address space, exactly when its own entry says so |
| `AccessRuns.KernelOnly` | mm/vmalloc.c:26-27 | user mode reaches no page that vmalloc has handed out, and the kernel can write and execute it exactly when no table withholds that |
| `AccessRuns.WindowsKernelOnly` | arch/mm/init.c:17-18 | paging init leaves the kernel writable, uncached windows to both APICs at their physical addresses, which user mode does not reach |
| `AccessRuns.PageFlags` | fs/exec.c:79-91 | the flags of program, VGA, APIC and vmalloc pages are the words that the callers of arch_map_page pass |
| `Mmu.Mmu.SwitchAddressSpace` | arch/mm/init.c:21-24 | cr3 and the table pointer move together, memory does not change |
| `Mmu.Mmu.EnsureTable` | arch/mm/init.c:30-52 | one level in place is the specified step, and it halts only with no frame free |
| `Mmu.Mmu.ArchMapPage` | arch/mm/init.c:26-58 | the three levels and the entry written in place are the specified mapping; before paging init it does nothing |
| `Mmu.Mmu.WalkPageTable` | arch/mm/init.c:60-74 | the walk over memory is the specified walk, null before paging init |
| `Mmu.Mmu.CreateNewAddressSpace` | arch/mm/init.c:129-138 | the loop over the upper half is the specified creation |
| `Mmu.Mmu.ClonePt` | arch/mm/init.c:115-121 | the page loop turns an empty table into a copy with private frames, touches nothing else and takes exactly a frame for each present page, or halts and there were fewer |
| `Mmu.Mmu.ClonePd` | arch/mm/init.c:105-123 | the same for a page directory, with its 2 MiB entries, which take no frame |
| `Mmu.Mmu.ClonePdpt` | arch/mm/init.c:98-124 | the same for a page-directory-pointer table without 1 GiB entries |
| `Mmu.Mmu.CloneAddressSpace` | arch/mm/init.c:82-127 | the four nested loops produce a clone in the sense of `CloneSpace.Cloned` and take exactly one frame, one for each lower-half table and one for each lower-half 4 KiB page; they halt exactly when fewer are free |
| `SharedKernel.StepKeeps` | arch/mm/init.c:26-138 | mapping, unmapping, creating, cloning, switching, allocating and storing keep every PML4 on the same kernel tables, and no entry dangling |
| `SharedKernel.KernelSharedInRuns` | arch/mm/init.c:87-89 | in every state of every run all address spaces translate the kernel regions alike |
| `SharedKernel.KernelMappingSeenByAll` | arch/mm/init.c:26-58 | a kernel mapping made under one space is at once seen by all |
| `SharedKernel.VfreeIsUnmap` | mm/vmalloc.c:47-56 | every page that vfree gives back is an unmapping step of such a run |
| `SharedKernel.BootIsGood` | arch/entry.asm:58-118 | the boot tables are a good start and already share the direct map and the kernel image |
| `SharedKernel.FirstMappingIsShared` | arch/mm/init.c:17-18 | the first mapping below an upper-half entry, made while one space exists, adds that entry to the shared ones |
| `SharedKernel.VmallocUnderLapicEntry` | mm/vmalloc.c:7-8 | the whole vmalloc region lies below the entry that paging init populates |
| `SharedKernel.VmallocSharedFromBoot` | arch/mm/init.c:14-19 | in every run from the boot tables that begins with the mapping of paging init, all address spaces translate the vmalloc region alike in every later state |
| `SharedKernel.TrampolineMapLost` | arch/smp/smp_boot.c:28 | on the boot tables, mapping 0x8000 changes no translation: its whole effect is to overwrite word 8 of physical frame 0 |
| `RegionRuns.StepKeepsOwned` | arch/mm/init.c:26-138 | every step that leaves vmalloc's pages alone keeps them mapped to their private frames and the freed ones unmapped, switching address spaces included |
| `RegionRuns.OwnedInRuns` | mm/vmalloc.c:19-62 | so does every run, through forks, new address spaces, mappings, unmappings and stores |
| `RegionRuns.RegionReady` | arch/mm/init.c:14-19 | in every run from the boot tables that begins with the mapping of paging init, every later state meets what vmalloc's constructor asks |
| `RegionRuns.ApicWindows` | arch/mm/init.c:17-18 | after paging init the first two pages of the region are the APIC windows, and the region is still fit for vmalloc |
| `RegionRuns.VmallocTakesLapic` | mm/vmalloc.c:25-29 | the first page handed out after paging init takes the window of the local APIC |
| `RegionRuns.NicTakesLapic` | drivers/net/ethernet/intel/relis_nic/nic_hw.c:24-26 | mapping the network registers takes it too, for every address space |
| `RegionRuns.VmallocIsMap` | mm/vmalloc.c:26-27 | every page of vmalloc is a taking and a mapping step of such a run |
| `PageContents.BytesRoundTrip` | fs/binfmt_elf.c:39-41 | a page of entries read as little-endian bytes gives back the bytes stored in it |
| `PageContents.CopyInBytes` | fs/exec.c:93-97 | copying n bytes to a zeroed page leaves those bytes followed by zeros |
| `Elf.MagicBytes` | include/relis/elf.h:7 | the magic number is the bytes 0x7F, E, L, F at the start of the file |
| `Elf.EhdrRoundTrip` | include/relis/elf.h:6-27 | of a file header laid out field by field the loaders read back magic, entry point, and place and number of the program headers |
| `Elf.PhdrRoundTrip` | include/relis/elf.h:29-38 | of a program header laid out field by field, wherever it lies, they read back type, offset, address and both sizes |
| `Elf.HeadersRoundTrip` | fs/exec.c:72-87 | from a file laid out so they read exactly its program headers, in order |
| `Loader.LoadPageStep` | fs/exec.c:89-97 | loading one new page extends the image by that page and disturbs no other |
| `Loader.BuildPage` | fs/exec.c:89-97 | it also keeps every page in a frame of its own, user mode on exactly the image, the frames taken exactly those that the image needs, all other spaces and frames in use untouched, and, when the VGA frame is in use, the image off it and no entry dangling |
| `Loader.UserNext` | fs/exec.c:90-91 | loading a page opens exactly that page to user mode: what user mode reaches in the lower half stays exactly the image |
| `Loader.OpenedNext` | fs/exec.c:90-91 | loading a page makes no table withhold writing or executing from any page of the lower half |
| `Loader.PagesIff` | fs/exec.c:86 | a segment has exactly the pages that begin below its end |
| `Loader.LoadPageCost` | fs/exec.c:89-97 | loading a page halts exactly when fewer frames are free than the page and the tables that no loaded page shares |
| `Loader.SegmentBuilt` | fs/exec.c:88-98 | the pages of a segment extend the image by exactly that segment, or fewer frames were free at the call of exec than the whole program needs |
| `Loader.ImageBuilt` | fs/exec.c:82-100 | the headers build exactly the image they describe, or fewer frames were free at the call of exec than it needs |
| `Loader.PathIdentifiesPage` | include/asm/pgtable.h:29-32 | below 2^47 two addresses have the same path exactly when they are in the same page |
| `Loader.ImageOnly` | fs/exec.c:82-100 | the image has no page but those of the segments |
| `Loader.ImageHas` | fs/exec.c:82-100 | the image has every page of every segment, with the right contents |
| `Program.SegmentReads` | fs/exec.c:82-100 | every byte o < p_memsz of a loaded segment reads as the file's byte when o < p_filesz and as 0 after it, and so on with 0 to the end of its last page |
| `Program.LowerHalfIsImage` | fs/exec.c:79-100 | a page of the lower half is mapped exactly when it is the VGA page or holds a byte vaddr + o, o < p_memsz, of a loadable segment |
| `Program.InProgramIff` | fs/exec.c:82-100 | the image has exactly the pages that hold such a byte |
| `Program.ProgramAccess` | fs/exec.c:90-91 | user mode reaches exactly those pages, and may write and execute all of them |
| `Program.BuiltAsDescribed` | fs/exec.c:72-111 | all of it of the space that exec builds, with the VGA page writable by the kernel at its physical address |
| `Loader.LoadedNoGiant` | arch/mm/init.c:98-103 | a loaded space has no 1 GiB entry in its lower half, as cloning needs |
| `ExecRuns.ForkedSegmentReads` | kernel/fork.c:10-54 | after exec and fork the child and the parent both read every segment byte as the headers describe |
| `ExecRuns.StartIsSteps` | fs/exec.c:76-79 | starting a space is creating, switching and mapping, as steps of a run |
| `ExecRuns.LoadPageIsSteps` | fs/exec.c:89-97 | loading a page is taking, mapping and storing, as steps of a run |
| `Exec.LoadPage` | fs/exec.c:89-97 | allocate, map and copy in place are the specified page load |
| `Exec.LoadSegment` | fs/exec.c:88-98 | the page loop in place is the specified load of the segment's pages in order, for every address and also over pages already mapped (`Loader.SegmentBuilt` says what it builds) |
| `Exec.StartSpace` | fs/exec.c:76-79 | the new, loaded space sits on a frame that was free and maps the VGA page and nothing else in its lower half, closed to user mode; it halts only with fewer frames than the PML4 and the tables of that page |
| `Exec.LoadSegments` | fs/exec.c:82-100 | the loop over the headers in place is the specified load of the loadable segments in order, or halts with no frame free (`Loader.ImageBuilt` says what it builds) |
| `Exec.ExecUserProgram` | fs/exec.c:72-111 | a bad magic changes nothing; otherwise a new space, on a frame that was free, is loaded so that every byte o < p_memsz of every segment reads as the headers describe, user mode may read, write and execute exactly the pages that hold such bytes, so not the VGA page, each page has its own frame, all other spaces and frames in use are as before, and the entry point is returned; it halts exactly when fewer frames are free than the PML4, the pages and their tables; the result can be cloned if the state before could |
| `VmArea.MapBalance` | arch/mm/init.c:26-58 | free frames plus table frames are conserved by a mapping |
| `VmArea.GrowStep` | mm/vmalloc.c:26-27 | one page of vmalloc takes a free frame, maps it and conserves free + table + owned frames |
| `VmArea.ShrinkStep` | mm/vmalloc.c:49-53 | one page of vfree unmaps exactly that page, frees exactly its frame and conserves the sum |
| `VmArea.GrowTended` | mm/vmalloc.c:26-27 | taking a page disturbs no other page of any space, and the live pages keep the only entries of their frames |
| `VmArea.ShrinkTended` | mm/vmalloc.c:49-53 | so does giving one back |
| `VmArea.RegionUnder` | arch/mm/init.c:87-89 | the region is the same under every address space that holds its table |
| `VmArea.PaidNext` | mm/vmalloc.c:25-29 | the next page of vmalloc halts exactly when fewer frames are left than it takes, and leaves every later page lacking what `SpanCost` counts for it |
| `VmArea.SpanCostBound` | mm/vmalloc.c:25-29 | consecutive pages take at most a frame each, three tables, and a page table for each further 2 MiB block |
| `Vmalloc.PagesNeededExact` | mm/vmalloc.c:22 | the 32-bit page count covers the size exactly up to 2^44 - 4096 bytes, where it is the size rounded up |
| `Vmalloc.AreasPrivate` | mm/vmalloc.c:19-39 | any two pages of live areas are different pages on different frames, in use and no page tables |
| `Vmalloc.TakesOverIff` | mm/vmalloc.c:25-29 | what was mapped survives exactly when the pages handed out were unmapped |
| `Vmalloc.InsideIff` | mm/vmalloc.c:7-37 | over any run of calls the pages handed out lie in the region exactly when there are at most 262144 in all |
| `Vmalloc.FreedPagesDoNotReturn` | mm/vmalloc.c:25-29 | a gigabyte, freed, and one byte more: the byte is past the region |
| `Vmalloc.FirstAt` | mm/vmalloc.c:43-46 | the first record with an address, or none of them has it |
| `Vmalloc.PagesGrown` | mm/vmalloc.c:25-29 | the pages up to the end are handed out on frames that were free, with nothing else changed and exactly the frames of `SpanCost` taken, or fewer were free at the call |
| `Vmalloc.GrowPages` | mm/vmalloc.c:25-29 | the loop in place is the specified taking and mapping of consecutive pages, and the pointer ends past them |
| `Vmalloc.UnmapAt` | mm/vmalloc.c:49-55 | a mapped page is unmapped and freed, any other is left alone |
| `Vmalloc.GiveBackPages` | mm/vmalloc.c:47-56 | the loop frees exactly the frames of the area's pages and raises the free count by their number |
| `Vmalloc.Vmalloc.Alloc` | mm/vmalloc.c:19-39 | keeps the areas disjoint with private frames; the new area follows the last, only fresh frames are used, and nothing but the new pages changes in any space; what was mapped survives exactly when they were unmapped; it halts exactly when fewer frames are free than the pages and their missing tables, and takes exactly those; size 0 changes nothing |
| `Vmalloc.Vmalloc.Free` | mm/vmalloc.c:41-62 | removes the first record with the address, unmaps exactly its pages, releases exactly its frames and changes no other page in any space; an address that no record has, or null, changes nothing |
| `Vmalloc.Vmalloc.Resume` | mm/vmalloc.c:10-39 | between calls the rest of the kernel may do anything that leaves the pages handed out alone, switching address spaces included |
| `Lists.InitListHead` | include/relis/list.h:11-14 | an initialised head is the empty ring |
| `Lists.ListAdd` | include/relis/list.h:16-21 | the ring gains the node at the front |
| `Lists.ListAddTail` | include/relis/list.h:23-28 | the ring gains the node at the back |
| `Lists.ListDel` | include/relis/list.h:30-35 | the ring loses exactly that node, which is left unlinked |
| `Lists.ListEmpty` | include/relis/list.h:37-39 | true exactly for the empty ring |
| `Scheduler.RunQueue.EnqueueTaskFair` | kernel/sched/fair.c:4-8 | the pointer list is the fair queue with the task at its tail, counted |
| `Scheduler.RunQueue.EnqueueTaskRt` | kernel/sched/rt.c:4-7 | the pointer list is the realtime queue with the task at its head, counted |
| `Scheduler.RunQueue.PickNextTaskFair` | kernel/sched/fair.c:15-26 | returns the head and rotates it to the tail, null when empty |
| `Scheduler.RunQueue.PickNextTaskRt` | kernel/sched/rt.c:14-20 | returns the head and leaves the queue, null when empty |
| `Scheduler.Sched.constructor` | kernel/sched/core.c:20-42 | the scheduler starts with the idle task and empty queues |
| `Scheduler.Sched.KernelThread` | kernel/sched/core.c:51-101 | on linked lists it is the specified thread creation, or -1 and no change without memory |
| `Scheduler.Sched.Fork` | kernel/fork.c:10-54 | on linked lists it is the specified fork, or -1 and no change without memory (`SchedSpec.KeepsOrigin` and `OwnSpace` say what the child is) |
| `Scheduler.Sched.Exec` | fs/exec.c:27-58 | cr3 and the task's cr3 move together |
| `Scheduler.Sched.WakeUpProcess` | kernel/sched/core.c:103-112 | only an interruptible task is made runnable and enqueued |
| `Scheduler.Sched.SchedulerTick` | kernel/sched/core.c:114-119 | the clock and the current task's accounting by class |
| `Scheduler.Sched.Schedule` | kernel/sched/core.c:121-152 | realtime before fair before idle on linked lists, with the address space of the chosen task |
| `SchedSpec.StepKeeps` | kernel/sched/core.c:51-152 | every operation keeps both queues duplicate-free, disjoint and exactly the tasks of their class, nr_running their total, and the loaded cr3 that of the current task |
| `SchedSpec.BootRunKeeps` | kernel/sched/core.c:20-152 | so does every run from boot |
| `SchedSpec.Created` | kernel/sched/core.c:51-101 | in every run from boot every task but the first has a step that created it: the thread creation or fork at which the task count was its number |
| `SchedSpec.StepCreates` | kernel/fork.c:14-22 | what a new task starts with: a thread the loaded address space, no parent and no runtime, a child what clone_address_space returned and the parent's pid as ppid, policy, class and runtimes |
| `SchedSpec.KeepsOrigin` | kernel/fork.c:14-22 | in every later state of every run a task has the ppid, policy and class of its creation: the parent's for a child, 0 and its policy's class for a thread |
| `SchedSpec.OwnSpace` | kernel/fork.c:22 | in every state of every run from boot a task's cr3 is that of its last exec, or else what its fork was given, or else what was loaded when it was created as a thread |
| `SchedSpec.TurnLoadsOwnSpace` | kernel/sched/core.c:144-146 | so the loaded address space is always that of the running task in this sense |
| `SchedSpec.ZombieIff` | kernel/sched/core.c:47 | in every run a task is a zombie exactly when it has exited |
| `SchedSpec.TimeIsCharged` | kernel/sched/fair.c:28-32 | over any run the clock counts the ticks, and runtime and vruntime of a task those that hit it while it ran as a fair task |
| `SchedSpec.RequestStands` | kernel/sched/fair.c:31 | over any run a task is asked to give way exactly from a tick that hits it, unless it is realtime and not round-robin, until a turn that chooses it again |
| `SchedSpec.WakeRestores` | kernel/sched/core.c:103-112 | waking the one sleeping task puts it back into the queue of its class, behind all fair or before all realtime tasks, and restores the invariant |
| `SchedSpec.PidsDistinctIff` | kernel/sched/core.c:61 | pids are distinct exactly while at most 2^32 tasks exist |
| `SchedSpec.FairOrder` | kernel/sched/fair.c:15-26 | without realtime tasks the task at position i of the fair queue is chosen by exactly the (i+1)-th scheduling step, whatever is created or ticks in between |
| `SchedSpec.FairTurnIff` | kernel/sched/core.c:121-152 | position i of the fair queue gets the (i+1)-th turn exactly when no realtime task exists at the start or is created before that turn |
| `SchedSpec.RoundRobin` | kernel/sched/fair.c:15-26 | a task chosen while n are queued is chosen again exactly n scheduling steps later |
| `SchedSpec.RealtimeMonopoly` | kernel/sched/rt.c:14-20 | once a realtime task exists only realtime tasks are chosen, for ever |
| `SchedSpec.NewestRuns` | kernel/sched/rt.c:4-20 | in every run from boot every turn goes to the realtime task that was created last |
| `SchedSpec.NobodyWaits` | kernel/sched/idle.c:3-5 | with both queues empty the running task goes on, and it is an idle task |
| `ContextSwitch.ExecPushes` | kernel/sched/switch.asm:6-11 | pushes store the registers downwards in order and touch nothing above |
| `ContextSwitch.ExecPops` | kernel/sched/switch.asm:17-22 | pops load distinct registers from consecutive words |
| `ContextSwitch.SwitchToSwaps` | kernel/sched/switch.asm:5-23 | running the instructions saves the six registers and stack pointer of the old task and loads those of the new |
| `ContextSwitch.SwitchParks` | kernel/sched/switch.asm:5-13 | switching away leaves the task parked with what it had |
| `ContextSwitch.OthersKeepParked` | kernel/sched/switch.asm:5-23 | computing on one's own stack and switching keep every other task parked |
| `ContextSwitch.SwitchResumes` | kernel/sched/switch.asm:15-23 | switching to a parked task restores it |
| `ContextSwitch.ResumedAsLeft` | kernel/sched/switch.asm:5-23 | over any run on disjoint stacks, with tasks forked and threads created on the way, a resumed task finds the callee-saved registers, return address, stack pointer and stack it left with |
| `ContextSwitch.IsrSavesFrame` | arch/isr_stubs.asm:63-78 | the entry stub lays the fifteen registers out as struct registers has them |
| `ContextSwitch.IsrReturnLoads` | arch/isr_stubs.asm:83-101 | the return stub loads them from there and leaves iretq its five words |
| `ContextSwitch.InterruptRoundTrip` | arch/isr_stubs.asm:63-101 | entering, running any handler that returns with the frame intact, and leaving gives every register back and keeps the stack above |
| `ContextSwitch.ForkParks` | kernel/fork.c:25-40 | the hand-built stack of a child is that of a parked task |
| `ContextSwitch.ThreadParks` | kernel/sched/core.c:79-90 | so is that of a new kernel thread |
| `ContextSwitch.CreationMoves` | kernel/fork.c:25-40 | building either stack is a step of a run |
| `ContextSwitch.ForkedChildReturns` | kernel/fork.c:25-40 | after a fork step, the first switch to the child, however late, returns to user mode with all of the parent's frame and rax = 0 |
| `ContextSwitch.NewThreadStarts` | kernel/sched/core.c:79-90 | after the step that creates a thread, the first switch to it runs the trampoline on an empty stack |
| `Pipe.HistoryIsFifo` | kernel/ipc.c:17-47 | of the sequential pipe: what is read is a prefix of what was accepted, at most 4096 bytes |
| `Pipe.ExclusiveKept` | include/relis/spinlock.h:10-21 | every step keeps the lock word set exactly while one thread is inside |
| `Pipe.StepKeeps` | kernel/ipc.c:17-47 | every atomic step of every thread keeps the buffer in agreement with the history of finished calls |
| `Pipe.EntriesKept` | kernel/ipc.c:17-47 | no step gives two finished calls one entry of the history |
| `Pipe.LogGrows` | kernel/ipc.c:17-47 | over any run the history only grows, so entries given out at different times differ |
| `Pipe.PipeSafe` | kernel/ipc.c:17-47 | in every interleaving no access is out of range, one thread is inside at most, read_pos <= write_pos <= 4096, what was read is a prefix of what was accepted, and every finished call has an entry of its own in the history, with its result |
| `Pipe.CarriesCall` | kernel/ipc.c:20-32 | in every run a thread carries the call it made from its first step until it is done, through every blocked round |
| `Pipe.Linearized` | kernel/ipc.c:17-47 | every finished call is the one that its thread made, and took effect once, with the result it returns, between the call and its end |
| `Pipe.EndsInOwnSteps` | kernel/ipc.c:22-28 | a call that has the lock, and a read also something to read, ends after exactly three own steps and one per byte, whatever the other threads do |
| `Pipe.GetsInside` | include/relis/spinlock.h:10-17 | while nobody is inside, a waiting thread has the lock after two own steps at most |
| `Pipe.FullForEver` | kernel/ipc.c:40-43 | after a write that is cut short no write accepts a byte |
| `Pipe.AcceptsOnce` | kernel/ipc.c:36-44 | over any history a pipe accepts exactly the first 4096 bytes it is asked to take |
| `Pipe.WholeIff` | kernel/ipc.c:36-44 | a write is accepted whole exactly when it fits into what is left of those |
| `Pipe.EmptyAndFull` | kernel/ipc.c:36-44 | 4096 bytes written and read, and the next write takes nothing |
| `Keyboard.FullIff` | kernel/drivers/keyboard.c:49-50 | the ring looks full exactly when it holds 255 characters, and empty exactly when it holds none |
| `Keyboard.PushKeeps` | kernel/drivers/keyboard.c:48-54 | every step of the lock-free pusher keeps the ring, whatever the pollers are doing |
| `Keyboard.PollKeeps` | kernel/drivers/keyboard.c:146-155 | every step of every poller keeps the ring, whatever the pusher is doing |
| `Keyboard.DropOnlyWhenFull` | kernel/drivers/keyboard.c:50 | a character is dropped exactly when 255 are held as rp is read; a poll finds nothing exactly when none is held as wp is read |
| `Keyboard.KeyboardSafe` | kernel/drivers/keyboard.c:48-54 | in every interleaving the polled characters are a prefix of the accepted ones, at most 255 are held, and no character goes to two polls |
| `Keyboard.PushEnds` | kernel/drivers/keyboard.c:48-54 | in every run a push ends with exactly its character accepted behind all others, or with 255 held as rp was read and nothing changed |
| `Keyboard.PollEnds` | kernel/drivers/keyboard.c:146-155 | in every run a poll returns a character that was taken during the poll, in order, or 0, and then none was held at some time during the poll |
| `Keyboard.PushGoesOn` | kernel/drivers/keyboard.c:48-54 | every step of a push takes it nearer to its end, and no poll holds it up |
| `Keyboard.PollGoesOn` | kernel/drivers/keyboard.c:146-155 | a poll that has the lock ends after five own steps at most, whatever the others do |
| `NicRing.ReceiveKeeps` | drivers/net/ethernet/intel/relis_nic/nic_netdev.c:11-30 | every device step keeps the ring, and the device never overwrites a packet that is not yet reported |
| `NicRing.PollKeeps` | drivers/net/ethernet/intel/relis_nic/nic_netdev.c:32-43 | every driver step keeps the ring |
| `NicRing.ReceiveSafe` | drivers/net/ethernet/intel/relis_nic/nic_netdev.c:11-43 | in every interleaving the done bits are exactly on the packets not yet given back, packets are reported in order of arrival, each once, with the length that arrived, and at most 31 wait |
| `NicRing.FoundIff` | drivers/net/ethernet/intel/relis_nic/nic_netdev.c:36 | a poll finds a packet exactly when one has arrived that is not yet reported |
| `NicRing.ReportedInFour` | drivers/net/ethernet/intel/relis_nic/nic_netdev.c:36-42 | in every run a waiting packet, the next in order, is reported and its descriptor given back in the driver's next four steps, whatever the device does |
| `NicRing.RoomIff` | drivers/net/ethernet/intel/relis_nic/nic_netdev.c:26-27 | the device has a descriptor to fill exactly while fewer than 31 packets are not given back |
| `Pci.AddressFields` | drivers/pci/pci.c:10-13 | bus, slot, function and register can be read back from the address, and the reserved bits are 0 |
| `Pci.BytesOfWord` | drivers/pci/pci.c:26-29 | the four bytes that pci_read8 shifts out of a word make up the word, lowest first |
| `Pci.VendorBytes` | drivers/pci/pci.c:100-132 | the tests of the scan look at the vendor bytes 0 and 1, all four bytes of the first word, and bit 7 of the header type at 0x0E |
| `Pci.BridgeBytes` | drivers/pci/pci.c:109-124 | the bus behind a function is its byte 0x19 exactly when its class bytes 0x0B and 0x0A are 6 and 4 |
| `Pci.Table.ScanBus` | drivers/pci/pci.c:127-137 | the recursive scan terminates on every configuration space, bridges that point back included, and computes the specified list of at most 32 bus, slot and function triples |
| `Pci.Table.ScanDevice` | drivers/pci/pci.c:98-125 | likewise for one function and what is behind it |
| `Pci.ScanIsComplete` | drivers/pci/pci.c:98-137 | with fewer than 32 entries every function at the end of a chain of bridges is listed |
| `Pci.ScanIsExact` | drivers/pci/pci.c:98-137 | with fewer than 32 entries the list is exactly the reachable functions |
| `Pci.OnePath` | drivers/pci/pci.c:121-124 | when each bus has at most one parent bridge and bus 0 none, one chain of bridges leads to a bus |
| `Pci.ScanHasNoRepeat` | drivers/pci/pci.c:98-137 | in that case no function is listed twice, full table or not |
| `RelisFs.InodeRoundTrip` | fs/relisfs/relisfs.c:17-22 | an inode written to its 76 bytes reads back the same |
| `RelisFs.MountFresh` | fs/relisfs/relisfs.c:73-115 | formatting gives the empty file |
| `RelisFs.Formatted` | fs/relisfs/relisfs.c:73-97 | byte for byte what formatting leaves: the four numbers of the superblock, the inode of "/" in slot 1 of an otherwise zero table, and every other block as it was |
| `RelisFs.Remount` | fs/relisfs/relisfs.c:64-115 | a reboot loses the open files and nothing else |
| `RelisFs.ReadIsPlain` | fs/relisfs/relisfs.c:26-37 | a read whose sum does not wrap returns the plain file's bytes at the position and advances it |
| `RelisFs.ClampIff` | fs/relisfs/relisfs.c:31-34 | below the end of the file the count is clamped right, and the copy stays in the block, exactly when f_pos + count does not wrap |
| `RelisFs.ClampWraps` | fs/relisfs/relisfs.c:31-34 | an input where it wraps and the whole count is copied |
| `RelisFs.WriteIsPlain` | fs/relisfs/relisfs.c:39-57 | a write inside the block overwrites or extends the plain file, and cached and on-disk inode agree |
| `RelisFs.RunIsPlain` | fs/relisfs/relisfs.c:26-115 | from a fresh disk, every run of opens, reads that do not wrap, in-block writes and reboots reads what one plain byte sequence would |
| `RelisFs.Driver.constructor` | fs/relisfs/relisfs.c:64-116 | the mount code, through its one static buffer, is the specified mount |
| `RelisFs.Driver.ReadFile` | fs/relisfs/relisfs.c:26-37 | the read code, with its 64-bit sum, is the specified read, and fails exactly on an unused inode |
| `RelisFs.Driver.WriteFile` | fs/relisfs/relisfs.c:39-57 | the write code is the specified write, and fails exactly on an unused inode |
| `Vfs.KStrCmp` | lib/string.c:70-76 | zero exactly for equal strings, and otherwise the difference of the characters at the first place where they part |
| `Vfs.FindChild` | fs/vfs.c:31-37 | nothing exactly when no child has the name, and otherwise the child at the least index that has it |
| `Vfs.VfsOpen` | fs/vfs.c:18-65 | opens a dentry exactly when the non-empty pieces between slashes lead to it, each naming a child of the dentry before and taking the first with that name, and fails exactly when some piece names no child of the dentry reached, or the path does not begin with a slash |
| `Vfs.ChildIff` | fs/vfs.c:31-38 | the search finds a dentry exactly when it is the first child with the name, and nothing exactly when no child has it |
| `Vfs.ResolveIff` | fs/vfs.c:26-58 | a walk ends exactly where the names lead, and fails exactly where they get stuck |
| `Vfs.ComponentsAt` | fs/vfs.c:26-45 | a slash separates and does nothing else |
| `Vfs.ExtraSlashes` | fs/vfs.c:26-45 | repeated and trailing slashes never matter |
| `Vfs.JoinComponents` | fs/vfs.c:26-58 | names joined with slashes come apart into the same names |
| `Vfs.PathOfDescent` | fs/vfs.c:18-65 | joining the names down a chain of dentries with distinct siblings opens the end of the chain |
| `IpChecksum.Checksum` | net/ipv4/ip.c:11-21 | the sum does not wrap, the folding loop terminates, and the result is the complement of the sum's one's complement representative |
| `IpChecksum.FoldOnce` | net/ipv4/ip.c:17-19 | one fold shrinks the sum, keeps it modulo 65535 and never makes it 0 |
| `IpChecksum.StampChecks` | net/ipv4/ip.c:38-39 | for every header, clearing the field, computing and storing gives a header whose checksum is 0 |
| `IpChecksum.OneWordDamage` | net/ipv4/ip.c:11-21 | damage to one word of such a header goes unseen exactly when it turns 0 into 0xFFFF or back and the header is not all zero |
| `IpChecksum.OnesSumTimes` | net/ipv4/ip.c:13-19 | RFC 791's network-order one's complement sum represents 256 times the host-order sum |
| `IpChecksum.ByteOrder` | net/ipv4/ip.c:11-39 | the bytes stored from little-endian words are those of RFC 791's big-endian definition |
| `IpChecksum.FillCheck` | net/ipv4/ip.c:38-39 | in place, only the check field changes, it gets RFC 791's value, and the header then checks |

## Left out

Members with a narrower contract than their source:

- FrameAlloc.PhysMemory.constructor: asks that the kernel image has at most 65536 pages; past that mm/page_alloc.c:27-31 writes outside the bitmap.
- Paging.WalkFindsEntry: off huge pages; `WalkUnderHuge` covers 2 MiB entries, and a 1 GiB entry, which no code creates, is not treated.
- Paging.MapRefinesFlatMap: asks for a path without huge entries; `MapUnderHuge` and `MapTakesEffectIff` cover 2 MiB entries, and a 1 GiB entry is not treated.
- Paging.MapUnderHuge: asks that the big page's first frame is no page table, since the mapping overwrites a word of it.
- Paging.MapTakesEffectIff: leaves out 1 GiB entries and, as `MapUnderHuge`, 2 MiB pages whose first frame is a page table.
- Paging.EnsureTableKeeps: off huge entries, as `MapRefinesFlatMap`.
- Paging.MapFromShape: off huge entries, as `MapRefinesFlatMap`.
- Paging.MapTakesOnly: off huge entries, as `MapRefinesFlatMap`.
- Paging.MapEffects: off huge entries, as `MapRefinesFlatMap`.
- Paging.MapSeenByOthers: off huge entries, as `MapRefinesFlatMap`.
- Paging.MapGivesUser: off huge entries, as `MapRefinesFlatMap`.
- Paging.MapUserAccess: off huge entries, as `MapRefinesFlatMap`, and for a page from which no table withholds the user bit, since the mapping may add that bit to a table.
- Paging.MapHaltsWhenShort: off huge entries, as `MapRefinesFlatMap`.
- Outside.UndisturbedMap: off huge entries, as `MapRefinesFlatMap`.
- Outside.MapEntries: off huge entries, as `MapRefinesFlatMap`.
- Outside.MapNoDangling: off huge entries, as `MapRefinesFlatMap`.
- FrameCosts.MapCost: off huge entries, as `MapRefinesFlatMap`.
- FrameCosts.TakeAndMapCost: off huge entries, as `MapRefinesFlatMap`.
- FrameCosts.MissingAfter: off huge entries on both paths, as `MapRefinesFlatMap`.
- FrameCosts.TabledMap: off huge entries in the whole lower half, as in a space that exec builds.
- Access.MapOpen: off huge entries, as `MapRefinesFlatMap`.
- Access.MapAccess: off huge entries, as `MapRefinesFlatMap`.
- VmArea.MapBalance: off huge entries, as `MapRefinesFlatMap`.
- Mmu.Mmu.ClonePdpt: asks for a table without 1 GiB entries, because arch/mm/init.c:98-103 takes one for a table.
- Mmu.Mmu.CloneAddressSpace: asks that the lower half has no 1 GiB entries, and that no page-table entry refers to a free frame (`NoDangling`, which every step of a run keeps by `SharedKernel.StepKeeps`).
- CloneStores.ParentKeepsItsOwn: asks that the parent's page is the only one in its frame; `OthersKeepTheirs` covers frames that several pages share.
- SharedKernel.KernelSharedInRuns: mappings in a run go to allocated or device frames and avoid huge entries; an unmapping frees a frame that has no other entry, as vfree's do (`VfreeIsUnmap`); storing to table frames is not a step.
- SharedKernel.TrampolineMapLost: asks that the boot tables are not in physical frame 0.
- Exec.LoadSegment: asks that the file part lies inside the file and that p_memsz + 4095 stays below 2^64.
- Exec.LoadSegments: likewise for every loadable segment.
- Loader.SegmentBuilt: asks of the segments what `ExecUserProgram` asks.
- Loader.ImageBuilt: likewise.
- Exec.ExecUserProgram: asks for page-aligned, page-disjoint loadable segments below 2^47 that avoid the VGA page, with p_filesz <= p_memsz and file parts inside the file; the code checks none of this. Without the magic it asks only for the 64 bytes of the header. It stops before the jump to user mode.
- Vmalloc.GrowPages: asks that the pages end below VMALLOC_END, as `Alloc` does.
- Vmalloc.Vmalloc.Alloc: asks that the area ends below VMALLOC_END, by `InsideIff` the exact condition for staying in the region.
- RegionRuns.OwnedInRuns: steps that map over a page handed out, or map a live frame again, are left out; nothing in the code prevents them.
- Vmalloc.Vmalloc.Free: the record list is a sequence, newest first; that list_add and list_del refine it is shown for the scheduler's lists only.
- Scheduler.Sched.WakeUpProcess: asks that an interruptible task is not linked in a queue; nothing in the kernel makes a task interruptible, and a null task is left out.
- SchedSpec.WakeRestores: one sleeper at a time, since no operation of a run puts a task to sleep.
- Pipe.PipeSafe: a step machine, not a method with a loop; the blocked reader's call to schedule() is the step back to the lock, and memory is sequentially consistent.
- Keyboard.KeyboardSafe: one pusher, and sequentially consistent volatile accesses; the scan-code translation before push is not modelled.
- NicRing.ReceiveSafe: the device is assumed to follow section 3.2.6 of the Intel 8254x Software Developer's Manual; packet buffers and their contents are not modelled.
- ContextSwitch.InterruptRoundTrip: the handler is any code that returns with its stack pointer and the words above it as they were; what dispatch_isr does is not modelled.
- ContextSwitch.ForkedChildReturns: the assembly and the stack stores are modelled on values, with memory as an array of 64-bit words at unbounded word addresses; the segment state behind iretq is the five words it pops.
- Pci.Table.ScanBus: the table holds bus, slot and function only; identifiers, class codes and BAR decoding are not kept.
- Pci.Table.ScanDevice: likewise.
- RelisFs.ReadIsPlain: asks that f_pos + count stays below 2^64; `ClampIff` shows that the code meets the property nowhere else.
- RelisFs.Driver.ReadFile: asks that the copy stays inside the block, by `ClampIff` the same condition below the end of the file.
- RelisFs.RunIsPlain: reads and writes as `ReadIsPlain` and `WriteIsPlain`.
- RelisFs.WriteIsPlain: asks that the write stays inside the block, as `Driver.WriteFile` does.
- RelisFs.Driver.WriteFile: asks that f_pos + count stays within the 512-byte block, which the code does not check; the disk never fails.
- Vfs.VfsOpen: asks that every component is shorter than the 64-byte name buffer, which the code does not check; allocating the struct file is not modelled.

Not modelled:

- TLB contents and invlpg: translations are read from the tables.
- `load_elf` (fs/binfmt_elf.c) and `sys_execve`: the same loops as `exec_user_program`, without or with the file read before and the register frame after.
- kmalloc and kfree: an allocation that may fail is a boolean parameter.
- The page fault handler (demand stack, copy-on-write branch), signals, shared memory, `sys_pipe`.
- Field widths of clock, vruntime and sum_exec_runtime, which are unbounded numbers here.
- Zombie tasks are never dequeued by the code; the model keeps that, and adds no claim about it.
- Boot code beyond the tables, SMP start-up, APIC, GDT, timer, serial, VGA, ATA and printk.
- UDP, ARP and the transmit path around the checksum; ip_send_packet stores tot_len and id in host order, which the checksum does not see.
- Directory creation, path functions other than vfs_open, and the other string functions.
