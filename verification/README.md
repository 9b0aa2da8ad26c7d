# JOS, verified

A Dafny model of the JOS teaching kernel (`tp-parte3`), its file server and
disk formatter (`tp-parte4/fs`), and the process sieve of the fork lab, with
proofs of what they promise. `dafny verify dfyconfig.toml` checks everything.

Each part comes as functions on values, lemmas about them, and, where the
source updates things in place, a class whose methods are proved against the
functions.

| modules | what they model |
|---|---|
| `Pmap`, `Teardown`, `EnvMemory`, `InsertCases`, `CallCases`, `DirWords`, `Populate`, `RegionAlloc`, `PageSend`, `UnaskedPage`, `PhysMem` | physical pages, reference counts and two-level page tables, env_setup_vm to env_free, and the memory system calls |
| `BootMap`, `BootTables` | boot_map_region with 4 KB and 4 MB pages, and from page_init to the first environment |
| `CowFork`, `ForkLib`, `ForkEffects`, `MemoryView`, `MemoryContents` | user-level copy-on-write fork against fork by copying, and its page maps and bytes in memory |
| `Smp`, `SmpSafety`, `KernelEvents`, `WokenReceiver`, `Rendezvous`, `SendCall`, `Fairness`, `SmpKernel` | scheduler, big kernel lock, IPC and environment states on any number of CPUs |
| `EnvIds` | environment ids and file ids |
| `FsBlocks`, `FileIo`, `FileServer` | bitmap, block maps, reading, writing and truncating files |
| `BlockCache`, `Bitmap` | the write-back block cache and fs_sync, and its reading of the bitmap |
| `Format`, `FsFormat` | the disk formatter |
| `Paths`, `PathChains`, `PathServer` | path resolution and file creation |
| `Stabs` | stab_binsearch |
| `Sieve` | the process sieve |
| `Arithmetic` | remainders |

How things are represented:

- A page table word is a frame number and twelve permission bits; a permission
  argument is the same two parts, and its upper bits are ored into the frame.
  The role of each page (free, directory, table, data) and the free list as a
  sequence are bookkeeping that the invariant ties to the real fields.
- Panics are results, not preconditions. Allocation failure follows from the
  state.
- A multi-CPU run is a sequence of steps: a CPU traps, tries the lock once, or
  runs the kernel to the point where it releases the lock. The schedule and the
  events are arbitrary. `Legal` is all that callers are held to.
- The disk is an array of blocks of 4096 bytes. `struct File` records are kept
  apart from the blocks; an indirect block, and the stale records of a new
  directory block, are read byte by byte as little-endian words.
- A pipe is the sequence of numbers that go through it.

Where a comment of the source promises more than the code does, the model
follows the code:

- page_lookup gives page 0 for an empty slot of an existing table, so removing
  there lowers page 0's count (`Pmap.RemoveUnmapped`, `EnvMemory.PageZeroIsFreed`).
- sys_page_map panics when it runs out of memory (`EnvMemory.ShareHalts`), maps
  page 0 for an empty source slot and lets a count of 65535 wrap
  (`CallCases.EmptySource`, `CallCases.FullCount`).
- The permission argument is only tested for PTE_U and PTE_P, and ored whole
  into the page table word: its upper bits can change the page that is mapped
  (`CallCases.WideAlloc`, `InsertCases.InsertExactly`).
- sys_ipc_try_send maps the page even when the receiver asked for none, at an
  address every environment shares (`UnaskedPage.UnaskedExactly`).
- sys_env_set_status wakes a receiver without clearing its flag, and a later
  send can then put it on two CPUs (`WokenReceiver.RunsTwice`).
- check_va2pa adds the page offset for large pages only (`BootMap.ByteAgreement`).
- A new indirect block is not cleared (`FsBlocks.IndirectMustReadZero`). `Lucky`
  names the assumption wherever it is made.
- A new directory block and the formatter's records are not cleared either
  (`FileIo.CreateExactly`, `Format.FormatEstablishes`).
- fsformat with no file gives the root a free block (`Format.EmptyRootIsBroken`).
- stab_binsearch reports a non-empty region when every entry of the type is
  larger than addr (`Stabs.EmptyMeansNoEntry`), and can miss when addr + 1 is a
  value too (`Stabs.ValuesOneApart`, `Stabs.BinSearchExactly`).
- openfile_alloc's ids read as errors from the 2^21-th open of a slot on
  (`EnvIds.FileIdReadsAsError`).

## Model

| member | source | states |
|---|---|---|
| `Pmap.AllocKeepsInv` | tp-parte3/kern/pmap.c:354-368 | taking a page keeps list, counts and tables consistent; it fails exactly when the list is empty, and the page it hands out was on the list and is referenced by nothing |
| `Pmap.DoubleFreeGuard` | tp-parte3/kern/pmap.c:375-391 | freeing a page that is already free is refused exactly when it is not the last of the list; the last one passes the guard, and following the links from it then goes through the whole list and comes back to it |
| `Pmap.WalkKeepsInv` | tp-parte3/kern/pmap.c:427-444 | a walk that may create a table keeps the invariant; it finds or makes the slot, or fails exactly when a table is needed and no page is free |
| `Pmap.WalkTrans` | tp-parte3/kern/pmap.c:427-444 | creating a table changes no translation of any directory |
| `Pmap.RemoveMapped` | tp-parte3/kern/pmap.c:560-573 | removing a mapping clears that word, lowers that page's count by one and frees it when that was the last |
| `Pmap.RemoveUnmapped` | tp-parte3/kern/pmap.c:534-541 | removing at an empty slot of an existing table takes a count from page 0 and changes nothing else |
| `Pmap.PageRemoveRefines` | tp-parte3/kern/pmap.c:560-573 | page_remove is deletion on the map from directory and address to mapping: only the given address of the given directory changes |
| `Pmap.PageInsertRefines` | tp-parte3/kern/pmap.c:508-518 | page_insert is update on that map; it fails exactly when a table is needed and none can be had, and then changes nothing |
| `Pmap.PageInsertRefs` | tp-parte3/kern/pmap.c:508-518 | exactly the slot written changes the references of any page |
| `Pmap.ReinsertKeepsCount` | tp-parte3/kern/pmap.c:508-518 | inserting a page where it already is only rewrites the permission word: no count moves and the page is never freed |
| `EnvMemory.CountsAreExact` | tp-parte3/kern/pmap.c:302-443 | for every page but page 0, the count equals the number of directory, table and environment references to it |
| `EnvMemory.RunKeeps` | tp-parte3/kern/pmap.c:302-573 | over every run of creations, allocations, mappings, removals, stores and teardowns, from mapped sources, with counts that fit and permission words that leave frame numbers alone, and with fewer than 65536 removals at empty slots, the whole invariant holds and page 0's count is minus the number of those removals |
| `EnvMemory.PageZeroIsFreed` | tp-parte3/kern/pmap.c:508-573 | the bound is exact for every operation: the invariant survives exactly while fewer than 65536 counts have been taken from page 0, and the one that takes the 65536th returns 0 with page 0 on the free list |
| `EnvMemory.AllocKeeps` | tp-parte3/kern/syscall.c:165-195 | with a permission word that leaves the frame number alone sys_page_alloc keeps the invariant whether it succeeds or returns an error, and never panics |
| `EnvMemory.ShareSucceeds` | tp-parte3/kern/syscall.c:214-253 | with a permission word that leaves the frame number alone sys_page_map maps the source page at the destination with the permissions asked for and changes no other mapping |
| `EnvMemory.ShareHalts` | tp-parte3/kern/syscall.c:248-250 | with no page for a table, sys_page_map panics in page_free |
| `EnvMemory.ShareRefused` | tp-parte3/kern/syscall.c:214-253 | a call that the permission checks refuse returns -E_INVAL and changes nothing |
| `EnvMemory.UnmapKeeps` | tp-parte3/kern/syscall.c:263-278 | sys_page_unmap unmaps that address only, and never panics within the bound |
| `EnvMemory.StoreKeeps` | tp-parte3/kern/pmap.c:302-443 | a store through a user mapping reaches no table, directory or free page, and changes no translation |
| `EnvMemory.CreateKeeps` | tp-parte3/kern/env.c:165-200 | env_setup_vm makes an empty directory out of a free page or fails for lack of one, changing no other directory |
| `DirWords.RunWords` | tp-parte3/kern/env.c:165-200 | over every run of safe calls every directory has the kernel's words above UTOP, itself at UVPT to be read by the user, and below UTOP only tables with all permissions |
| `DirWords.MmuGrants` | tp-parte3/kern/pmap.c:427-444 | so what the MMU grants below UTOP, through both levels, is what the page table word says |
| `DirWords.StoreObeysMmu` | tp-parte3/kern/pmap.c:427-444 | a store by a program changes memory exactly where the MMU lets the user write |
| `DirWords.UvptReads` | tp-parte3/kern/env.c:194-198 | through UVPT an environment reads its directory, and the page table behind any address of its own, and can write neither |
| `InsertCases.InsertExactly` | tp-parte3/kern/pmap.c:508-518 | whatever page and permission word it is given, page_insert with room keeps the invariant exactly when the bits above the permissions leave the frame number alone, the page is not page 0, and either it was mapped there already or both counts it changes have room |
| `CallCases.AllocExactly` | tp-parte3/kern/syscall.c:165-195 | for any live environment and any permission word sys_page_alloc keeps the invariant exactly when it is refused, or finds no memory, or the bits above the permissions leave the number of the page at the head of the free list alone and page 0 has a count left; it never panics |
| `CallCases.AllocAnswers` | tp-parte3/kern/syscall.c:165-195 | what it answers: -E_INVAL exactly when PTE_U or PTE_P is missing, -E_NO_MEM exactly when no page is left for the page or for the table it needs, 0 otherwise; -E_INVAL changes nothing |
| `CallCases.WideAlloc` | tp-parte3/kern/syscall.c:172-191 | with permission argument 0x1007 and an even page at the head of the list, sys_page_alloc returns 0, maps the page after it, and leaves the page it took in use with one count and no reference |
| `CallCases.ShareExactly` | tp-parte3/kern/syscall.c:214-253 | between any two live environments and for any permission word sys_page_map keeps the invariant exactly when it is refused, or finds no memory (with an empty source slot: and a count was taken from page 0 before), or the bits above the permissions leave the frame number alone and it rewrites a mapping of the same page or both counts it changes have room |
| `CallCases.ShareAnswers` | tp-parte3/kern/syscall.c:214-253 | what it answers: -E_INVAL exactly when PTE_U or PTE_P is missing, the source has no table there, or write access is asked for that the source word does not have, and nothing has changed then; without memory for a table it panics, or returns -E_NO_MEM for an empty source slot while no count was taken from page 0; 0 otherwise |
| `CallCases.EmptySource` | tp-parte3/kern/syscall.c:214-253 | an empty source slot of an existing table makes the call map page 0, or free it when there is no memory |
| `CallCases.FullCount` | tp-parte3/kern/syscall.c:214-253 | mapping a page whose count is 65535 wraps the count to 0 unless the page was mapped there already |
| `CallCases.RunsExactly` | tp-parte3/kern/syscall.c:78-278 | over every run of calls by live environments, with any permission words, the invariant holds throughout exactly when each call is safe when it is made, which the state before it tells |
| `Teardown.EnvFreeReclaims` | tp-parte3/kern/env.c:427-473 | env_free frees the directory and its tables, lowers each page's count by exactly that environment's mappings and frees a page exactly when it had no other |
| `Teardown.EnvFreeGone` | tp-parte3/kern/env.c:427-473 | env_free never panics and leaves every other directory, table and mapping alone |
| `Populate.LifeRestoresFreePages` | tp-parte3/kern/env.c:165-473 | creating an environment, running any calls that change its address space and whose permission words leave frame numbers alone, and freeing it restores exactly the original set of free pages |
| `RegionAlloc.RegionAllocates` | tp-parte3/kern/env.c:282-308 | region_alloc maps every page of its range for the user to write, changes no other mapping, and equals that many successful sys_page_alloc calls, so the results about runs apply to it |
| `RegionAlloc.RegionCovers` | tp-parte3/kern/env.c:292-294 | the rounded range is exactly the pages that hold a byte of the request; an empty request inside a page still takes that page |
| `PhysMem.Machine.constructor` | tp-parte3/kern/pmap.c:302-339 | page_init puts on the list, highest first, exactly the pages boot leaves free, and establishes the invariant every run starts from, with nothing counted off page 0 |
| `PhysMem.Machine.PageAlloc` | tp-parte3/kern/pmap.c:354-368 | in place, what the specification function says |
| `PhysMem.Machine.PageFree` | tp-parte3/kern/pmap.c:375-391 | in place; false exactly on the panic |
| `PhysMem.Machine.PageDecref` | tp-parte3/kern/pmap.c:398-402 | in place, with a 16-bit count |
| `PhysMem.Machine.PgdirWalk` | tp-parte3/kern/pmap.c:427-444 | in place |
| `PhysMem.Machine.PageLookup` | tp-parte3/kern/pmap.c:532-542 | the slot, and page 0 for an empty one |
| `PhysMem.Machine.PageRemove` | tp-parte3/kern/pmap.c:560-573 | in place |
| `PhysMem.Machine.PageInsert` | tp-parte3/kern/pmap.c:508-518 | in place |
| `PhysMem.Machine.EnvFree` | tp-parte3/kern/env.c:427-473 | the nested loops compute the teardown function |
| `PhysMem.Machine.EnvSetupVm` | tp-parte3/kern/env.c:165-200 | in place |
| `PhysMem.Machine.RegionAlloc` | tp-parte3/kern/env.c:282-308 | the loop computes the region function |
| `PhysMem.Machine.SysPageAlloc` | tp-parte3/kern/syscall.c:165-195 | in place |
| `PhysMem.Machine.SysPageMap` | tp-parte3/kern/syscall.c:214-253 | in place, the panic included |
| `PageSend.SentPageAddsOneReference` | tp-parte3/kern/syscall.c:332-350 | a page sent with a message arrives at the receiver's address with the permissions asked for and gains exactly one reference, none when it was mapped there already |
| `PageSend.SendExactly` | tp-parte3/kern/syscall.c:332-350 | between live environments and below UTOP, with any permission word, sending a page keeps the invariant exactly when it is refused, finds no memory, or sys_page_map of that page would be safe |
| `PageSend.SendAnswers` | tp-parte3/kern/syscall.c:332-350 | what it answers: -E_INVAL exactly when PTE_U or PTE_P is missing, a bit outside PTE_SYSCALL is set, the source has no table there, or write access is asked for that the source word does not have; -E_NO_MEM exactly when no table can be had; both change nothing |
| `UnaskedPage.UnaskedExactly` | tp-parte3/kern/syscall.c:299-362 | a page sent to a receiver that left an address in a kernel table, as one that asked for no page does, leaves the kernel as it was exactly when the send is refused or that very word was there; otherwise it returns 0, every directory with that table has the page there, what was mapped there loses a count, and the invariant survives exactly where the word named that page already |
| `UnaskedPage.EveryoneSees` | tp-parte3/kern/syscall.c:299-362 | so after any such run every environment, and kern_pgdir, sees the page that was sent, with the sender's permissions |
| `SendCall.SendIsAllOrNothing` | tp-parte3/kern/syscall.c:319-362 | sys_ipc_try_send as a whole, statuses, messages and page tables together: a call that does not return 0 changes none of them; it returns 0 exactly when the id resolves to a waiting receiver and the page, if one is sent, is mapped with permissions that are not refused and finds a table or memory for one; then the message is delivered and the page mapped as sys_page_map would |
| `SendCall.SendErrors` | tp-parte3/kern/syscall.c:319-350 | which error it returns: -E_BAD_ENV, then -E_IPC_NOT_RECV, then -E_INVAL, then -E_NO_MEM, each exactly when its own test fails and the ones before pass |
| `BootMap.FreshDirectory` | tp-parte3/kern/pmap.c:144-152 | the directory with nothing but its self-map, as mem_init makes it, meets what the other results assume, for every region outside the UVPT window |
| `BootMap.MapRegionMaps` | tp-parte3/kern/pmap.c:458-480 | outside the UVPT window boot_map_region maps exactly its region, with either page size, and changes no other page |
| `BootMap.MapRegionWords` | tp-parte3/kern/pmap.c:458-480 | word by word: untouched outside the region, a large page where one is used, the old table where there was one, a fresh page of the free list otherwise |
| `BootMap.LargeAgreesWithSmall` | tp-parte3/kern/pmap.c:458-480 | with and without large pages every virtual page outside the UVPT window translates alike and with the same effective permission |
| `BootMap.WindowAfter` | tp-parte3/kern/pmap.c:144-152 | what the UVPT window shows after either run, page by page, told from the directory and the free list before it; the two runs agree there exactly where the user may read the region and the small run's table is the region's own frame, or, for a table both make, as many were made before it in both |
| `BootMap.WindowDiffers` | tp-parte3/kern/pmap.c:144-152 | from mem_init's directory, with a region of 1025 pages at 0, pages 0 and 1 of the window tell the two runs apart |
| `BootMap.TableFrame` | tp-parte3/kern/pmap.c:427-444 | tables come off the free list in the order of their directory words |
| `BootMap.RegionFits` | tp-parte3/kern/pmap.c:458-480 | a run succeeds exactly when the free list has a page for every directory word that needs a table |
| `BootMap.ByteAgreement` | tp-parte3/kern/pmap.c:918-931 | where a large and a small page translate a page alike, check_va2pa gives the same byte address exactly when va is page-aligned |
| `BootMap.BootDirectory.BootMapRegion` | tp-parte3/kern/pmap.c:458-480 | the loop ends even when the address wraps to 0 after the last page, and computes the region function |
| `BootTables.RegionKeeps` | tp-parte3/kern/pmap.c:458-480 | boot_map_region takes pages for the kernel's own tables and keeps the whole invariant of pages, counts and free list; on memory and free list it is the function of the rows above |
| `BootTables.BootToRuns` | tp-parte3/kern/pmap.c:144-231 | from what page_init leaves and a directory with only its self-map, any calls of boot_map_region above UTOP lead to a state from which the runs of environments start |
| `CowFork.DupPermIsDupFlags` | tp-parte3/lib/fork.c:64-88 | the permission word duppage computes and the change of flags in the fork machine are the same thing, and a present user page stays one |
| `ForkEffects.DupEntries` | tp-parte3/lib/fork.c:64-88 | one duppage: a page that is shared, or neither writable nor copy-on-write, is handed on as it is and the parent's entry stays; any other is read-only and copy-on-write in both afterwards |
| `ForkEffects.DupWords` | tp-parte3/lib/fork.c:64-88 | the same of the page table words in memory: in the first case the parent's word is untouched and the child's has the same frame and the same PTE_SYSCALL bits; in the other both have PTE_COW in place of PTE_W |
| `ForkEffects.RunStaysReadOnly` | tp-parte3/lib/fork.c:15-186 | over every run a page that its owner may only read stays that page with those permissions, through any number of forks, and its owner is never in the fault handler for it |
| `ForkEffects.StoreIsFatal` | tp-parte3/lib/fork.c:26-28 | a store to such a page ends the environment and changes no page |
| `CowFork.StepKeeps` | tp-parte3/lib/fork.c:15-186 | every step of every environment keeps: a writable private frame has one mapping, shared frames are shared by all their mappings |
| `CowFork.LazyRefinesEager` | tp-parte3/lib/fork.c:15-186 | in every run of forks, stores, page faults and exits, interleaved at will, each environment sees at its private pages what it would see had every duppage copied the page on the spot |
| `CowFork.StoresStayPrivate` | tp-parte3/lib/fork.c:15-186 | in any run, whatever the others do, what an environment sees at a private page stays as it is until it stores there itself or exits |
| `CowFork.HandlerSteps` | tp-parte3/lib/fork.c:15-50 | the four steps of pgfault turn a copy-on-write page into a private writable one with the same contents |
| `CowFork.FaultedStoreIsPerformed` | tp-parte3/lib/fork.c:15-50 | a store that faults is performed after the handler ran, and reaches no other view |
| `CowFork.CleanStart` | tp-parte3/lib/fork.c:152-186 | a machine in which every private writable frame is mapped once satisfies the invariant, and there is a map from environments and pages to contents that is exactly what they see |
| `CowFork.EveryRunIsCopying` | tp-parte3/lib/fork.c:15-186 | from such a machine, every run shows what copying would show |
| `CowFork.AllowedStep` | tp-parte3/lib/fork.c:15-186 | a run is allowed when each step is enabled as it is taken; the invariant comes by itself |
| `MemoryView.StepInMemory` | tp-parte3/lib/fork.c:15-186 | on the page tables in memory, the system calls and stores of one step, when they return 0, leave exactly that step's page maps, with the pages page_alloc gives mapped nowhere before |
| `MemoryView.RunInMemory` | tp-parte3/lib/fork.c:15-186 | over any run, with any number of environments, the page tables in memory show exactly what the fork model holds |
| `MemoryContents.StoreInPage` | tp-parte3/lib/fork.c:15-186 | storing a byte in a page changes exactly that byte of the word it is in |
| `MemoryContents.FrameOfInjective` | tp-parte3/lib/fork.c:15-186 | the words of a page determine its bytes |
| `MemoryContents.StepHolds` | tp-parte3/lib/fork.c:15-186 | after every step the words of each mapped page in memory are the bytes the fork model says: page_alloc's zeros, the word-by-word copy of the fault handler, and stores through the page table |
| `MemoryContents.MemoryShowsCopying` | tp-parte3/lib/fork.c:15-186 | in every run of forks, stores, page faults and exits, what memory holds at a private page of an environment, found through its page table, is what it would hold had every duppage copied the page on the spot |
| `ForkLib.Kernel.PgFault` | tp-parte3/lib/fork.c:15-50 | the system calls of pgfault succeed, and nobody's view changes |
| `ForkLib.Kernel.DupPage` | tp-parte3/lib/fork.c:64-88 | the sys_page_map calls of duppage succeed and amount to one step of the model; the entry is passed on unchanged, or copy-on-write on both sides, as its flags ask |
| `ForkLib.Kernel.DupAll` | tp-parte3/lib/fork.c:166-175 | the loop hands the child every page of the parent but the exception stack |
| `ForkLib.Kernel.Fork` | tp-parte3/lib/fork.c:152-186 | fork leaves the child with a copy of everything the parent sees, and the parent's and all others' views unchanged; every page of the two is the parent's page, as it was or copy-on-write |
| `SmpSafety.EveryRunIsSafe` | tp-parte3/kern/trap.c:268-326 | in every legal run from boot, one CPU at most is in the kernel; while the lock is free each CPU's environment is none, running or dying, and each running or dying environment is current on exactly one CPU |
| `KernelEvents.ClockPreempts` | tp-parte3/kern/trap.c:252-256 | a clock interrupt, like sys_yield, gives the CPU to the nearest runnable environment after the running one, round the end, and leaves the old one runnable; with none runnable it goes back to the old one |
| `KernelEvents.KillFrees` | tp-parte3/kern/env.c:481-497 | destroying, by sys_env_destroy, an unexpected trap or a page fault without a handler: a target that runs on another CPU becomes dying; any other is free and at the head of the free list; one that destroys itself gives way to the first runnable slot |
| `KernelEvents.KilledIsGone` | tp-parte3/kern/env.c:481-497 | what is destroyed is no longer current on the CPU that did it and its id is refused to every caller; no other id, parent, receive flag or message changes |
| `KernelEvents.ReapFrees` | tp-parte3/kern/trap.c:297-302 | a CPU that traps with a dying environment frees it, whatever the trap was, and gives way |
| `KernelEvents.DyingIsReaped` | tp-parte3/kern/env.c:481-497 | over every legal run a dying environment stays dying on its CPU until that CPU is in the kernel next; then it is free, at the head of the free list, and its id is refused |
| `KernelEvents.NothingHappens` | tp-parte3/kern/trap.c:217-265 | a breakpoint or spurious interrupt, a page fault with a handler and every call that is refused change no environment, and the caller goes on |
| `KernelEvents.ForkAdds` | tp-parte3/kern/syscall.c:78-96 | sys_exofork turns the head of the free list into a sleeping child of the caller with a positive id that carries its slot and is nobody else's; nothing else changes and the caller goes on |
| `KernelEvents.StatusSets` | tp-parte3/kern/syscall.c:106-124 | sys_env_set_status on a child sets exactly its status and the caller goes on |
| `KernelEvents.StatusOfSelf` | tp-parte3/kern/syscall.c:106-124 | on the caller it sets the status and the CPU gives way |
| `KernelEvents.SendDelivers` | tp-parte3/kern/syscall.c:319-362 | a send to a waiting receiver stores sender, value and permission, clears the flag and makes it runnable; nothing else changes and the sender goes on |
| `KernelEvents.RecvSleeps` | tp-parte3/kern/syscall.c:376-388 | sys_ipc_recv puts the caller to sleep, waiting, and the CPU gives way |
| `KernelEvents.HaltedLooks` | tp-parte3/kern/trap.c:268-326 | a CPU that was halted takes the first runnable environment from slot 0 on |
| `KernelEvents.YieldGivesWay` | tp-parte3/kern/sched.c:12-48 | sched_yield takes the nearest runnable environment; without any it keeps the current one if that still runs; otherwise it halts with the lock free, or stays in the monitor with the lock exactly when every environment is free or asleep |
| `KernelEvents.NamedExactly` | tp-parte3/kern/env.c:73-106 | envid2env gives the caller for 0, and otherwise exactly the environment in use with that id, where asked for only if it is the caller or its child |
| `SmpSafety.SchedYieldSafe` | tp-parte3/kern/sched.c:12-48 | sched_yield leaves the kernel with the invariant restored, whatever state the current environment was left in |
| `SmpSafety.EnvRunSafe` | tp-parte3/kern/env.c:531-561 | switching to a runnable environment, or back to the current one, keeps every environment on one CPU at most |
| `SmpSafety.SchedHaltSafe` | tp-parte3/kern/sched.c:54-95 | halting, or stopping in the monitor, keeps the invariant |
| `SmpSafety.EnvDestroySafe` | tp-parte3/kern/env.c:481-497 | destroying any environment that is not dying is safe |
| `SmpSafety.DestroyExactly` | tp-parte3/kern/env.c:481-497 | destroying another environment keeps the invariant exactly when it is not dying already |
| `SmpSafety.SetStatusExactly` | tp-parte3/kern/syscall.c:106-124 | sys_env_set_status keeps the invariant exactly when its target is the caller, or is on no CPU and, if blocked in receive, is kept asleep |
| `WokenReceiver.RunsTwice` | tp-parte3/kern/syscall.c:106-124 | in the excluded case, by actions: a child blocked in receive is made runnable, another CPU takes it, the parent sends to it and yields, and both CPUs are in user mode in the child; only the first action is one EveryRunIsSafe does not allow |
| `WokenReceiver.BlockedExists` | tp-parte3/kern/syscall.c:106-124 | there is a state with the invariant from which that run starts |
| `SmpSafety.ExoforkSafe` | tp-parte3/kern/syscall.c:78-96 | sys_exofork keeps the free list exact and the invariant of a CPU inside the kernel |
| `SmpSafety.ExoforkFresh` | tp-parte3/kern/syscall.c:78-96 | it takes the head of the free list and changes no other slot; the child is not runnable and its parent is the caller; its id is the slot's next one, positive, carries the slot, and differs from every live id and from the slot's last |
| `SmpSafety.TrapSafe` | tp-parte3/kern/spinlock.c:61-79 | trapping and each attempt at the lock keep mutual exclusion |
| `Rendezvous.StepSeen` | tp-parte3/kern/syscall.c:319-388 | a receive flag is cleared only by a successful send and set only by a receive; a message changes only by a successful send to a waiting receiver |
| `Rendezvous.ExactlyOnce` | tp-parte3/kern/syscall.c:319-388 | a blocked receiver is still blocked with nothing delivered, or has had exactly one delivery and holds its message |
| `Rendezvous.ReceivesMatchSends` | tp-parte3/lib/ipc.c:23-69 | over any run receives and deliveries alternate, and the message an environment reads is the last delivered |
| `Rendezvous.MessageLasts` | tp-parte3/lib/ipc.c:23-46 | sender, value and permission read after waking are not overwritten before the next receive |
| `Rendezvous.FailedSendChangesNothing` | tp-parte3/kern/syscall.c:319-362 | a send that fails leaves the same state as a call that does nothing |
| `Rendezvous.DeliveryWakes` | tp-parte3/kern/syscall.c:354-361 | a successful send makes its receiver runnable and its sender keeps the CPU |
| `Fairness.PickIsNearest` | tp-parte3/kern/sched.c:32-42 | the environment chosen is the nearest runnable one after the current slot, round the end |
| `Fairness.BoundedWaiting` | tp-parte3/kern/sched.c:32-45 | while an environment stays runnable, any one CPU whose environment is not destroyed yields at most as often as there are slots before it, fewer than NENV |
| `Fairness.TicksAreBounded` | tp-parte3/kern/sched.c:32-45 | counted from outside: an environment that stays runnable waits for fewer than NENV clock interrupts and sys_yield calls of any one CPU, and for at most NENV more each time that CPU's environment is destroyed under it |
| `Fairness.HandleResolves` | tp-parte3/kern/env.c:73-106 | an id taken at the start of a run resolves at its end exactly when its slot is in use and was allocated again a multiple of 524287 times |
| `SmpKernel.Kernel.constructor` | tp-parte3/kern/env.c:115-131 | env_init and the lock at boot establish the boot state |
| `SmpKernel.Kernel.TryLock` | tp-parte3/kern/spinlock.c:74-75 | one exchange of the spin loop |
| `SmpKernel.Kernel.EnvRun` | tp-parte3/kern/env.c:531-561 | in place |
| `SmpKernel.Kernel.SchedHalt` | tp-parte3/kern/sched.c:54-95 | the loop decides between the monitor and halting |
| `SmpKernel.Kernel.SchedYield` | tp-parte3/kern/sched.c:12-48 | the two loops find the environment the specification picks |
| `SmpKernel.Kernel.EnvDestroy` | tp-parte3/kern/env.c:481-497 | in place |
| `SmpKernel.Kernel.EnvId2Env` | tp-parte3/kern/env.c:73-106 | the environment an id names, or the error |
| `SmpKernel.Kernel.SysExofork` | tp-parte3/kern/syscall.c:78-96 | in place, with the id it returns |
| `SmpKernel.Kernel.SysEnvSetStatus` | tp-parte3/kern/syscall.c:106-124 | in place |
| `SmpKernel.Kernel.SysIpcTrySend` | tp-parte3/kern/syscall.c:319-362 | in place; every error return leaves the state alone |
| `SmpKernel.Kernel.SysIpcRecv` | tp-parte3/kern/syscall.c:376-388 | in place |
| `SmpKernel.Kernel.TrapDispatch` | tp-parte3/kern/trap.c:218-265 | the handlers amount to the dispatch step |
| `SmpKernel.Kernel.Trap` | tp-parte3/kern/trap.c:268-326 | the reap, the dispatch and the tail decision amount to one kernel step |
| `EnvIds.EnvIdCarriesSlot` | tp-parte3/kern/env.c:224-228 | environment ids stay positive and carry their slot |
| `EnvIds.EnvIdRecurs` | tp-parte3/kern/env.c:224-228 | a slot issues the same id again exactly after a multiple of 524287 allocations |
| `EnvIds.FileIdForm` | tp-parte4/fs/serv.c:63-84 | file ids stay congruent to their slot modulo 1024 |
| `EnvIds.FileIdRecurs` | tp-parte4/fs/serv.c:63-84 | a file id recurs exactly after a multiple of 2^22 opens of its slot |
| `EnvIds.FileIdReadsAsError` | tp-parte4/fs/serv.c:63-84 | returned as an int, the id reads as an error exactly in the second half of each period |
| `EnvIds.OpenTable.constructor` | tp-parte4/fs/serv.c:50-59 | serve_init |
| `EnvIds.OpenTable.OpenfileAlloc` | tp-parte4/fs/serv.c:63-84 | the first slot no client holds gets the next id of that slot; errors change nothing |
| `EnvIds.OpenTable.OpenfileLookup` | tp-parte4/fs/serv.c:88-97 | a live handle gives its slot, and every stale one within the period is refused |
| `FsBlocks.IndirectMustReadZero` | tp-parte4/fs/fs.c:150-160 | taking a fresh indirect block keeps block ownership exactly when the block reads as zeros |
| `FsBlocks.GetBlockSpec` | tp-parte4/fs/fs.c:176-193 | inside the file's size, getting a block never panics, keeps ownership and all data, and fails only past the largest block number or with the disk full |
| `FsBlocks.WalkSpec` | tp-parte4/fs/fs.c:143-165 | the walk changes no data pointer; it fails only past the largest block number or with the disk full |
| `FsBlocks.WalkAnswers` | tp-parte4/fs/fs.c:143-165 | on any disk, sound or not: -E_INVAL past the largest block number, -E_NOT_FOUND or -E_NO_DISK when an indirect block is needed and not to be had, and a panic exactly when the indirect pointer is off the disk or block 0 would be taken |
| `FsBlocks.TruncateSpec` | tp-parte4/fs/fs.c:437-452 | truncation clears exactly the slots past the new end, and the indirect block when none is left in it |
| `FsBlocks.BlocksForHolds` | tp-parte4/fs/fs.c:437-452 | the block counts truncation goes by are the fewest blocks that hold so many bytes |
| `FsBlocks.SetSizeSpec` | tp-parte4/fs/fs.c:456-463 | setting the size keeps ownership, every block below the new end and every other file's blocks |
| `FileIo.BlocksAreConserved` | tp-parte4/fs/fs.c:33-77 | free, reserved and referenced blocks add up to the disk |
| `FileIo.RunKeepsOwned` | tp-parte4/fs/fs.c:33-463 | over every run of size changes, reads, writes and creations, ownership holds and no block is lost |
| `FileIo.AddedOwned` | tp-parte4/fs/fs.c:327-344 | a record that becomes a file keeps ownership exactly when it reads as blank: no pointers, and a size that can be rounded up |
| `FileIo.CreateExactly` | tp-parte4/fs/fs.c:246-252 | a file created in a new directory block: the block was free and keeps its bytes, and ownership survives exactly when the records those bytes make up are blank |
| `FileIo.NewRecordsAre` | tp-parte4/fs/fs.c:228-253 | the records such a block adds: the first, and every later one that has a name |
| `FileIo.RecordLayout` | tp-parte4/inc/fs.h:29-42 | where size, direct and indirect pointers of a record lie in its 256 bytes |
| `FileIo.FileWriteSplices` | tp-parte4/fs/fs.c:387-408 | a write that returns count makes exactly its bytes equal the buffer; whatever it returns, no other byte any file had changes |
| `FileIo.FileReadSlices` | tp-parte4/fs/fs.c:358-379 | a read returns the matching bytes, cut at the file's size, and changes no byte any file had |
| `FileIo.WriteThenRead` | tp-parte4/fs/fs.c:358-408 | what a write stored the next read returns, changing nothing |
| `FileServer.Server.BlockIsFree` | tp-parte4/fs/fs.c:33-40 | the bit of the bitmap word, false past the disk |
| `FileServer.Server.FreeBlock` | tp-parte4/fs/fs.c:44-50 | sets that bit only; panics on block 0 |
| `FileServer.Server.AllocBlock` | tp-parte4/fs/fs.c:61-77 | clears the bit of the first free block |
| `FileServer.Server.FileBlockWalk` | tp-parte4/fs/fs.c:143-165 | in place |
| `FileServer.Server.FileGetBlock` | tp-parte4/fs/fs.c:176-193 | in place |
| `FileServer.Server.FileRead` | tp-parte4/fs/fs.c:358-379 | the loop collects the bytes of the specification |
| `FileServer.Server.FileWrite` | tp-parte4/fs/fs.c:387-408 | the loop makes the specification's changes |
| `FileServer.Server.FileFreeBlock` | tp-parte4/fs/fs.c:413-425 | in place |
| `FileServer.Server.FileTruncateBlocks` | tp-parte4/fs/fs.c:437-452 | in place |
| `FileServer.Server.FileSetSize` | tp-parte4/fs/fs.c:456-463 | in place |
| `BlockCache.FaultKeeps` | tp-parte4/fs/bc.c:30-74 | a page fault, with the faults its look at the bitmap causes, shows the same contents and keeps clean pages equal to the disk |
| `BlockCache.FaultSucceeds` | tp-parte4/fs/bc.c:43-73 | with the bitmap blocks in use, a fault succeeds exactly on blocks that exist and are not free |
| `Bitmap.FreeIsBit` | tp-parte4/fs/fs.c:33-40 | a block is free to the fault handler, which reads the bitmap's bytes in the cache, exactly when its bit of the 32-bit words that alloc_block and free_block change is set |
| `Bitmap.ShowsSome` | tp-parte4/fs/fs.c:33-40 | every disk that holds its bitmap shows such words, whatever its bytes |
| `Bitmap.AllocatedFaults` | tp-parte4/fs/fs.c:61-77 | a block alloc_block has just taken can be faulted in, before that it could not, and no other block changes |
| `Bitmap.FreedPanics` | tp-parte4/fs/fs.c:44-50 | a fault on a block free_block has just marked is a panic, and no other block changes |
| `BlockCache.StepSucceeds` | tp-parte4/fs/bc.c:30-104 | an access goes through exactly on a block that exists, other than block 0, and is in the cache or in use; a flush on any block but 0; a sync always |
| `BlockCache.FlushKeeps` | tp-parte4/fs/bc.c:84-104 | flushing writes the block through, leaves it clean, and changes nothing else |
| `BlockCache.RunRefines` | tp-parte4/fs/bc.c:6-104 | over every run the cache stays coherent and shows what a plain array of blocks would |
| `BlockCache.SyncThenDrop` | tp-parte4/fs/fs.c:488-494 | after fs_sync, dropping the whole cache gives the same contents for every block but block 0 |
| `BlockCache.CrashAfterSync` | tp-parte4/fs/fs.c:488-494 | after any run that ends in fs_sync a crash loses no store |
| `BlockCache.DiskCache.BcPgfault` | tp-parte4/fs/bc.c:30-74 | in place, with the nested fault on the bitmap |
| `BlockCache.DiskCache.FlushBlock` | tp-parte4/fs/bc.c:84-104 | in place |
| `BlockCache.DiskCache.Sync` | tp-parte4/fs/fs.c:488-494 | the loop from block 1 |
| `BlockCache.DiskCache.Get` | tp-parte4/fs/bc.c:30-74 | a load returns the visible contents |
| `Format.FormatEstablishes` | tp-parte4/fs/fsformat.c:219-243 | if the formatter does not stop, a block is in use exactly when below the mark, every file reads back as given, and block ownership holds exactly when there was at least one file and every record malloc gave was zero in the pointers its file does not use |
| `Format.FormatStops` | tp-parte4/fs/fsformat.c:82-243 | the formatter goes through, whatever malloc gives it, exactly when there are at most 128 files, none of MAXFILESIZE or more, and the reserved blocks, the files' blocks with their indirect blocks and the root's leave a block of the disk over |
| `Format.FormatOver` | tp-parte4/fs/fsformat.c:150-209 | what malloc left in the records changes neither the layout nor whether the formatter stops: each record is the clean one over the stale one |
| `Format.StaleIndirect` | tp-parte4/fs/fsformat.c:135-209 | one stale f_indirect that finishfile does not set breaks ownership |
| `Format.EmptyRootIsBroken` | tp-parte4/fs/fsformat.c:170-178 | with no file the root is given the block at the mark, which stays free |
| `Format.WriteFileKeeps` | tp-parte4/fs/fsformat.c:181-209 | laying out one more file on a record of zeros keeps ownership, moves no earlier pointer, stores the file's bytes and sets no pointer the file does not use |
| `Format.FormatThenServe` | tp-parte4/fs/fsformat.c:219-243 | from a formatted disk whose records were zero where the formatter leaves them, every run of the file server keeps ownership and loses no block |
| `FsFormat.Formatter.Alloc` | tp-parte4/fs/fsformat.c:82-89 | the next blocks, or the panic |
| `FsFormat.Formatter.FinishFile` | tp-parte4/fs/fsformat.c:135-148 | the two loops fill direct and indirect pointers |
| `FsFormat.Formatter.FinishDir` | tp-parte4/fs/fsformat.c:170-178 | the root directory after its files |
| `FsFormat.Formatter.FinishDisk` | tp-parte4/fs/fsformat.c:123-132 | clears exactly the bits below the mark |
| `FsFormat.FormatImage` | tp-parte4/fs/fsformat.c:219-243 | the whole formatter: image, bitmap and panics |
| `Paths.SlashInsensitive` | tp-parte4/fs/fs.c:271-318 | leading, repeated and trailing slashes never matter |
| `Paths.ComponentsOfJoined` | tp-parte4/fs/fs.c:280-297 | splitting a path built from plain names gives those names back |
| `Paths.CreateThenOpen` | tp-parte4/fs/fs.c:327-351 | after file_create returns 0, file_open gives that same file, every path that could be opened still opens the same file, and creating again reports that it exists |
| `Paths.MissingMeans` | tp-parte4/fs/fs.c:299-311 | the directory handed back on -E_NOT_FOUND is one, lacks the last element, and that element fits a name |
| `PathChains.WalksExactly` | tp-parte4/fs/fs.c:271-318 | where a path leads, exactly: it is found when its components follow a chain of records from the root, each but the last a directory and each next one in the first slot of that name; it is a bad path when the first component that cannot be followed is too long; the directory is handed back when only the last element is missing there; and it is missing without one otherwise |
| `PathChains.RootIsFound` | tp-parte4/fs/fs.c:271-318 | a path of slashes only opens the root, and creating it reports that it exists |
| `PathChains.CreateExactly` | tp-parte4/fs/fs.c:327-344 | file_create makes a file exactly where only the last element is missing, in the directory the others lead to, and reports the other cases as walk_path finds them |
| `Paths.CreateKeepsTree` | tp-parte4/fs/fs.c:228-253 | after a creation every record is in one place only exactly when the record was taken in place or the stale records of the new block name records nobody else does |
| `PathServer.Namespace.WalkPath` | tp-parte4/fs/fs.c:271-318 | the character loops are the fold of dir_lookup over the components |
| `PathServer.Namespace.DirLookup` | tp-parte4/fs/fs.c:200-223 | the two loops find the first record of that name |
| `PathServer.Namespace.DirAllocFile` | tp-parte4/fs/fs.c:228-253 | the first nameless record, or the first of a new block |
| `PathServer.Namespace.FileCreate` | tp-parte4/fs/fs.c:327-344 | in place, with every error return |
| `PathServer.Namespace.FileOpen` | tp-parte4/fs/fs.c:349-352 | the same walk |
| `Stabs.BinSearchBrackets` | tp-parte3/kern/kdebug.c:60-106 | among sorted values, when addr + 1 is not among them, the search returns the last entry at most addr and the index before the next larger one; with no such entry, the bracket spelled out in Bracket |
| `Stabs.BinSearchExactly` | tp-parte3/kern/kdebug.c:86-92 | on every sorted table and for every address, exactly when the result is right, told from the table: addr is not a value; or it is not the largest address and addr + 1 is not a value or is probed first, with one more case where addr + 1 is the largest |
| `Stabs.TopIsWrong` | tp-parte3/kern/kdebug.c:86-92 | at the largest address the result is wrong whenever an entry has that value |
| `Stabs.TurnProgress` | tp-parte3/kern/kdebug.c:67-93 | every turn of the loop makes progress on any table, so it ends |
| `Stabs.BracketUnique` | tp-parte3/kern/kdebug.c:22-57 | the bracket determines both ends |
| `Stabs.EmptyMeansNoEntry` | tp-parte3/kern/kdebug.c:34-36 | left > right means exactly that no entry has the type, not that none contains addr |
| `Stabs.ValuesOneApart` | tp-parte3/kern/kdebug.c:86-92 | entries for 5 and 6, asked for 5: the restart settles on 6 |
| `Stabs.TopAddress` | tp-parte3/kern/kdebug.c:86-92 | at the largest address the restart wraps to 0 and loses the match |
| `Stabs.StabBinsearch` | tp-parte3/kern/kdebug.c:60-106 | the loops, with their variables, compute the search |
| `Sieve.SievePrintsPrimes` | fork/primes.c:37-79 | fed 2..n the chain prints exactly the primes up to n in increasing order |
| `Sieve.StageReads` | fork/primes.c:66-73 | stage k reads exactly the numbers that none of the first k primes divides |
| `Sieve.ChainShrinks` | fork/primes.c:37-79 | each stage's stream is strictly shorter, so the chain is finite |
| `Sieve.PrimesAreAll` | fork/primes.c:37-79 | the list of primes is increasing and holds every prime of its range |
| `Sieve.Filter` | fork/primes.c:37-79 | one stage and those it starts print what the specification says |
| `Sieve.Run` | fork/primes.c:106-111 | the feeder writes 2..n and the primes come out |

## Left out

- EnvMemory.RunKeeps: assumes of its callers a mapped source for sys_page_map wherever the table exists, counts that fit sixteen bits, and permission words whose upper bits leave the frame number alone, which the kernel does not check; CallCases.RunsExactly takes every call and says exactly when the invariant survives.
- EnvMemory.AllocKeeps: assumes such a permission word; CallCases.AllocExactly does not.
- EnvMemory.ShareSucceeds: assumes such a permission word; CallCases.ShareExactly does not.
- Populate.LifeRestoresFreePages: assumes what RunKeeps assumes; CallCases.WideAlloc shows the page a wider permission word loses.
- SendCall.SendIsAllOrNothing: the address the receiver asked for is an argument of the call, below UTOP, since the state of `Smp` does not keep env_ipc_dstva.
- PageSend.SentPageAddsOneReference: assumes a mapped source (SendExactly covers an empty one) and a destination below UTOP, which sys_ipc_try_send does not check (UnaskedExactly covers kernel tables).
- PageSend.SendExactly: the destination is below UTOP; UnaskedExactly covers the addresses of kernel tables.
- UnaskedPage.UnaskedExactly: the source is mapped and the word there names a page of memory; large pages, the self-map and words without a table above UTOP are left out.
- BootMap.MapRegionMaps: the region lies outside the UVPT window and no large page covers it yet; the code would read the large frame, or the directory itself, as a table.
- ForkLib.Kernel.DupPage: the two sys_page_map calls of duppage are one step; a store by the parent between them is not a run of the model.
- MemoryView.StepInMemory: the calls of one step follow each other, with no other environment's call between them.
- CowFork.LazyRefinesEager: memory is available to every fork and page fault; PFTEMP and the exception stack are outside the view.
- SmpSafety.EveryRunIsSafe: calls that change no status, and the address-space half of each call, appear as `Nothing` or as a choice of outcome.
- Rendezvous.ReceivesMatchSends: ipc_send's retry loop appears as its separate calls, since it need not end.
- FileIo.RunKeepsOwned: sizes and offsets lie in [0, 2^31 - 4096], where off_t does not overflow; an indirect block that is taken reads as zeros and a record that is taken is blank (IndirectMustReadZero and CreateExactly say what happens otherwise).
- FileIo.FileReadSlices: a hole inside the size becomes a block with stale contents, since fresh blocks are not cleared; what is read there is not pinned down.
- BlockCache.FaultSucceeds: the super block and the bitmap are already set up; the handler's behaviour before that is not modelled.
- Format.FormatEstablishes: the bytes of the root directory's own blocks are not modelled.
- Paths.CreateThenOpen: directories have no missing blocks and their size is a multiple of the block size; growing a directory finds a block.
- Sieve.Run: n is below INT_MAX, where the feeder's counter does not overflow.
- Sieve.Filter: stages run one after the other; pipe capacity, scheduling of the processes, output buffering and failures of pipe, fork and write are not modelled.
- The TLB, CR3 and the order of lcr3 calls.
- BootTables.RegionKeeps: a large page takes only empty directory words, and regions lie above UTOP; entry_pgdir, the arrays boot_alloc hands out and the per-CPU stacks are not modelled beyond the regions mapped for them.
- spin_lock's loop is one exchange per step; debugging fields of the lock are not modelled.
- page_fault_handler's user trap frame, register state, env_runs, env_type and console output.
- load_icode, env_pop_tf, user_mem_check, device drivers, the boot loader and interrupt controllers.
- Durability of the bitmap before fs_sync, which alloc_block does not provide: it flushes the allocated block.
- file_flush, serve_open and the request loop of the file server.
