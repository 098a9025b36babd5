# A model of the NewLand kernel's memory manager, scheduler and support code

This project models five parts of the StardustOS repository in Dafny and proves
properties of them.

- **Physical and virtual memory** (`newland/arch/x86/src/mem.c`). `Memory.dfy` is the
  file's static data as one object: a byte bitmap of 2^20 frames, the byte counter,
  the 256 by 1024 matrix of kernel page entries, and the page directories that share
  it. `MemSpec.dfy` gives each operation's meaning on values: a set of used frames, a
  counter and 262144 page entries. `FrameLemmas.dfy`, `MemTranslation.dfy`,
  `MemEffects.dfy`, `MemSafety.dfy`, `MemRuns.dfy`, `MemConservation.dfy` and
  `MemRestored.dfy` prove what holds of those meanings: said of single frames and entries,
  call by call, and over whole runs.
- **Processes and the scheduler** (`newland/arch/x86/src/proc.c`). `ProcTable.dfy` is the
  intrusive list of process records, updated in place; `ProcSpec.dfy` its meaning;
  `ProcEffects.dfy`, `ProcInv.dfy`, `ProcCleanup.dfy`, `ProcRuns.dfy`, `ProcExamples.dfy`,
  `ProcFairness.dfy` and `ProcShares.dfy` every call said of single fields, the invariant,
  the zombie traversal, runs, short runs in which the surprises occur, round robin and CPU
  shares.
- **Module initialisation** (`newland/src/module.c`): `ModSpec.dfy`, `ModOrder.dfy`,
  `ModSuccess.dfy`, `ModRepeat.dfy`, `Modules.dfy`.
- **The linked list** (`libraries/liblist`): `ListSpec.dfy`, `LinkedList.dfy`.
- **Arithmetic and buffers**: `Clock.dfy` (calendar to seconds), `Numerals.dfy` and
  `Printers.dfy` (three number printers), `Memmove.dfy`.

Methods are the code as it updates its state; each is tied by its postcondition to a
specification function, and the lemmas are about those functions. `Machine.dfy` has the
32-bit arithmetic, `Bits.dfy` single bits of a byte, `Sequences.dfy` a sequence with one
element removed.

## Where the code differs from its promises

- `mem_alloc` does not test whether `phys_alloc` failed. It keeps pages apart exactly when
  frames were found, or no pages were free, or it maps the single frame that the error code
  names and that frame is used and unmapped (`MemSafety.MemAllocIsSafeIff`, with a failure
  after boot in `MemRuns.MemAllocCanAlias`). With frames but no free pages it leaks the
  frames, with pages but no frames the pages have none of their own
  (`MemConservation.AllocAccountsIff`, `MemConservation.AllocCanLeak`).
- `mem_identmap` may map a frame that another page maps already
  (`MemSafety.IdentMapIsSafeIff`, `MemRuns.IdentMapCanAlias`).
- When the current process leaves the list, no later call schedules anybody
  (`ProcRuns.LosingCurrentStalls`, `ProcExamples.ReadyButNeverRun`). It leaves exactly when it is
  destroyed, or is a zombie at a cleanup (`ProcRuns.CurrentAfterIff`).
- `schedule` makes a zombie ready or running again if it is the process put aside or taken
  up (`ProcRuns.ZombieSurvivesScheduleIff`, `ProcExamples.ZombieRunsAgain`).
- `proc_destroy` reads the parent that it looks up without testing for NULL, so a process
  whose parent has been destroyed cannot be (`ProcExamples.OrphanCannotBeDestroyed`;
  `ProcRuns.TidyRunIff` says which runs never come to that).
- The slot that a lost child leaves empty pushes another child out of the counted slots
  (`ProcInv.HoleHidesIff`, `ProcExamples.YoungerChildIsHidden`).
- A module counts as loaded when its link is not NULL, which overlooks the first module ever
  loaded until it has been loaded twice (`ModOrder.FlagOverlooksIff`). So
  modules_init runs its init twice if any module needs it (`ModRepeat.ModulesInitRepeatsIff`).
- `itoa` returns the sign plus the number of swaps of its reversal, not the length of the
  text (`Printers.Itoa`).
- `ultoa` drops digits above 15, so above base 16 it may start after the original pointer
  (`Printers.ShownIsTextIff`, `Printers.SixteenVanishes`).

## Conventions

- `unsigned int`, `size_t`, `uint32_t` and `pid_t` are `u32`; additions wrap modulo 2^32
  where the code's do. Signed overflow, which C leaves undefined, wraps in two's complement;
  it occurs only for dates whose seconds do not fit and for the negation of INT_MIN. Right
  shifts of addresses are written as divisions by powers of two.
- The one-bit fields of page entries are truth values: the code only tests them. A page
  number times PAGE_SIZE is taken modulo 2^32.
- Memory contents are not modelled, so `memset` of a new block is not seen; page directories
  and tables are typed objects rather than bytes at an address.
- `kmalloc` and `malloc` are a flag that says whether memory was found. `kfree` leaves a
  record readable, since the code reads links of freed records.
- The results of module init functions are a parameter: the result of the n-th call.

## Model

| member | source | states |
|---|---|---|
| Bits.SetBit | newland/arch/x86/src/mem.c:17-19 | or-ing a mask into a byte sets that bit and no other |
| Bits.ClearBit | newland/arch/x86/src/mem.c:17-19 | and-ing the complement clears that bit and no other |
| Memory.BitmapIsDetermined | newland/arch/x86/src/mem.c:15-19 | a set of frames fixes every byte of the bitmap, so equal sets are equal bit for bit |
| Memory.PageDir.ShareKernelHalf | newland/arch/x86/src/mem.c:169-175 | entries 0..255 become present, writable, supervisor entries for the 256 kernel tables; the rest is untouched |
| Memory.KernelMemory.constructor | newland/arch/x86/src/mem.c:166-175 | empty tables, and a kernel directory whose first 256 entries name the 256 kernel tables |
| Memory.KernelMemory.PhysicalIsUsed | newland/arch/x86/src/mem.c:17 | true exactly when the address's frame is in the set of used frames |
| Memory.KernelMemory.PhysicalSetUsed | newland/arch/x86/src/mem.c:18 | adds exactly the address's frame |
| Memory.KernelMemory.PhysicalSetFree | newland/arch/x86/src/mem.c:19 | removes exactly the address's frame |
| Memory.KernelMemory.PhysIsUsed | newland/arch/x86/src/mem.c:24-29 | true exactly when one of the `count` frames from the address on, wrapping, is used |
| Memory.KernelMemory.PhysSetUsed | newland/arch/x86/src/mem.c:31-38 | the loop marks the whole range and charges each newly marked frame once |
| Memory.KernelMemory.PhysSetFree | newland/arch/x86/src/mem.c:40-47 | the loop clears the whole range and credits each frame that was marked once |
| Memory.KernelMemory.PhysAllocate | newland/arch/x86/src/mem.c:49-58 | the first-fit loop computes `PhysAlloc` |
| FrameLemmas.MarkAllIsSetUsed | newland/arch/x86/src/mem.c:31-38 | frame by frame or all at once: same set, same counter modulo 2^32 |
| FrameLemmas.ClearAllIsSetFree | newland/arch/x86/src/mem.c:40-47 | the same for clearing |
| FrameLemmas.AccountingIsConserved | newland/arch/x86/src/mem.c:31-58 | used_mem - 4096 * (number of used frames), modulo 2^32, is the same before and after every call |
| FrameLemmas.FreeUndoesUse | newland/arch/x86/src/mem.c:31-47 | freeing a run just taken from free frames restores set and counter |
| FrameLemmas.PhysAllocIsFirstFit | newland/arch/x86/src/mem.c:49-58 | the lowest start below total_mem whose run was free, exactly that run marked; the error code and no change when there is none |
| FrameLemmas.FreeRunDoesNotWrap | newland/arch/x86/src/mem.c:49-58 | with frame 0 used, a free run never wraps round the end of memory |
| MemEffects.SetUsedTakes | newland/arch/x86/src/mem.c:31-38 | exactly the frames of the run become used, each new one charged with one page |
| MemEffects.SetFreeGivesBack | newland/arch/x86/src/mem.c:40-47 | exactly the frames of the run become free, each used one credited with one page |
| MemEffects.PhysAllocTakes | newland/arch/x86/src/mem.c:49-58 | first fit said of single frames: every lower start has a used frame in its run |
| MemTranslation.IndexBijection | newland/arch/x86/src/mem.c:62-63 | directory index, table index and offset are a bijection with 32-bit addresses |
| MemTranslation.PageValueIsInjective | newland/arch/x86/include/newland/arch/mem.h:26-40 | the fields of a page entry and its 32-bit value determine each other; value 0 is the zero entry |
| MemTranslation.PageValueLayout | newland/arch/x86/include/newland/arch/mem.h:26-40 | present, write and user are bits 0 to 2, the flags bits 3 to 11, the frame the upper 20 bits |
| MemTranslation.MapThenTranslate | newland/arch/x86/src/mem.c:86-117 | after mapping, every byte of the range translates to the same distance from paddr, and no entry outside changes |
| MemTranslation.UnmapMakesAbsent | newland/arch/x86/src/mem.c:119-130 | unmapping makes exactly the range absent, with zero entries |
| MemTranslation.UnmapUndoesMap | newland/arch/x86/src/mem.c:95-130 | unmapping a mapping made over zero entries restores every entry |
| Memory.KernelMemory.WalkIsShared | newland/arch/x86/src/mem.c:65-76 | every directory, kernel or allocated and whatever its user half holds, walks to the same entry for a kernel address |
| Memory.KernelMemory.DirectoriesAgree | newland/arch/x86/src/mem.c:65-93 | presence and translation of a kernel address agree across all directories |
| Memory.KernelMemory.StoreUserEntry | newland/arch/x86/src/mem.c:104-107 | the entry stored for a user address names its own page, and disturbs no kernel address in any directory |
| Memory.KernelMemory.PageIsPresent | newland/arch/x86/src/mem.c:68-76 | the two-level walk tells whether the page of a kernel address is present |
| Memory.KernelMemory.VirtIsPresent | newland/arch/x86/src/mem.c:78-84 | true exactly when all pages of the kernel range are present |
| Memory.KernelMemory.Virt2Phys | newland/arch/x86/src/mem.c:86-93 | frame and offset of the mapped address |
| Memory.KernelMemory.VirtMap | newland/arch/x86/src/mem.c:95-117 | the loop computes `MapPages`; the branch that allocates a table is dead in the kernel half |
| Memory.KernelMemory.VirtUnmap | newland/arch/x86/src/mem.c:119-130 | the loop computes `UnmapPages` |
| Memory.KernelMemory.VirtAllocate | newland/arch/x86/src/mem.c:132-148 | the single pass with its restarted run computes the lowest-start search |
| Memory.KernelMemory.MemAllocIdent | newland/arch/x86/src/mem.c:183-201 | the same for pages that are absent and whose own frame is free |
| Memory.KernelMemory.MemAllocate | newland/arch/x86/src/mem.c:203-211 | computes `MemAlloc`, failures of both searches included |
| Memory.KernelMemory.MemFreePages | newland/arch/x86/src/mem.c:213-218 | computes `MemFree`; nothing happens unless the whole range is present |
| Memory.KernelMemory.MemIdentMap | newland/arch/x86/src/mem.c:220-224 | marks the frames and maps them onto themselves |
| Memory.KernelMemory.MemInit | newland/arch/x86/src/mem.c:166-181 | the boot identity map up to one page past the aligned used memory |
| Memory.KernelMemory.MemAllocPgdir | newland/arch/x86/src/mem.c:241-253 | a fresh directory at the address of an identity-mapped page, sharing the kernel half, its user half zero; NULL exactly when there is no such page |
| MemSafety.VirtAllocIsFirstFit | newland/arch/x86/src/mem.c:132-148 | lowest start of a run of absent pages; 0 and no change exactly when none exists |
| MemSafety.AllocIdentIsFirstFit | newland/arch/x86/src/mem.c:183-201 | lowest start of a run of absent pages with free frames; 0 and no change exactly when none exists |
| MemEffects.VirtAllocMaps | newland/arch/x86/src/mem.c:132-148 | the lowest room of absent kernel pages maps the frames asked for, supervisor, writable as asked; nothing else changes |
| MemEffects.AllocIdentMaps | newland/arch/x86/src/mem.c:183-201 | the lowest room whose own frames are free is taken and mapped onto them; nothing else changes |
| MemEffects.MemAllocEffect | newland/arch/x86/src/mem.c:203-211 | the lowest room maps whatever phys_alloc answered; without room the answer is 0 and only phys_alloc has acted |
| MemEffects.NothingAskedFor | newland/arch/x86/src/mem.c:133-204 | no pages asked for: answer 0 and no change |
| MemEffects.MemFreeEffect | newland/arch/x86/src/mem.c:213-218 | a wholly present range has its frames given back and its entries zeroed; any other range is left alone |
| MemEffects.IdentMapEffect | newland/arch/x86/src/mem.c:220-224 | every page of the range is present, writable and supervisor, keeps its flags and maps its own frame; every other entry is unchanged; exactly those frames are taken |
| MemSafety.MapIsSafeIff | newland/arch/x86/src/mem.c:95-117 | marking and mapping a range keeps pages apart exactly when no page outside maps one of the frames |
| MemSafety.IdentMapIsSafeIff | newland/arch/x86/src/mem.c:220-224 | identity mapping creates no alias exactly when no page outside the range maps a frame of it |
| MemSafety.AllocIdentIsSafe | newland/arch/x86/src/mem.c:183-201 | mem_allocident never creates an alias |
| MemSafety.MemAllocIsSafeIff | newland/arch/x86/src/mem.c:203-211 | the exact condition under which mem_alloc creates no alias |
| MemSafety.MemFreeIsSafeIff | newland/arch/x86/src/mem.c:213-218 | freeing is safe exactly when no page outside the range maps a frame it releases |
| MemRuns.BootStartsARun | newland/arch/x86/src/mem.c:166-181 | the boot identity map over empty tables gives a state from which runs start |
| MemEffects.BootPagesAre | newland/arch/x86/src/mem.c:22-178 | the boot map reaches two pages past the page of used_mem, so it covers every byte below it, unless the rounding overflows |
| MemEffects.BootEffect | newland/arch/x86/src/mem.c:166-181 | after boot exactly the pages of the boot map are present, each writable, supervisor and on its own frame |
| MemRuns.StepKeepsInv | newland/arch/x86/src/mem.c:183-224 | every call keeps: used frames for present pages, no shared frame, zero absent entries, contiguous separate live blocks |
| MemRuns.RunNeverAliases | newland/arch/x86/src/mem.c:95-224 | the same over every run of identity maps, allocations and frees |
| MemRuns.MemAllocCanAlias | newland/arch/x86/src/mem.c:203-211 | booted with three frames of memory, mem_alloc of two pages maps frame 0 twice |
| MemRuns.IdentMapCanAlias | newland/arch/x86/src/mem.c:220-224 | booted, then one block allocated: an identity map of the block's frame shares it |
| MemConservation.FreeAccounts | newland/arch/x86/src/mem.c:213-218 | freeing any live block takes exactly that block out of bitmap, counter and tables |
| MemConservation.AllocAccountsIff | newland/arch/x86/src/mem.c:203-211 | mem_alloc enters exactly its block in the account, or nothing, exactly when it finds both frames and pages or neither |
| MemConservation.AllocCanLeak | newland/arch/x86/src/mem.c:203-211 | booted with enough frames, a block as large as the kernel half is refused and its frames are lost |
| MemConservation.IdentMapAccounts | newland/arch/x86/src/mem.c:220-224 | identity maps clear of live blocks commute with them |
| MemConservation.RunAccounts | newland/arch/x86/src/mem.c:31-58 | after any run the state is the initial one plus exactly the live blocks |
| MemConservation.EverythingFreedRestores | newland/arch/x86/src/mem.c:183-218 | once every block is freed, in any order, bitmap, counter and page tables are those of the start |
| MemRestored.FreedBitForBit | newland/arch/x86/src/mem.c:15-58 | the same of the bytes of `mem`, of used_mem and of every entry of krnl_pgtbl |
| ProcTable.Proc.FindSlot | newland/arch/x86/src/proc.c:66-83 | the first zero slot below the count, else one more, else -1 with nothing changed |
| ProcTable.Proc.DropChild | newland/arch/x86/src/proc.c:131-137 | zeroes the child's slot and shrinks the count, or changes nothing |
| ProcTable.ProcessTable.ProcessGet | newland/arch/x86/src/proc.c:27-35 | the record at a list position, NULL past the end |
| ProcTable.ProcessTable.ProcessFromPid | newland/arch/x86/src/proc.c:37-43 | the first record with the pid, NULL if there is none |
| ProcTable.ProcessTable.ProcessCurr | newland/arch/x86/src/proc.c:45-49 | the record of the current pid, NULL without one |
| ProcTable.ProcessTable.ProcessNext | newland/arch/x86/src/proc.c:51-58 | the successor of the current process in the ring, the head if the current one is gone |
| ProcTable.ProcessTable.ProcCreate | newland/arch/x86/src/proc.c:60-119 | computes `Create`; a rejected creation leaves list, count, next pid and parent unchanged |
| ProcTable.ProcessTable.ProcDestroy | newland/arch/x86/src/proc.c:121-144 | computes `Destroy` and leaves the freed record's link in place |
| ProcTable.ProcessTable.Unlink | libraries/liblist/include/liblist.h:28-34 | SLIST_REMOVE: the search ends at the predecessor and exactly one record leaves the list |
| ProcTable.ProcessTable.SigEnter | newland/arch/x86/src/proc.c:161-176 | a fatal signal makes a zombie of exactly that process when it has no handler and is not signaling; every other case leaves the table alone |
| ProcTable.ProcessTable.ProcessesCleanup | newland/arch/x86/src/proc.c:186-191 | the traversal over freed records computes `CleanupFrom` |
| ProcTable.ProcessTable.ScheduleTick | newland/arch/x86/src/proc.c:193-207 | computes `Schedule`: ring entry, tick, statuses and the next pid |
| ProcTable.ProcessTable.SchedGetUsage | newland/arch/x86/src/proc.c:276-282 | how often the pid stands in the ring |
| ProcInv.FindIsUnique | newland/arch/x86/src/proc.c:37-43 | a pid lookup finds its one holder |
| ProcInv.CreateKeepsInv | newland/arch/x86/src/proc.c:60-119 | creation keeps descending ids, the count, issued pids, sound child slots and at most one running process |
| ProcEffects.CreateEffect | newland/arch/x86/src/proc.c:60-119 | the new process stands first, ready, with the next pid, its parent and empty slots; it is current if no process was |
| ProcEffects.CreateKeepsRecords | newland/arch/x86/src/proc.c:60-119 | every other record stays as it was, but for the slot that the parent gives |
| ProcEffects.ParentListsChild | newland/arch/x86/src/proc.c:99 | after an accepted creation the parent lists the new process and its other children as before |
| ProcEffects.RejectedChangesNothing | newland/arch/x86/src/proc.c:74-80 | a creation that is turned down changes nothing |
| ProcInv.DestroyKeepsInv | newland/arch/x86/src/proc.c:121-144 | so does destruction |
| ProcEffects.DestroyEffect | newland/arch/x86/src/proc.c:121-144 | the record goes, its parent loses it, and every other record stays as it was, in order |
| ProcEffects.KillEffect | newland/arch/x86/src/proc.c:165-167 | that process is a zombie, and no other field of any record changes |
| ProcInv.ScheduleKeepsInv | newland/arch/x86/src/proc.c:193-207 | so does a tick |
| ProcEffects.ScheduleEffect | newland/arch/x86/src/proc.c:193-203 | the new current process is running, the old one ready if it is another, every other status and every other field as it was |
| ProcEffects.ScheduleCharges | newland/arch/x86/src/proc.c:199-200 | the old current process is charged in its place of the ring and the tick counted; count and next pid stay |
| ProcEffects.ScheduleIdle | newland/arch/x86/src/proc.c:194-197 | without a current process in the list a tick does nothing |
| ProcInv.TakeSlotSound | newland/arch/x86/src/proc.c:66-83 | taking a slot keeps every nonzero slot a live child, each once |
| ProcEffects.TakeSlotEffect | newland/arch/x86/src/proc.c:66-83 | the child goes into the lowest zero slot below the count, the count kept, or into the slot at the count, the count one more |
| ProcEffects.TakeSlotLists | newland/arch/x86/src/proc.c:66-99 | the parent then lists the new child, and any other as before |
| ProcInv.AfterLossSound | newland/arch/x86/src/proc.c:129-138 | so does losing a child, holes included |
| ProcEffects.DropSlotEffect | newland/arch/x86/src/proc.c:131-137 | exactly the lowest slot of the child becomes zero and the count one less; a child not listed changes nothing |
| ProcInv.HoleHidesIff | newland/arch/x86/src/proc.c:129-138 | another child stays listed exactly when it did not stand in the last counted slot |
| ProcExamples.YoungerChildIsHidden | newland/arch/x86/src/proc.c:129-138 | a root with two children, the older destroyed: the root no longer lists the younger |
| ProcCleanup.CleanupFromIs | newland/arch/x86/src/proc.c:186-191 | the traversal ends exactly when every zombie ahead has its parent in the list |
| ProcCleanup.CleanupRemovesTheZombies | newland/arch/x86/src/proc.c:186-191 | it removes exactly the zombies and keeps the survivors' order |
| ProcEffects.CleanupKeepsRecords | newland/arch/x86/src/proc.c:186-191 | every survivor is left with its record less its zombie children, removed one by one in list order |
| ProcEffects.LosesNothing | newland/arch/x86/src/proc.c:186-191 | a survivor without a zombie child keeps its record |
| ProcCleanup.RemovalKeepsParents | newland/arch/x86/src/proc.c:129-140 | removing a process takes no parent from the zombies behind it, since parents are older |
| ProcCleanup.CleanupOrphansIff | newland/arch/x86/src/proc.c:121-191 | with all parents live it never misses one, and leaves no orphan exactly when no survivor has a zombie parent |
| ProcRuns.RunKeepsInv | newland/arch/x86/src/proc.c:60-207 | the invariant holds after every run of creations, destructions, kills, ticks and cleanups |
| ProcRuns.StepIssuesPids | newland/arch/x86/src/proc.c:85 | a pid once issued is never issued again |
| ProcRuns.TidyStepIff | newland/arch/x86/src/proc.c:121-191 | with all parents live, a call looks up no missing parent and leaves none missing exactly when it destroys no parent and cleans up no zombie parent of a survivor |
| ProcRuns.TidyRunIff | newland/arch/x86/src/proc.c:121-191 | the same over whole runs |
| ProcExamples.OrphanCannotBeDestroyed | newland/arch/x86/src/proc.c:129-131 | a root destroyed before its child: destroying the child then reads a parent that is not there |
| ProcRuns.LiveAfterIff | newland/arch/x86/src/proc.c:60-207 | a call takes a live process out of the list exactly when it destroys it, or is a cleanup and finds it a zombie |
| ProcRuns.CurrentAfterIff | newland/arch/x86/src/proc.c:51-207 | a call leaves a current process in the list exactly when it does not take out the one it had |
| ProcRuns.LosingCurrentStalls | newland/arch/x86/src/proc.c:193-203 | once the current process is gone no run ever schedules again |
| ProcRuns.SchedulingSurvivesIff | newland/arch/x86/src/proc.c:51-207 | a run ends with a current process in the list exactly when none of its calls took the then current one out |
| ProcExamples.ReadyButNeverRun | newland/arch/x86/src/proc.c:121-203 | two creations and the destruction of the first leave a ready process that no run ever schedules |
| ProcRuns.ZombieSurvivesScheduleIff | newland/arch/x86/src/proc.c:201-203 | exactly when a tick brings a zombie back |
| ProcExamples.ZombieRunsAgain | newland/arch/x86/src/proc.c:201-203 | a process created, killed and then ticked is running |
| ProcRuns.RejectedIff | newland/arch/x86/src/proc.c:74-80 | a child is turned down exactly when 25 slots hold 25 different live children |
| ProcFairness.RoundRobin | newland/arch/x86/src/proc.c:51-58 | n ticks make each of n processes current exactly once and return to the first |
| ProcFairness.ScheduleWait | newland/arch/x86/src/proc.c:193-203 | a tick makes a process current exactly when its wait was 1, and shortens it by one otherwise |
| ProcFairness.OtherWait | newland/arch/x86/src/proc.c:60-144 | no other call lengthens a wait, except a creation by at most one |
| ProcFairness.NoStarvation | newland/arch/x86/src/proc.c:114-118 | as long as neither it nor a process current at the time is taken out, a process waits at most n turns plus the creations |
| ProcShares.TickWrapIsHarmless | newland/arch/x86/src/proc.c:199-200 | the wrap of the tick counter does not disturb the ring position |
| ProcShares.RunRecords | newland/arch/x86/src/proc.c:193-207 | after any run the ring holds the last 128 charged ticks, each in its place |
| ProcShares.UsageIsShareOfWindow | newland/arch/x86/src/proc.c:276-282 | the usage of a nonzero pid is its number of the last min(ticks, 128) ticks |
| ProcShares.UsageOverRuns | newland/arch/x86/include/newland/arch/proc.h:168 | the same over any run from the empty table, and the percentage is at most 100 |
| ProcShares.FairCycle | newland/arch/x86/src/proc.c:51-58 | in m consecutive turns of n processes each has floor(m/n) or ceil(m/n) |
| ProcShares.EqualShares | newland/arch/x86/src/proc.c:193-207 | if the same n processes were live at each of 128 ticks, whatever happened in between, each has between floor(128/n) and ceil(128/n) entries of the ring, together 128 |
| Modules.ModuleTable.ModuleFromId | newland/src/module.c:17-23 | the installed module with the id, NULL if there is none |
| Modules.ModuleTable.ModuleInstall | newland/src/module.c:44-52 | prepends a new id with NULL links, turns down a known one |
| Modules.ModuleTable.InsertLoaded | newland/src/module.c:68 | the first module ever loaded gets a NULL link, every later insertion a link |
| Modules.ModuleTable.ModuleInit | newland/src/module.c:54-70 | the recursion with its loop computes `Init` and ends on every acyclic table |
| Modules.ModuleTable.ModulesInit | newland/src/module.c:25-42 | computes `InitEverything`: install all, then initialise all in list order |
| ModSpec.NotOnStack | newland/src/module.c:54-65 | in an acyclic table a module is never asked for while it is being initialised |
| ModSpec.Descend | newland/src/module.c:59-65 | the installed modules not on the stack decrease at every level |
| ModOrder.DepthIsBounded | newland/src/module.c:54-65 | the recursion is never deeper than the number of installed modules |
| ModOrder.InitKeepsPromise | newland/src/module.c:54-70 | a call keeps order and repeat bound, only adds to the trace, and success means the module has succeeded |
| ModOrder.TransitiveDependenciesFirst | newland/src/module.c:59-66 | every transitive dependency succeeded before a module's init was called |
| ModOrder.OwnInitComesLast | newland/src/module.c:55-67 | a module's own init is the last call made; a missing module or dependency is an error and it is not made |
| ModOrder.InitStopsAtFailure | newland/src/module.c:59-67 | the first init that fails is the last one called, and its result is returned |
| ModOrder.FailureElsewhereStops | newland/src/module.c:59-67 | when another module's init fails, its error is returned and the dependent's init is not called |
| ModSuccess.InitSucceedsIff | newland/src/module.c:54-70 | module_init succeeds exactly when the module and all that it needs are installed and no init called fails; the other errors are -ENOENT |
| ModSuccess.LoadedIsDone | newland/src/module.c:57 | a module with a link gives 0 and nothing happens |
| ModSuccess.UnloadedIsRun | newland/src/module.c:67-69 | success for a module without a link is the result of its own init, the last call made |
| ModSuccess.InitCallsOnlyNeeded | newland/src/module.c:59-67 | only inits of modules that it needs are called, and each result is what the init function returned |
| ModSuccess.LeavesInOrder | newland/src/module.c:59-65 | modules without dependencies are initialised in the order of the list |
| ModSuccess.LoadEffect | newland/src/module.c:68 | the module comes first on the loaded list and its link leads to the one before |
| ModOrder.RepeatBound | newland/src/module.c:57-68 | no module succeeds twice over any run, except the first one ever, which may succeed twice |
| ModOrder.FlagOverlooksIff | newland/src/module.c:57 | exactly when the loaded test overlooks a loaded module |
| ModOrder.OnlyModuleRunsTwice | newland/src/module.c:57-68 | a table in which the bound of two is met |
| ModOrder.InitialInv | newland/src/module.c:13-15 | empty lists meet the order and repeat bound, so runs start there |
| ModOrder.ExecKeepsInv | newland/src/module.c:44-70 | order and repeat bound after any run of installs and inits, whatever init functions return |
| ModOrder.EverythingIsInitialised | newland/src/module.c:25-42 | when modules_init succeeds every installed module has been initialised |
| ModSuccess.InstallEffect | newland/src/module.c:44-52 | a new module comes first and has no link; one whose id is taken is turned down with -EEXIST and nothing changes |
| ModSuccess.InstallAllEffect | newland/src/module.c:29-33 | the built-in modules are installed in reverse order before the others, up to the first whose id is taken, which gives -EEXIST |
| ModSuccess.ModulesInitSucceedsIff | newland/src/module.c:25-42 | modules_init succeeds, with 0, exactly when no id clashes, all that is needed is installed and no init fails |
| ModSuccess.BuiltinSucceeded | newland/src/module.c:25-42 | it then has installed and initialised every built-in module |
| ModSuccess.DependenciesSuffice | newland/src/module.c:59-65 | when each dependency of an installed module is installed, so is all that it needs |
| ModSuccess.BootCallsInOrder | newland/src/module.c:29-40 | at boot, modules without dependencies are initialised in installed order, the last built-in one first |
| ModRepeat.NeederAsksAgain | newland/src/module.c:57-66 | once a module has succeeded, the success of a module that needs it asks for it again and leaves it a link |
| ModRepeat.FirstIsAlone | newland/src/module.c:54-70 | the first module to succeed has no dependencies |
| ModRepeat.ModulesInitRepeatsIff | newland/src/module.c:25-42 | at boot, a successful modules_init initialises the first module to succeed twice exactly when some installed module needs it |
| LinkedList.List.IndexOfValue | libraries/liblist/src/list.c:8-16 | the first position of the value, (size_t)-1 if absent |
| LinkedList.List.Length | libraries/liblist/src/list.c:18-25 | the number of values |
| LinkedList.List.Get | libraries/liblist/src/list.c:27-35 | the value at a position, NULL past the end |
| LinkedList.List.AddValue | libraries/liblist/src/list.c:37-44 | prepends, or turns down a duplicate or a failed allocation without a change |
| LinkedList.List.Unlink | libraries/liblist/include/liblist.h:28-34 | SLIST_REMOVE takes exactly one node out of the chain |
| LinkedList.List.RemoveValue | libraries/liblist/src/list.c:46-54 | deletes the value's one node, or nothing |
| ListSpec.RemoveTakesOne | libraries/liblist/src/list.c:46-54 | exactly one occurrence goes and the others keep their order |
| ListSpec.AddEffect | libraries/liblist/src/list.c:37-44 | the value comes first, or is turned down with -EEXIST when there, else with -ENOMEM without memory, and nothing changes |
| ListSpec.RemoveEffect | libraries/liblist/src/list.c:46-54 | what stood before and after the first occurrence is joined; without one nothing happens |
| ListSpec.RemoveUndoesAdd | libraries/liblist/src/list.c:37-54 | removing what was just added restores the list; adding twice is turned down |
| ListSpec.IndexAndGetAreInverse | libraries/liblist/src/list.c:8-54 | over every run the list is duplicate-free and indexof and get are mutual inverses |
| Clock.Dt2T | newland/src/time.c:16-25 | the loops, on 32 bits, compute `Seconds` modulo 2^32 |
| Clock.SecondsIsPosix | newland/src/time.c:16-25 | for every valid date from 1970 this is the formula of section 4.16 of POSIX.1-2017 XBD |
| Clock.YearsClosedForm | newland/src/time.c:18 | days in the years before, with the leap rule, in closed form |
| Clock.StrictlyIncreasing | newland/src/time.c:16-25 | strictly increasing in lexicographic order, in both directions, hence injective |
| Clock.FitsIff | newland/src/time.c:17 | the 32-bit result is the number of seconds exactly up to 2038-01-19 03:14:07 |
| Numerals.DigitsAreCanonical | libraries/libc/src/stdio/vsnprintf.c:14-17 | the digits have no leading zero and evaluate to the number |
| Numerals.CanonicalIsUnique | libraries/libc/src/stdio/vsnprintf.c:14-17 | no other digit string does |
| Numerals.NumeralReadsBack | libraries/libc/src/stdlib/ultoa.c:18-22 | the text in either case reads back as the number |
| Numerals.WordDigits | libraries/libc/src/stdio/vsnprintf.c:11-12 | a 32-bit number has at most 32 digits in any base |
| Printers.Convert | libraries/libc/src/stdio/vsnprintf.c:9-19 | writes the numeral, ends it, and never underruns its 50 bytes |
| Printers.CountDigits | libraries/libc/src/stdlib/ultoa.c:11-15 | the counting pass gives the number of digits |
| Printers.Ultoa | libraries/libc/src/stdlib/ultoa.c:6-24 | in any base writes the digits below 16 of the numeral, ending at the terminator; up to base 16 it writes the numeral and ends exactly at the original pointer; NULL stays NULL |
| Printers.ShownIsTextIff | libraries/libc/src/stdlib/ultoa.c:18-22 | the backward pass reaches the original pointer exactly when every digit is below 16, and then the text is the numeral |
| Printers.ShownReads | libraries/libc/src/stdlib/ultoa.c:18-22 | in any base the text reads as the digits below 16, in order |
| Printers.SixteenVanishes | libraries/libc/src/stdlib/ultoa.c:18-22 | in base 17 the number 16 is written as no character at all |
| Printers.WriteDigits | libraries/libc/src/string/itoa.c:22-25 | writes the digits in reverse |
| Printers.ReverseInPlace | libraries/libc/src/string/itoa.c:31-40 | reverses the text in place and counts its swaps |
| Printers.Itoa | libraries/libc/src/string/itoa.c:6-42 | writes sign and numeral, ends the text, and returns sign plus swaps |
| Printers.ItoaRoundTrip | libraries/libc/src/string/itoa.c:13-40 | with 'd' every int reads back as itself |
| Printers.ItoaUnsigned | libraries/libc/src/string/itoa.c:13-25 | with any other letter there is no sign, and the text evaluates to the two's complement, in base 16 only for 'x' |
| Printers.PrintersAgree | libraries/libc/src/string/itoa.c:19-25 | the same decimal text for every nonnegative int, and hexadecimal texts that read alike for every int |
| Memmove.Move | libraries/libc/src/string/memmove.c:6-15 | the destination is the old source for every overlap and nothing else changes |

## Left out

- Memory.KernelMemory.PageIsPresent: kernel addresses only; what a user entry leads to is not part of this model.
- Memory.KernelMemory.VirtIsPresent: ranges inside the kernel half only.
- Memory.KernelMemory.Virt2Phys: kernel addresses only.
- Memory.KernelMemory.VirtUnmap: ranges inside the kernel half only.
- Memory.KernelMemory.MemAllocate: the kernel allocation only.
- Memory.KernelMemory.MemFreePages: ranges inside the kernel half only, in a directory with any user half.
- Memory.KernelMemory.MemIdentMap: ranges inside the kernel half only.
- Memory.KernelMemory.VirtMap: kernel half only. In the user half the code stores the directory entry's own address as the new table, so mapping and translation do not round-trip there.
- Memory.KernelMemory.VirtAllocate: the kernel search only; the user range is not part of this model.
- Memory.KernelMemory.MemAllocIdent: the kernel search only; the user search starts at page 256 instead of at the user half.
- Memory.KernelMemory.MemInit: `mem_loadmmap` is not part of this model; the bitmap, total_mem and used_mem it leaves are arbitrary.
- Memory.KernelMemory.MemAllocPgdir: the new page's contents are a directory object, not bytes at the address.
- FrameLemmas.PhysAllocIsFirstFit: only the start of a block is below total_mem, because the code tests no more.
- `mem_map` and `mem_free_pgdir`: the first repeats `phys_alloc` and `virt_map` page by page; the second advances the wrong loop variable.
- ProcTable.ProcessTable.ProcCreate: names, ids of users, file descriptors, registers and the page directory of a process are not modelled.
- ProcTable.ProcessTable.ScheduleTick: a current process with pid 0, for which the code reads a NULL next process, is excluded; register, FPU and interrupt effects are not modelled.
- ProcRuns.RunKeepsInv: runs stop before pids wrap round.
- ProcTable.ProcessTable.SigEnter: data for the handler, which goes to the process's stack, is not modelled.
- `proc_exec` and ELF loading are not modelled.
- Modules.ModuleTable.ModuleInit: acyclic tables only, since on a cycle the code recurses without end; init functions do not themselves call module_init.
- Clock.Dt2T: month numbers above 13 would read past the month table and are excluded.
- Printers.Convert: bases 2 to 16, the digits its table has.
- The rest of vsnprintf and ftoa, liblist_destroy, the file systems, devices, buses and all assembly.
