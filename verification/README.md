# Monza in Dafny

Monza is a unikernel: one image with its own page tables, allocator backend, multi-core
runtime, compartments and confidential-computing support. This project models the parts of it
that carry real invariants and proves those invariants over whole runs. `dafny verify
dfyconfig.toml` checks everything.

| files | what they model |
|---|---|
| `Paging`, `PageTable`, `PageTableLaws`, `PageTableRuns`, `PteBits` | the 4-level page tables: recursive add, remove, lookup and deallocation on nodes that are overwritten in place, the flat map they amount to, the access rights the processor derives, the 64-bit entry encoding |
| `OwnerRing`, `OwnershipViews`, `OwnershipSteps`, `Ownership` | memory ownership of compartments: an owner per memory unit, an intrusive ring of units per compartment and the compartment's page table, kept in step, and what each compartment can read |
| `Semaphore` | the single-waiter semaphore whose check-and-halt is made atomic by interrupt handlers that rewind the instruction pointer |
| `Blocking`, `BlockingRuns`, `BlockingCalls`, `RunOnce` | mutexes, condition variables and run-once on top of it: invariants, histories, and what each call has done when it returns |
| `Dispatch`, `DispatchRuns`, `DispatchCalls` | handing tasks to cores, and the shutdown wait |
| `AddressRanges`, `SevHeap`, `SevBoot`, `VisibleMemory` | memory of an SEV-SNP guest: checking and carving the loader's memory map, accepting pages, memory shared with the host |
| `Transitions`, `TransitionRuns`, `InvocationStacks`, `StackProtection` | entering and leaving compartments through arbitrarily nested callbacks, their stacks, and what keeps them off the kernel stack |
| `GuestRequest`, `GuestRequestRuns` | requests to the SEV-SNP firmware: sequence numbers, the shared cipher, and replies |
| `Timing`, `Logging`, `SharedMemory` | the clock, the log stream, the host's shared-memory allocator against the guest's checks |
| `Common`, `Arith`, `Words`, `Sequences` | shared types, division, 64-bit wrap-around, sequences without duplicates |

Where the code updates objects in place the model is a class with the same fields, and each
method is proved against a function or predicate of the old and new state. Protocols between
cores are step relations with one memory access to a step; their theorems speak of every state
of every run. `kabort`, `exit` and fatal errors are outcomes, and the contracts say exactly when
they occur.

Some results say exactly when the code does what its comments promise:

- `Timing.TickToNsExact`: the comment in `crt/time.cc` that the product cannot overflow holds iff
  the frequency is at most 18446744074 Hz. `Timing.SecondsFit` and `ElapsedFits` do the same for the
  conversion of seconds to `time_t`.
- `GuestRequestRuns.SoundIffOneThread`: decryption runs outside the lock on the initialisation vector and cipher
  context that encryption uses, so within 2^63 requests vectors are fresh, and accepted replies the right ones, iff
  no more than one thread makes guest requests. `ReusedVector` and `WrongReply` are runs of two threads at which
  this fails; `SerialCallsAreSound` and `GuestRequest.VectorsFreshIff` say which runs of several threads are sound.
- `VisibleMemory.RoundingHoldsRequest`: a host-visible allocation holds its request iff it is at most
  2^64 - 4096 bytes.
- `SharedMemory.AcceptedArrayIsInBounds`: an array accepted by the guest is inside the shared range iff
  its size in bytes does not wrap; the code only takes over arrays of bytes.
- `PageTableRuns.DestroyAfter`: the recursion of `add_to_pagetable` drops the entry type, so only top-level
  entries are persistent; deallocation keeps exactly the nodes below those first linked for a predefined range.
- `OwnershipSteps.RunIsolatedIff`: a page that a compartment reads while nobody owns it stays mapped for it, so
  compartments cannot read each other's memory iff no memory is given away that another compartment has read
  before (or has predefined). `Ownership.LentPageStaysReadable` is a run at which it fails.
- `Ownership.CheckCoversRangeIff`: the owner check looks at every unit a range touches iff the range does not
  carry into one more unit; for whole units, which is all that is freed through it, it always does. When the end
  of the range wraps the check is empty (`Ownership.Backend.ForwardDeallocChunk`).
- `TransitionRuns.LeavingRestores`: a return from a compartment brings back the control flags, not the status
  flags, which the code neither saves nor restores.
- `Timing.TwoReadings`: with fewer than 2^64 ticks since boot, the reported time never goes back iff the seconds do
  not pass the end of `time_t`.
- `SharedMemory.StartIsAlignedIff`: the host's allocator meets alignments up to 2^26, the size of the range.
- `SevBoot.AcceptedOutsideMapIff`: the acceptance of the heap covers the gaps between memory map entries.

## Model

| member | source | states |
|---|---|---|
| `PageTable.TableMemory.AddRange` | guest-verona-rt/arch/x86_64/pagetable.cc:100-131 | add_to_pagetable: in the range of its node every lookup inside the range becomes the new leaf and every other lookup is unchanged; only nodes below this one change; the tables stay trees |
| `PageTable.TableMemory.LinkChild` | guest-verona-rt/arch/x86_64/pagetable.cc:112-120 | linking a missing node changes no lookup, and the node handed back is the one and only child at that index |
| `PageTable.TableMemory.SetLeaf` | guest-verona-rt/arch/x86_64/pagetable.cc:126-129 | overwriting a lowest-level entry in place changes exactly the lookups of that entry's page |
| `PageTable.TableMemory.RemoveRange` | guest-verona-rt/arch/x86_64/pagetable.cc:165-190 | remove_from_pagetable: exactly the lookups of the range become empty, also where nodes were missing |
| `PageTable.TableMemory.MapPages` | guest-verona-rt/arch/x86_64/pagetable.cc:292-335 | aborts iff base or size is not page aligned; otherwise sets exactly the pages of the range in this table and changes no lookup of any other table |
| `PageTable.TableMemory.MapPredefined` | guest-verona-rt/arch/x86_64/pagetable.cc:272-284 | the persistent variant has the same effect on lookups, and the root entries it links are persistent; below the top level the type is dropped |
| `PageTable.TableMemory.UnmapPages` | guest-verona-rt/arch/x86_64/pagetable.cc:337-356 | aborts iff unaligned or applied to the kernel table; otherwise empties exactly the range |
| `PageTable.TableMemory.CreateTable` | guest-verona-rt/arch/x86_64/pagetable.cc:306-316 | a new root in which every page reads as empty; other tables keep every lookup |
| `PageTable.TableMemory.Deallocate` | guest-verona-rt/arch/x86_64/pagetable.cc:73-98 | frees, in order, exactly the nodes of FreeList, although nodes are freed while the loop still walks the table |
| `PageTable.TableMemory.DeallocateEntry` | guest-verona-rt/arch/x86_64/pagetable.cc:82-94 | below one entry: nothing if it is persistent or null, otherwise exactly the nodes of that child |
| `PageTable.TableMemory.Destroy` | guest-verona-rt/arch/x86_64/pagetable.cc:318-321 | after deallocating a table all other tables are still trees with unchanged lookups |
| `PageTableLaws.RunIsFlat` | guest-verona-rt/arch/x86_64/pagetable.cc:100-210 | along any sequence of states linked by adds and removes over any number of tables, every lookup below 2^48 is that of a flat page map where the last operation covering the page wins |
| `PageTableRuns.Perform` | guest-verona-rt/arch/x86_64/pagetable.cc:100-356 | executing any sequence of adds, predefined adds and removes on any tables stops exactly at the first one that is refused, and then every lookup of every table is the flat map's answer |
| `PageTableRuns.Execute` | guest-verona-rt/arch/x86_64/pagetable.cc:292-356 | the same from freshly created, empty tables, with the same stop; in addition the access that the processor derives is to the address itself, with the rights of the last operation covering it, and an entry of a root is persistent iff it was first linked for a predefined range |
| `PageTableRuns.AccessIsFlat` | guest-verona-rt/arch/x86_64/pagetable.cc:100-210 | along any run from an empty table, kernel or compartment, the hardware walk of an address gives the address itself and the rights of the last operation covering it, or a fault if there is none or it was a remove |
| `PageTableRuns.MapAndUnmap` | guest-verona-rt/arch/x86_64/pagetable.cc:323-356 | executing an add and then a remove of a range that read as empty restores every lookup of every table |
| `PageTableRuns.DestroyAfter` | guest-verona-rt/arch/x86_64/pagetable.cc:73-98 | after any run, deallocating a table leaves allocated exactly its nodes below the root entries first linked for a predefined range |
| `PageTableLaws.RunLinks` | guest-verona-rt/arch/x86_64/pagetable.cc:100-131 | over any run an entry of a root is null, or has the persistence of the operation that first linked it |
| `PageTableLaws.KeptBelowPersistent` | guest-verona-rt/arch/x86_64/pagetable.cc:73-98 | deallocation frees a node of the table iff it is the root or lies below a top-level entry that is not persistent |
| `PageTableLaws.MapThenUnmap` | guest-verona-rt/arch/x86_64/pagetable.cc:100-190 | the two steps of map and unmap undo each other on every lookup, given that the range read as empty |
| `PageTableLaws.NoLargeMappingAbove` | guest-verona-rt/arch/x86_64/inc/pagetable_arch.h:109-148 | no entry above the lowest level is ever a large mapping |
| `PageTableLaws.LookupIsPlainWalk` | guest-verona-rt/arch/x86_64/pagetable.cc:192-210 | testing entry 0 of a node for a large mapping never cuts a lookup short: it equals the walk without that test |
| `PageTableLaws.OneParent` | guest-verona-rt/arch/x86_64/pagetable.cc:100-131 | tables are trees: at most one entry of all tables points to a node |
| `PageTableLaws.FreesExactlyOwned` | guest-verona-rt/arch/x86_64/pagetable.cc:73-98 | a node is freed iff it is reachable from the root through entries that are not persistent |
| `PageTableLaws.FreesOnce` | guest-verona-rt/arch/x86_64/pagetable.cc:73-98 | no node is freed twice |
| `PageTableLaws.EffectiveIsLeaf` | guest-verona-rt/arch/x86_64/inc/pagetable_arch.h:50-78 | the walk down to the lowest level or a large page, with the conjunction of the rights on the way, gives the leaf's own address and rights, less user access in a kernel table |
| `PageTableLaws.IndicesAreDigits` | guest-verona-rt/arch/x86_64/pagetable.cc:53-58 | the four indices of a walk and the page offset are the digits of the address, from bit 39, 30, 21, 12 and 0 |
| `PageTableLaws.FlatGrants` | guest-verona-rt/arch/x86_64/inc/pagetable_arch.h:57-78 | over any sequence of operations on a table of one kind, the entry of the flat map grants exactly what the last covering operation asked for |
| `PageTableLaws.MappingGrants` | guest-verona-rt/arch/x86_64/pagetable.cc:128-129 | each page mapped into a kernel or compartment table leads to itself through the hardware walk and has exactly the access its permission names there |
| `PageTableLaws.KernelTableHasNoUserPage` | guest-verona-rt/arch/x86_64/inc/pagetable_arch.h:50-55 | no page of a kernel table is user-accessible, whatever its leaf says |
| `PteBits.NextLevelRoundTrip` | guest-verona-rt/arch/x86_64/inc/pagetable_arch.h:108-115 | a page-aligned node pointer below 2^52 reads back from the 64-bit entry, with the flags and the pointer of the abstract entry |
| `PteBits.LeafRoundTrip` | guest-verona-rt/arch/x86_64/inc/pagetable_arch.h:117-148 | for every page-aligned address, permission, type and level the 64-bit leaf decodes to the address and flags of the abstract leaf entry |
| `PteBits.ProcessorReads` | guest-verona-rt/arch/x86_64/inc/pagetable_arch.h:12-25 | of such an entry the processor reads present, writable, user, page size and global at bits 0, 1, 2, 7 and 8 and the address in bits 12 to 51 |
| `PteBits.LeafFlagsView` | guest-verona-rt/arch/x86_64/inc/pagetable_arch.h:57-98 | for every permission, type and level the leaf flags avoid the address bits and read as the abstract entry |
| `PteBits.AddressLeavesFlags` | guest-verona-rt/arch/x86_64/inc/pagetable_arch.h:117-127 | combining an address with flags disturbs neither |
| `OwnerRing.AddFirst` | guest-verona-rt/include/public/snmalloc/snmalloc.h:292-301 | add turns the ring of s into the ring of the entry followed by s, in both link directions |
| `OwnerRing.RemoveAt` | guest-verona-rt/include/public/snmalloc/snmalloc.h:258-271 | remove takes exactly that entry out of the ring, whatever stale links it keeps |
| `OwnerRing.AddKeepsRings` | guest-verona-rt/include/public/snmalloc/snmalloc.h:283-301 | add keeps every list a well-formed ring and no unit on two lists |
| `OwnerRing.RemoveKeepsRings` | guest-verona-rt/include/public/snmalloc/snmalloc.h:258-271 | so does remove |
| `OwnerRing.Lists.LazyInit` | guest-verona-rt/include/public/snmalloc/snmalloc.h:283-290 | initialising a head changes no list |
| `OwnerRing.Lists.Add` | guest-verona-rt/include/public/snmalloc/snmalloc.h:292-301 | the entry becomes the first of that compartment's list |
| `OwnerRing.Lists.Remove` | guest-verona-rt/include/public/snmalloc/snmalloc.h:258-271 | the entry leaves its list, the others are untouched |
| `Ownership.Backend.AddOwner` | guest-verona-rt/include/public/snmalloc/snmalloc.h:350-372 | fatal iff some unit of the range is already owned; otherwise owner fields and ring gain exactly the range |
| `Ownership.Backend.RemoveOwner` | guest-verona-rt/include/public/snmalloc/snmalloc.h:379-399 | fatal iff some unit of the range has another owner; otherwise owner fields and rings lose exactly the range |
| `Ownership.Backend.AllocRange` | guest-verona-rt/include/public/snmalloc/snmalloc.h:454-468 | never fatal; owner, ring and page table of the compartment gain exactly the range, the free set loses it, and no lookup elsewhere in any table changes |
| `Ownership.Backend.DeallocRange` | guest-verona-rt/include/public/snmalloc/snmalloc.h:470-480 | fatal iff the end does not wrap and the range is not wholly the compartment's; otherwise owner, ring and page table lose exactly the range, the free set gains it, and no other lookup changes; with a wrapped end only the free set changes |
| `Ownership.Backend.DeallocAll` | guest-verona-rt/include/public/snmalloc/snmalloc.h:303-317 | the walk visits every entry of the ring exactly once, in order, while its body unlinks them, terminates, and leaves only the head, no unit of that owner, its pages unmapped and every other lookup as before |
| `Ownership.Backend.DeallocUnit` | guest-verona-rt/include/public/snmalloc/snmalloc.h:484-502 | the body of the walk moves one unit from the ring to the free set |
| `Ownership.Backend.PageFault` | guest-verona-rt/arch/x86_64/trap.cc:16-83 | aborts iff the fault is the kernel's own, off the heap, a write of what the compartment does not own or a read of what another one owns; otherwise the access is possible afterwards, exactly that page was mapped, writable for the owner and read-only otherwise; an abort changes nothing |
| `Ownership.Backend.CreateTable` | guest-verona-rt/arch/x86_64/pagetable.cc:306-316 | every page of the new table reads as the last predefined range covering it says, or as empty; the other tables are unchanged |
| `Ownership.Backend.CreateCompartment` | guest-verona-rt/arch/x86_64/pagetable.cc:306-316 | a new compartment owns nothing, can write nothing in user mode, and reads just what its predefined ranges grant |
| `Ownership.Backend.DestroyCompartment` | guest-verona-rt/include/public/snmalloc/snmalloc.h:516-523 | exactly the compartment's units become unowned and its page table disappears; the other tables keep every lookup |
| `Ownership.Backend.ValidateOwnerRange` | guest-verona-rt/include/public/snmalloc/snmalloc.h:417-429 | for every address and size: true iff every unit that the loop, with its wrapping end, looks at is owned by the compartment |
| `Ownership.CheckedWhole` | guest-verona-rt/include/public/snmalloc/snmalloc.h:417-429 | for whole units the loop looks at exactly the units of the range, and at none if the end wraps |
| `Ownership.CheckCoversRangeIff` | guest-verona-rt/include/public/snmalloc/snmalloc.h:413-429 | the loop looks at every unit a range touches iff the offsets of its first and last byte do not carry into one more unit |
| `Ownership.Backend.ForwardDeallocChunk` | guest-verona-rt/crt/compartment.cc:57-92 | for every address and size a compartment passes: succeeds iff the size is the slab's, the address is aligned to it, and the end wraps or every unit is the compartment's own; otherwise nothing changes; never fatal |
| `Ownership.Backend.Step` | guest-verona-rt/include/public/snmalloc/snmalloc.h:350-523 | one operation, or none if it is not one the kernel asks for: its exact effect, never fatal, and what is handed out stays exactly what is owned or held by the kernel |
| `Ownership.Backend.Run` | guest-verona-rt/include/public/snmalloc/snmalloc.h:350-523 | over every run of creations, allocations, deallocations by their holders, chunk returns with any arguments, releases of everything, faults and destructions the state stays valid, what was handed out and not returned is what is owned, and neither fatal error is raised |
| `OwnershipSteps.MemoryIsConserved` | guest-verona-rt/include/public/snmalloc/snmalloc.h:454-523 | over every such run a unit is free or in use exactly if it was at the start: no memory is lost or made up, whichever way it is returned |
| `Ownership.SlabRoundTrip` | guest-verona-rt/crt/compartment.cc:57-92 | a slab given to a compartment: another compartment's request to return it is refused, its own is granted, and then owners and free memory are as before and the compartment cannot read it |
| `OwnershipSteps.HandedStep` | guest-verona-rt/include/public/snmalloc/snmalloc.h:454-523 | each operation keeps the units that alloc_range handed out and nobody returned equal to those that are owned or held by the kernel |
| `OwnershipSteps.GivenIsolatedIff` | guest-verona-rt/include/public/snmalloc/snmalloc.h:454-468 | giving memory to a compartment keeps every compartment from reading another's memory iff no other compartment has read a page of it while it was unowned, or has it in a predefined range |
| `OwnershipSteps.FaultedKeepsIsolated` | guest-verona-rt/arch/x86_64/trap.cc:46-72 | a handled fault never lets a compartment read what another one owns |
| `OwnershipSteps.CreatedIsolatedIff` | guest-verona-rt/arch/x86_64/pagetable.cc:306-316 | a new compartment can read another's memory iff a predefined range covers owned memory readably |
| `OwnershipSteps.RunIsolatedIff` | guest-verona-rt/include/public/snmalloc/snmalloc.h:454-468 | at every point of a run no compartment can read what another one owns iff no step of the run lends memory in one of these two ways |
| `Ownership.LentPageStaysReadable` | guest-verona-rt/arch/x86_64/trap.cc:64-72 | a run at which this fails: a page read while unowned stays readable for its reader when the unit is given to another compartment |
| `Ownership.AccessIs` | guest-verona-rt/include/public/snmalloc/snmalloc.h:350-523 | in every valid state a compartment can write exactly what it owns, and read exactly what it owns, its predefined readable pages and the pages it read while unowned and has not returned; ring 0 can write under its table just what it owns and the forced predefined pages; every access goes to the address itself |
| `Ownership.OwnedOnRingAndWritable` | guest-verona-rt/include/public/snmalloc/snmalloc.h:350-523 | in every valid state a unit is owned by c iff it is on c's ring iff all (equivalently, some) of its bytes are user-writable through c's page table as the processor computes it |
| `StackProtection.ForcedIff` | guest-verona-rt/arch/x86_64/pagetable.cc:225-233 | a predefined range lets ring 0 write under a compartment's table iff its permission is the forced one; the kernel's writable data is not writable there |
| `StackProtection.KernelStackProtectedIff` | guest-verona-rt/arch/x86_64/compartment.asm:176-180 | ring 0 cannot write the kernel stack under any compartment's table iff no compartment owns a word of it or has a forced page there |
| `StackProtection.RunProtected` | guest-verona-rt/arch/x86_64/compartment.asm:176-180 | after every operation of every run, whatever compartments ask for, ring 0 cannot write the kernel stack under any compartment's table, provided the kernel holds its units, returns none of them and forces none of its pages |
| `Semaphore.StepInv` | guest-verona-rt/arch/x86_64/cores.asm:28-50 | each atomic step of the waiter, a releaser, a handler or a stray interrupt keeps the invariant |
| `Semaphore.NoLostWakeup` | guest-verona-rt/crt/thread.cc:254-285 | in every interleaving: if the waiter is committed to hlt, or in it, while the value is positive, then a handler is about to rewind it or a releaser that raised the value from 0 keeps pinging; and no handler has finished since its last load |
| `Semaphore.ValueIsBalance` | guest-verona-rt/crt/thread.cc:254-285 | in every run the value is the number of calls of release, from handlers too, less the acquires that have returned or are returning |
| `Semaphore.WakingStays` | guest-verona-rt/arch/x86_64/cores.cc:35-44 | a pinging releaser goes on until a handler has run that rewinds the waiter |
| `Semaphore.WakeByIpi` | guest-verona-rt/arch/x86_64/inc/macros.asm:161-169 | a pending wake-up interrupt brings a halted waiter back to the check |
| `Semaphore.HaltedWaiterCanAcquire` | guest-verona-rt/arch/x86_64/cores.asm:28-50 | from every state with the waiter halted and the value positive the protocol's own steps, at most twelve, wake it, and acquire returns |
| `Semaphore.FinishAlone` | guest-verona-rt/arch/x86_64/cores.asm:44-50 | with the value positive and no interrupt, acquire returns within six of its own steps unless it has already seen zero, also when the value has changed since the load |
| `Semaphore.AcquireCompletes` | guest-verona-rt/crt/thread.cc:254-269 | wherever the waiter is in acquire, in every reachable state with a positive value, at most sixteen steps of the protocol complete the call |
| `Semaphore.ReleaseReturns` | guest-verona-rt/crt/thread.cc:271-285 | a release that need not wake anybody, or whose ping was handled, returns within two of its own steps |
| `Semaphore.RemainingFalls` | guest-verona-rt/arch/x86_64/cores.cc:35-44 | while the waiter stays halted no step of anybody raises the steps left until an interrupt is pending, and each step of the waking releaser lowers them |
| `Semaphore.WakeIsBounded` | guest-verona-rt/arch/x86_64/cores.cc:35-44 | on every schedule: while the waiter is halted with a positive value, four steps of one releaser suffice for a pending interrupt, which stays pending and ends the halt when taken |
| `Blocking.StepInv` | guest-verona-rt/monza-libcxx/src/threading.cc:37-85 | each atomic step of lock, trylock, unlock, wait, signal and broadcast, over any mutexes and condition variables, keeps the invariant |
| `BlockingRuns.MutualExclusion` | guest-verona-rt/monza-libcxx/src/threading.cc:37-65 | in every reachable state a mutex is taken iff exactly one thread holds it, with lock and trylock mixed |
| `BlockingRuns.NeverStranded` | guest-verona-rt/monza-libcxx/src/threading.cc:67-85 | whenever a mutex is free with waiters, some thread is about to contend for it, or the unlocker is about to dequeue one under the spin lock |
| `BlockingRuns.TokensConserved` | guest-verona-rt/crt/thread.cc:144-154 | list entries plus dequeued-but-unsent wakes plus semaphore value is 1 exactly from a thread's enqueue to the end of its sleep, and 0 otherwise |
| `BlockingRuns.EachSleepHasItsDequeue` | guest-verona-rt/monza-libcxx/src/threading.cc:180-215 | the events of a thread go round enqueue, dequeue, wake, end of sleep: every return from a wait matches its own dequeue |
| `BlockingRuns.OnListUntilDequeued` | guest-verona-rt/monza-libcxx/src/threading.cc:180-187 | a thread is on a list exactly while its last event is its enqueue there |
| `BlockingRuns.SignalTakesAWaiter` | guest-verona-rt/monza-libcxx/src/threading.cc:198-215 | a signal is never lost: while any thread has enqueued and not been dequeued, a signal dequeues the longest waiter, asleep or not |
| `BlockingRuns.BroadcastTakesAll` | guest-verona-rt/monza-libcxx/src/threading.cc:217-237 | when a broadcast releases the spin lock nobody is left on the list |
| `BlockingCalls.CallReturns` | guest-verona-rt/monza-libcxx/src/threading.cc:37-237 | over any run: lock and wait return with the mutex, unlock without it, trylock with it iff it was free or the caller's; no call changes any other mutex of the caller |
| `BlockingCalls.OwnStepAdvances` | guest-verona-rt/monza-libcxx/src/threading.cc:37-237 | every step of a call but the end of a sleep brings it closer to its return or its next sleep |
| `BlockingCalls.OtherStepKeeps` | guest-verona-rt/monza-libcxx/src/threading.cc:37-237 | no step of another thread sets a call back: past the spin lock a thread has the list to itself |
| `BlockingCalls.NobodySpinsForEver` | guest-verona-rt/crt/thread.cc:241-252 | in every reachable state a thread in a call can step, is asleep with no wake-up sent, or spins on a lock whose holder can step |
| `RunOnce.RunsOnceBeforeReturn` | guest-verona-rt/monza-libcxx/src/threading.cc:268-291 | the initialiser starts at most once and no call returns before it has finished |
| `RunOnce.SpinningWaitsForRunner` | guest-verona-rt/monza-libcxx/src/threading.cc:283-289 | a spinning thread waits for another thread that is running the initialiser, unless that is already done |
| `RunOnce.CallCompletes` | guest-verona-rt/monza-libcxx/src/threading.cc:268-291 | in every reachable state a call returns within four of its own steps unless another thread is running the initialiser |
| `Dispatch.StepInv` | guest-verona-rt/arch/x86_64/cores.asm:53-77 | each step of a core loop, of add_thread, initialize_threads or monza_main keeps the invariant, which makes executing_cores the number of active executions |
| `DispatchRuns.TasksRunOnce` | guest-verona-rt/crt/thread.cc:98-119 | every task posted to a core starts once with the function and argument it was posted with and finishes before the next is posted |
| `DispatchRuns.DoneMeansReturned` | guest-verona-rt/crt/thread.cc:127-140 | once add_thread has returned its task has started, and whenever is_thread_done then reads true that task has returned |
| `DispatchRuns.ExitOnlyWhenIdle` | guest-verona-rt/crt/monza_main.cc:63-80 | once monza_exit is reached no task is posted, picked up or running and nobody dispatches |
| `DispatchRuns.CountIsZeroWhenIdle` | guest-verona-rt/crt/monza_main.cc:73-77 | executing_cores is 0 iff main has returned and no core is inside a task |
| `DispatchRuns.PostedTaskStarts` | guest-verona-rt/arch/x86_64/cores.asm:55-72 | from every reachable state a core takes up what is posted to it within six steps of its own |
| `DispatchCalls.AddThreadEnds` | guest-verona-rt/crt/thread.cc:98-119 | over any run: a finished add_thread saw every usable core busy and posted nothing, or stored its function and argument at the lowest core it saw done |
| `DispatchCalls.DispatchAdvances` | guest-verona-rt/crt/thread.cc:98-119 | each step of add_thread or initialize_threads brings it closer to its return unless it waits for a core |
| `DispatchCalls.InitializerRanOnEveryCore` | guest-verona-rt/crt/thread.cc:67-96 | once initialize_threads has returned every core has run its initialiser, with its own number, as its first task |
| `DispatchCalls.ExitsWhenIdle` | guest-verona-rt/crt/monza_main.cc:73-79 | after main has returned the next poll exits iff no core is inside a task |
| `AddressRanges.RestrictKeepsWholeBlocks` | guest-verona-rt/include/public/address.h:85-94 | align_restrict keeps exactly the addresses whose whole block is inside, also for an inverted range |
| `AddressRanges.DownEndKeepsBlocks` | guest-verona-rt/include/public/address.h:75-83 | align_down_end keeps exactly the addresses whose block ends inside |
| `SevHeap.HeapRanges.SetFirst` | guest-verona-rt/include/private/heap.h:30-63 | aborts iff nothing is left after aligning the end down |
| `SevHeap.HeapRanges.Add` | guest-verona-rt/include/private/heap.h:44-74 | aborts iff the table is full or no whole page is left; otherwise appends the aligned range |
| `SevHeap.HeapRanges.IsHeapAddress` | guest-verona-rt/include/private/heap.h:105-119 | true iff some recorded range holds the address |
| `SevHeap.HeapRanges.LargestValidAddress` | guest-verona-rt/include/private/heap.h:86-98 | one more than it is the end of the last range, also when it wraps |
| `SevHeap.WrappedEntryIsRefused` | guest-verona-rt/arch/x86_64/hv_sev.cc:438-477 | an entry that begins above the virtual top of memory wraps the size subtraction and always ends in the empty-range abort |
| `SevHeap.RegionHolds` | guest-verona-rt/arch/x86_64/hv_sev.cc:398-399 | an address lies in the bytes of a map entry iff its 4 KiB page is one of the entry's pages, modulo 2^52 |
| `SevHeap.SevMemory.ValidateEntry` | guest-verona-rt/arch/x86_64/hv_sev.cc:398-435 | accepts iff the entry is non-empty, does not wrap or pass 2^48, follows the previous one and, if first, holds the heap start |
| `SevHeap.SevMemory.Carve` | guest-verona-rt/arch/x86_64/hv_sev.cc:436-459 | gives the part below the virtual top of memory, and records the part above it for the first entry that reaches it |
| `SevHeap.SevMemory.Record` | guest-verona-rt/arch/x86_64/hv_sev.cc:460-477 | what is left is recorded in whole pages, or refused |
| `SevHeap.SevMemory.ScanMap` | guest-verona-rt/arch/x86_64/hv_sev.cc:389-478 | the whole loop accepts iff every entry is acceptable; in particular the table of ranges never overflows |
| `SevHeap.SevMemory.SetupHeap` | guest-verona-rt/arch/x86_64/hv_sev.cc:372-492 | for every memory map: returns iff the map is acceptable, and then the ranges, the memory above the virtual top and the accepted pages are as specified |
| `SevHeap.SevMemory.AcceptPrivateMemory` | guest-verona-rt/arch/x86_64/hv_sev.cc:119-128 | accepts exactly the 4 KiB blocks that begin in the range, from its start, in order, also when the range is not aligned |
| `SevHeap.HeapLayout` | guest-verona-rt/arch/x86_64/hv_sev.cc:380-485 | the recorded ranges are non-empty, strictly increasing, page aligned but for the first start, each inside one map entry and below a non-zero virtual top of memory, and at most as many as map entries |
| `SevBoot.RangesDisjoint` | guest-verona-rt/arch/x86_64/hv_sev.cc:413-424 | any two recorded ranges are disjoint |
| `SevBoot.HeapIsValidatedMemory` | guest-verona-rt/arch/x86_64/hv_sev.cc:380-485 | an address is on the heap iff its whole page lies in an accepted map entry, below the virtual top of memory and, in the first entry, from the heap start on |
| `SevBoot.VisibleMemoryIsSeparate` | guest-verona-rt/arch/x86_64/hv_sev.cc:436-485 | the memory set aside above the virtual top is page aligned, below 2^48, part of one map entry and above every heap range, and is empty exactly without a virtual top |
| `SevBoot.UnloadedAcceptanceIs` | guest-verona-rt/arch/x86_64/hv_sev.cc:593-598 | the acceptance of the unloaded sections ends exactly at align_up(heap_start, PAGE_SIZE), also when no whole 4 KiB page is left before the heap |
| `SevBoot.AcceptedOnce` | guest-verona-rt/arch/x86_64/hv_sev.cc:488-491 | the two acceptances abut: no page is accepted twice |
| `SevBoot.HeapIsAccepted` | guest-verona-rt/arch/x86_64/hv_sev.cc:488-491 | every page of the heap is accepted, except the one page shared with loaded sections |
| `SevBoot.AcceptedOutsideMapIff` | guest-verona-rt/arch/x86_64/hv_sev.cc:488-491 | what is accepted as heap but lies in no entry of the memory map is exactly the gaps between consecutive entries |
| `SevBoot.Boot` | guest-verona-rt/arch/x86_64/hv_sev.cc:372-492 | a boot succeeds iff the map is acceptable, and then ranges and accepted pages are those |
| `SevBoot.AcceptableIff` | guest-verona-rt/arch/x86_64/hv_sev.cc:372-492 | acceptable means: entries are not empty, ascend without overlap and end by 2^48; the first holds the heap start and a page boundary above it; each later one has a whole page below the virtual top or nothing there; a virtual top is page aligned, above the heap start and reached by an entry, the first of which does not begin above it |
| `VisibleMemory.Pool.UpdateState` | guest-verona-rt/arch/x86_64/hv_sev.cc:141-184 | switches each frame of the range once, or aborts |
| `VisibleMemory.Pool.Expand` | guest-verona-rt/arch/x86_64/hv_sev.cc:207-233 | grows the free span by a page at its end, which stays at the expansion offset |
| `VisibleMemory.Pool.Allocate` | guest-verona-rt/arch/x86_64/hv_sev.cc:191-241 | succeeds iff enough whole pages are left and the hypervisor agrees; the block starts where the last one ended, and as few pages as possible are switched |
| `VisibleMemory.AllocateAll` | guest-verona-rt/arch/x86_64/hv_sev.cc:191-241 | a run of requests from 1 to 2^64 - 4096 bytes succeeds iff the rounded sizes so far always fit the whole pages above the virtual top and the hypervisor agrees wherever more pages are needed; it then gets page-aligned, adjacent blocks inside the switched memory, and no page more than needed is switched |
| `VisibleMemory.FitsIff` | guest-verona-rt/arch/x86_64/hv_sev.cc:191-241 | with a hypervisor that agrees, a run succeeds iff the sum of its rounded sizes fits the whole pages above the virtual top |
| `VisibleMemory.BlocksDisjoint` | guest-verona-rt/arch/x86_64/hv_sev.cc:236-240 | blocks of any run are disjoint |
| `VisibleMemory.BlocksAreShared` | guest-verona-rt/arch/x86_64/hv_sev.cc:222-223 | every frame of every block was switched to shared, and no frame twice |
| `VisibleMemory.RoundingHoldsRequest` | guest-verona-rt/arch/x86_64/hv_sev.cc:199-201 | the rounded size holds the request iff it is at most 2^64 - 4096; above that it wraps to 0 |
| `Transitions.EnterSaves` | guest-verona-rt/arch/x86_64/compartment.asm:87-99 | compartment_enter leaves the caller's return address, callee-saved registers, control flags, last_stack_ptr and the compartment in ten words below its stack pointer and changes nothing above; the status flags it stores are those after the subtraction |
| `Transitions.LeaveRestores` | guest-verona-rt/arch/x86_64/compartment.asm:201-208 | restoring from last_stack_ptr gives back rsp, the callee-saved registers, last_stack_ptr and the control flags of the matching save; the status flags are those after the addition |
| `Transitions.PushKeepsSavedIff` | guest-verona-rt/arch/x86_64/compartment.asm:178-180 | the push of the flags at the compartment's stack pointer, wherever that is, spares a saved state iff it misses its nine words or stores what is there |
| `Transitions.CompartmentStateSaved` | guest-verona-rt/arch/x86_64/compartment.asm:176-180 | under a page table that does not let ring 0 write the kernel stack, a push that does not fault keeps every saved state |
| `Transitions.StepInv` | guest-verona-rt/arch/x86_64/compartment.asm:87-269 | every enter, return, exit, abort, callback and callback return, with arbitrary kernel and compartment code in between, keeps the chain of saved states intact |
| `TransitionRuns.LeavingRestores` | guest-verona-rt/arch/x86_64/compartment.asm:156-269 | at any nesting depth each return, exit and abort ends the innermost open invocation and restores rsp, callee-saved registers, control flags and last_stack_ptr to their values at its enter, but not the status flags; only exit and abort invalidate, and just that compartment |
| `TransitionRuns.EnteringStartsClean` | guest-verona-rt/arch/x86_64/compartment.asm:87-125 | every compartment_enter of a run opens one more invocation, of the compartment it names, with interrupts enabled and all other flags clear |
| `TransitionRuns.KernelSeesInnermost` | guest-verona-rt/arch/x86_64/compartment.asm:64-68 | the compartment pointer read from the stack is always that of the innermost open invocation, whose page table is the one in use |
| `TransitionRuns.CallbackResumes` | guest-verona-rt/arch/x86_64/compartment.asm:127-154 | a callback returns into the compartment that made it, right after its system call, with the callback's result in rax and the flags the call pushed, unless that word was changed |
| `InvocationStacks.CompartmentStacks.GetStack` | guest-verona-rt/experimental/include/arch_compartment.h:127-149 | hands out a stack no live invocation holds and makes it the innermost |
| `InvocationStacks.CompartmentStacks.ReleaseStack` | guest-verona-rt/experimental/include/arch_compartment.h:158-170 | gives up exactly the innermost live stack |
| `InvocationStacks.StackPerInvocation` | guest-verona-rt/experimental/include/arch_compartment.h:127-170 | in every reachable state of every run live invocations hold distinct stacks, there are max(1, depth) of them, and the initial one is in use iff the compartment is live |
| `InvocationStacks.InvocationKeepsStack` | guest-verona-rt/experimental/include/compartment.h:109-141 | an open invocation keeps the stack it got at its enter until it is left |
| `GuestRequest.StepInv` | guest-verona-rt/arch/x86_64/hv_sev_guest_request.cc:596-641 | each step of any thread, inside or outside the lock, of the host or the firmware keeps the invariant of all runs |
| `GuestRequest.RequestNumbers` | guest-verona-rt/arch/x86_64/hv_sev_guest_request.cc:603-614 | in every run the headers of requests are numbered 1, 3, 5, ... in the order they are sealed |
| `GuestRequest.CleanStep` | guest-verona-rt/arch/x86_64/hv_sev_guest_request.cc:400-550 | a step that begins no encrypt or decrypt inside another one keeps the shared vector and context those of the thread in the cipher, and every request sealed under its own number |
| `GuestRequest.VectorsFreshIff` | guest-verona-rt/arch/x86_64/hv_sev_guest_request.cc:632-634 | over runs without overlapping cipher calls: no two encryptions of guest or firmware share an initialisation vector iff at most 2^63 requests are sealed |
| `GuestRequest.AcceptedIsOwnReply` | guest-verona-rt/arch/x86_64/hv_sev_guest_request.cc:618-641 | over runs without overlapping cipher calls, whatever the host delivers: an accepted response is numbered one above the thread's own request and is the one the firmware sealed for it |
| `GuestRequestRuns.SerialCallsAreSound` | guest-verona-rt/arch/x86_64/hv_sev_guest_request.cc:596-641 | calls each of which begins after the previous one has finished decrypting keep both promises, with any number of threads |
| `GuestRequestRuns.RequestGetsItsReply` | guest-verona-rt/arch/x86_64/hv_sev_guest_request.cc:596-641 | from every reachable state in which no call is under way, any thread that makes a request through an honest host gets the firmware's reply to just that request |
| `GuestRequestRuns.ReusedVector` | guest-verona-rt/arch/x86_64/hv_sev_guest_request.cc:632-641 | a run of two threads in which a decryption outside the lock changes the vector of an encryption to that of the firmware's reply |
| `GuestRequestRuns.WrongReply` | guest-verona-rt/arch/x86_64/hv_sev_guest_request.cc:632-641 | a run of two threads in which overlapping decryptions make one thread accept the reply to the other's request |
| `GuestRequestRuns.SoundIffOneThread` | guest-verona-rt/arch/x86_64/hv_sev_guest_request.cc:596-641 | within 2^63 requests: vectors are fresh in every reachable state iff at most one thread makes requests, and every accepted reply is the right one iff at most one thread does |
| `GuestRequest.OneResponsePerRequest` | guest-verona-rt/arch/x86_64/hv_sev_guest_request.cc:623-632 | the firmware seals no second response under a number |
| `Timing.TickToNsExact` | guest-verona-rt/crt/time.cc:33-41 | no product wraps for ticks below the frequency iff the frequency is at most 18446744074 |
| `Timing.TickToNsIs` | guest-verona-rt/crt/time.cc:38-41 | the result is the exact quotient and below 10^9 |
| `Timing.NsToTickIs` | guest-verona-rt/crt/time.cc:48-51 | the result is the exact quotient and below the frequency |
| `Timing.TickToNsMonotone` | guest-verona-rt/crt/time.cc:38-41 | more ticks never convert to fewer nanoseconds |
| `Timing.TickRoundTrip` | guest-verona-rt/crt/time.cc:38-51 | ticks to nanoseconds and back never gains and loses less than frequency / 10^9 + 1 ticks |
| `Timing.NsRoundTrip` | guest-verona-rt/crt/time.cc:38-51 | nanoseconds to ticks and back never gains and loses less than 10^9 / frequency + 1 nanoseconds |
| `Timing.Clock.InitTiming` | guest-verona-rt/crt/time.cc:68-73 | the boot tick is the boot time's nanoseconds rounded down to a tick, for nanoseconds below 10^9 or whenever the product does not wrap |
| `Timing.Clock.GetTimespec` | guest-verona-rt/crt/time.cc:79-102 | the reported time is exactly boot ticks plus elapsed ticks with carry, its seconds reduced to a time_t, its nanoseconds below 10^9 |
| `Timing.ReadAtBoot` | guest-verona-rt/crt/time.cc:57-102 | a clock set at boot reads the boot time there, less at most a tick and its rounding, one second more after as many ticks as the frequency, and 0 since boot |
| `Timing.OneSecondLater` | guest-verona-rt/crt/time.cc:79-102 | as many ticks as the frequency add exactly one second |
| `Timing.TimeIsMonotone` | guest-verona-rt/crt/time.cc:79-102 | time before its reduction to a time_t is lexicographically monotone in the ticks, also before the epoch |
| `Timing.ReportedInOrderIff` | guest-verona-rt/crt/time.cc:79-102 | two reported times are in order iff their seconds lie in one span of 2^64 around the epoch |
| `Timing.TwoReadings` | guest-verona-rt/crt/time.cc:79-102 | two readings of one clock, the second not earlier: the reported time goes back iff the seconds pass the end of time_t in between |
| `Timing.SecondsFit` | guest-verona-rt/crt/time.cc:83-97 | the reduction to a time_t is exact iff the seconds fit 63 bits and a sign |
| `Timing.ElapsedFits` | guest-verona-rt/crt/time.cc:83-85 | time since boot always fits unless the frequency is 1 and 2^63 ticks have passed |
| `Timing.ElapsedDespiteWrap` | guest-verona-rt/crt/time.cc:57-62 | the elapsed ticks are right even when the counter has wrapped |
| `Logging.NumeralRoundTrip` | guest-verona-rt/include/public/logging.h:277-321 | for every value and both bases what is printed parses back, with no leading zero and only digits of the base |
| `Logging.SignedRoundTrip` | guest-verona-rt/include/public/logging.h:183-210 | a signed number parses back, sign included |
| `Logging.NumeralLength` | guest-verona-rt/include/public/logging.h:160-167 | the space checked up front is enough for every value: 16 hexadecimal, 20 unsigned or 19 signed decimal digits |
| `Logging.LoggerStream.Append` | guest-verona-rt/include/public/logging.h:82-93 | appends all or nothing |
| `Logging.LoggerStream.Reserve` | guest-verona-rt/include/public/logging.h:100-109 | reserves all or nothing |
| `Logging.LoggerStream.CountDigits` | guest-verona-rt/include/public/logging.h:290-296 | the first loop counts the digits that the second writes |
| `Logging.LoggerStream.FillDigits` | guest-verona-rt/include/public/logging.h:304-318 | filling the reserved range from its end gives the digits, most significant first, and changes nothing before it |
| `Logging.LoggerStream.LogU64` | guest-verona-rt/include/public/logging.h:277-321 | appends the numeral if it fits and changes nothing otherwise |
| `Logging.LoggerStream.PutText` | guest-verona-rt/include/public/logging.h:136-151 | appends the string, or the beginning of it that fills the buffer |
| `Logging.LoggerStream.PutPointer` | guest-verona-rt/include/public/logging.h:156-174 | appends 0x and digits that parse back as hexadecimal to the address, or nothing if fewer than 18 characters are left |
| `Logging.LoggerStream.PutSigned` | guest-verona-rt/include/public/logging.h:180-210 | appends a signed decimal that parses back to the value, the least int64 included, or nothing if fewer than 20 characters are left |
| `Logging.LoggerStream.PutUnsigned` | guest-verona-rt/include/public/logging.h:217-233 | appends digits that parse back as decimal to the number, or nothing if fewer than 20 characters are left |
| `Logging.WriteExtends` | guest-verona-rt/include/public/logging.h:131-233 | each write only extends the text and stays in the buffer |
| `Logging.WritesOnlyExtend` | guest-verona-rt/include/public/logging.h:131-233 | over any sequence of writes the position stays in the buffer and no earlier text changes |
| `Logging.LoggerStream.Flush` | guest-verona-rt/include/public/logging.h:267-271 | outputs the text and starts over |
| `SharedMemory.Platform.AllocateShared` | app-framework/include/host/enclave_platform.h:284-306 | throws iff the size is 0 or the rounded block does not end before the range does; otherwise hands out the least aligned block past the earlier ones |
| `SharedMemory.AllocateAll` | app-framework/include/host/enclave_platform.h:284-306 | any run of allocations, each with its own alignment, is increasing, disjoint, accepted by the guest, and aligned for every power of two up to 2^26 |
| `SharedMemory.StartIsAlignedIff` | app-framework/include/host/enclave_platform.h:127-128 | the shared range starts at a multiple of a power of two iff it is at most 2^26, so larger alignments are not met |
| `SharedMemory.HostAllocationIsAccepted` | app-framework/include/guest/ringbuffer_guest.h:20-36 | what the host allocates passes the guest's check, at the host's offset |
| `SharedMemory.AcceptedArrayIsInBounds` | app-framework/include/guest/ringbuffer_guest.h:20-36 | an accepted array lies inside the shared range iff its size in bytes does not wrap, which holds for one-byte elements |
| `SharedMemory.InBoundsArrayIsAccepted` | app-framework/include/guest/ringbuffer_guest.h:20-36 | every non-empty array strictly inside the range is accepted |

## Left out

- Memory ordering: atomics are sequentially consistent steps; weaker orderings are not modelled.
- Semaphore: the SEV variant of inter-processor interrupts, which only bumps a counter, is not covered.
- Dispatch: at most one thread dispatches at a time and cores are initialised once, as the callers arrange; the ping inside the spin of add_thread has no effect on the modelled state.
- Blocking: the recursive mutex is left out (its header calls it unimplemented), and so is thread destruction.
- Ownership.Backend.ForwardDeallocChunk: slabs smaller than an ownership unit, which exist with 2 MiB pages; dealloc_range itself asserts sizes of whole units.
- Ownership.Backend.DeallocRange: ranges that end between 2^48 and 2^64, where page table indices repeat; no compartment owns such memory. Units are 16 KiB with 4 KiB pages and 2 MiB otherwise.
- Ownership.Backend.AllocRange: snmalloc's parent range is an answer that must come from a free set; slab metadata and size classes are parameters.
- Ownership.Backend.PageFault: whether an address is on the heap is a parameter here; SevHeap.HeapRanges.IsHeapAddress models that test.
- Ownership.Backend.CreateCompartment: the predefined ranges are parameters made of whole pages that never grant user writes, as in the kernel's own maps.
- PageTable.TableMemory.MapPages: ranges that end above 2^48, where the indices of the tables repeat; every range the kernel maps ends below.
- PageTable.TableMemory.UnmapPages: ranges that end above 2^48, as for MapPages.
- PageTable.TableMemory.MapPredefined: ranges above 2^48 or not made of whole pages; the kernel's own maps are aligned by the linker script and align_up_end.
- PageTable.TableMemory: copy_to_pagetable, which nothing calls, TLB invalidation and the building of the kernel's own map.
- PteBits: addresses are aligned and below 2^52; integers and bit vectors are kept in separate lemmas.
- Transitions: interrupts during a transition; TLS and CR3 switch together; the words that ring 0 can write under a compartment's table may change at any step but never include the kernel stack in use, which StackProtection.RunProtected proves of the page tables.
- InvocationStacks: the limits written into the thread control block are only tracked as the last stack handed out.
- SevHeap.SevMemory.AcceptPrivateMemory: ranges that end in the last 4 KiB below 2^64, where the loop variable would wrap.
- SevHeap.SevMemory.SetupHeap: the heap start is a linker symbol below 2^48.
- VisibleMemory.Pool.UpdateState: the hypervisor's answers to one call are one parameter, all confirmed or not.
- VisibleMemory.Pool.Allocate: calls follow one another, as the spin lock around the allocator arranges.
- GuestRequest: sealing is ideal and the firmware follows its specification; message types and sizes are not modelled. Once the context is initialised, the rest of an encryption or decryption is one step, which fails if the context was last initialised for the other direction.
- Timing.Clock.InitTiming: reading the counter is a parameter.
- Logging.LoggerStream.PutSigned: the negation of the least int64 is taken to wrap.
- SharedMemory: the host platform is the QEMU one, with its constants; the Windows one is not part of this model.
- Hardware and libraries: MSRs, CPUID, port I/O, pvalidate and vmgexit effects, ACPI, GDT and IDT setup, libc, the LLVM, musl and OpenSSL patches, host process management and tests have no internal property to state.
