# Fathom runtime: a model of its memory, processes and entry state

Fathom runs x86 Linux programs inside one host process. This project models the parts of its
runtime that everything else stands on, and proves what they keep.

- **The guest address space.** An allocator over a reserved arena together with the list of what
  is committed in it. The guest's pages are 4 KB and the host's may be four times that, so a host
  page can be shared by mappings that know nothing of each other. `Pages`, `Spans`, `GuestView`,
  `RangeIndex` and `RangeEdit` hold the arithmetic, the lists and the queries; `SpaceSpec` and
  `SpaceOps` state the invariant and each operation as a relation between states, address by
  address; `AddressSpace` is the class itself, proved against them, with `FreeList`, `Records`,
  `Placement`, `Gaps`, `Protection`, `FixedCommit` and `GrainMap` beside it. `SpaceRuns` and
  `WrittenRuns` prove what holds over whole runs, and `TracedSpace` that every use of the class is
  such a run. `MapAnonymous` is the fixed anonymous mmap built on top.
- **Forks, execs and arenas.** `Regions` and `BorrowFork` model the fork that lends the parent's
  memory to the child and puts it back; `ForkPlan`, `CopyFork`, `CopyComplete` and `CopyResult`
  the fork that copies it, and `Frames` the host pages behind both sides afterwards; `Sessions` and
  `ProcessTable` the process table, the arenas and the suspended threads, as steps that interleave
  wherever another thread can get in between. `Lending` runs the borrowing forks of a whole
  session on top of those steps, with the guests' memory in its state.
- **Compiled code.** `Invalidation` models the protocol that throws stale compiled code away:
  deferral, the background queue, concurrent sweeps, and threads that start and end meanwhile.
  `SweepRuns` says when a range is swept and when it is held back, `SweepProgress` that it always
  can still be, and `CodeMemory` runs the protocol together with the address space the code is
  compiled from.
- **Entry.** `Words`, `InitialStack` and `StackBuild` model the stack a program starts on, against
  a reader that follows section 3.4.1 of the System V AMD64 psABI. `GuestPath` models the
  resolution of guest paths on the host, and `PathLaws` proves the laws a path obeys.

A list of ranges means a map from addresses to records (`Spans.At`), and every list operation is
specified through that map. Host memory is a function from addresses to bytes and one from
addresses to host access. `Scenarios`, `ScenarioRuns`, `ForkScenarios` and `LendingScenarios` hold
the instances named below. What the host may refuse is a parameter (`hostOk`, `gapOk`, `remapOk`,
`threadOk`, `arenaOk`).

## Where the code and its comments part

The model follows the code. Each of these comes with the condition that decides it and an
instance of it.

- A protection change is decided range by range, not page by page: an unaligned request widens
  the whole range it touches the edge of (`ProtectExact`, `UnalignedProtectExample`).
- A zero-length protection change on a host page boundary inside a range leaves an empty range
  behind (`EmptyRequest`, `EmptyRequestExample`). Two pieces then begin together; the model sorts
  them stably, and `SwappedSplit` says what the other order leaves.
- A partial fixed commit is exact on whole host pages, so it takes permissions from neighbours in
  them (`FixedPermissions`, `NeighbourLosesWrite`), does not zero a shared page (`FixedBytes`,
  `StaleByteReappears`), loses a page the host refuses (`RefusedGapLeaks`, `RefusedPageIsLost`) and
  may promise access the host does not give (`FixedHost`, `FixedCommitNotHonoured`).
- A release can put the lowest 64 KB on the free list (`ReleaseLow`, `LowPageBecomesFree`).
- Adopting an outside mapping over a recorded one changes its epoch unannounced
  (`AdoptOutsideLoses`, `OutsideEpochChanges`).
- The copying fork rounds outward and does not look at whether a part was recorded: a mapping with
  a hole in a host page loses everything past that page (`LosesNothingIff`, `SharedPageLosesPart`,
  `HoleLosesTheRest`).
- Copied read-only memory is recorded as never written, so the child's own fork brings it over as
  zeros (`SecondForkKeepsBytes`, `GrandchildReadsZero`).
- A sweep forgets stale code of a context whose last thread has ended (`SweepForgetsIff`,
  `UnreachedIsForgotten`, `OrphanedContextForgotten`).
- A stop request lets a fork return while the copy is still held, so a late give-back overwrites
  what the parent wrote since (`NothingRestoredAfterReturn`, `StopRestoresLate`).
- A failed copying fork leaves the parent's threads suspended and sweeps held
  (`FailedForkStaysFrozen`, `FailedForkLeaks`), a child whose thread does not start leaves them so
  too (`UnstartedForkLeaks`), any child's exec wakes them, not only the one they were suspended
  for (`FrozenForGood`, `OlderChildWakesParent`), and arenas are left behind by
  failed forks and execs, by a third exec, and by a lender that finishes first
  (`LosesNoneIffTidy`, `FailedForkLeaks`, `FailedExecLeaks`, `ThirdExecLeaks`,
  `LenderFinishesFirst`).
- The initial stack's strings are written before its size is looked at (`OverrunIff`,
  `LongStringOverruns`).
- Over its hop budget a path resolution ends at a link (`LinkFreeIffFewLinks`, `SelfLinkExhausts`),
  and the way back is a test on characters (`GuestPathLeadsBack`, `SiblingIsTakenForChild`).

## Model

| member | source | states |
|---|---|---|
| `Pages.AlignDownIsMasking` | Fathom/Sources/Runtime/guest_memory.h:230-231 | Stepping down to a page boundary, the form the proofs use, equals subtracting the remainder |
| `GuestView.ToHostIsLeast` | Fathom/Sources/Runtime/guest_memory.cpp:22-34 | What is asked of the host is the least access that allows what the guest may do |
| `RangeIndex.FirstRangeEndingAfter` | Fathom/Sources/Runtime/guest_memory.cpp:452-464 | The bisection finds the boundary a linear scan would: everything before ends at or before the address, everything from there ends after it |
| `RangeIndex.UncommittedIn` | Fathom/Sources/Runtime/guest_memory.cpp:413-434 | The gaps are exactly the uncommitted bytes of the span, as maximal runs in order |
| `RangeIndex.CommittedIn` | Fathom/Sources/Runtime/guest_memory.cpp:385-397 | The pieces are exactly the committed bytes of the span, in order, so with `UncommittedIn` they partition it; of a reversed span there is one reversed piece if a range holds both ends, and none otherwise |
| `RangeIndex.WritableRangesIn` | Fathom/Sources/Runtime/guest_memory.cpp:881-899 | At every address the result is the committed record if that byte is writable and in the span, and nothing otherwise |
| `RangeIndex.Validate` | Fathom/Sources/Runtime/guest_memory.cpp:992-1017 | True if and only if every byte of the span is committed with the required permissions |
| `RangeIndex.EpochAt` | Fathom/Sources/Runtime/guest_memory.cpp:979-986 | The epoch of the byte, 0 exactly where nothing is committed |
| `Spans.CoalescedAt` | Fathom/Sources/Runtime/guest_memory.cpp:517-531 | Coalescing changes the meaning of the list at no address |
| `Spans.CanonicalUnique` | Fathom/Sources/Runtime/guest_memory.cpp:511-531 | A sorted list with no mergeable neighbours is determined by its meaning, so the list kept is the only one there could be |
| `GrainMap.ChooseGrain` | Fathom/Sources/Runtime/guest_memory.cpp:53-60 | The doubling loop ends with a grain for which the map fits its word limit |
| `GrainMap.InArena` | Fathom/Sources/Runtime/guest_memory.cpp:53-66 | No address of the arena has a grain beyond the last word |
| `GrainMap.WalkCodeMap` | Fathom/Sources/Runtime/guest_memory.cpp:68-86 | Marks exactly the grains visited, when asked to, besides what was marked, and reports exactly whether one was marked before; past the map it says yes |
| `GrainMap.NoteExecutable` | Fathom/Sources/Runtime/guest_memory.cpp:88-94 | Afterwards every byte of an in-arena span counts as having held code, and no other does that did not or shares no grain with it; no earlier note is lost, and none on the span goes unreported |
| `GrainMap.HasHeldCode` | Fathom/Sources/Runtime/guest_memory.cpp:108-113 | Never a false no: true whenever any byte of the span was ever noted, or the span is empty or leaves the arena; in it, true only if a grain it meets is marked |
| `GrainMap.MaybeCommitted` | Fathom/Sources/Runtime/guest_memory.cpp:96-106 | Exact on grains inside the arena, true outside it |
| `AddressSpace.GuestAddressSpace.constructor` | Fathom/Sources/Runtime/guest_memory.cpp:37-66 | A fresh arena has everything above its lowest 64 KB free and satisfies the invariant |
| `AddressSpace.GuestAddressSpace.TakeFreeExtent` | Fathom/Sources/Runtime/guest_memory.cpp:198-223 | Takes the span if and only if all of it is free, removing exactly those bytes from the list and keeping extents maximal |
| `AddressSpace.GuestAddressSpace.TakeFreeSpan` | Fathom/Sources/Runtime/guest_memory.cpp:353-382 | Removes exactly the free part of the span |
| `AddressSpace.GuestAddressSpace.ReturnFreeExtent` | Fathom/Sources/Runtime/guest_memory.cpp:300-344 | Adds exactly the span to the free bytes, whatever of it was free already, and keeps extents maximal and apart |
| `AddressSpace.GuestAddressSpace.Coalesce` | Fathom/Sources/Runtime/guest_memory.cpp:517-531 | The in-place compaction computes the join of all mergeable neighbours |
| `AddressSpace.GuestAddressSpace.RecordCommitted` | Fathom/Sources/Runtime/guest_memory.cpp:466-508 | The list changes as a map from address to record would: exactly the span gets the new protection, a new epoch and the written flag |
| `AddressSpace.GuestAddressSpace.MapFreshAnonymous` | Fathom/Sources/Runtime/guest_memory.cpp:237-241 | Exactly the span reads as zero and loses host access |
| `AddressSpace.GuestAddressSpace.NoteExecutable` | Fathom/Sources/Runtime/guest_memory.cpp:88-94 | The same on the class, keeping its invariant, so that later operations announce the span |
| `AddressSpace.GuestAddressSpace.CommitRange` | Fathom/Sources/Runtime/guest_memory.cpp:257-296 | Maps afresh exactly the host pages of the span that hold nothing committed, and gives the whole span host access unless the host refuses |
| `AddressSpace.GuestAddressSpace.Allocate` | Fathom/Sources/Runtime/guest_memory.cpp:533-630 | A free in-arena hint is honoured, else the least fit at or above the floor, else the least fit; 0 exactly when there is none or the host refuses; the result reads as zero, nothing else changes, and a refusal restores the lists |
| `AddressSpace.GuestAddressSpace.CommitFixed` | Fathom/Sources/Runtime/guest_memory.cpp:632-677 | Every branch: out of the arena, wholly free, or partly committed; in the second, held code is announced; in the last exactly the gaps the host turns down are refused, and the invariant survives if and only if none of them held a whole empty host page above the floor |
| `AddressSpace.GuestAddressSpace.Release` | Fathom/Sources/Runtime/guest_memory.cpp:679-785 | Drops exactly the guest pages, frees exactly the host pages left empty, wipes nothing else, keeps the invariant and announces exactly the releases that met something |
| `AddressSpace.GuestAddressSpace.ProtectLocked` | Fathom/Sources/Runtime/guest_memory.cpp:808-867 | The list and host access become those of the request rounded to host pages; untouched if nothing meets it |
| `AddressSpace.GuestAddressSpace.Protect` | Fathom/Sources/Runtime/guest_memory.cpp:787-802 | Of a request of at least one byte, said in terms of its address and length: a byte on a host page it does not meet keeps its record; one on a page it meets gets exactly what was asked if every host page of its range that it meets lies wholly inside it, and what was asked joined to what it had otherwise; its epoch stays; the host opens exactly the pages met, for a writable request; the invariant survives if and only if the request is harmless, and exactly the host pages touched are announced whenever code may lie there |
| `AddressSpace.GuestAddressSpace.AdoptCopiedMapping` | Fathom/Sources/Runtime/guest_memory.cpp:127-144 | Succeeds exactly when the whole span is in the arena and free; then records it, as written only if it is both said to be and writable, keeping the invariant if and only if it is whole host pages |
| `AddressSpace.GuestAddressSpace.AdoptExternalMapping` | Fathom/Sources/Runtime/guest_memory.cpp:146-154 | The mapping is recorded under a new epoch and the arena is left alone; the invariant survives if and only if nothing free is taken over and what a span across an end of the arena has inside it was noted before |
| `AddressSpace.GuestAddressSpace.DropPages` | Fathom/Sources/Runtime/guest_memory.cpp:399-411 | Exactly the whole host pages inside the span read as zero; no list changes |
| `AddressSpace.GuestAddressSpace.RestoreIfUnchanged` | Fathom/Sources/Runtime/guest_memory.cpp:917-977 | Writes the copy back if and only if every byte of it still has the epoch and is writable and the host agrees, an empty copy asking for the byte at its address; otherwise nothing changes; reports code that may have been overwritten |
| `SpaceSpec.PagesOwnedOnce` | Fathom/Sources/Runtime/guest_memory.cpp:37-51 | No byte is both free and committed, and every host page above the floor is either wholly free or holds a committed byte |
| `SpaceSpec.ExtentAligned` | Fathom/Sources/Runtime/guest_memory.cpp:198-223 | Every free extent is non-empty, in the arena and on host page boundaries |
| `SpaceOps.AdoptOutsideKeepsValid` | Fathom/Sources/Runtime/guest_memory.cpp:146-154 | Recording a mapping made elsewhere keeps the lists right if and only if it takes over no free byte |
| `Placement.FirstFitIsLeast` | Fathom/Sources/Runtime/guest_memory.cpp:557-629 | First fit finds the least address that fits, because extents are maximal |
| `FreeList.ReturnUndoesTake` | Fathom/Sources/Runtime/guest_memory.cpp:564-611 | Giving back what was taken restores the free list exactly |
| `SpaceRuns.StepKeepsValid` | Fathom/Sources/Runtime/guest_memory.cpp:533-867 | Every operation keeps ranges sorted, disjoint and unmergeable, free extents maximal, aligned and disjoint from them, and no page leaked |
| `SpaceRuns.RunKeepsValid` | Fathom/Sources/Runtime/guest_memory.cpp:533-867 | That invariant holds in every state of every run |
| `SpaceRuns.EpochNeverReturns` | Fathom/Sources/Runtime/guest_memory.cpp:466-531 | Once an epoch has left an address it never comes back there |
| `SpaceRuns.EpochsContinuous` | Fathom/Sources/Runtime/guest_memory.cpp:466-531 | No ABA: a byte with one epoch at two moments had it at every moment between |
| `SpaceRuns.EpochLoss` | Fathom/Sources/Runtime/guest_memory.cpp:679-785 | A byte loses its epoch only by a release over it or an outside mapping adopted over it |
| `SpaceRuns.AdoptOutsideLoses` | Fathom/Sources/Runtime/guest_memory.cpp:146-154 | Adopting an outside mapping changes an epoch unannounced if and only if something was recorded there |
| `SpaceRuns.RunKeepsBytes` | Fathom/Sources/Runtime/guest_memory.cpp:237-296 | Over any run a committed byte keeps its value unless a store, a restore or a drop covers it |
| `SpaceRuns.RestoreHitsHeldMemory` | Fathom/Sources/Runtime/guest_memory.cpp:917-977 | A successful restore writes only to memory one mapping has held ever since the copy was taken |
| `SpaceRuns.ReleaseLow` | Fathom/Sources/Runtime/guest_memory.cpp:693-775 | A release keeps the lowest 64 KB off the free list if and only if every host page it touches there still holds something |
| `SpaceRuns.LowNeverHandedOut` | Fathom/Sources/Runtime/guest_memory.cpp:37-51 | In a run that releases nothing in the lowest 64 KB nothing is ever allocated there |
| `WrittenRuns.NeverWrittenIsZero` | Fathom/Sources/Runtime/fathom_runtime.cpp:639-648 | Over every run of honest operations, memory recorded as never written holds only zeros |
| `WrittenRuns.CommitOverWritten` | Fathom/Sources/Runtime/guest_memory.cpp:643-662 | A fixed commit keeps that true if and only if it is writable or every byte it newly commits lies in an empty host page or is zero |
| `WrittenRuns.AdoptWritten` | Fathom/Sources/Runtime/guest_memory.cpp:127-144 | Adopting a mapping keeps it true if and only if it is recorded as written or holds zeros |
| `TracedSpace.History.Allocate` | Fathom/Sources/Runtime/guest_memory.cpp:533-630 | The class refines the run model: an allocation, granted or refused by the host, is one step of a run |
| `TracedSpace.History.Release` | Fathom/Sources/Runtime/guest_memory.cpp:679-785 | The class refines the run model: a release is one step of a run |
| `TracedSpace.History.Protect` | Fathom/Sources/Runtime/guest_memory.cpp:787-802 | The class refines the run model: a protection change of at least one byte is one step of a run |
| `TracedSpace.History.CommitFixed` | Fathom/Sources/Runtime/guest_memory.cpp:632-677 | The class refines the run model: a fixed commit with no refused gap is one step of a run, which one depending on what was free |
| `TracedSpace.History.Restore` | Fathom/Sources/Runtime/guest_memory.cpp:917-977 | The class refines the run model: a successful restore is one step of a run |
| `TracedSpace.History.HasHeldCode` | Fathom/Sources/Runtime/guest_memory.cpp:108-113 | Over the whole history of an arena, no is certain: true whenever code was ever compiled from the span |
| `TracedSpace.History.MaybeCommitted` | Fathom/Sources/Runtime/guest_memory.cpp:96-106 | Over the whole history of an arena, no is certain: true whenever the byte was committed in any state of it |
| `Protection.ProtectGrants` | Fathom/Sources/Runtime/guest_memory.cpp:808-867 | Every committed byte touched gets at least what was asked, none outside the wholly covered host pages loses anything, and commitment and epochs stay |
| `Protection.ProtectExact` | Fathom/Sources/Runtime/guest_memory.cpp:825-846 | A byte gets exactly what was asked if and only if all of its range the request touches lies on wholly covered host pages, or what it had is covered anyway |
| `Protection.AppliedGrants` | Fathom/Sources/Runtime/guest_memory.cpp:787-867 | The rounded request does to every byte what the address and length asked say: whole pages met, exact only on ranges met wholly inside |
| `Protection.AskedLaws` | Fathom/Sources/Runtime/guest_memory.cpp:824-846 | Of such a change: a byte the request covers is granted all of it, a byte on no page it meets keeps its record, and no byte outside the pages wholly inside it loses a permission |
| `Protection.UnalignedProtectExample` | Fathom/Sources/Runtime/guest_memory.cpp:825-846 | A host page wholly inside a read-only request can stay writable |
| `Protection.AppliedValid` | Fathom/Sources/Runtime/guest_memory.cpp:808-867 | A protection change keeps the invariant if and only if it is harmless; one that reaches a byte always is |
| `Protection.EmptyRequest` | Fathom/Sources/Runtime/guest_memory.cpp:830-858 | A zero-length change leaves the list canonical if and only if it splits no range it would change |
| `Protection.SplitLeavesEmptyRange` | Fathom/Sources/Runtime/guest_memory.cpp:836-850 | Otherwise exactly which list results, with an empty range in it |
| `Protection.SwappedSplit` | Fathom/Sources/Runtime/guest_memory.cpp:855-858 | The sort may leave the two pieces that begin together in either order; in the other one the empty range stays whatever the protection |
| `Protection.EmptyRequestExample` | Fathom/Sources/Runtime/linux_syscalls.cpp:4913-4919 | A concrete zero-length request, which the mprotect call does not filter, that breaks the list |
| `FixedCommit.RefusedGapLeaks` | Fathom/Sources/Runtime/guest_memory.cpp:650-659 | The invariant survives a partial fixed commit if and only if no refused gap holds a whole empty host page above the floor |
| `FixedCommit.FixedBytes` | Fathom/Sources/Runtime/guest_memory.cpp:643-662 | No committed byte changes; a newly committed one is zero if and only if its host page was empty or it already held zero |
| `FixedCommit.FixedPermissions` | Fathom/Sources/Runtime/guest_memory.cpp:643-662 | No permission is taken away if and only if the new protection covers that of everything committed on the host pages touched |
| `FixedCommit.FixedHost` | Fathom/Sources/Runtime/guest_memory.cpp:288-295 | The host honours every permission afterwards if and only if the commit was writable or the host already allowed it on full pages |
| `FixedCommit.AlignedProtectExact` | Fathom/Sources/Runtime/guest_memory.cpp:808-867 | On whole host pages a protection change gives every committed byte exactly what was asked |
| `MapAnonymous.MapFixedAnonymous` | Fathom/Sources/Runtime/linux_syscalls.cpp:2847-3138 | Succeeds exactly for a non-empty span in the arena; then every byte of it is committed and zero, has the protection asked for, or that and write where its range reaches over the whole host pages, and no byte committed elsewhere changes, whatever shares its host pages |
| `Scenarios.NeighbourLosesWrite` | Fathom/Sources/Runtime/guest_memory.cpp:643-662 | Mapping part of a host page read-only takes write permission from the guest page beside it |
| `Scenarios.StaleByteReappears` | Fathom/Sources/Runtime/guest_memory.cpp:643-662 | A byte from before an unmapping shows up in newly committed memory recorded as never written |
| `Scenarios.RefusedPageIsLost` | Fathom/Sources/Runtime/guest_memory.cpp:650-659 | A refused whole page is neither free nor committed afterwards |
| `Scenarios.LowPageBecomesFree` | Fathom/Sources/Runtime/guest_memory.cpp:693-775 | Releasing the lowest host page puts it on the free list |
| `Scenarios.FixedCommitNotHonoured` | Fathom/Sources/Runtime/guest_memory.cpp:288-295 | The host refuses what the guest is told it may do |
| `Scenarios.OutsideEpochChanges` | Fathom/Sources/Runtime/guest_memory.cpp:146-154 | An epoch changes with nobody told |
| `ScenarioRuns.UsuallyRoomy` | Fathom/Sources/Runtime/guest_memory.cpp:813-814 | An arena on a host with 16 KB pages has the room the histories below need |
| `ScenarioRuns.NeighbourRun` | Fathom/Sources/Runtime/guest_memory.cpp:643-662 | `NeighbourLosesWrite` and `StaleByteReappears` happen in a history of a fresh arena |
| `ScenarioRuns.RefusedRun` | Fathom/Sources/Runtime/guest_memory.cpp:650-659 | `RefusedPageIsLost` happens on a fresh arena |
| `ScenarioRuns.LowPageRun` | Fathom/Sources/Runtime/guest_memory.cpp:693-775 | `LowPageBecomesFree` happens in a history of a fresh arena |
| `ScenarioRuns.NotHonouredRun` | Fathom/Sources/Runtime/guest_memory.cpp:288-295 | `FixedCommitNotHonoured` happens in a history of a fresh arena |
| `ScenarioRuns.OutsideRun` | Fathom/Sources/Runtime/guest_memory.cpp:146-154 | `OutsideEpochChanges` happens in a history of a fresh arena |
| `Invalidation.AccountedStep` | Fathom/Sources/Runtime/fex_engine.cpp:951-957 | Every step keeps each submitted range in exactly one of in progress, deferred, swapped out, queued, taken by the background thread, or done |
| `Invalidation.HeldStep` | Fathom/Sources/Runtime/fex_engine.cpp:1115-1131 | Ranges are deferred only while sweeps are held or a releaser is between its decrement and its swap; the hold count is the number of frozen processes; the deferral lock has at most one holder |
| `Invalidation.SafeStep` | Fathom/Sources/Runtime/fex_engine.cpp:967-987 | No thread a running sweep's copied list names is destroyed, for any number of sweeps, starts and ends |
| `Invalidation.NothingForgottenStep` | Fathom/Sources/Runtime/fex_engine.cpp:938-1041 | Each compiled block is current on every byte or the changed bytes are covered by a range still to be swept |
| `Invalidation.SweepForgetsIff` | Fathom/Sources/Runtime/fex_engine.cpp:967-1041 | Starting a sweep keeps that true if and only if each context with stale code in its range has a live thread or another range still to be swept there |
| `Invalidation.RunIsSound` | Fathom/Sources/Runtime/fex_engine.cpp:842-1131 | Ranges are conserved, held back only while held, and threads outlive the sweeps that name them, in every state of every interleaving |
| `Invalidation.RunForgetsNothing` | Fathom/Sources/Runtime/fex_engine.cpp:938-1041 | No stale code is forgotten in any state of a run in which each sweep reaches the contexts its range covers |
| `Invalidation.LiveContextsForgetNothing` | Fathom/Sources/Runtime/fex_engine.cpp:910-987 | Nor in a run in which, whenever a sweep starts, every context that holds code has a live thread |
| `Invalidation.LastThreadsForgetNothing` | Fathom/Sources/Runtime/fex_engine.cpp:842-934 | Nor in any run that ends no last thread of a context with code |
| `Invalidation.QuietHasNoStaleCode` | Fathom/Sources/Runtime/fex_engine.cpp:1054-1078 | Once everything submitted has been dealt with, no compiled block is stale |
| `SweepRuns.SweepSawNoHold` | Fathom/Sources/Runtime/fex_engine.cpp:951-957 | In every run a sweep of a range starts only if the call that makes it has itself, since it started, found no thread suspended |
| `SweepRuns.HeldThroughoutNeverSweeps` | Fathom/Sources/Runtime/fex_engine.cpp:951-957 | So a call during which threads were suspended all the time neither sweeps nor is about to |
| `SweepRuns.DeferralSawHold` | Fathom/Sources/Runtime/fex_engine.cpp:951-957 | In every run a range is put off only by a call that has itself found threads suspended |
| `SweepRuns.LastLook` | Fathom/Sources/Runtime/fex_engine.cpp:951-957 | Every call in progress was started by a submission or by the background thread, and one past the hold count last read it as zero, one waiting or deferring as above zero |
| `SweepRuns.OnlySweepsDiscard` | Fathom/Sources/Runtime/fex_engine.cpp:991-1026 | In every run compiled code goes only by a sweep of its own context, for a range it has a byte in and its context can see some of |
| `SweepProgress.SomethingHelps` | Fathom/Sources/Runtime/fex_engine.cpp:938-1131 | In every sound state with a range not yet dealt with, some enabled step brings it nearer, by a measure that cannot decrease forever: no deadlock |
| `SweepProgress.CanBeFinished` | Fathom/Sources/Runtime/fex_engine.cpp:938-1131 | Every run can be continued, submitting nothing more, to one that has dealt with a range submitted in it: nothing is stuck behind a hold, the lock, a releaser, the background thread or a thread that compiles |
| `SweepProgress.CanBeDestroyed` | Fathom/Sources/Runtime/fex_engine.cpp:1145-1156 | Every run with a thread that has left the list can be continued to one that has destroyed it: the sweeps it waits for can all be ended |
| `Invalidation.OrphanedContextForgotten` | Fathom/Sources/Runtime/fex_engine.cpp:967-1041 | A reachable state with nothing left to do and a stale block in a context whose last thread has ended |
| `CodeMemory.MemoryStep` | Fathom/Sources/Runtime/guest_memory.cpp:533-867 | Every operation of the address space that adopts nothing over recorded memory is a step of the invalidation protocol, which is told of a release exactly when it met something |
| `CodeMemory.CodeIsCurrent` | Fathom/Sources/Runtime/fex_engine.cpp:842-1131 | In every joint run of an address space and the threads that compile from it, in which each sweep reaches what its range covers, a compiled byte still belongs to the mapping it was compiled from or lies in a range still to be swept out of its context |
| `CodeMemory.UnreachedIsForgotten` | Fathom/Sources/Runtime/fex_engine.cpp:967-1041 | The condition is exact: a sweep that starts without reaching what its range covers leaves a compiled byte of memory since replaced that no range covers |
| `CodeMemory.LastThreadsKeepCurrent` | Fathom/Sources/Runtime/fex_engine.cpp:842-934 | The condition holds, and the code is current, in any joint run that ends no last thread of a context with code |
| `CodeMemory.QuietCodeIsCurrent` | Fathom/Sources/Runtime/fex_engine.cpp:1054-1078 | In such a run, once every announced range has been dealt with, all compiled code is of what is mapped now |
| `Regions.ClampAll` | Fathom/Sources/Runtime/fathom_runtime.cpp:2018-2036 | What is wanted is exactly the bytes of owned regions that are live: of one that meets the heap what lies in it below the break, of one that meets the stack what lies at or above the stack pointer, all of any other |
| `Regions.Merge` | Fathom/Sources/Runtime/fathom_runtime.cpp:2037-2045 | The merged list is the same set of bytes as maximal runs in order |
| `BorrowFork.Hold` | Fathom/Sources/Runtime/fathom_runtime.cpp:2014-2078 | At every address: held, with its epoch, if and only if it is live in an owned region, writable and not shared |
| `BorrowFork.Capture` | Fathom/Sources/Runtime/fathom_runtime.cpp:2047-2078 | Each held span is saved with its epoch and its bytes |
| `BorrowFork.Borrow` | Fathom/Sources/Runtime/fathom_runtime.cpp:2014-2078 | Listing and saving together: what a fork of the process as it stands holds, each byte with its value and epoch of that moment |
| `BorrowFork.HeldIff` | Fathom/Sources/Runtime/fathom_runtime.cpp:2014-2078 | A byte is held if and only if it is committed, writable, not shared, and live in some owned region |
| `BorrowFork.OwnedIsHeld` | Fathom/Sources/Runtime/fathom_runtime.cpp:2018-2036 | So nothing is missed: every writable unshared byte of an owned region clear of heap and stack is held, of one in the heap below its break, and of one in the stack from its pointer up |
| `BorrowFork.HeldIsLive` | Fathom/Sources/Runtime/fathom_runtime.cpp:2018-2036 | Whatever is held was owned, and lies neither above the heap's break nor below the stack pointer |
| `BorrowFork.RestoreBorrowedMemory` | Fathom/Sources/Runtime/fathom_runtime.cpp:1105-1210 | Exactly the eligible regions go back, byte for byte, if the parent's generation is unchanged, nothing otherwise; every one that may have held code is announced, and nothing that did not go back is |
| `BorrowFork.GoesBackIff` | Fathom/Sources/Runtime/fathom_runtime.cpp:1105-1210 | A byte of a region differs afterwards if and only if the saved one does, no part of the region overlaps what the process has loaded, every byte of it is still writable and of the mapping it was saved from, and the host agrees |
| `BorrowFork.ForkRoundTrip` | Fathom/Sources/Runtime/fathom_runtime.cpp:1105-1238 | Whatever ran in between, an eligible held byte has its value from the fork and was held by one mapping throughout; any other is left alone |
| `BorrowFork.RestoreTouchesOnlyHeld` | Fathom/Sources/Runtime/fathom_runtime.cpp:1105-1210 | A restore changes no byte that was not held |
| `Lending.LoanRoundTrip` | Fathom/Sources/Runtime/fathom_runtime.cpp:1739-2207 | In every run of a session, whatever everybody did between the fork and the give-back, a byte of an eligible region not given up has its value from the fork and was held by one mapping throughout; any other borrowed byte is left alone |
| `Lending.GivesBackOnlyBorrowed` | Fathom/Sources/Runtime/fathom_runtime.cpp:1105-1210 | In every run a give-back touches no byte that was not borrowed, in any arena |
| `Lending.NothingRestoredAfterReturn` | Fathom/Sources/Runtime/fathom_runtime.cpp:2111-2207 | In every run, absent a stop request, a give-back after the fork has returned to the parent changes no byte of any arena |
| `Lending.NothingRestoredAfterRelease` | Fathom/Sources/Runtime/fathom_runtime.cpp:1212-1238 | In every run a child that has released its parent puts nothing back, a stop request or not |
| `Lending.SameProgramIff` | Fathom/Sources/Runtime/fathom_runtime.cpp:1105-1210 | In every run what was lent may go back if and only if the parent has not exec'd since, or is no longer in the table |
| `Lending.NothingRestoredAfterExec` | Fathom/Sources/Runtime/fathom_runtime.cpp:2338-2346 | In every run a give-back after the parent has exec'd changes no byte of any arena |
| `Lending.LetGoCanReturn` | Fathom/Sources/Runtime/fathom_runtime.cpp:2111-2207 | In every run, once a child has let its parent go or ended, a fork still waiting for it can return at any time from then on |
| `LendingScenarios.StopRestoresLate` | Fathom/Sources/Runtime/fathom_runtime.cpp:2128-2130 | A run with a stop request in which what the parent wrote after its fork returned is overwritten |
| `ForkPlan.Tile` | Fathom/Sources/Runtime/fathom_runtime.cpp:666-678 | One range is cut into parts that cover it exactly, each known to be shared or not, and each begins and ends at the range's own ends or on a host page |
| `ForkPlan.Plan` | Fathom/Sources/Runtime/fathom_runtime.cpp:666-678 | At every address the plan says what becomes of that byte: nothing, reserved, copied or shared; every part is a piece of one range, cut at its ends or on host pages |
| `CopyFork.Remap` | Fathom/Sources/Runtime/fathom_runtime.cpp:632-666 | One remap lays out the host pages of a part and records them if they are still free; a refused copy leaves no trace |
| `CopyFork.CopyAddressSpace` | Fathom/Sources/Runtime/fathom_runtime.cpp:625-683 | The child is what carrying out the whole plan in order makes of a fresh arena, and satisfies the arena's invariant |
| `CopyComplete.AllRecorded` | Fathom/Sources/Runtime/fathom_runtime.cpp:632-666 | Every part is recorded in the child if and only if no two touch one host page, all lie in the arena above its lowest 64 KB and the host refuses none |
| `CopyComplete.LosesNothingIff` | Fathom/Sources/Runtime/fathom_runtime.cpp:625-683 | A copying fork loses nothing if and only if no host page of the parent holds bytes of two ranges, everything committed lies above the lowest 64 KB of the child's arena and in it, and the host grants the copies; this is what a whole parent means below |
| `CopyResult.ForkArrives` | Fathom/Sources/Runtime/fathom_runtime.cpp:625-683 | The child of a whole parent has exactly the host pages the parent has anything in, and every committed byte keeps its protection |
| `CopyResult.ForkKeepsBytes` | Fathom/Sources/Runtime/fathom_runtime.cpp:639-662 | Of a whole parent, a committed byte reads the same in the child if and only if it is shared, recorded as written, or zero |
| `CopyResult.ForkHonoured` | Fathom/Sources/Runtime/fathom_runtime.cpp:656-661 | Of a whole parent, the host lets the child use a byte as the parent may if and only if it is shared, recorded as written, or not writable; it can be written in the child if and only if it is writable and shared or recorded as written, and read if it can be written or was readable, no more |
| `CopyResult.ForkAtGuestAddress` | Fathom/Sources/Runtime/fathom_runtime.cpp:1776-1825 | For a whole parent whose never-written memory is zero: every committed byte has an image with the same protection and value, never handed out by the child's allocator, at the same guest address if and only if the parent's numbering starts at its arena |
| `CopyResult.AlignedForkAtGuestAddress` | Fathom/Sources/Runtime/fathom_runtime.cpp:1776-1825 | For a parent of host-page-aligned ranges above the lowest 64 KB, a sound written flag and a host that grants the copies: the child has memory at exactly the parent's guest addresses, with the same protection and value |
| `CopyResult.SecondForkKeepsBytes` | Fathom/Sources/Runtime/guest_memory.cpp:127-144 | A byte survives the fork of a whole child if and only if it is shared there, writable and copied before, or zero |
| `CopyResult.SharedPageLosesPart` | Fathom/Sources/Runtime/fathom_runtime.cpp:632-666 | A part that starts in the host page the one before ends in is missing from the child past that page |
| `CopyResult.HoleLosesTheRest` | Fathom/Sources/Runtime/fathom_runtime.cpp:632-666 | Unmapping one guest page near the start of a mapping makes the child lose everything past that host page |
| `Frames.CarriedHolds` | Fathom/Sources/Runtime/fathom_runtime.cpp:632-666 | Read through the host frames the remaps leave, the two arenas hold the bytes the copy says they do |
| `Frames.AloneKeepsOwn` | Fathom/Sources/Runtime/fathom_runtime.cpp:639-662 | Memory backed by a frame of its own changes by its own side's stores there and nothing else |
| `Frames.ForkSharesExactly` | Fathom/Sources/Runtime/fathom_runtime.cpp:622-683 | For a whole parent, and after any stores by either side: a committed byte is one byte for parent and child if and only if the parent shared it, and any other holds what the child itself last stored there or what the fork left |
| `Frames.StoreSeenIffShared` | Fathom/Sources/Runtime/fathom_runtime.cpp:622-683 | For a whole parent, at any later time: a store by either side at a committed byte is what the other reads there if the parent shared the byte, and changes nothing there if not |
| `Frames.ParentSeesOnlyShared` | Fathom/Sources/Runtime/fathom_runtime.cpp:622-683 | Lost parts or not, after any stores by either side the parent reads what it would have read had the child's stores in memory it does not share never been made |
| `ForkScenarios.GrandchildReadsZero` | Fathom/Sources/Runtime/guest_memory.cpp:127-144 | A byte written and then made read-only: the child reads it, the child's own child reads zero |
| `Sessions.NothingDangles` | Fathom/Sources/Runtime/fathom_runtime.cpp:736-783 | In every run of forks, execs, finishes and sweeps, at every interleaving point, no unfinished process refers to a destroyed arena |
| `Sessions.ExecArrives` | Fathom/Sources/Runtime/fathom_runtime.cpp:2312-2346 | In every run, whatever the others do meanwhile, a process that execs ends up in the arena made for it when it began, or in the session's own, which is there, with the space it had then as its previous one |
| `Sessions.LosesNoneIffTidy` | Fathom/Sources/Runtime/fathom_runtime.cpp:707-783 | A step leaves no arena that nobody will free behind if and only if it is tidy: the exact condition for each kind of step |
| `Sessions.LeakedForever` | Fathom/Sources/Runtime/fathom_runtime.cpp:736-783 | An arena no process tracks is never destroyed in any continuation |
| `Sessions.ThirdExecLeaks` | Fathom/Sources/Runtime/fathom_runtime.cpp:2338-2346 | A process that execs three times into arenas of its own leaves the first behind for good |
| `Sessions.FailedForkLeaks` | Fathom/Sources/Runtime/fathom_runtime.cpp:1838-1841 | A copying fork whose thread cannot be made leaves its arena with nobody to free it, and the thread it suspended |
| `Sessions.UnstartedForkLeaks` | Fathom/Sources/Runtime/fathom_runtime.cpp:2094-2107 | A run in which the child's host thread does not start: its arena is left with nobody to free it and the suspended thread with no child to let it go |
| `Sessions.FailedExecLeaks` | Fathom/Sources/Runtime/fathom_runtime.cpp:2319-2336 | An exec that fails after its arena was made leaves that behind |
| `Sessions.LenderFinishesFirst` | Fathom/Sources/Runtime/fathom_runtime.cpp:736-783 | So does a lender that finishes while a child that has execed twice since still names the arena it borrowed |
| `Sessions.HoldsCountFrozen` | Fathom/Sources/Runtime/fathom_runtime.cpp:886-945 | In every run the hold count is the size of the set of processes with suspended threads |
| `Sessions.OlderChildWakesParent` | Fathom/Sources/Runtime/fathom_runtime.cpp:1212-1238 | An older child's exec wakes the parent while a younger one still borrows from it |
| `Sessions.FrozenForGood` | Fathom/Sources/Runtime/fathom_runtime.cpp:1212-1238 | In every run suspended threads stay suspended, and sweeps held, until the fork gives up or some child of the process execs or ends |
| `Sessions.FailedForkStaysFrozen` | Fathom/Sources/Runtime/fathom_runtime.cpp:1838-1841 | In every run the threads a copying fork suspended before its own thread could not be made stay so until then |
| `ProcessTable.Table.FreezeOtherThreads` | Fathom/Sources/Runtime/fathom_runtime.cpp:842-934 | Suspends as many threads as the set of those that can be stopped has, holding sweeps on the first; says whether all stopped |
| `ProcessTable.Table.ThawThreads` | Fathom/Sources/Runtime/fathom_runtime.cpp:936-945 | Lets all go and releases the hold if any was suspended |
| `ProcessTable.Table.ForkProcess` | Fathom/Sources/Runtime/fathom_runtime.cpp:1739-2090 | Every outcome and the state each leaves: no such process, no arena, no thread, a copying child, a borrowing child |
| `ProcessTable.Table.ReleaseParent` | Fathom/Sources/Runtime/fathom_runtime.cpp:1212-1238 | The parent is thawed and the child marked released |
| `ProcessTable.Table.ReleaseOwnArenas` | Fathom/Sources/Runtime/fathom_runtime.cpp:736-783 | Destroys exactly the arenas only this finished process was using |
| `Words.DecodeEncode` | Fathom/Sources/Runtime/elf_loader.cpp:632-641 | A little-endian word reads back as the value modulo the word size |
| `Words.LittleEndian` | Fathom/Sources/Runtime/elf_loader.cpp:632-641 | A word is its bytes lowest first, a wide one its low half and then its high half |
| `InitialStack.ReadBack` | Fathom/Sources/Runtime/elf_loader.cpp:551-553 | A pushed string is read back up to its first NUL, so whole if and only if it has none |
| `InitialStack.EntryUnique` | Fathom/Sources/Runtime/elf_loader.cpp:615-655 | Reading a process-entry stack as section 3.4.1 of the System V AMD64 psABI lays it out has at most one result |
| `StackBuild.Builder.PushStrings` | Fathom/Sources/Runtime/elf_loader.cpp:566-579 | The strings lie apart, in order, terminated and on 16-byte boundaries, and nothing else is written |
| `StackBuild.Builder.PutProgram` | Fathom/Sources/Runtime/elf_loader.cpp:643-655 | The words written read back as argc, both pointer vectors and the auxiliary vector |
| `StackBuild.BuildInitialStack` | Fathom/Sources/Runtime/elf_loader.cpp:540-660 | Succeeds if and only if everything fits; then a reader finds exactly argc, argv, envp and the auxiliary vector with the stack pointer 16-byte aligned, for both word sizes and any 16-aligned base, is told what `ReaderIsTold` says, and nothing outside the stack is written; otherwise memory holds exactly the pushed strings besides what was there |
| `StackBuild.ReaderIsTold` | Fathom/Sources/Runtime/elf_loader.cpp:578-604 | However a built stack is read: the value found under each tag is the program header address, size and count, 4096, the interpreter's base, the entry, user and group 1000, 100 or 0, cut to a word; and those under tags 15, 25 and 31 lead to the machine's name, the random bytes and the program's path |
| `StackBuild.StackPointerIsHighest` | Fathom/Sources/Runtime/elf_loader.cpp:612-626 | The stack pointer is the highest 16-byte boundary with room below the strings for argc, both vectors and nineteen pairs |
| `StackBuild.OverrunIff` | Fathom/Sources/Runtime/elf_loader.cpp:540-600 | The strings leave memory below the stack alone, whatever it holds, if and only if they end at or above its base |
| `StackBuild.LongStringOverruns` | Fathom/Sources/Runtime/elf_loader.cpp:544-548 | A path longer than the stack and nothing else: its first byte is found below the stack, whatever was there |
| `GuestPath.Split` | Fathom/Sources/Runtime/guest_path.cpp:16-32 | The names between slashes, in order, empty ones left out |
| `GuestPath.NamesOfJoined` | Fathom/Sources/Runtime/guest_path.cpp:16-41 | Splitting undoes joining |
| `GuestPath.ResolveGuestPathOnHost` | Fathom/Sources/Runtime/guest_path.cpp:45-108 | The loop ends, by the measure of hops left and names pending, where the recursive walk does |
| `GuestPath.ResolvedStaysUnderRoot` | Fathom/Sources/Runtime/guest_path.cpp:45-108 | The result is the root or below it, by names free of dots, whatever links say |
| `GuestPath.LinkFreeIffFewLinks` | Fathom/Sources/Runtime/guest_path.cpp:78-105 | Where every link can be read and links are followed, no prefix of the result is a link if and only if the path meets at most 40 links |
| `GuestPath.InBudgetIffFewLinks` | Fathom/Sources/Runtime/guest_path.cpp:72-86 | The loop's hop counter stays in bounds if and only if the path meets at most 40 links, counted without it |
| `GuestPath.ResultIsSettled` | Fathom/Sources/Runtime/guest_path.cpp:56-105 | On at most 40 links every prefix of the result is no link or one that cannot be read, the last name excepted if it is not followed; on more, the result is a link |
| `GuestPath.WalkEndsWell` | Fathom/Sources/Runtime/guest_path.cpp:72-86 | The same from any point of the walk on, by the walk's own hop count |
| `GuestPath.WalkInSteps` | Fathom/Sources/Runtime/guest_path.cpp:95-104 | Walking a path is walking its first part and then the rest from there |
| `PathLaws.NamesSplit` | Fathom/Sources/Runtime/guest_path.cpp:16-32 | Splitting at a slash splits the names |
| `PathLaws.DotStays` | Fathom/Sources/Runtime/guest_path.cpp:59-61 | A dot changes nothing |
| `PathLaws.DotDotUndoes` | Fathom/Sources/Runtime/guest_path.cpp:62-68 | Two dots after a name that is no link lead back to where it started |
| `PathLaws.DotDotAtRoot` | Fathom/Sources/Runtime/guest_path.cpp:62-68 | At the root two dots stay there |
| `PathLaws.NameGoesDown` | Fathom/Sources/Runtime/guest_path.cpp:70-92 | A name that is no link, or one that cannot be read, or is the last and not to be followed, leads one name further down |
| `PathLaws.ThroughAbsoluteLink` | Fathom/Sources/Runtime/guest_path.cpp:95-104 | Within the budget, a name that is an absolute link leads where its target does from the root |
| `PathLaws.ThroughRelativeLink` | Fathom/Sources/Runtime/guest_path.cpp:95-104 | And a relative one where its target does from the directory the link is in |
| `PathLaws.ResolveDotDot` | Fathom/Sources/Runtime/guest_path.cpp:45-108 | Resolving a path with a name and two dots in it resolves the path without them, if the name is no link |
| `PathLaws.ResolveThroughLink` | Fathom/Sources/Runtime/guest_path.cpp:45-108 | Within the budget, resolving a path through a link resolves the path with the link replaced by its target |
| `GuestPath.ResolveRoundTrip` | Fathom/Sources/Runtime/guest_path.cpp:45-120 | Within the budget, resolving the guest's name for a result gives that result again |
| `GuestPath.GuestPathLeadsBack` | Fathom/Sources/Runtime/guest_path.cpp:110-120 | There is a guest path exactly if the host path begins with the root, it is absolute, and the root followed by it is the host path if and only if that lies under the root |
| `GuestPath.SiblingIsTakenForChild` | Fathom/Sources/Runtime/guest_path.cpp:111-119 | A sibling directory whose name starts like the root is taken for a child |
| `GuestPath.SelfLinkExhausts` | Fathom/Sources/Runtime/guest_path.cpp:84-86 | A link to itself is left in place |

## Left out

- 64-bit wrap-around: addresses are unbounded, so rounding up near the top of the address space is not modelled.
- `AddressSpace.GuestAddressSpace.MapFreshAnonymous`: a host that refuses a fresh anonymous mapping, or a change to no access, is not modelled; only the refusals the code looks at are parameters.
- The per-thread lookup caches in front of the range queries, and the locks: each method is one atomic step, and the concurrent parts are state machines over such steps.
- `MapAnonymous.MapFixedAnonymous`: does not model taking the span out of shared file mappings first or announcing an executable mapping, and is for a host that refuses nothing.
- `TracedSpace.History.Protect`: is for changes of at least one byte; a zero-length one can leave the invariant, as `Protection.EmptyRequest` says.
- `TracedSpace.History.CommitFixed`: is for a host that refuses no gap; what a refusal does is in `FixedCommit.RefusedGapLeaks`.
- `TracedSpace.History.AdoptCopiedMapping`: is for whole host pages, as the fork passes them; any other span breaks the invariant.
- `TracedSpace.History.AdoptExternalMapping`: is for adoptions that keep the invariant, under the exact condition of `AddressSpace.GuestAddressSpace.AdoptExternalMapping`.
- `CodeMemory.CodeIsCurrent`: is about one address space; epochs of different arenas are counted apart.
- `CopyFork.CopyAddressSpace`: needs every parent address to have an image, so memory recorded outside the arena below the distance between the arenas is not covered, and takes shared spans to be whole host pages, as mappings are; the byte and piece counts it logs are not modelled.
- `BorrowFork.Hold`: takes the list of owned regions, the stack and heap bounds and the shared spans as inputs, as the system call layer reports them.
- Environment switches other than the copy-on-write one, which is a parameter of `ProcessTable.Table.ForkProcess`.
- Wall-clock timeouts: giving up on a fork is a step that may happen at any time.
- Thread and process creation beyond its outcome, signal handlers, register capture, and the JIT's internals, which are foreign code or hardware state.
- `StackBuild.BuildInitialStack`: starts from a stack already allocated; its guard page and the hint it is placed by are not modelled.
- Loading ELF segments: a file format whose placement adds only bounds facts.
- `GuestPath.ResolveGuestPathOnHost`: takes the file system as a fixed function from host paths to link targets; a target cut at the host's path limit is a target like any other.
- The console, network, framebuffer, terminal and Swift parts: I/O and user interface.
