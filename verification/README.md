# WinMali kernel driver: verified model

WinMali is a Windows kernel driver for the Mali-G610 GPU. This project models the
algorithms above its hardware accesses in Dafny and proves what they promise.

| part | files |
|---|---|
| GPU page tables: descriptors, the lazily allocated four-level tree of each VM, all VMs over one physical memory | `Lpae`, `PageTables`, `VmPageTable`, `VmWorld` |
| the fixed bring-up tables and their direct-index shortcut | `Bringup` |
| the firmware processor's tables in a bump pool, and its dynamic windows | `FwPool` |
| the asynchronous submit scheduler, its two rings, reset and DPC; completion order; progress | `SchedRings`, `Sched`, `Shuffles`, `SchedOrder`, `SchedProgress` |
| CSF submission: req/ack words, bind cycle, trampoline, sequence numbers | `Trampoline`, `CsfReqAck`, `CsfJobs`, `CsfRuns`, `Csf` |
| timeline sync objects | `SyncObj` |
| address-space slots, slots together with page tables, handle tables, device rundown | `AsSlots`, `AsLeases`, `VmLeases`, `HandleTables`, `Ownership` |
| tiler-heap chunk chains | `HeapChains`, `TilerHeap` |
| the firmware image parser | `FwImage` |
| the present blit | `PresentBlt` |

Code that updates state in place is a class or a method on arrays, proved against
functions on values; the theorems are about those functions. Code that runs
concurrently is a transition system with one step per lock section, interlocked
operation, event operation or callback. What the kernel, the hardware and the
firmware answer (allocations, address-space commands, Ack, Extract, GPU progress)
is left open: each theorem holds for every answer. Spin-lock sections are atomic.

Automatic induction is switched off on every lemma, so each inductive proof is the one
written down.

## Where the code differs from its comments

- The completion ring overwrites its oldest entry when full
  (KMD/WinMaliDdi.c:685-687); nothing is lost exactly when no push met a full ring.
- The inline fallback and ResetEngine can complete fences out of order. They do so
  exactly when they take an entry while another one is in somebody's hand, or when a
  caller completes its own while others are queued; in all other runs, with any number
  of resets and inline completions, order and marker reports are exact.
- SyncObjWait can clear the event under another sleeper (KMD/WinMaliSync.c:290-305),
  which loses that sleeper's wakeup; no other step does.
- A blit whose rows are wider than the destination pitch overwrites part of a row with
  the next (KMD/WinMaliDdi.c:636-650), unless the pitches agree or there is one row.
- A heap allocation whose mapping fails after some pages frees its frames without
  unmapping them (KMD/WinMaliEscape.c:896-900); those pages stay translated until the
  next allocation there covers them or is taken back.
- KqJobSeq is counted up before the ring-full check (KMD/WinMaliFw.c:1913 and
  1978-1980) and never set back, so after one overflow no later submission reports success.
- ProgramAndStartCsg asks for endpoints by toggling against Ack. If an earlier wake
  is still unanswered (KMD/WinMaliFw.c:1760, result ignored at 2004), its answer is
  taken for the new one. The exact condition is that Req and Ack agree on the
  endpoint bit on entry.
- A rebind refused by the hardware leaves the slot in use but unbound for good
  (KMD/WinMaliMmu.c:762-768).
- Handles are said never to be reused (KMD/WinMaliBo.c:12-14); the counter has 32 bits.
- The section loader does not check that the initial data fits the section
  (KMD/WinMaliFw.c:2459-2462); it writes past the backing exactly when it does not.
- Success of a submission is read off a page that is mapped writable into the VM whose
  stream is called (KMD/WinMaliFw.c:2268-2306). It means that all jobs have ended in
  every run exactly when no called stream stores to that page; one that does can have
  even a well-behaved later job reported finished before it began.

## Assumptions

- The kernel allocator returns a free, page-aligned frame below 2^48, or fails.
- The firmware copies state and endpoint bit into Ack together, from a Req it has
  seen, never going back to an older one; Req versions are ordered by writing.
- A trampoline runs at most once. A job is sound when its trampoline decodes to the
  documented program and its stream writes neither the sync page nor the ring, which
  are mapped writable into every group VM (KMD/WinMaliFw.c:2268-2306). An unsound job
  may write anything there; the success claims are conditional on all jobs being sound.
- When a VM is created its page table translates nothing above the user window: only
  the low CSF pages are mapped by then (KMD/WinMaliVm.c:124-133).
- Context handles are not NULL (stated as a condition; the lemma NullHandleHitsAVm
  shows it is needed).

## Model

| member | source | states |
|---|---|---|
| Lpae.WordsAreNumbers | KMD/WinMaliMmu.c:60-66 | 64-bit descriptors and their (high, frame, low) fields correspond one to one, so masking and or-ing fields lose nothing |
| Lpae.DescriptorValues | KMD/WinMaliMmu.c:60-66 | the number stored for a table or page descriptor, and that frame and permissions decode back |
| Lpae.SamePage | KMD/WinMaliMmu.c:1104-1129 | two addresses use the same four table indices exactly when they agree modulo 2^48 above the page offset |
| PageTables.WalkIsLookup | KMD/WinMaliMmu.c:1104-1129 | in a tree, the hardware walk finds the leaf the ownership list places at those indices, else faults |
| PageTables.WalkStaysInside | KMD/WinMaliMmu.c:1064-1098 | the walk never leaves the owned pages and never meets a block descriptor |
| PageTables.DescriptorsNameDistinctFrames | KMD/WinMaliMmu.c:1064-1098 | two table descriptors in different places name different frames |
| PageTables.DescendKeepsTree | KMD/WinMaliMmu.c:1064-1098 | one descent keeps the tree whatever the allocator answers, never finds a physical address it does not own, and changes no translation |
| PageTables.WalkKeepsTree | KMD/WinMaliMmu.c:1104-1129 | the walk to a leaf table, failing or not, keeps the tree and every translation; a failed walk means the page had no leaf |
| PageTables.SetLeafChangesOnePage | KMD/WinMaliMmu.c:1162-1176 | storing one leaf changes the translation of that page and of no other |
| PageTables.MapRefinesFlat | KMD/WinMaliMmu.c:1132-1178 | the map loop refines a flat map from page to descriptor for every request and every allocator, up to the failing page |
| PageTables.MapTranslation | KMD/WinMaliMmu.c:1132-1178 | inside the 48-bit space: exactly the pages written translate to (frame, attributes), every other address is unchanged, and failure at page k has changed exactly pages 0 to k-1 |
| PageTables.UnmapTranslation | KMD/WinMaliMmu.c:1181-1219 | inside the 48-bit space: unmap leaves exactly its range untranslated, also when walks allocate or fail |
| PageTables.UnmapClearsExactlyItsRange | KMD/WinMaliMmu.c:1181-1219 | the same for any range, in terms of table indices; unmap keeps the tree |
| PageTables.RequestStaysInItsRange | KMD/WinMaliMmu.c:1132-1219 | a request touches only its own range exactly when it ends inside the 48-bit space |
| PageTables.OnePagePerDescriptor | KMD/WinMaliMmu.c:897-936 | the ownership list holds the root plus one page per table descriptor |
| VmPageTable.VmPt.FindPage | KMD/WinMaliMmu.c:1064-1098 | the list search by physical address finds the owned page with that address, or none exists |
| VmPageTable.VmPt.Descend | KMD/WinMaliMmu.c:1064-1098 | the in-place descent computes the specified one and keeps the object valid; it fails exactly when the kernel refused a request |
| VmPageTable.VmPt.WalkToLeaf | KMD/WinMaliMmu.c:1104-1129 | the in-place walk computes the specified one |
| VmPageTable.VmPt.VmMap | KMD/WinMaliMmu.c:1132-1178 | argument errors change nothing; otherwise the tables become what the specified loop makes of them; out of resources means one refusal by the kernel, anything else none |
| VmPageTable.VmPt.VmUnmap | KMD/WinMaliMmu.c:1181-1219 | likewise for unmap, which always reports success on a valid request |
| VmPageTable.VmPt.InitRoot | KMD/WinMaliMmu.c:989-998 | a fresh root translates nothing; failure leaves nothing allocated |
| VmPageTable.VmPt.FreePages | KMD/WinMaliMmu.c:1051-1057 | teardown returns every page of the table exactly once and no page of anyone else |
| VmWorld.RunKeepsWorld | KMD/WinMaliMmu.c:897-1219 | over every run of create, map, unmap and destroy on any number of VMs, with allocation failing anywhere, every VM keeps a tree of frames of its own |
| VmWorld.OperationsAreIsolated | KMD/WinMaliMmu.c:897-1219 | in every reachable state an operation on one VM changes no hardware translation of another |
| VmWorld.OperationsDoWhatWasAsked | KMD/WinMaliMmu.c:1132-1219 | in every reachable state, seen by a walk over all of memory: a map shows frame and permissions of each page of its request up to the one at which memory ran out, an unmap leaves its range untranslated, and neither changes another address |
| VmWorld.CreateAndDestroy | KMD/WinMaliMmu.c:976-1058 | a created VM translates nothing, a destroyed one is gone |
| VmWorld.FramesAreNeverShared | KMD/WinMaliMmu.c:897-936 | in every reachable state no frame is listed twice, within a VM or across two |
| VmWorld.DestroyFreesExactlyItsFrames | KMD/WinMaliMmu.c:1036-1058 | destroying a VM frees exactly its frames |
| Bringup.ResolverIsTheWalk | KMD/WinMaliMmu.c:548-563 | for every address below 2^48 the index shortcut returns a slot exactly when the hardware walk of the wired tables reaches a leaf table, and it is the same slot |
| Bringup.SlotsAreDistinct | KMD/WinMaliMmu.c:548-563 | two addresses resolve to the same slot only if they lie on the same page |
| Bringup.SlotWriteChangesOnePage | KMD/WinMaliMmu.c:601-606 | writing a resolved slot changes the translation of that page only |
| Bringup.SetPagesIsFlat | KMD/WinMaliMmu.c:573-614 | a range call writes exactly the pages before the first one outside the windows and disturbs nothing else |
| Bringup.PagesWritten | KMD/WinMaliMmu.c:573-614 | what a range call leaves, address by address: page i of the range shows page i of the request, frame and permissions, or nothing for an unmap, up to the first page outside the windows |
| Bringup.RangeInsideWindowSucceeds | KMD/WinMaliMmu.c:573-614 | a range that begins and ends in one window is written completely |
| Bringup.RunsAreFlat | KMD/WinMaliMmu.c:573-643 | any sequence of range calls, accepted, rejected or cut short, refines a flat map |
| Bringup.LastCallDecides | KMD/WinMaliMmu.c:573-643 | after any sequence of range calls an address shows that page of the last call that wrote it |
| Bringup.BringupAs.constructor | KMD/WinMaliMmu.c:449-489 | the wiring made at start-up is the wiring the theorems assume |
| Bringup.BringupAs.SetPtes | KMD/WinMaliMmu.c:573-614 | each rejected request with its status; otherwise exactly the pages before the first one outside the windows are written, each with frame and permissions of its page of the request |
| Bringup.InitialTranslation | KMD/WinMaliMmu.c:449-489 | after start-up only the one test page translates |
| FwPool.WalkDownIsWalk | KMD/WinMaliFw.c:625-661 | the pool builder's level loop is the four-level walk |
| FwPool.RunTranslation | KMD/WinMaliFw.c:664-720 | mapping consecutive pages translates exactly that run to base + offset |
| FwPool.Pool.Map4k | KMD/WinMaliFw.c:625-661 | one page mapped from the bump pool is one specified walk and store with the pool as allocator |
| FwPool.SectionNodesIff | KMD/WinMaliFw.c:664-720 | the tables a section list needs are those on the way to some address of a mapped section |
| FwPool.Pool.BuildPtForSections | KMD/WinMaliFw.c:664-720 | it succeeds exactly when the pool holds the tables it has plus those the sections need, one page each; then every address translates to the backing of the last section covering it with attributes from its flags |
| FwPool.LastSectionDecides | KMD/WinMaliFw.c:464-720 | after loading an address leads to its backing page in the last section covering it, writable exactly with flag bit 1 and executable exactly with flag bit 2; other addresses are as before |
| FwPool.Pool.InitMcuDynVa | KMD/WinMaliFw.c:971-984 | the dynamic area starts above every section |
| FwPool.LayoutGrows | KMD/WinMaliFw.c:1001-1034 | a window above everything joins a layout of pairwise disjoint windows over the section map |
| FwPool.LayoutShows | KMD/WinMaliFw.c:1001-1034 | in a layout every window shows its own consecutive frames with its permissions, and the sections what their flags say |
| FwPool.Pool.McuMapContiguous | KMD/WinMaliFw.c:1001-1034 | for any power-of-two alignment: argument errors change nothing; it succeeds exactly when the pool holds the tables needed; then the window lies above all sections and earlier windows, translates to its own frames, and disturbs no earlier translation |
| FwPool.Pool.WindowIsNext | KMD/WinMaliFw.c:1018 | the window starts at the least multiple of the alignment from the old next address on |
| SchedRings.Ring.Enqueue | KMD/WinMaliDdi.c:714-726 | the in-place submit ring appends, or reports full at 63 entries |
| SchedRings.Ring.Dequeue | KMD/WinMaliDdi.c:745-757 | the in-place ring gives back its oldest entry |
| SchedRings.Ring.Push | KMD/WinMaliDdi.c:677-695 | the in-place completion ring keeps the newest 63 entries |
| Sched.EveryFenceIsAccounted | KMD/WinMaliDdi.c:699-788 | in every interleaving of submitters, worker, inline fallback, resets, teardown and DPC, each submitted entry is exactly once queued, held, pushed or dropped, and only markers are dropped |
| Sched.DropsComeFromResets | KMD/WinMaliDdi.c:1110-1162 | nothing is dropped in a run without a reset |
| SchedOrder.OrderlyRunsKeepOrder | KMD/WinMaliDdi.c:699-788 | in every run, resets and inline completions included, in which no entry is taken while another is in somebody's hand: pushed, in hand and ring together are the arrivals with the dropped markers taken out, in order, and each marker reports exactly the last submission that arrived before it, or 0 |
| SchedOrder.OrderLostExactlyByOverlap | KMD/WinMaliDdi.c:736-1162 | after such a run, a step leaves a continuation that breaks the order of arrival exactly when it overlaps: it takes an entry while another is in hand, or completes a caller's own entry while others are queued |
| SchedOrder.ArrivalOrderIffNoBypass | KMD/WinMaliDdi.c:897-1162 | all runs that may use the inline fallback, or resets, or both, complete in the order of arrival exactly when they may use neither |
| SchedOrder.CompletionsFollowQueueOrder | KMD/WinMaliDdi.c:736-788 | without inline fallback and reset, pushed ++ in hand ++ ring is the enqueue order, and each marker reports exactly the last submission before it, or 0 |
| SchedOrder.InlineFallbackOvertakes | KMD/WinMaliDdi.c:897-908 | a concrete run in which the inline fallback completes a later fence first |
| SchedOrder.ResetOvertakes | KMD/WinMaliDdi.c:1130-1152 | a concrete run in which a reset completes a later fence first |
| Sched.NoLostWakeup | KMD/WinMaliDdi.c:715-763 | until stop is requested, a non-empty submit ring means the worker is draining, or the event is set, or an enqueuer is about to set it |
| Sched.NoStrandedCompletion | KMD/WinMaliDriver.c:451-485 | a non-empty completion ring means the DPC is running, queued, or about to be queued by whoever pushed |
| Sched.RunsDeliver | KMD/WinMaliDriver.c:451-485 | what is notified is an in-order subsequence of what was pushed, the ring holds the newest entries, and GpuCompletedFence is the last notified submission |
| Sched.EverythingArrivesUnlessOverwritten | KMD/WinMaliDdi.c:677-695 | notified ++ pending equals pushed exactly when no push met a full ring |
| Sched.AnyNumberIsLost | KMD/WinMaliDdi.c:677-695 | for every k some run loses exactly k notifications to a full ring |
| SchedProgress.DpcDelivers | KMD/WinMaliDriver.c:451-485 | from every reachable state with the DPC idle: once it runs, it ends by itself with the completion ring empty, everything in it notified in order, and GpuCompletedFence the last submission notified, or 0 |
| SchedProgress.WokenWorkerDelivers | KMD/WinMaliDdi.c:736-788 | from every reachable state with the worker waiting, its event set and no stop: by itself it empties the submit ring, pushing every entry in order, markers with the boundary of their place, and waits again |
| SchedProgress.QueuedEntriesAreNotified | KMD/WinMaliDdi.c:736-788 | worker and then DPC: as long as the completion ring holds them, all queued entries are notified, in order, behind what was pending |
| SchedProgress.StoppedWorkerEnds | KMD/WinMaliDdi.c:736-763 | a stopped worker that is woken ends |
| SchedProgress.ResetSweeps | KMD/WinMaliDdi.c:1110-1162 | a reset by itself empties the submit ring, pushing submissions and dropping markers in order, and returns |
| SchedProgress.CallReturns | KMD/WinMaliDdi.c:853-908 | a submit or preempt call by itself returns: its entry is queued and the worker woken, or the caller has completed it |
| SchedProgress.TeardownReturns | KMD/WinMaliDdi.c:830-841 | a teardown sets the stop flag, then the event, and returns once the worker has ended |
| Trampoline.WaitAllNamesEverySlot | KMD/WinMaliFw.c:1905-1911 | the WAIT(all) mask has exactly the bits of the scoreboard slots that exist |
| Trampoline.DecodesToProgram | KMD/WinMaliFw.c:1957-1972 | the sixteen words decode to the documented program exactly when the stream address has 48 bits and both registers fit their fields |
| Trampoline.WordsOfOne | KMD/WinMaliFw.c:1957-1972 | the sixteen words of one trampoline as numbers |
| Trampoline.HardwareRegistersFit | KMD/WinMaliFw.c:1112-1113 | for every register count the hardware can report the registers fit unless fewer than four exist |
| Trampoline.ProgramEffects | KMD/WinMaliFw.c:1922-1956 | whatever registers the called stream leaves behind, the program flushes, calls the stream, leaves the tag after the call, and increments the sequence number only after the wait, and does nothing else |
| CsfReqAck.ToggleKeepsHistory | KMD/WinMaliFw.c:1330-1338 | a START with the endpoint bit toggled against an Ack read earlier keeps at most one flip outstanding |
| CsfReqAck.FreshAnswerIffNothingPending | KMD/WinMaliFw.c:1204-1235 | an answer to such a START can only be its own exactly when Req and Ack agreed on the endpoint bit before; otherwise an older one is taken for it |
| CsfReqAck.RunsKeepHistory | KMD/WinMaliFw.c:1262-1765 | over every run of binds, wakes and terminations, answered at any time or never, at most one endpoint request is outstanding |
| CsfReqAck.Asks | KMD/WinMaliFw.c:1327-1380 | a bind and a wake append a request for state 1 with the endpoint bit opposite to the Ack last read, a termination one for state 0 with the bit of the last request |
| CsfReqAck.BindIsFreshIffSettled | KMD/WinMaliFw.c:1262-1351 | in every reachable state a bind can be answered only by its own processing exactly when Req and Ack agreed on entry |
| CsfReqAck.StaleAnswerIsReached | KMD/WinMaliFw.c:1760-2004 | a concrete run in which an unanswered wake for one address space answers the bind for another |
| CsfJobs.CountedMeansFinished | KMD/WinMaliFw.c:1922-1956 | a job whose increment was performed has had its stream called and its scoreboards waited for, and before that it has not touched the sequence number |
| CsfJobs.TraceOf | KMD/WinMaliFw.c:1957-1972 | the seven effects of a job's trampoline, with the flush id, stream, size and addresses asked for, and a wait naming exactly the scoreboard slots there are |
| CsfJobs.FullCountMeansAll | KMD/WinMaliFw.c:2053-2055 | the count equals the number of jobs exactly when every job has counted |
| CsfRuns.CountIsExactUntilADirtyCall | KMD/WinMaliFw.c:1957-1972 | in every run the sequence number is the number of finished jobs until a stream that may store to its page has been called, and some stream can put any value there exactly from then on |
| CsfRuns.TrustIffStreamsAreClean | KMD/WinMaliFw.c:2053-2055 | for every list of requests: in all runs that submit them in this order, success of the wait means that every job so far has counted and no number was lost, exactly when none of the called streams stores to the page of the sequence number |
| CsfRuns.TrustIffNoDirtyStreams | KMD/WinMaliFw.c:2268-2306 | the same for the class of all runs: it holds exactly when no stream that stores to the page is let in |
| CsfRuns.ScribbleFools | KMD/WinMaliFw.c:2053-2055 | one such stream anywhere in the list has a run in which the wait succeeds for all numbers although no other stream has been called |
| CsfRuns.CleanJobIsFooled | KMD/WinMaliFw.c:2268-2306 | a concrete run in which a well-behaved job submitted after such a stream is reported finished before it began |
| Csf.Csf.WaitReqAck | KMD/WinMaliFw.c:1204-1235 | success means Ack shows what Req asks in the waited fields |
| Csf.Csf.TerminateCsg | KMD/WinMaliFw.c:1359-1386 | terminate leaves the endpoint bit alone and the slot marked stopped whatever the firmware answers |
| Csf.Csf.ProgramAndStartCsg | KMD/WinMaliFw.c:1262-1351 | the ring is emptied at Extract, START is asked for with the endpoint bit toggled against the Ack read; success after a settled entry means the firmware has processed this very START for this address space |
| Csf.Csf.RebindCsgAs | KMD/WinMaliFw.c:1777-1816 | the slot counts as started exactly after a successful bind, and then Config and CurrentCsgAs are the requested space |
| Csf.Csf.WakeCsgIfIdle | KMD/WinMaliFw.c:1705-1765 | a hot slot is left alone; otherwise exactly one START is written, with the endpoint bit toggled against the Ack seen and acknowledging its events |
| Csf.Csf.Append | KMD/WinMaliFw.c:1974-1987 | the trampoline goes to the masked Insert and nowhere else; it overflows exactly when fewer than 128 bytes are left before the end, losing the number given out |
| Csf.Csf.SubmitStreamCall | KMD/WinMaliFw.c:1863-2087 | at most one trampoline, only after a successful bind, asking for exactly this stream, size and flush id with this hardware's registers and scoreboard slots; while all streams are sound, success means every job so far has finished and no number was lost |
| Csf.Csf.SubmitGroupStream | KMD/WinMaliFw.c:2218-2256 | argument errors change nothing; the trampoline asks for exactly this stream, size and flush id; a failed submission leaves the slot programmed for the bring-up space |
| Csf.Csf.SubmitNopJob | KMD/WinMaliFw.c:2174-2203 | the self-test runs in the bring-up space under the same guarantees |
| Csf.Csf.SeqnoCountsFinishedJobs | KMD/WinMaliFw.c:1913-1914 | while all streams are sound the sequence number counts finished jobs, never passes the numbers given out, and reaches them exactly when all jobs finished and none was lost |
| SyncObj.CreatedSignalled | KMD/WinMaliSync.c:84-92 | an object created signalled stands at point 1 and a wait for it returns at once; another stands at 0 |
| SyncObj.WaitByItself | KMD/WinMaliSync.c:276-311 | a wait returns at its first look when the point has been reached; otherwise it clears the event and sleeps |
| SyncObj.SignalByItself | KMD/WinMaliSync.c:204-228 | a signal raises the counter to its point, if that is higher, and then sets the event |
| SyncObj.SleepEnds | KMD/WinMaliSync.c:300-311 | a sleeper ends by its event, its timeout or a failed wait |
| SyncObj.ValueIsTheLargestPoint | KMD/WinMaliSync.c:204-228 | the counter is always the largest point signalled so far, or the initial value |
| SyncObj.ValueNeverDecreases | KMD/WinMaliSync.c:204-228 | along every run the counter never goes back |
| SyncObj.OkMeansReached | KMD/WinMaliSync.c:276-311 | with any number of waiters, OK is returned only when the target is reached |
| SyncObj.WakeupLostExactlyByStealing | KMD/WinMaliSync.c:276-311 | the step that loses a wakeup is exactly a KeClearEvent while another sleeper past its target has only this event coming |
| SyncObj.WakeupsSurviveUnlessStolen | KMD/WinMaliSync.c:276-311 | in every run without such a step, with any number of waiters, a sleeper past its target has the event set or a signaller about to set it |
| SyncObj.NoLostWakeupIffOneWaiter | KMD/WinMaliSync.c:276-311 | that holds for all runs with at most n waits at a time exactly when n is at most one |
| SyncObj.WakeupsAreNeverLost | KMD/WinMaliSync.c:276-311 | while waits come one at a time there is no such step |
| SyncObj.SettledSleeperReturns | KMD/WinMaliSync.c:276-311 | once no signaller is under way, and unless a wakeup was stolen, such a sleeper returns OK in two steps, however many others wait |
| SyncObj.TwoWaitersCanLoseAWakeup | KMD/WinMaliSync.c:290-305 | a concrete run with two waiters in which one sleeps for good although its target is reached |
| AsSlots.Allocator.constructor | KMD/WinMaliMmu.c:656-676 | start-up marks the firmware and bring-up slots present and in use and binds nothing |
| AsSlots.Allocator.FindAsForContext | KMD/WinMaliMmu.c:679-690 | the loop finds the first slot bound to the handle |
| AsSlots.Allocator.PickFreeAs | KMD/WinMaliMmu.c:693-706 | the loop finds the first slot that is present and free |
| AsSlots.Allocator.BindContextRootPt | KMD/WinMaliMmu.c:709-781 | every outcome of a bind: new, rebind, unbind by zero root, rejected, refused by hardware |
| AsLeases.BindShowsRoot | KMD/WinMaliMmu.c:709-781 | after a successful bind the context holds one slot and it shows exactly the root asked for; no other slot changes |
| AsSlots.Answers | KMD/WinMaliMmu.c:709-781 | which answer a bind or a VM gets, from the state of the slots |
| AsSlots.Allocator.UnbindContext | KMD/WinMaliMmu.c:799-829 | the context's slot is freed and cleared, if it has one |
| AsSlots.Allocator.VmInitSlot | KMD/WinMaliMmu.c:976-1033 | a VM gets the first free slot, or none and nothing stays marked |
| AsLeases.RunKeepsLeases | KMD/WinMaliMmu.c:656-1058 | over every run with non-NULL handles the masks, bindings and VM slots stay consistent |
| AsLeases.PresentIsReported | KMD/WinMaliMmu.c:656-676 | in every run the slots that can be given out are those the hardware reports and the two reserved ones |
| AsLeases.SlotsAreExclusive | KMD/WinMaliMmu.c:678-829 | held slots are present, in use, never AS0 or AS1, never shared by two holders, and no holder has two |
| AsLeases.NullHandleHitsAVm | KMD/WinMaliMmu.c:679-690 | with a NULL handle a bind takes over, and an unbind frees, the slot of a VM |
| AsLeases.LeaksExactlyOnFailedRebind | KMD/WinMaliMmu.c:757-769 | a slot becomes in use but unbound exactly when a context that has a slot is refused a rebind, and stays so |
| AsLeases.LeakIsReached | KMD/WinMaliMmu.c:757-769 | a run from start-up that leaks a slot: a bind, and a second one refused |
| VmLeases.SlotShowsItsVm | KMD/WinMaliMmu.c:976-1058 | in every run the VMs with tables are those with slots, each slot is bound to its VM's own root, and a walk over all memory from that base is the walk of the VM's own pages |
| VmLeases.SlotsAreIsolated | KMD/WinMaliMmu.c:709-1219 | in every run nothing done to contexts or other VMs moves a VM's slot or changes an answer of the MMU in it |
| VmLeases.SlotShowsRequests | KMD/WinMaliMmu.c:1132-1219 | in every run a map or unmap of a VM shows as asked for in the VM's own slot, which keeps its root |
| VmLeases.DestroyReleasesBoth | KMD/WinMaliMmu.c:1036-1058 | destroying a VM clears and frees its slot and gives back exactly its pages, and no live VM's slot is bound to one of them |
| HandleTables.HandleTable.Insert | KMD/WinMaliBo.c:161-168 | a new entry goes to the end under the counter's handle |
| HandleTables.HandleTable.TakeByHandle | KMD/WinMaliBo.c:243-263 | the oldest entry with the handle leaves, the rest keep their order |
| HandleTables.HandleTable.RundownOwner | KMD/WinMaliBo.c:279-314 | exactly the owner's entries leave, in order; the others keep their order and the count is the length |
| HandleTables.HandleCollision | KMD/WinMaliBo.c:12-14 | two live entries share a handle exactly when their creations lie a multiple of 2^32 apart |
| HandleTables.SplitByOwner | KMD/WinMaliBo.c:279-314 | a rundown loses and duplicates nothing |
| HandleTables.RundownsCommute | KMD/WinMaliBo.c:279-314 | rundowns of two devices commute |
| Ownership.ReleaseAllClears | KMD/WinMaliVm.c:209-219 | freeing a list of VMs clears exactly their slots' bits and bindings |
| Ownership.RundownKeepsLeases | KMD/WinMaliVm.c:185-220 | a device's rundown leaves exactly the other VMs' leases and a consistent pool |
| Ownership.Adapter.VmCreate | KMD/WinMaliVm.c:75-147 | creating a VM is one step of the lease model; on failure the table and the mask are unchanged |
| Ownership.Adapter.VmDestroy | KMD/WinMaliVm.c:150-182 | destroying a VM is one step of the lease model |
| Ownership.Adapter.DestroyDevice | KMD/WinMaliDdi.c:344-356 | every table keeps exactly the other devices' entries in order, and exactly that device's VMs' slots are cleared |
| HeapChains.LinkDecodes | KMD/WinMaliEscape.c:1003-1005 | a link word gives back the previous chunk's address and the chunk size |
| HeapChains.ChainVisitsExactlyTheChunks | KMD/WinMaliEscape.c:987-1024 | following links through the VM's translation from the first chunk visits exactly the chunks, newest to oldest, and stops at 0 |
| HeapChains.RegionShows | KMD/WinMaliEscape.c:890-892 | every address of an allocation leads to its own page, writable and not executable |
| HeapChains.RegionsAreApart | KMD/WinMaliEscape.c:978-1019 | context pages and chunks of all heaps occupy disjoint address ranges |
| TilerHeap.KmdBase | KMD/WinMaliVm.c:108-111 | the kernel window begins above the user window of every request, on a 64 KiB boundary |
| TilerHeap.HeapVm.AllocMapped | KMD/WinMaliEscape.c:867-932 | exactly what the range translates to afterwards: every page to a fresh frame on success; on a mapping that failed at page k, pages 0 to k-1 still to frames already freed; nothing when the CPU mapping failed; no address outside is disturbed and a failure keeps no frame |
| TilerHeap.HeapVm.AllocNext | KMD/WinMaliEscape.c:1000-1019 | the bump address moves only on success, every earlier allocation stays intact, and which pages stay translated without an allocation is followed exactly |
| TilerHeap.HeapVm.RecordedIffNothingStale | KMD/WinMaliEscape.c:896-900 | every translated address of the kernel's part leads to the page recorded for it exactly when no failed mapping has left pages that are still there |
| TilerHeap.PartialMappingHappens | KMD/WinMaliEscape.c:892-900 | such a state is reached: in a fresh VM a first heap gets its context page, and the mapping of a chunk across a 2 MiB boundary stops after fifteen pages, which stay translated |
| TilerHeap.HeapVm.CreateReal | KMD/WinMaliEscape.c:944-1025 | the rejected requests; on success, which means no refusal by the kernel, the chunks are contiguous above the context page and chained; on failure the bump address stays past what was mapped |
| TilerHeap.HeapVm.EveryHeapHasItsChain | KMD/WinMaliEscape.c:987-1024 | every heap ever finished in the VM still has its whole chain |
| TilerHeap.HeapVm.AllocationsAreApart | KMD/WinMaliEscape.c:978-1019 | allocations of finished and abandoned heaps never overlap |
| FwImage.WordRoundTrip | KMD/WinMaliFw.c:551-564 | a 32-bit little-endian field reads back as written |
| FwImage.ParsesTiles | KMD/WinMaliFw.c:2516-2551 | an image body made of well-sized entries is handled entry by entry, whatever the outcome |
| FwImage.SuccessTiles | KMD/WinMaliFw.c:2516-2551 | when the loop succeeds its entries tile the image body exactly |
| FwImage.HeaderBytes | KMD/WinMaliFw.c:2489-2515 | the accepted image headers, byte by byte |
| FwImage.LoopVerdict | KMD/WinMaliFw.c:2516-2551 | what the loop answers at an offset, from the bytes there |
| FwImage.OtherEntries | KMD/WinMaliFw.c:2516-2551 | an entry of another type is skipped exactly when bit 31 of its word is set, and is an error otherwise |
| FwImage.SectionVerdict | KMD/WinMaliFw.c:2382-2486 | the verdict on every section entry, with flag bits and limits as numbers: protected entries are never recorded, unsupported flags are an error |
| FwImage.AcceptAllIff | KMD/WinMaliFw.c:2382-2486 | entries are all accepted exactly when each passes its checks and there is room and memory, and exactly their sections are recorded |
| FwImage.ParseIff | KMD/WinMaliFw.c:2489-2557 | the parser accepts an image exactly when it is well formed |
| FwImage.DescribedParses | KMD/WinMaliFw.c:2489-2557 | it then records the non-protected interface entries in file order, and SharedIndex names the last one at the shared region |
| FwImage.ParseInvertsSerialize | KMD/WinMaliFw.c:2489-2557 | parsing gives back every serialized section list within the limits |
| FwImage.CopyStaysInside | KMD/WinMaliFw.c:2445-2464 | the copy of the initial data stays inside the backing exactly when it fits, and then the backing is the data and zeros |
| FwImage.LoadingOverrunsIff | KMD/WinMaliFw.c:2445-2464 | loading writes outside some backing exactly when a recorded entry has data longer than its section; the loader does not check |
| FwImage.OversizedIsAccepted | KMD/WinMaliFw.c:2445-2464 | an image with such an entry that the parser accepts |
| FwImage.FwCtx.ParseImage | KMD/WinMaliFw.c:2489-2557 | the in-place loop terminates, reads inside the image, and computes the specified result, status included |
| FwImage.FwCtx.LoadSectionEntry | KMD/WinMaliFw.c:2382-2486 | one interface entry: every check, in order, and what is recorded |
| PresentBlt.ClampIsIntersection | KMD/WinMaliDdi.c:622-634 | as long as nothing wraps the clamp intersects the rectangle with the source |
| PresentBlt.FittingRowsAreAPrefix | KMD/WinMaliDdi.c:636-649 | the rows that fit both surfaces form a prefix |
| PresentBlt.LastRowWins | KMD/WinMaliDdi.c:636-650 | each destination byte comes from the last copied row that covers it, or is unchanged |
| PresentBlt.ExactIffRowsApart | KMD/WinMaliDdi.c:636-650 | rows arrive exactly, for all contents of surfaces of these sizes, exactly when there is at most one, or they are no wider than the destination pitch, or the pitches agree |
| PresentBlt.BltIsExactIff | KMD/WinMaliDdi.c:615-650 | the same condition for the width, height and row count of the blit itself |
| PresentBlt.NarrowPitchLosesData | KMD/WinMaliDdi.c:615-650 | a request between one-page surfaces that arrives and is not copied exactly |
| PresentBlt.CopyMovesRectangle | KMD/WinMaliDdi.c:636-650 | with rows apart or in step, every byte of every pixel comes from its place in the source, and no other byte changes |
| PresentBlt.Extent | KMD/WinMaliDdi.c:615-634 | as long as nothing wraps: width and height are what was asked for, cut back to what the source holds from its origin on |
| PresentBlt.CopyRows | KMD/WinMaliDdi.c:636-650 | the machine-arithmetic loop copies exactly the rows that lie inside both surfaces, pixel by pixel to their places |
| PresentBlt.ExecuteBlt | KMD/WinMaliDdi.c:571-659 | dropped requests change nothing; otherwise exactly the fitting rows of the clamped rectangle are moved to their places |

## Left out

- FwPool.Pool.McuMapContiguous: leaves out windows that end past 2^48, which the source bounds by memory only, and alignments that are no power of two, which no caller passes.
- PresentBlt.ExecuteBlt: leaves out rectangles whose row numbers pass 2^31 on a surface with that many rows, where the row number wraps, and one allocation as both source and destination.
- PresentBlt.CopyRows: leaves out the same two cases.
- TilerHeap.HeapVm.CreateReal: states chain and addresses only while every allocation so far was asked for inside the 48-bit space; beyond it mappings alias.
- Csf.Csf.Append: reads Insert and Extract modulo the ring size; Extract rests on 8-byte, or where stated on 128-byte, boundaries.
- Ownership.Adapter.VmCreate: the table entry keeps the slot only; page tables and slots together are in VmLeases.
- Ownership.Adapter.VmDestroy: likewise; the freeing of the table is in VmLeases and VmPageTable.
- CsfRuns.TrustIffStreamsAreClean: is about requests whose trampoline decodes to the documented program; streams that store to the ring pages are covered by the Csf contracts only.
- NULL adapter, NULL interface and magic-number checks, and the ready flags that only repeat them.
- TLB flushes, doorbells, interrupts, power-up, polling delays and every other register access.
- Leaf attributes other than the four variants callers pass.
- The queue and suspend-buffer fields ProgramAndStartCsg writes at every bind; only Config, Insert and Extract are modelled, and its two reads of Extract are one.
- Fault decoding, the shader probe, the tag comparison on timeouts and RecoverFaultedAs: diagnostics and address-space commands.
- Multi-handle and binary SyncObjWait: one event wait each.
- VmBind calls that reach into the kernel window, and GPU writes to heap chunks.
- Buffer-object pages, user mappings, labels and reference counts: the handle tables track ownership only.
- Failure of SchedInit: its state is the one after teardown, in which every submission completes inline.
- UnbindContext frees the slot before disabling it; the window between is one atomic call here.
- StopDevice and MmuTeardown with live VMs; escape dispatch, DevQuery, allocation sizing, DXGK page-table encoding, capability tables and stubs.
