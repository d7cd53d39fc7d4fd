# NativeKit model

A Dafny model of the portable core of NativeKit and of the stateful parts of its Android backend, with proofs of
what their code and documentation promise. `dafny verify dfyconfig.toml` checks all of it. Claims are
about all inputs, all histories or all interleavings that meet the stated preconditions; none is limited to a number of
steps.

The parts, in the order of the table:

- **Event queue.** One main deque and two side deques (deferred readiness records, parked watch overflows), a count
  limit, a byte budget, coalescing and eviction. `QueueModel` says what one push and one poll do as functions,
  `QueuePush` what a push means for each class of event; `EventQueue` is the class with the deques and refines the
  functions. `QueueRuns` adds a history (pushed, stored, delivered, absorbed, given up), over which `QueueOrder`,
  `QueueDiscrete`, `QueueConservation`, `QueueMeaning` and `QueueAccounting` prove order, conservation, that
  coalescing preserves meaning, and the limits. `FileWatch` packs the payloads that the queue looks into.
- **Gamepad events.** Snapshot diffs, replayed directly and through the coalescing queue.
- **Accessibility.** The parent map of a surface as a forest (`Forest`), with atomic batches.
- **Android surfaces.** The life cycle of one surface with everything deferred during a prepared frame, and share
  counts with the leaf-first teardown loops.
- **Render executor.** Producers, the render thread and the thread that stops it, as interleaved steps of one lock
  section each.
- **Handle registry and menus.** Generation-checked handles, and the tree of menus and items over such handles, with
  its histories (`MenuHistory`).
- **Codecs.** Packed resource lists and their two wrappers with the decoder that applications call; UTF-16 to
  UTF-8; gamepad mapping lines with parser, printer, the language they accept (`MappingGrammar`) and application; dead
  zones.
- **Masking passes.** The three passes of the exception-syntax check, which lines the branch pass keeps
  (`KeptLines`), and what the two lexers make of code, comments and literals (`TokenMask`).

Where the code is imperative the model has a class or a method with the same loops, proved against a function; the
properties are lemmas about that function. Inputs that stand for the world outside are parameters: whether a Java
call, an EGL call, a platform menu or a memory allocation succeeds, which handle the registry issued, which
conditions of a build hold.

## What the model shows about the code

- The comment at `src/core/file_watch.hpp:18-19` says the queue keeps one overflow per source. The eviction at
  `src/core/event_queue.cpp:191-199` can take another source's queued overflow. `OneOverflowPerWatcherFails` gives
  a history, `OverflowSurvivesExactlyUnless` the exact condition, and the number of overflows held never falls by
  a push.
- A resize that was deferred together with the loss of its surface is dropped
  (`src/android/nativekit_android.cpp:863-867`); `ClosedFrameCatchesUp` states it.
- The shutdown loop at `src/android/nativekit_android.cpp:1093-1100` ends if no surface has a prepared frame or a
  retained device (`Shutdown`) and otherwise not at all (`BlockedShutdownNeverEnds`); the loop over one host's
  surfaces at lines 1184-1193 likewise (`DestroyHost`, `BlockedHostNeverEnds`).
- The branch scan takes a directive inside a block comment for a directive (`scripts/check_no_exceptions.py:19`, and
  the order of the passes at lines 226-227): `/*`, `#ifndef NK_ENABLE_NO_EXCEPTIONS`, `*/` blanks the code that
  follows although every build compiles it (`CommentedDirectiveBlanksCode`). `FalseIfBlanks` is the general case,
  `KeptExactly` the exact condition for a line to be kept, and `AgreementKeeps` shows that it holds of compiled lines
  wherever scan and preprocessor agree on the directives.
- A file-change payload with an old path but no path would have the old path over its own header
  (`src/core/file_watch.cpp:34-42`); `Payload` reads back in every other case.
- A resource list reserves one byte for the NUL of an empty URI without using it; it still reads back
  (`ListPayload`).

## Model

| member | source | states |
|---|---|---|
| Events.ClassesAreDisjoint | src/core/event_queue.cpp:15-66 | no event is of two of the classes completion, readiness record, watch overflow and coalescible |
| Events.SameTargetIsTargetEquality | src/core/event_queue.cpp:73-107 | the pairwise coalescing test is equality of one target computed from each event alone, so it is symmetric and transitive and an absent target matches nothing |
| EventQueues.EventQueue.Push | src/core/event_queue.cpp:151-234 | the in-place push refines the pure one on all three deques and the byte counter, keeps the structural invariant, and answers queue-full exactly when an ordinary event is over the byte budget or meets a full queue without an event of its target that it may replace |
| EventQueues.EventQueue.PushOverflow | src/core/event_queue.cpp:184-214 | the overflow branch (evict, re-park or park) refines its pure effect |
| EventQueues.EventQueue.PromoteForRequest | src/core/event_queue.cpp:139-149 | moves exactly the deferred records of the completion's source and request, in order, and keeps the others in order |
| EventQueues.EventQueue.FindReplaceable | src/core/event_queue.cpp:162-183 | finds the last queued event of the same target; it finds one exactly when the newest queued event has that target or, for the interleaved kinds, any has |
| EventQueues.EventQueue.FindVictim | src/core/event_queue.cpp:184-200 | finds the first coalescible event if there is one, else the first that is neither completion nor readiness record; it fails exactly when every event is one of those two |
| EventQueues.EventQueue.HoldsReadiness | src/core/event_queue.cpp:217-223 | true exactly when the main or the deferred deque holds a record of the same kind, source and request |
| EventQueues.EventQueue.PromoteDeferred | src/core/event_queue.cpp:121-129 | the refill loop moves the number of deferred records that the room allows, one for a queue without capacity |
| EventQueues.EventQueue.PromotePending | src/core/event_queue.cpp:131-137 | moves at most one parked overflow |
| EventQueues.EventQueue.Poll | src/core/event_queue.cpp:236-268 | refines the pure poll; when the payload cannot be copied nothing is lost, the queue is only refilled and keeps its invariant |
| EventQueues.EventQueue.Empty | src/core/event_queue.cpp:270-273 | true exactly when the three deques together hold nothing |
| EventQueues.EventQueue.Clear | src/core/event_queue.cpp:275-281 | ends in the empty queue with a zero byte counter |
| QueuePush.CoalesceIndexExactly | src/core/event_queue.cpp:162-183 | the search succeeds exactly when the newest event, or for the interleaved kinds any event, has the target of the pushed one, and then gives the last event of that target |
| QueuePush.CoalescingPush | src/core/event_queue.cpp:162-183 | an event within the budget that may so replace one is never refused; only that position changes, to the event with the older of the two stamps |
| QueuePush.OrdinaryPush | src/core/event_queue.cpp:157-161 | any other ordinary event is appended if budget and capacity allow it and refused if not, and no queued event changes |
| QueuePush.CompletionPush | src/core/event_queue.cpp:229-233 | a completion always goes to the end, behind the deferred records of its request, full or not |
| QueuePush.ReadinessPush | src/core/event_queue.cpp:215-228 | a readiness record is appended where there is room, else dropped for an equal one or deferred |
| QueuePush.OverflowPush | src/core/event_queue.cpp:184-200 | an overflow is appended, a full queue giving up its first coalescible event or, without one, its first event that is neither completion nor readiness record |
| QueuePush.OverflowWaits | src/core/event_queue.cpp:201-214 | where a full queue has nothing to give up, the overflow waits aside in place of the earlier one of its source, or behind the others |
| QueueModel.PushKeepsSound | src/core/event_queue.cpp:184-233 | a push keeps: while a side deque holds something the main deque is full, and deferred records and parked overflows are of their kinds |
| QueueModel.PollKeepsSound | src/core/event_queue.cpp:236-268 | a refill and a poll keep the same invariant |
| QueueModel.RefillAppends | src/core/event_queue.cpp:121-137 | a refill only appends to the main deque, in order, what it takes off the fronts of the side deques |
| QueueModel.RefillExactly | src/core/event_queue.cpp:121-137 | a refill takes deferred records and then at most one parked overflow as long as the main deque is below its capacity or empty, no fewer and no more |
| QueueModel.RefillIsEmptyOnlyIfAllIs | src/core/event_queue.cpp:238-243 | after a refill the main deque is empty only if all three are, and the total size has not changed |
| QueueRuns.RunIsSteady | src/core/event_queue.cpp:151-281 | the invariant holds after every run of pushes and polls, for every capacity including 0 |
| QueueRuns.StepPollIsPoll | src/core/event_queue.cpp:236-268 | a run's poll step is the queue's poll and records exactly the event that poll yields |
| QueueOrder.PushAppendsToRequest | src/core/event_queue.cpp:215-233 | of one request, a push puts its event behind everything that waits and disturbs nothing else, even when it moves deferred records forward |
| QueueOrder.RunIsInOrder | src/core/event_queue.cpp:121-149 | in every run, delivered plus waiting completions and readiness records of a request are those stored, in storing order |
| QueueOrder.DeliveredInStoredOrder | src/core/event_queue.cpp:121-149 | so what has been polled of a request is a prefix of what was stored of it, and all of it once the queue is empty |
| QueueConservation.RefusedExactlyWhen | src/core/event_queue.cpp:157-161 | a push is refused exactly when an ordinary event is over the byte budget or meets a full queue without an event of its target that it may replace; completions, readiness records and overflows never |
| QueueConservation.DuplicateExactlyWhen | src/core/event_queue.cpp:215-223 | a push is dropped as a duplicate exactly when a readiness record meets a full queue that holds one of the same kind and request |
| QueueConservation.RunConserves | src/core/event_queue.cpp:151-268 | in every run and with multiplicity: pushed = delivered (itself or absorbed) + held (itself or absorbed) + given up |
| QueueConservation.RunLosesNoCompletion | src/core/event_queue.cpp:184-233 | no run gives up a completion, nor a readiness record except for a stored equivalent; neither is ever absorbed |
| QueueConservation.PollYieldsOne | src/core/event_queue.cpp:236-268 | a poll yields an event exactly when some deque holds one, and then removes exactly one |
| QueueConservation.PollsDrain | src/core/event_queue.cpp:236-268 | as many polls as there are events yield exactly the events held, with multiplicity, and empty the queue, whatever the capacity |
| QueueMeaning.CoalescedMeansAppended | src/core/event_queue.cpp:162-183 | overwriting the chosen position means to a last-value consumer what appending would have meant |
| QueueMeaning.RunIsFaithful | src/core/event_queue.cpp:151-268 | in a run without refusal and eviction, folding what was polled and what waits gives what folding every push gives |
| QueueMeaning.DrainedMeansPushed | src/core/event_queue.cpp:162-183 | once such a run has emptied the queue, the polled events alone fold to the same state as all pushed events |
| QueueMeaning.ObserveKeepsLatest | src/core/event_queue.cpp:51-107 | the concrete view (latest value per target, log of discrete events with the values they were pushed after) is a consumer the law covers |
| QueueMeaning.OldestStampIsLeast | src/core/event_queue.cpp:109-115 | the folded stamp is the least non-zero stamp of its inputs and 0 only if they have none |
| QueueMeaning.RunRepresents | src/core/event_queue.cpp:162-183 | in every run each delivered event is the newest of the inputs it absorbed, all of one target, with the least non-zero stamp any of them had |
| QueueDiscrete.RunKeepsDiscrete | src/core/event_queue.cpp:151-268 | in every run, refusals and evictions included, the delivered and waiting events that neither coalesce nor may wait aside are the stored ones less those an overflow displaced, with multiplicity and in storing order, and all of the stored ones when none was displaced |
| QueueDiscrete.StoredInPushOrder | src/core/event_queue.cpp:151-234 | what a run has stored it was pushed, in that order |
| QueueAccounting.ReleasedWasHeld | src/core/event_queue.cpp:168-213 | what a push subtracts from the byte counter was counted, so the counter never underflows |
| QueueAccounting.BytesAfterEffect | src/core/event_queue.cpp:151-234 | after a push the counter is the payload total of the three deques |
| QueueAccounting.PollReleasesBytes | src/core/event_queue.cpp:263-266 | a poll lowers the total by the payload it yields and by nothing else |
| QueueAccounting.AcceptedOrdinaryFitsBudget | src/core/event_queue.cpp:157-161 | an accepted ordinary event leaves the total within the byte budget |
| QueueAccounting.PushKeepsLimits | src/core/event_queue.cpp:184-233 | ordinary events in the main deque never exceed the capacity, and each source has at most one parked overflow |
| QueueAccounting.PollKeepsLimits | src/core/event_queue.cpp:236-268 | a poll keeps both limits |
| QueueAccounting.PushKeepsOverflows | src/core/event_queue.cpp:184-214 | no push lowers the number of overflows held |
| QueueAccounting.RefillKeepsOverflows | src/core/event_queue.cpp:121-137 | a refill, and so a poll whose payload cannot be copied, keeps that number |
| QueueAccounting.PollReleasesOverflows | src/core/event_queue.cpp:236-268 | a poll lowers it exactly by the overflow it yields |
| QueueAccounting.OverflowSurvivesExactlyUnless | src/core/event_queue.cpp:184-214 | a push leaves a held overflow of a source in place unless it is itself an overflow of another source that evicts the only one; then, and only then, it is gone |
| QueueAccounting.OneOverflowPerWatcherFails | src/core/file_watch.hpp:18-20 | the promise of one overflow kept per source fails: whatever the byte budget, a queue of capacity one loses any watcher's overflow to that of any other watcher, both with their real payloads |
| FileWatch.Payload | src/core/file_watch.cpp:27-50 | the payload reads back as the change it was built from, each path NUL-terminated inside the buffer and an absent one with a zero offset, if and only if no old path comes without a path; the size is exact either way |
| FileWatch.ReadyEvent | src/core/file_watch.cpp:62-70 | a ready event is a readiness record of its registration whose payload reads back as an added directory, and it never merges |
| FileWatch.OverflowEvent | src/core/file_watch.cpp:52-60 | an overflow event is of the overflow class and its payload reads back as a change without paths |
| FileWatch.MergeExactlyModificationsOfOnePath | src/core/event_queue.cpp:78-97 | two file changes built so merge exactly when both are modifications of the same path from the same watcher |
| GamepadEvents.Tracker.Update | src/core/gamepad.cpp:455-484 | the update loop emits one event per changed button or axis and keeps the new snapshot, for readings that fail, come first, or are not to be reported too |
| GamepadEvents.Tracker.Disconnect | src/core/gamepad.cpp:486-488 | forgets exactly one joystick's baseline |
| GamepadEvents.ListenerKeepsLatest | src/core/event_queue.cpp:98-106 | a listener that writes each state event at its index is a last-value consumer, so coalescing may serve it |
| GamepadEvents.DiffExactly | src/core/gamepad.cpp:469-482 | a diff tells each changed button and axis with its new value and has no further event |
| GamepadEvents.FoldDiff | src/core/gamepad.cpp:469-482 | replaying one diff over a state that agrees with the old snapshot gives the new one, with the float comparison's NaN and signed zero |
| GamepadEvents.EmittedEventsTrackState | src/core/gamepad.cpp:455-492 | over any history of several joysticks, replaying the events emitted since the last baseline gives the latest snapshot |
| GamepadEvents.PolledEventsTrackState | src/core/gamepad.cpp:190-198 | the same for the events polled from a drained coalescing queue that refused and evicted nothing |
| Forest.WalkIsShort | src/android/nativekit_android.cpp:2456-2466 | pigeonhole: a walk upwards that has not ended has visited fewer steps than there are nodes |
| Forest.PlacedIsForest | src/android/nativekit_android.cpp:2658-2659 | hanging a node where it is not above its new parent keeps a forest |
| Forest.PlacedAboveIsNoForest | src/android/nativekit_android.cpp:2649-2657 | hanging a node below itself makes a cycle |
| Accessibility.UpdatedIsForest | src/android/nativekit_android.cpp:2593-2664 | an accepted batch leaves a closed forest without cycles |
| Accessibility.RemoveAllTakesSubtrees | src/android/nativekit_android.cpp:2593-2607 | removing a list of nodes in turn removes exactly the subtrees of all of them |
| Accessibility.UpdatedIsExact | src/android/nativekit_android.cpp:2593-2664 | an accepted batch removes exactly the listed subtrees, gives each placed node its last named parent and leaves every other node its parent |
| Accessibility.UpdatedExactly | src/android/nativekit_android.cpp:2593-2664 | a batch is accepted if and only if every removed node exists and is not gone with one before it, every placed node is valid with its parent there in time and no cycle made, and a focused node remains or is placed; the result is the remaining map with the nodes placed |
| Accessibility.PlaceableExactly | src/android/nativekit_android.cpp:2649-2657 | a node may be placed if and only if its fields are valid, its parent exists and the map with it is a forest |
| Accessibility.WouldCycle | src/android/nativekit_android.cpp:2456-2466 | the ancestor walk answers whether the node is above its new parent, ends, and its depth guard never decides |
| Accessibility.CollectSubtree | src/android/nativekit_android.cpp:2531-2536 | the growing work list ends with exactly the nodes of the subtree |
| Accessibility.WithoutSubtree | src/android/nativekit_android.cpp:2531-2539 | removes exactly the subtree |
| Accessibility.RemoveListed | src/android/nativekit_android.cpp:2593-2607 | the removal loop leaves the map without all listed subtrees exactly when every listed node exists and is not below one listed before it, and refuses otherwise |
| Accessibility.PlaceListed | src/android/nativekit_android.cpp:2608-2659 | the placing loop gives the map with all nodes placed exactly when each is valid, finds its parent in the map so far and makes no cycle, re-parented nodes included |
| Accessibility.NodeTree.SetNode | src/android/nativekit_android.cpp:2403-2512 | re-parents one node exactly when the forest allows it and the platform accepts; otherwise nothing changes |
| Accessibility.NodeTree.RemoveNode | src/android/nativekit_android.cpp:2515-2541 | removes exactly one subtree, or nothing on any error |
| Accessibility.NodeTree.UpdateAll | src/android/nativekit_android.cpp:2577-2753 | the batch is atomic and refused as invalid exactly when it is not acceptable in that sense; on success the map is the one described, on every error the old one |
| SurfaceLifecycle.RunKeepsInv | src/android/nativekit_android.cpp:811-896 | in every history a prepared frame has its window, nothing is pending without one, a window is attached exactly when READY was the last word, and two READY events have a LOST between them |
| SurfaceLifecycle.PreparedFrameIsFrozen | src/android/nativekit_android.cpp:3082-3143 | while a frame stays prepared no operation takes the window or changes the framebuffer size |
| SurfaceLifecycle.ClosedFrameCatchesUp | src/android/nativekit_android.cpp:3217-3232 | closing the frame carries out everything deferred and only that; a deferred loss discards a deferred resize, a deferred surface replaces the lost one if it attaches |
| SurfaceLifecycle.CreatedMakesReady | src/android/nativekit_android.cpp:3638-3654 | in every state of a run: without a prepared frame a created callback that attaches makes the surface ready with exactly that window and reports LOST, if one was attached, then READY; one that does not attach leaves no window and reports the loss alone; during a frame it is only noted |
| SurfaceLifecycle.DestroyedTakesWindow | src/android/nativekit_android.cpp:3680-3685 | a destroyed callback takes window and sizes away and reports the loss once, or waits for the end of the frame |
| SurfaceLifecycle.ChangedStoresSize | src/android/nativekit_android.cpp:3656-3678 | a changed callback stores the size and reports it once; the framebuffer size follows at once, or is noted during a frame |
| SurfaceLifecycle.CurrentPreparesFrame | src/android/nativekit_android.cpp:3082-3107 | in every state of a run making current prepares a frame exactly on an OpenGL ES surface that has its window, is not about to lose it and can be bound |
| SurfaceLifecycle.FramesAreClosed | src/android/nativekit_android.cpp:3109-3232 | finishing and presenting close a prepared frame, presenting if the surface can be bound; without one finishing is refused and presenting changes nothing |
| SurfaceLifecycle.DestroyIsSilent | src/android/nativekit_android.cpp:898-942 | destroying a surface takes everything and reports nothing; a prepared frame forbids it |
| SurfaceLifecycle.Surface.Attach | src/android/nativekit_android.cpp:811-830 | the flags and window after each way an attachment can end |
| SurfaceLifecycle.Surface.Release | src/android/nativekit_android.cpp:847-896 | refines the pure release: deferred while prepared, LOST reported once, the pending surface attached or LOST reported again |
| SurfaceLifecycle.Surface.ApplyResize | src/android/nativekit_android.cpp:832-838 | takes over a pending framebuffer size once |
| SurfaceLifecycle.Surface.Current | src/android/nativekit_android.cpp:3082-3107 | marks the frame prepared exactly when the surface is ready, not being lost, and the binding succeeds |
| SurfaceLifecycle.Surface.PresentFrame | src/android/nativekit_android.cpp:3109-3143 | refines the pure presentation, whose frame is closed whether or not the swap succeeds |
| SurfaceLifecycle.Surface.FinishFrame | src/android/nativekit_android.cpp:3217-3232 | refines the pure finish, refused without a prepared frame |
| SurfaceLifecycle.Surface.NativeSurfaceCreated | src/android/nativekit_android.cpp:3638-3654 | without a prepared frame the window is the new surface exactly if it attaches, and LOST and READY are reported accordingly; during a frame a second pending surface replaces the first; the invariant is kept |
| SurfaceLifecycle.Surface.NativeSurfaceChanged | src/android/nativekit_android.cpp:3656-3678 | refines the pure callback; a resize during a prepared frame is only noted |
| SurfaceSharing.WithIsConsistent | src/android/nativekit_android.cpp:2931-3008 | creating a surface keeps share counts exact, chains ending at a root, and sharing inside one host and one kind of context |
| SurfaceSharing.WithoutIsConsistent | src/android/nativekit_android.cpp:936-939 | destroying a surface that none shares from keeps them too, and its parent's count was positive |
| SurfaceSharing.HostHasLeaf | src/android/nativekit_android.cpp:1184-1193 | a host that has surfaces has one that none shares from |
| SurfaceSharing.TableHasLeaf | src/android/nativekit_android.cpp:1093-1100 | so has the whole table while it is not empty |
| SurfaceSharing.DestroyableExactly | src/android/nativekit_android.cpp:898-942 | a surface can be destroyed if and only if none shares from it, no frame is prepared on it, and it is not the end of a chain that owns retained images |
| SurfaceSharing.SurfaceTable.Create | src/android/nativekit_android.cpp:2931-3008 | shares only from a live surface of the same host and kind of context; on any failure, that of the view after the bookkeeping included, nothing changes |
| SurfaceSharing.SurfaceTable.SetPrepared | src/android/nativekit_android.cpp:3105-3139 | marking a frame prepared or closed keeps the table consistent and changes nothing else |
| SurfaceSharing.SurfaceTable.DeviceSurface | src/android/nativekit_android.cpp:914-916 | following a share chain ends, at a surface that shares from none |
| SurfaceSharing.SurfaceTable.Destroy | src/android/nativekit_android.cpp:898-942 | destroys exactly surfaces that none shares from, without prepared frame and without retained images of their own |
| SurfaceSharing.SurfaceTable.Shutdown | src/android/nativekit_android.cpp:1093-1100 | with no prepared frame and no retained device the loop always finds a leaf, ends, and leaves no surface |
| SurfaceSharing.SurfaceTable.DestroyHost | src/android/nativekit_android.cpp:1184-1193 | under the same condition on the host it ends, destroys exactly that host's surfaces and leaves the others untouched |
| SurfaceSharing.BlockedShutdownNeverEnds | src/android/nativekit_android.cpp:1093-1100 | a prepared frame or a retained device keeps the shutdown loop running for ever, so the condition above is exact |
| SurfaceSharing.BlockedHostNeverEnds | src/android/nativekit_android.cpp:1184-1193 | so does one on a host for the host loop, which keeps finding a leaf of that host |
| RenderExecutor.TaskQueue.Dispatch | src/core/executor.cpp:293-326 | accepts a task exactly while bound, accepting and not stopping, with fewer than 4096 tasks queued and at most 4 MiB with its charge, which is its size or that of a task; otherwise nothing changes |
| RenderExecutor.TaskQueue.Take | src/core/executor.cpp:80-82 | takes the oldest task and keeps the byte count equal to the queued bytes |
| RenderExecutor.TaskQueue.Discard | src/core/executor.cpp:90-96 | hands over every queued task in order, zeroes the byte count and stops accepting |
| RenderExecutor.TaskQueue.BeginStop | src/core/executor.cpp:144-153 | a stop proceeds exactly when the executor accepts or its thread can be joined |
| RenderExecutor.RunKeepsAll | src/core/executor.cpp:60-104 | over all interleavings: accepted tasks are finished, in hand or queued, in acceptance order; the calls made are those the finished tasks account for; discards come after runs; the byte count is exact and within its bound, and so is the number of tasks |
| RenderExecutor.StoppedExecutorIsSettled | src/core/executor.cpp:144-159 | when stop returns every accepted task has run once or been discarded once, in order, cleaned up once, and queue and byte count are zero |
| RenderExecutor.AcceptedExactly | src/core/executor.cpp:293-326 | in every reachable state a dispatch changes the machine if and only if the executor is accepting, fewer than 4096 tasks are queued and their charges with the new one make at most 4 MiB; the task then goes to the end |
| RenderExecutor.BurstIsAccepted | src/core/executor.cpp:293-326 | any list of tasks that fits the free space, dispatched back to back, is accepted whole and in order |
| RenderExecutor.StartCanFinish | src/core/executor.cpp:122-142 | from every stopped state a start reaches an accepting executor with an empty queue and its thread in the loop |
| RenderExecutor.QueueCanDrain | src/core/executor.cpp:72-88 | while no stop is requested three moves a task run everything queued, oldest first, each callback followed by its cleanup |
| RenderExecutor.StopBegins | src/core/executor.cpp:144-153 | a stop of a running executor begins at once: it accepts nothing more and waits for the thread |
| RenderExecutor.StopMakesProgress | src/core/executor.cpp:144-159 | in every run, while a stop waits: until the render thread has exited one of its moves is possible, each such move lowers a measure of what it still has to do, and no producer or controller changes anything |
| RenderExecutor.StopCanFinish | src/core/executor.cpp:144-159 | so from every state in which a stop waits, at most that many moves of the render thread bring it to its end |
| RenderExecutor.NothingRunsAfterDiscard | src/core/executor.cpp:90-99 | once the discard has begun no callback runs in any continuation up to the next launch; only cleanups are called |
| RenderExecutor.CallsAreBlocks | src/core/executor.cpp:84-99 | each finished task contributes one block of calls: its callback if it ran, then its cleanup if it has one |
| HandleRegistry.DecodeEncoded | src/core/handle_registry.cpp:7-17 | index and generation are read back from the 32-bit handle, which is never 0 |
| HandleRegistry.EncodeDecoded | src/core/handle_registry.cpp:7-17 | no two handles with a valid index share both parts |
| HandleRegistry.Registry.Insert | src/core/handle_registry.cpp:19-38 | returns a handle never returned before and adds it to the live map; fails for valid arguments only when all 2^20 - 1 slots are live or retired |
| HandleRegistry.Registry.Get | src/core/handle_registry.cpp:40-51 | a lookup is a lookup in the live map with the right type |
| HandleRegistry.Registry.HandlesOfKind | src/core/handle_registry.cpp:53-62 | lists exactly the live handles of one type, each once |
| HandleRegistry.Registry.Erase | src/core/handle_registry.cpp:64-87 | removes exactly the handle, only with the right type |
| HandleRegistry.Registry.Clear | src/core/handle_registry.cpp:89-109 | empties the live map and keeps every old handle dead |
| HandleRegistry.Registry.LiveIsIssued | src/core/handle_registry.cpp:7-109 | live handles are among those once returned |
| HandleRegistry.Replay | src/core/handle_registry.cpp:7-109 | every run of inserts, erasures, lookups and clears answers as a map from handle to type and resource would, one answer per operation; no handle is issued twice, and a resource is refused only once every possible slot has been issued and is live or has been released 4095 times |
| HandleRegistry.StaleNeverResolves | src/core/handle_registry.cpp:7-109 | in every such run a handle that was erased, or was live at a clear, is never live again: each later lookup finds nothing and each later erasure fails, under any type |
| MenuTree.AddedIsWellFormed | src/core/menu.cpp:226-272 | listing a new item keeps the tree well formed: a forest in which each item is on the one list it names |
| MenuTree.RemovedIsWellFormed | src/core/menu.cpp:274-297 | so does taking an item off its list and its subtree out of the table |
| MenuTree.DestroyedIsWellFormed | src/core/menu.cpp:207-224 | so does dropping a menu with all its items |
| MenuTree.SelectedIsAlone | src/core/menu.cpp:117-133 | selecting a radio leaves it the only checked radio among the items of its menu and parent, and changes nothing but the check marks of radios there |
| MenuTree.SiblingsExactly | src/core/menu.cpp:117-123 | the list consulted for a radio group holds exactly the items of the same menu and parent |
| MenuTree.MenuTable.CreateMenu | src/core/menu.cpp:189-205 | adds an empty menu under the new handle, or nothing when the registry is full |
| MenuTree.MenuTable.EraseItemTree | src/core/menu.cpp:106-115 | the recursion ends and removes exactly the item and its descendants |
| MenuTree.MenuTable.AddItem | src/core/menu.cpp:226-272 | on success the list the item names is the old list followed by its handle, every other list and field is as before and the item is stored as given; every failure, the platform's included, leaves all lists as they were |
| MenuTree.MenuTable.RemoveItem | src/core/menu.cpp:274-297 | takes the item off its list and invalidates exactly it and its descendants |
| MenuTree.MenuTable.DestroyMenu | src/core/menu.cpp:207-224 | invalidates exactly the menu and the items that name it, and detaches it if active |
| MenuTree.MenuTable.SetApplicationMenu | src/core/menu.cpp:299-323 | the active menu is 0 or live, and changes only on success |
| MenuTree.MenuTable.UncheckRadioSiblings | src/core/menu.cpp:117-133 | the loop computes the selection |
| MenuTree.MenuTable.SetChecked | src/core/menu.cpp:358-380 | only check boxes and radios have a mark; checking a radio selects it |
| MenuTree.MenuTable.Activate | src/core/menu.cpp:153-183 | a disabled, hidden, separator or submenu item does nothing; a radio is selected, a check box toggled, and the event carries the new mark |
| MenuHistory.RunIsInOrder | src/core/menu.cpp:226-304 | in every history of additions, removals, destroyed menus and check marks, each list holds exactly its live items in the order in which they were added |
| ResourcePayload.ReadUnchangedExactly | include/nativekit_resource.h:119-141 | a resource is read back unchanged exactly when it has a URI and none of its strings holds a NUL |
| ResourcePayload.HeaderWords | src/android/nativekit_android.cpp:589-624 | the four words of a packed list: whether it was accepted, the count, and the offsets of its items and its strings |
| ResourcePayload.ItemWords | src/android/nativekit_android.cpp:589-624 | the four words of an item: its flags and the offsets of URI, MIME type and name |
| ResourcePayload.ListReadsBack | src/core/resource.cpp:215-273 | wherever a packed list lies in its payload, the event decoder gives each resource at its index and refuses every other index |
| ResourcePayload.StringsAreDisjoint | src/android/nativekit_android.cpp:589-624 | every stored string with its NUL lies inside the list behind the table, and no two overlap |
| ResourcePayload.ListPayload | src/android/nativekit_android.cpp:589-624 | the moving-cursor loop produces the packed list, and decoding it gives the list back |
| ResourcePayload.Rebase | src/android/nativekit_android.cpp:628-647 | moving every offset by the prefix gives the list that reads back from there, absent fields staying absent |
| ResourcePayload.SharePayload | src/android/nativekit_android.cpp:626-664 | a share payload decodes to the same list as the standalone payload, and to its text and subject, absent when empty |
| ResourcePayload.DropPayload | src/android/nativekit_android.cpp:666-699 | a drop payload decodes to the same list, its text and its coordinates' bits |
| ResourcePayload.CStringView | src/core/resource.cpp:24-40 | the string reader returns a stored string up to its first NUL |
| Utf.ToUtf8 | src/android/nativekit_android.cpp:290-326 | for every UTF-16 text the result decodes as UTF-8 to the same code points, and is invalid UTF-8 exactly when the text is ill-formed |
| Utf.ConvertedMeansTheSame | src/android/nativekit_android.cpp:297-323 | the same from any position in the text |
| Utf.NonTailsCountCodePoints | src/android/nativekit_android.cpp:2229-2232 | valid UTF-8 holds as many non-continuation bytes as code points |
| Utf.CountCodePoints | src/android/nativekit_android.cpp:2229-2232 | the counting loop gives the number of code points, in 32 bits |
| Utf.ConvertedCounts | src/android/nativekit_android.cpp:290-326 | converting and then counting gives the number of code points of the UTF-16 text |
| MappingText.ParseNumber | src/core/gamepad_mapping.cpp:13-24 | accepts exactly a non-empty run of digits worth at most 65535 and gives its value, the early exit included |
| MappingText.ParseBinding | src/core/gamepad_mapping.cpp:26-65 | the cursor parser computes the binding grammar |
| MappingText.BindingRoundTrips | src/core/gamepad_mapping.cpp:26-65 | every binding the parser can produce prints to a text it reads back |
| MappingText.ParsedBindingIsCanonical | src/core/gamepad_mapping.cpp:26-65 | whatever the parser reads is such a binding: one of six scale and offset pairs, a button, or a hat with a byte mask |
| MappingGrammar.BindingsExactly | src/core/gamepad_mapping.cpp:26-65 | a text is a binding if and only if it is an optional sign, a letter, a number of up to 16 bits with any leading zeros, and for axes an optional ~, for hats a point and a byte mask; and what it then binds |
| MappingText.ParseMapping | src/core/gamepad_mapping.cpp:104-178 | the field loop computes the line grammar |
| MappingText.LowerCaseMeaning | src/core/gamepad_mapping.cpp:114-116 | each capital letter of a GUID becomes the small letter at its place, and no other character changes |
| MappingGrammar.FieldsExactly | src/core/gamepad_mapping.cpp:145-175 | fields are accepted if and only if each is platform, type or crc or gives a button or axis name a binding; the last field with a name decides, and nothing else changes |
| MappingGrammar.LineExactly | src/core/gamepad_mapping.cpp:104-178 | a line is a mapping if and only if its GUID is hexadecimal, its name not empty and its fields are accepted; it starts from the lower-case GUID with nothing bound |
| MappingGrammar.LastCommaIsOptional | src/core/gamepad_mapping.cpp:146-149 | the comma behind the last field may be missing |
| MappingText.NameLookup | src/core/gamepad_mapping.cpp:118-145 | each of the 21 field names leads to its own entry and no other |
| MappingText.MappingRoundTrips | src/core/gamepad_mapping.cpp:104-178 | parsing inverts printing for every printable mapping |
| MappingText.LinesDescribeExactlyPrintable | src/core/gamepad_mapping.cpp:104-178 | the mappings some line describes are exactly the printable ones |
| GamepadMapping.BindingValue | src/core/gamepad_mapping.cpp:75-99 | a value exists exactly for a bound, available input and lies in [-1, 1] |
| GamepadMapping.AxisButtonMeaning | src/core/gamepad_mapping.cpp:189-193 | a button bound to an axis is down exactly past the middle of the part the binding reads, away from rest, whether or not the axis is inverted |
| GamepadMapping.AxisMeaning | src/core/gamepad_mapping.cpp:50-57 | an axis binding stretches its part to [-1, 1], clamps outside, and inversion mirrors it |
| GamepadMapping.DigitalMeaning | src/core/gamepad_mapping.cpp:83-91 | a button or hat binding reads as down exactly when the button is, or the hat points in a direction of the mask, and as an axis gives 1 or -1; unbound entries keep their state or read 0 |
| GamepadMapping.ApplyMapping | src/core/gamepad_mapping.cpp:180-206 | succeeds exactly when every bound input exists, then with every entry set and every axis in [-1, 1]; on failure exactly the entries before the first missing input are written |
| GamepadMapping.MappingTable.Store | src/core/gamepad.cpp:152-161 | afterwards the GUID finds the new mapping, every other GUID what it found before, and the table grows only for an unknown GUID |
| GamepadMapping.MappingTable.AddMapping | src/core/gamepad.cpp:203-228 | stores one valid line for this platform, else changes nothing |
| GamepadMapping.ParseDatabase | src/core/gamepad.cpp:241-260 | the line loop computes the database grammar: CR LF, comments, empty lines, other platforms |
| MappingGrammar.DatabaseExactly | src/core/gamepad.cpp:241-260 | a database is accepted if and only if every line, ended by LF or CR LF, is empty, a comment or a mapping, and yields the mappings that name no platform or this one, in order |
| MappingGrammar.LastNewlineIsOptional | src/core/gamepad.cpp:245-248 | the newline behind the last line may be missing |
| GamepadMapping.MappingTable.AddMappings | src/core/gamepad.cpp:230-269 | all or nothing: one bad line leaves the table alone; otherwise each GUID finds its last line in the database, or what it found before |
| DeadZones.MagnitudeIsUnique | src/core/gamepad_mapping.cpp:211 | the square root is determined by its square |
| DeadZones.ReachIsMonotone | src/core/gamepad_mapping.cpp:212-217 | how far out a stick ends is in [0, 1], 0 exactly inside the dead zone, never decreasing, and strictly increasing up to the rim |
| DeadZones.ReachIsEven | src/core/gamepad_mapping.cpp:212-217 | beyond the zone the way out is stretched evenly, from 0 at its edge to 1 at 1 |
| DeadZones.StickMeaning | src/core/gamepad_mapping.cpp:210-220 | a stick is at rest exactly inside the dead zone, else keeps its direction, and lands in the unit disc |
| DeadZones.StickIsMonotone | src/core/gamepad_mapping.cpp:210-220 | of two positions the one farther out ends at least as far out |
| DeadZones.StickUnchanged | src/core/gamepad_mapping.cpp:210-220 | without a dead zone a stick in the unit disc does not move |
| DeadZones.TriggerMeaning | src/core/gamepad_mapping.cpp:223-230 | a trigger lands in the range its flag asks for, at the low end exactly inside the dead zone, and is monotone |
| DeadZones.TriggerIsEven | src/core/gamepad_mapping.cpp:223-230 | beyond the zone a trigger moves evenly to the high end of the range its flag asks for |
| DeadZones.NormalizeState | src/core/gamepad_mapping.cpp:208-231 | the in-place pass normalises both sticks and both triggers, and changes nothing without dead zones and flag for inputs in range |
| SourceMask.NoCompiledLineIsBlanked | scripts/check_no_exceptions.py:52-101 | no line that some build compiles is blanked, whatever the conditions are worth that the option does not decide, as long as the scan's expression and the preprocessor, each with its own classification, agree on what is a directive up to that line |
| KeptLines.KeptExactly | scripts/check_no_exceptions.py:52-101 | the exact condition, read off the text: a line with something to blank is kept if and only if it is no directive to the scan and no conditional still open before it has its current branch ruled out, that is, all its conditions so far decided false, or an earlier branch an else or decided true after none but false ones |
| KeptLines.AgreementKeeps | scripts/check_no_exceptions.py:52-101 | agreement on the directives up to a line, with the decided conditions right, implies that condition for every line a build compiles |
| KeptLines.FalseIfBlanks | scripts/check_no_exceptions.py:58-70 | the failing family: whatever the preprocessor makes of it, a line that the scan takes for a conditional decided false blanks every line up to the next directive |
| KeptLines.CommentedDirectiveBlanksCode | scripts/check_no_exceptions.py:19-70 | one member of the family: after such a directive inside a block comment, code that is compiled is blanked |
| KeptLines.ScanDescribes | scripts/check_no_exceptions.py:52-101 | the frame stack lists the conditionals that are open, outermost first, each with what its branches so far decide |
| SourceMask.MaskIsExactWhenDecided | scripts/check_no_exceptions.py:52-101 | when the option decides every condition that is evaluated, the lines kept are exactly the lines compiled |
| SourceMask.MaskBranches | scripts/check_no_exceptions.py:52-101 | the frame-stack loop computes the scan line by line and keeps length and every newline |
| SourceMask.MaskKeepsLineNumbers | scripts/check_no_exceptions.py:229-231 | line numbers read off a masked text are the source's |
| LiteralMask.MaskCommentsAndLiterals | scripts/check_no_exceptions.py:157-200 | the find-based pass equals a character-by-character lexer and keeps length and every newline |
| LiteralMask.MaskingIsComplete | scripts/check_no_exceptions.py:157-200 | the result holds no comment and no literal, and masking it again changes nothing |
| TokenMask.TokensAreMasked | scripts/check_no_exceptions.py:157-200 | of whatever code, comments and literals with escaped characters a text is made, the code stays and the rest is blanked |
| LiteralMask.ScanBody | scripts/check_no_exceptions.py:110-148 | the body scan stops where its lexer closes the macro's parenthesis |
| LiteralMask.BodyEndMatches | scripts/check_no_exceptions.py:110-148 | from anywhere inside any body: with quoted and commented characters blanked by the lexer alone, the open parentheses stay positive up to the end and are zero there, unless the text ends first |
| LiteralMask.BodyIsBalanced | scripts/check_no_exceptions.py:110-148 | so a macro's body ends at the parenthesis that closes its opening one, whatever is quoted or commented out on the way |
| TokenMask.TokensAreCode | scripts/check_no_exceptions.py:119-139 | the same for a macro's body, back quotes included: what parentheses are counted in is its code alone |
| LiteralMask.BodiesExactly | scripts/check_no_exceptions.py:104-154 | exactly the characters from each match to the end of its body are blanked, from the first match to the last |
| LiteralMask.MaskEmscriptenBodies | scripts/check_no_exceptions.py:104-154 | blanks exactly the matched macros with their bodies and keeps length and every newline |
| LiteralMask.MaskSource | scripts/check_no_exceptions.py:226-231 | the three passes run one after the other keep length, newlines and, at every position, the line number of the source |

## Left out

- Java, EGL, Vulkan and loader calls, Java object references, and the native window's reference count: their
  outcome is a parameter.
- Allocation failure and C++ exceptions, except poll's own out-of-memory return.
- Locks and condition variables as such: each section that holds the task lock is one step. The check whether the
  runtime is bound happens outside that lock, so the machine lets any admitted task in, which includes every real
  history. That the thread is eventually scheduled is not claimed.
- RenderExecutor.TaskQueue.Dispatch: assumes a backend with a render thread; without one the call goes to the app
  queue.
- The app-task queue of `src/core/executor.cpp`, whose tasks may pass from one runtime generation to the next.
- Accessibility: the checks that read nothing but one node (role, states, actions, text ranges, bounds) are one
  flag, and the marshalling of a batch to Java is one outcome.
- SurfaceSharing: API and major version are one value, and a surface whose view could not be created owns no
  retained images yet.
- SurfaceLifecycle: a failing global reference for a pending Java surface.
- Menu titles, labels, roles, shortcuts, command ids and their checks (one flag), the enabled and visible setters,
  the platform's answer after a changed mark, and activating an item that is no longer in the tree.
- FileWatch.Payload: offsets must fit 32 bits, and an old path without a path, which is placed from byte 1 on, must be
  long enough for the buffer to hold the header that is copied into it.
- ResourcePayload.SharePayload: the payload must be shorter than 2^32 bytes, beyond which the packer's offsets
  wrap. `size_t` is taken to be wider than 32 bits in the decoder.
- ResourcePayload.DropPayload: the same bound.
- Words are little-endian, as on every supported target.
- GamepadEvents.PolledEventsTrackState: requires that the run refused and evicted nothing; a refused event is lost
  by design.
- Float rounding and NaN in mapping and dead zones, which are over the reals; the snapshot diff does model the
  bits.
- `find_mapping`'s lower-casing of a joystick's own GUID, the loading of the built-in table, and the reset of event
  baselines when mappings change.
- The evaluation of preprocessor conditions, the recognition of directives and the search for EM_JS macros: they
  are inputs, required only to be right where they claim to know. Lines are whatever partition of the text the
  caller makes.
- Characters are compared one by one; locale-dependent classification is that of the C locale.
- Image registration (`src/core/graphics_image.cpp`), requests, clipboard, library loading, windows, web
  views, sensors, haptics, audio and transport: outside this model.
