# Verified models of the k50sv1 RIL shim, sensors multi-HAL and WMT launcher

This project models, in Dafny, the three components of the device tree whose correctness depends on interleavings,
faults or untrusted input, and proves what each of them is there to guarantee.

**RIL shim** (`Sockets`, `AttachApnReplay`, `AttachApnShim`, `AttachApnLaws`, `GotInstall`, `RilShim`,
`RadioCapability`). The initial-attach-APN replay protocol is a state machine whose steps are the regions the C code
runs under its lock; the vendor, the clock, the allocator and the scheduler are unconstrained inputs. Installation of
the two GOT hooks is a transaction over foreign memory in which every call may fail and other writers may interfere.
`RilShim` runs both against each other and shows where every callback ends up. `RadioCapability` is the synthetic
START/APPLY/FINISH protocol.

**Sensors multi-HAL** (`PendingEvents`, `WakeLock`, `HalProxy`, `HalProxyCode`, `ProxyLaws`, `SubHalSession`,
`SubHalLaws`, `SensorsStack`). The pending-event queue with its unlocked writer, the wake-lock reference count with its
move-only tokens, their composition, the sub-HAL's framework sessions, and sub-HAL and proxy together.

**WMT launcher** (`Bytes`, `Errno`, `WireCodec`, `WireCode`, `WireLaws`, `BtVersion`, `PatchSet`, `Collection`,
`Permutations`, `FirmwareDiscovery`, `DiscoveryLaws`, `RomDiscovery`, `RomLaws`, `DiscoveryCode`, `CommandHandler`,
`ReplyLaws`, `CommandLoop`, `LoopLaws`, `CommandCode`, `LogWorker`, `LogLaws`). The wire codec, the Bluetooth version
parser, firmware discovery, command handling from frame to frame, and the life of the firmware-log worker.

Each component has a value model (datatypes, step functions, `Run` over sequences of actions) that carries the
theorems, and classes or methods with loops that update state in place as the source does. A method's `ensures` ties
its new state to the step function of the same region, so the theorems about the functions hold of the code.
System-call results, clocks, allocation and the vendor's behaviour are parameters. The modules named `...Laws` state
what each step does in terms of the data alone, constants and error numbers written out, without the step functions'
own predicates; most of them speak of every step of every run.

Where a promise does not hold unconditionally, the model keeps the code's behaviour and states the exact condition:
the reference count after a wake-lock timeout (`HalProxy.TimeoutCanStealAReference`,
`HalProxy.DropCanStealAReference`, `HalProxy.ResetIsExactIffNothingOutstanding` and
`HalProxy.EveryLockedTokenIsCountedIff`), and the 64-bit session counter of the sub-HAL
(`SubHalSession.EpochMatchesExactlyOnWrap`).

## Model

| member | source | states |
|---|---|---|
| AttachApnReplay.DupOrNull | ril-shim/k50sv1_ril_shim.c:740-752 | NULL stays NULL and distinct from the empty string; a copy equals its source or fails exactly when the allocation does |
| AttachApnReplay.CopyIa | ril-shim/k50sv1_ril_shim.c:754-770 | a payload copy is exact in every member, and is refused exactly when one of the allocations it needs fails |
| AttachApnReplay.RegionFacts | ril-shim/k50sv1_ril_shim.c:947-1110 | a worker region either attempts nothing and keeps tokens and pending flags, or makes one attempt on the socket nearest in round-robin order with a free token |
| AttachApnReplay.TokensNeverAlias | ril-shim/k50sv1_ril_shim.c:811-853 | in every run no two requests live in the vendor share a token, a token's outstanding flag is set exactly when a live request carries it, and at most 16 are live |
| AttachApnReplay.CompletionEndsOnlyItsOwnWait | ril-shim/k50sv1_ril_shim.c:833-843 | a completion frees the single-flight slot if and only if it completes the newest request; a late completion of a timed-out request leaves its successor's wait and deadline alone |
| AttachApnReplay.DeadlineIsLatched | ril-shim/k50sv1_ril_shim.c:979-1036 | between two points with no issue in between, whatever happens, a slot still held has the same token and deadline |
| AttachApnReplay.CheckFreesAtDeadline | ril-shim/k50sv1_ril_shim.c:996-1020 | with a working clock, a check in the timed wait frees the slot if and only if the clock has reached the latched deadline |
| AttachApnReplay.AttemptsAreRateLimited | ril-shim/k50sv1_ril_shim.c:959-977 | every issue, pool-exhausted rejection and out-of-memory attempt is recorded, and any two recorded attempts are at least the minimum interval apart |
| AttachApnReplay.ReplaysArePaidByResets | ril-shim/k50sv1_ril_shim.c:872-893 | pending implies cached; per socket, issues plus rejections plus the pending bit never exceed the recorded resets |
| AttachApnReplay.PendingSocketIsServedInTurn | ril-shim/k50sv1_ril_shim.c:948-958 | a socket that stays pending is passed over by at most SIM_COUNT - 1 issues |
| AttachApnReplay.ReplayIsLatestPayload | ril-shim/k50sv1_ril_shim.c:1065-1110 | an issued request carries the latest payload accepted on its socket, NULL members included, on a token that was free |
| AttachApnReplay.RunInvariants | ril-shim/k50sv1_ril_shim.c:934-1132 | the token and bookkeeping invariants hold in every state of every run |
| AttachApnShim.Shim.CacheInitialAttachApn | ril-shim/k50sv1_ril_shim.c:772-809 | the cache changes exactly as the step function says: only for a valid socket, a payload of the expected size and a complete copy |
| AttachApnShim.Shim.NoteReset | ril-shim/k50sv1_ril_shim.c:872-893 | a reset URC makes its socket pending exactly when it has a cached payload |
| AttachApnShim.Shim.NoteCompletion | ril-shim/k50sv1_ril_shim.c:816-853 | a completion returns its token and frees the slot only for the current token |
| AttachApnShim.Shim.ScanSockets | ril-shim/k50sv1_ril_shim.c:948-958 | the scan loop returns the first ready socket in cyclic order, or -1 when none is ready |
| AttachApnShim.Shim.ScanTokens | ril-shim/k50sv1_ril_shim.c:1039-1046 | the search loop returns the first free token after the current one in cyclic order, or -1 when all are outstanding |
| AttachApnShim.Shim.AwaitSocket | ril-shim/k50sv1_ril_shim.c:948-1023 | the inner loop settles the in-flight slot as specified and finds a socket only when no request is in flight |
| AttachApnShim.Shim.RateLimit | ril-shim/k50sv1_ril_shim.c:959-977 | the worker sleeps exactly when the specification says so, until the specified time |
| AttachApnShim.Shim.Attempt | ril-shim/k50sv1_ril_shim.c:1039-1110 | token search, rejection, failed copy and issue change the locked state exactly as the step function |
| AttachApnShim.Shim.Reserve | ril-shim/k50sv1_ril_shim.c:1084-1110 | everything the lock protects is updated before the vendor sees the request, and nothing else |
| AttachApnShim.Shim.WorkerRegion | ril-shim/k50sv1_ril_shim.c:934-1132 | the worker's locked region computes the step function of the machine the theorems are about |
| AttachApnLaws.PayloadsAreRemembered | ril-shim/k50sv1_ril_shim.c:772-809 | over every run, a request with a payload of 88 bytes on socket 0 or 1 whose copies are granted replaces that socket's payload, and every other request changes nothing |
| AttachApnLaws.ResetsAreNoted | ril-shim/k50sv1_ril_shim.c:872-893 | over every run, code 3020 makes a socket with an accepted payload pending, and no other indication changes anything |
| AttachApnLaws.PendingEndsOnlyByReplay | ril-shim/k50sv1_ril_shim.c:1047-1110 | over every run, a pending replay ends at a step if and only if that step issues or rejects it |
| AttachApnLaws.RegionExactly | ril-shim/k50sv1_ril_shim.c:947-1110 | a region makes an attempt exactly when it need not wait, something is pending and a second has passed; the attempt is a rejection with sixteen tokens out, a failed copy, or an issue with a deadline ten seconds away |
| AttachApnLaws.NextTokenExactly | ril-shim/k50sv1_ril_shim.c:1039-1046 | the token of an issue is the first free one after the current one |
| AttachApnLaws.FreeSlotHasNoDeadline | ril-shim/k50sv1_ril_shim.c:833-843 | over every run a slot that is not in flight has deadline 0 |
| AttachApnLaws.PhasesExactly | ril-shim/k50sv1_ril_shim.c:979-1023 | over every run the worker is in its timed wait exactly after a region with a request to wait for, and hands a request over exactly after issuing one |
| AttachApnLaws.WorkerActsWhenItMay | ril-shim/k50sv1_ril_shim.c:947-1132 | over every run with a working clock, an attempt is made exactly when no request is waited for, something is pending and a second has passed since the last attempt |
| GotInstall.WriteGot | ril-shim/k50sv1_ril_shim.c:1457-1524 | success means the slot holds the desired pointer with its captured protection; other pages keep their protection; the page always carries the captured protection, possibly still writable |
| GotInstall.Rollback | ril-shim/k50sv1_ril_shim.c:1529-1547 | a rollback that reports success has restored both pointers and both protections exactly |
| GotInstall.Publish | ril-shim/k50sv1_ril_shim.c:1657-1662 | both stores succeed only if memory differs from the original in exactly the two hooks |
| GotInstall.InstallIsAtomic | ril-shim/k50sv1_ril_shim.c:1622-1689 | for every fault pattern and shared pages: ACTIVE means both hooks, original protections, captured originals and one more worker; DISABLED means memory as found; every other ending is FAILED without a worker |
| GotInstall.InstallSucceedsWithoutFaults | ril-shim/k50sv1_ril_shim.c:1622-1689 | without faults the installation commits |
| GotInstall.RetriesCaptureTheSameOriginals | ril-shim/k50sv1_ril_shim.c:1622-1689 | over any number of retries the original pointers captured are the same, and at most one worker is ever started |
| GotInstall.SettledStaysSettled | ril-shim/k50sv1_ril_shim.c:1630-1634 | ACTIVE and FAILED are terminal: further calls change nothing |
| GotInstall.RollbackRestores | ril-shim/k50sv1_ril_shim.c:1529-1547 | without another writer a rollback puts back each original it can store, whatever becomes of the other, and reports success exactly when each store it needs can be made, both protections go back and both slots can be read |
| GotInstall.CommitsExactly | ril-shim/k50sv1_ril_shim.c:1622-1689 | without another writer an installation ends ACTIVE if and only if both entries resolve, both stores commit, both slots verify and the worker starts |
| GotInstall.FailedExactly | ril-shim/k50sv1_ril_shim.c:1663-1689 | without another writer it ends FAILED if and only if it aborts and the rollback does not recover; any other abort is DISABLED again |
| GotInstall.FaultlessRollbackNeverFails | ril-shim/k50sv1_ril_shim.c:1529-1547 | with no fault in the rollback no abort ends FAILED, whatever failed before |
| GotInstall.InstallShowsOnlyOriginalsAndHooks | ril-shim/k50sv1_ril_shim.c:1457-1689 | every memory another thread can observe during an installation holds only originals, hooks and what other writers stored |
| GotInstall.Installer.WriteGotValue | ril-shim/k50sv1_ril_shim.c:1457-1524 | the code writes memory and reports success as specified |
| GotInstall.Installer.RollbackGotHooks | ril-shim/k50sv1_ril_shim.c:1529-1547 | the code restores in reverse order and verifies both slots as specified |
| GotInstall.Installer.InstallAttachApnHooks | ril-shim/k50sv1_ril_shim.c:1622-1689 | the code's whole new state and return value are those of the transaction the theorems are about |
| RilShim.CallbacksReachTheOriginalOnce | ril-shim/k50sv1_ril_shim.c:811-905 | in every run in which nobody else writes the slots, whatever the hook state, residual hooks included, the calls passed on are exactly the URCs, framework completions and attach-APN requests so far: each once, unchanged, in order |
| RilShim.CallbacksThroughOurSlots | ril-shim/k50sv1_ril_shim.c:811-905 | with other writers too, a callback arriving through a slot that holds the original or the hook reaches the original exactly once, unchanged; a synthetic completion reaches nobody and occurs only in ACTIVE |
| RilShim.InstallMakesOnlyOurStores | ril-shim/k50sv1_ril_shim.c:1457-1689 | an installation without another writer stores only originals and hooks, whatever else fails, so its runs are among those above |
| RilShim.SyntheticTokensNeverEscape | ril-shim/k50sv1_ril_shim.c:811-865 | in no run does a synthetic token reach the original completion callback |
| RilShim.ActiveShimFeedsTheReplay | ril-shim/k50sv1_ril_shim.c:811-905 | while active, a reset with a cached payload makes its socket pending, an accepted request is cached, a synthetic completion returns its token, and other callbacks leave the replay alone |
| RilShim.ReplayOnlyWhenActive | ril-shim/k50sv1_ril_shim.c:1691-1717 | caching, pending and live requests exist only in ACTIVE, which has both hooks and one worker and is never left |
| RilShim.InvNext | ril-shim/k50sv1_ril_shim.c:811-905 | every step of installer, vendor, framework and worker keeps the combined invariant |
| RilShim.InstallRefinesTheMachine | ril-shim/k50sv1_ril_shim.c:1622-1689 | for every fault pattern the installer's code is a run of the combined machine that ends where the code ends |
| RadioCapability.MemoryIsHistory | ril-shim/k50sv1_ril_shim.c:356-386 | after any request sequence the per-socket memory is the session of the latest accepted APPLY, or nothing after an accepted START |
| RadioCapability.EveryRequestAnsweredOnce | ril-shim/k50sv1_ril_shim.c:397-462 | every GET and SET is completed exactly once and never forwarded; successes carry the socket's RAF and UUID; an indication follows exactly an accepted APPLY that is first since START or changes the session |
| RadioCapability.ApplyAfterStartAlwaysIndicates | ril-shim/k50sv1_ril_shim.c:344-386 | START then APPLY always announces, whatever session number is reused, and a repeated APPLY does not |
| RadioCapability.OtherRequestsAreForwarded | ril-shim/k50sv1_ril_shim.c:1691-1702 | after any history every other request is forwarded exactly once and leaves no trace in the memory |
| RadioCapability.CapabilityServer.ResetApplyDedupe | ril-shim/k50sv1_ril_shim.c:356-366 | forgets the session of a valid socket only |
| RadioCapability.CapabilityServer.ShouldSendApplyUnsol | ril-shim/k50sv1_ril_shim.c:368-386 | sends exactly when the remembered session differs, and remembers it |
| RadioCapability.CapabilityServer.OnRequest | ril-shim/k50sv1_ril_shim.c:1691-1702 | the code's outputs and memory are those of the protocol the theorems are about |
| PendingEvents.EventsAreConservedInOrder | sensors-hal/multihal/HalProxy.cpp:404-518 | every posted event is written, pending or dropped; written events followed by pending ones are the surviving posts in posting order; the size counter is exact and within 100000, and every entry's wake count is exact |
| PendingEvents.OneWriterAtATime | sensors-hal/multihal/HalProxy.cpp:404-518 | a post writes to the FMQ only while the worker is not in its unlocked write |
| PendingEvents.NoSubtractionWraps | sensors-hal/multihal/HalProxy.cpp:404-518 | no unsigned subtraction of the queue code underflows in any run |
| PendingEvents.InvNext | sensors-hal/multihal/HalProxy.cpp:404-518 | every post, chunk, write, removal, stop and restart keeps the queue and history invariant |
| PendingEvents.MarkSelect | sensors-hal/multihal/HalProxy.cpp:414-427 | finishing a chunk moves exactly that prefix of the pending events, in order, to written or dropped |
| ProxyLaws.WritesWhatFits | sensors-hal/multihal/HalProxy.cpp:493-503 | a post writes as many events as fit, only past an empty queue, and only if the FMQ takes them |
| ProxyLaws.QueuesUpToTheLimit | sensors-hal/multihal/HalProxy.cpp:504-517 | the rest is queued whole, behind what is there, if and only if the queue stays within 100000 events |
| ProxyLaws.ChunksAreFull | sensors-hal/multihal/HalProxy.cpp:407-416 | a chunk is the first events of the front entry, as many as there are or as the FMQ holds |
| ProxyLaws.PostsAreTreatedExactly | sensors-hal/multihal/HalProxy.cpp:488-518 | over every run: the fate of every event of a post, refused, written, pending, or dropped exactly beyond 100000; earlier events keep theirs |
| ProxyLaws.AcceptedEventsAreLostOnlyByFailedWrites | sensors-hal/multihal/HalProxy.cpp:404-435 | over every run an event once accepted is dropped only by a failed write of its chunk |
| WakeLock.IncrementInv | sensors-hal/multihal/HalProxy.cpp:520-537 | an increment keeps "held exactly while counted" and the alternation of acquire and release |
| WakeLock.DecrementInv | sensors-hal/multihal/HalProxy.cpp:539-549 | a decrement, stale or not, keeps the same |
| WakeLock.RefCounter.IncrementRefCount | sensors-hal/multihal/HalProxy.cpp:520-537 | counts and acquires exactly as specified, including the refused acquisition |
| WakeLock.RefCounter.DecrementRefCount | sensors-hal/multihal/HalProxy.cpp:539-549 | ignores stale timestamps, clamps, and releases at zero as specified |
| WakeLock.RefCounter.DidTimeout | sensors-hal/multihal/HalProxy.cpp:470-480 | a timeout exactly when more than a second has passed since the last increment, and otherwise the time left |
| WakeLock.RefCounter.ResetSharedWakelock | sensors-hal/multihal/HalProxy.cpp:482-486 | drops every reference and stamps the reset |
| WakeLock.ScopedWakelock.constructor | sensors-hal/multihal/ScopedWakelock.cpp:49-54 | a token is locked exactly when the counter granted its reference |
| WakeLock.ScopedWakelock.Move | sensors-hal/multihal/ScopedWakelock.cpp:30-34 | move construction transfers ownership without touching the counter |
| WakeLock.ScopedWakelock.MoveAssign | sensors-hal/multihal/ScopedWakelock.cpp:36-47 | move assignment gives back what the target owned, takes over, and is harmless onto itself |
| WakeLock.ScopedWakelock.Destruct | sensors-hal/multihal/ScopedWakelock.cpp:56-60 | destruction gives back exactly one reference when locked |
| HalProxy.WakeLockHeldIffCounted | sensors-hal/multihal/HalProxy.cpp:444-549 | in every run, with timeouts and tokens also in the middle of a post, stale tokens, failed acquires and reinitialization, the system lock is held exactly while the count is positive, and its calls strictly alternate |
| HalProxy.ReferencesAreAccounted | sensors-hal/multihal/HalProxy.cpp:488-549 | the count never exceeds the tokens locked since the last reset plus the wake events queued, in the hands of a post, or unacknowledged; it equals them until a reset finds such wake events outstanding |
| HalProxy.EveryLockedTokenIsCountedIff | sensors-hal/multihal/HalProxy.cpp:488-549 | the count equals all locked tokens plus those wake events if and only if it is exact in that sense and no locked token is older than the last reset |
| HalProxy.ExactnessSurvivesUntilReset | sensors-hal/multihal/HalProxy.cpp:404-549 | once the count is exact, however that came about, it stays exact through every honest step up to the next reset |
| HalProxy.NothingOwedIsExact | sensors-hal/multihal/HalProxy.cpp:404-549 | the count is exact again whenever nothing is owed |
| HalProxy.EventsAreConservedInOrder | sensors-hal/multihal/HalProxy.cpp:404-518 | with posts taken apart into their regions too, every event whose post has settled is written, pending or dropped, in posting order, with exact counters |
| HalProxy.OneWriterAtATime | sensors-hal/multihal/HalProxy.cpp:404-518 | with posts taken apart, a post writes to the FMQ only while the worker is outside its unlocked write, and the worker takes no chunk before the post gives up the mutex |
| HalProxy.ResetIsExactIffNothingOutstanding | sensors-hal/multihal/HalProxy.cpp:444-486 | a timeout or worker-exit reset leaves the count exact for what it answers for if and only if no wake event is queued, in the hands of a post, or unacknowledged; it then covers all locked tokens if and only if none is locked |
| HalProxy.ClampNeverBites | sensors-hal/multihal/HalProxy.cpp:539-549 | while the count is exact, no acknowledgement, failed write, overflow drop or token asks for more than the count, and each takes off exactly what it asks for |
| HalProxy.TimeoutCanStealAReference | sensors-hal/multihal/HalProxy.cpp:539-549 | a concrete run: an acknowledgement from before a timeout takes the reference of a token created after it and releases the lock |
| HalProxy.DropCanStealAReference | sensors-hal/multihal/HalProxy.cpp:488-518 | a concrete run: a timeout between a post's charge and its overflow drop, with nothing queued or unacknowledged, lets the drop take the reference of a token created after it |
| HalProxy.RefInvNext | sensors-hal/multihal/HalProxy.cpp:404-549 | every step of tokens, of a post (charge, settle, drop), of writes, acknowledgements and resets keeps the reference ledger |
| ProxyLaws.PostsAreAdmittedExactly | sensors-hal/multihal/HalProxy.cpp:490-492 | over every run a post is charged exactly when it has events, the proxy runs, and its wake events go with a locked token and a system lock that is held or acquired; the charge is one reference for each wake event |
| ProxyLaws.PostsSettleExactly | sensors-hal/multihal/HalProxy.cpp:493-517 | over every run the charged events are written, queued or refused by the same limits, and only refused wake events give references back |
| ProxyLaws.TokensAreGrantedExactly | sensors-hal/multihal/HalProxy.cpp:520-537 | over every run a token is locked exactly when the proxy runs and the system lock is held or acquired |
| ProxyLaws.RunFlagExactly | sensors-hal/multihal/HalProxy.cpp:136-177 | over every run posts pass from a successful initialization to the next stop, and at no other time |
| ProxyLaws.TimeoutsWaitASecond | sensors-hal/multihal/HalProxy.cpp:444-480 | over every run a timeout comes only while references are held and more than a second after every step that raised the count |
| HalProxyCode.CountNumWakeupEvents | sensors-hal/multihal/HalProxy.cpp:573-582 | the loop counts the wake events among the first n |
| HalProxyCode.Proxy.PostEvents | sensors-hal/multihal/HalProxy.cpp:592-608 | the callback's checks, then FMQ contents, queue and references as the machine's three steps of a post leave them |
| HalProxyCode.Proxy.PostEventsToMessageQueue | sensors-hal/multihal/HalProxy.cpp:488-518 | FMQ contents, queue and references after a post in which nothing intervenes are those of charge, settle and drop in sequence |
| HalProxyCode.Proxy.Charge | sensors-hal/multihal/HalProxy.cpp:490-492 | the post goes on, and references are charged, exactly as in the machine's first step |
| HalProxyCode.Proxy.SettlePost | sensors-hal/multihal/HalProxy.cpp:493-513 | events are written, queued or left to be dropped exactly as in the machine's second step |
| HalProxyCode.Proxy.DropExcess | sensors-hal/multihal/HalProxy.cpp:514-517 | the references of dropped wake events are given back exactly as in the machine's third step |
| HalProxyCode.Proxy.WriteDirectly | sensors-hal/multihal/HalProxy.cpp:493-503 | writes what fits, and only past an empty queue |
| HalProxyCode.Proxy.QueueRemainder | sensors-hal/multihal/HalProxy.cpp:504-517 | queues the rest with its wake count, or finds how many wake events have to be dropped |
| HalProxyCode.Proxy.TakeChunk | sensors-hal/multihal/HalProxy.cpp:407-416 | takes at most one FMQ's worth from the front entry |
| HalProxyCode.Proxy.WriteReturns | sensors-hal/multihal/HalProxy.cpp:417-424 | a failed write gives back exactly the chunk's references |
| HalProxyCode.Proxy.RemoveChunk | sensors-hal/multihal/HalProxy.cpp:425-435 | removes the chunk from the front entry and its size and wake count |
| HalProxyCode.Proxy.Restart | sensors-hal/multihal/HalProxy.cpp:136-177 | a new session starts with an empty queue and reset references |
| SubHalSession.FromStatus | sensors-hal/SensorsSubHal.cpp:40-48 | OK, permission denied, no memory and bad value exactly for their status codes, invalid operation for every other |
| SubHalSession.DeliveriesBelongToTheSession | sensors-hal/SensorsSubHal.cpp:103-150 | every delivered event is from the polled batch, of a listed sensor the device has enabled, not older than its activation, and from a poll begun after the initialize that installed the callback; the wake flag is exact; every event of the batch that passes is delivered |
| SubHalSession.EpochMatchesExactlyOnWrap | sensors-hal/SensorsSubHal.cpp:103-150 | the session counter matches exactly when the sessions begun during the poll are a multiple of 2^64 |
| SubHalSession.TrackedSensorsMatchTheDevice | sensors-hal/SensorsSubHal.cpp:174-190 | the tracked active set is always what the device last accepted as enabled |
| SubHalSession.InitializeStartsClean | sensors-hal/SensorsSubHal.cpp:294-327 | success exactly when the device accepts everything; then nothing active, no channel, NORMAL mode and the new callback; a failure leaves no callback and keeps exactly what was refused |
| SubHalSession.FilterExact | sensors-hal/SensorsSubHal.cpp:131-144 | filtering keeps exactly the events that pass |
| SubHalSession.FilterAppend | sensors-hal/SensorsSubHal.cpp:131-144 | filtering preserves order and repetition |
| SubHalSession.InvNext | sensors-hal/SensorsSubHal.cpp:103-327 | every operation and every poll keeps the session invariant |
| SubHalLaws.FittingEventsAreDelivered | sensors-hal/SensorsSubHal.cpp:126-147 | over every run, with a callback and a poll of this session, an event of the batch is posted if and only if its sensor is enabled and it is metadata or no older than the activation |
| SubHalLaws.NothingIsPostedWithoutCallback | sensors-hal/SensorsSubHal.cpp:126-147 | over every run no batch is posted without a callback |
| SubHalLaws.ActivationsExactly | sensors-hal/SensorsSubHal.cpp:174-190 | over every run an accepted activation counts from its first acceptance, a deactivation forgets it, a refusal changes nothing; success exactly when the device accepts a listed sensor |
| SubHalLaws.ModeExactly | sensors-hal/SensorsSubHal.cpp:159-167 | over every run the mode changes exactly when another one is asked for, supported and accepted, and success is reported exactly then or when nothing had to change |
| SubHalLaws.ChannelsExactly | sensors-hal/SensorsSubHal.cpp:223-248 | over every run channels are tracked from a registration with a positive number to an accepted unregistration |
| SubHalLaws.LastErrorExactly | sensors-hal/SensorsSubHal.cpp:301-323 | the error of an initialization is that of the last refusal |
| SubHalLaws.InitializeBeginsASession | sensors-hal/SensorsSubHal.cpp:294-300 | over every run an initialization past its checks begins a session that no earlier poll matches |
| SubHalSession.SubHal.SetOperationModeLocked | sensors-hal/SensorsSubHal.cpp:159-167 | mode and result as specified |
| SubHalSession.SubHal.ActivateSensor | sensors-hal/SensorsSubHal.cpp:174-190 | tracked activations and result as specified, for accepted and refused changes |
| SubHalSession.SubHal.DeactivateAll | sensors-hal/SensorsSubHal.cpp:302-311 | the erase-while-iterating loop keeps exactly the sensors whose deactivation was refused, and returns the last error |
| SubHalSession.SubHal.UnregisterAll | sensors-hal/SensorsSubHal.cpp:312-320 | the same for direct channels |
| SubHalSession.SubHal.InitializeSession | sensors-hal/SensorsSubHal.cpp:294-327 | the code's whole new state and result are those of the session model |
| SubHalSession.SubHal.HandleBatch | sensors-hal/SensorsSubHal.cpp:103-150 | the loop delivers exactly the specified events with the specified wake flag |
| SensorsStack.EventsBelongToTheSession | sensors-hal/SensorsSubHal.cpp:126-147 | in every run of sub-HAL and proxy together, every event written to or queued for the FMQ of a proxy session is the conversion of one whose poll began after that session's sub-HAL initialize |
| SensorsStack.OldBatchesAreRefused | sensors-hal/multihal/HalProxy.cpp:488-492 | a batch is charged only if its poll began in the current session, even when it was being handed on while the proxy stopped |
| SensorsStack.RunningMeansInitialized | sensors-hal/multihal/HalProxy.cpp:165-173 | while posts pass, the sub-HAL has been initialized successfully for this session and for no later one |
| SensorsStack.InvNext | sensors-hal/multihal/HalProxy.cpp:136-177 | every step of poll thread, sub-HAL, proxy threads and re-initialization keeps the combined invariant |
| WireCodec.HeaderRoundTrip | wmt-launcher/protocol.c:18-93 | every header whose fields fit is recovered from its encoding, whatever follows |
| WireCodec.HeaderReencodes | wmt-launcher/protocol.c:18-50 | every 32 bytes are the encoding of the header they parse to |
| WireCodec.DecodeAcceptsExactlyEncodings | wmt-launcher/protocol.c:52-81 | command decoding accepts exactly the well-formed encodings of the bound session, and inverts them |
| WireCodec.ChecksExactlyValidity | wmt-launcher/protocol.c:131-151 | the bitmask loop accepts exactly the lists with indices in range, no repetition and good basenames |
| WireCodec.PatchIndicesArePermutation | wmt-launcher/protocol.c:117-151 | the indices of an accepted patch list are exactly 1 to its count |
| WireCodec.ListRoundTrip | wmt-launcher/protocol.c:107-163 | kind, session, transaction, count and every record survive the wire, names cut at the first NUL and zero padded; any list of at most ten records fits 2680 bytes |
| WireLaws.HeaderLayout | wmt-launcher/protocol.c:83-93 | every header field at its offset and width, little-endian |
| WireLaws.ListLayout | wmt-launcher/protocol.c:107-163 | every record at 40 + 264 i: index, address, name cut at its NUL and zero-padded |
| WireLaws.StatusArgumentsExactly | wmt-launcher/protocol.c:95-105 | a status frame of 32 bytes if and only if the command is identified, the buffer is there and large enough and the result is from -4095 to 0; EMSGSIZE exactly for too small a buffer |
| WireLaws.ListArgumentsExactly | wmt-launcher/protocol.c:114-130 | which argument is refused with which error: 1 to 10 patches or up to 5 images, 40 bytes and 264 for each record |
| WireLaws.ListErrorExactly | wmt-launcher/protocol.c:131-151 | the first bad record decides the error: EEXIST for an index seen before, EINVAL for a bad index or name |
| WireLaws.GoodNameMeans | wmt-launcher/protocol.c:147-149 | a name is good exactly when it ends within its field and is not empty, not a path, not "." or ".." |
| WireLaws.DecodeErrorExactly | wmt-launcher/protocol.c:52-81 | a well-formed frame of another session is stale, and a NUL in the text or a missing transaction has its own error |
| WireLaws.ForeignFramesAreRefused | wmt-launcher/protocol.c:52-81 | a frame of another magic, version, kind or with a result is refused with the error of that fault |
| WireCodec.StatusRoundTrip | wmt-launcher/protocol.c:95-105 | a status reply decodes to its identity and signed result |
| WireCode.WriteLE | wmt-launcher/protocol.c:34-50 | writes exactly the little-endian bytes at the position and nothing else |
| WireCode.WriteHeader | wmt-launcher/protocol.c:83-93 | fills exactly the first 32 bytes with the encoded header |
| WireCode.ReplyStatus | wmt-launcher/protocol.c:95-105 | returns EINVAL for a missing identity or buffer or a result outside -4095 to 0, EMSGSIZE for a short buffer, else the header size; errors leave the buffer unchanged |
| WireCode.Validate | wmt-launcher/protocol.c:131-151 | the validation loop returns the error of the first bad record, or 0 |
| WireCode.WriteRecords | wmt-launcher/protocol.c:155-161 | the encoding loop writes exactly the records, in order |
| WireCode.ReplyList | wmt-launcher/protocol.c:107-163 | returns exactly the specified size or error; an error leaves the whole buffer unchanged, a success overwrites exactly the encoded length |
| WireCode.ListErrorsAreStatuses | wmt-launcher/protocol.c:107-163 | every error of the list encoder can be reported in a status reply, and every list it accepts fits the buffer |
| WireCode.DecodeFrame | wmt-launcher/protocol.c:52-81 | decodes as specified and leaves the output unchanged on every error |
| WireCode.ContainsNul | wmt-launcher/protocol.c:76-77 | finds a NUL exactly when the text contains one |
| BtVersion.MalformedExactly | wmt-launcher/firmware.c:137-152 | EBADMSG exactly for an end marker without a start, or a first start without a later end |
| BtVersion.VersionExactly | wmt-launcher/firmware.c:137-179 | between the first start and the first later end marker a version is present exactly when "t-neptune" or "= debug" occurs before the first NUL; the former wins and runs to the end marker, the latter means the first 14 bytes |
| BtVersion.OutcomeExactly | wmt-launcher/firmware.c:137-179 | for every file: a version exactly when both markers are paired and a text is recognized between them; no version and no error exactly when neither marker occurs, or a pair holds no such text |
| BtVersion.FinishCuts | wmt-launcher/firmware.c:170-177 | the result is at most 91 bytes, NUL-terminated, newline-free, and the source cut at its first NUL, LF or the bound |
| BtVersion.FindBytes | wmt-launcher/firmware.c:124-135 | returns the first occurrence in the window, or none |
| BtVersion.MatchMeans | wmt-launcher/firmware.c:124-135 | a match is equality of every byte |
| BtVersion.FindInterval | wmt-launcher/firmware.c:142-152 | finds the first start marker and the first end marker after it, within bounds |
| BtVersion.ReadVersion | wmt-launcher/firmware.c:137-179 | return value, presence and buffer are those of the parser the theorems are about, for every file of at least 32 bytes |
| PatchSet.ParseExactly | wmt-launcher/patch.c:22-49 | a header and name are accepted as a file if and only if they have the firmware's low byte, a count of 1 to 10, a sequence of 1 to count, its three address bytes after a zero, and its basename zero padded |
| PatchSet.CompleteExactly | wmt-launcher/patch.c:70-77 | the mask comparison holds exactly when the first count sequences are present and no other |
| PatchSet.PatchTable.AddFile | wmt-launcher/patch.c:51-68 | adds the file as specified, or rejects it and leaves the set unchanged |
| PatchSet.PatchTable.CheckComplete | wmt-launcher/patch.c:70-77 | reports completeness as specified |
| Collection.CollectExactly | wmt-launcher/firmware.c:49-80 | collecting succeeds exactly when no entry is unusable and no two entries conflict, and then says exactly what the entries say |
| Collection.CollectIgnoresOrder | wmt-launcher/firmware.c:49-80 | two orders of the same entries succeed or fail together, with the same summary |
| FirmwareDiscovery.ScanPatchesCollects | wmt-launcher/firmware.c:40-106 | the stateful scan with its mask and in-place slots is the order-free collection |
| FirmwareDiscovery.PatchSearchIgnoresOrder | wmt-launcher/firmware.c:40-122 | listing order decides neither success nor any byte of a found patch set |
| FirmwareDiscovery.PatchSearchSucceedsExactly | wmt-launcher/firmware.c:40-122 | success exactly when the directory and its candidates are readable and valid, counts agree, and the sequences are exactly 1 to count without repetition |
| FirmwareDiscovery.FoundPatchesAreTheFiles | wmt-launcher/firmware.c:86-122 | every slot of a found set holds a file of the directory with that sequence: its name, address and build version |
| FirmwareDiscovery.MatchingPatchesAreFound | wmt-launcher/firmware.c:86-122 | every matching file of the directory fills its slot of a found set |
| DiscoveryLaws.PatchEntryExactly | wmt-launcher/firmware.c:40-106 | which files are accepted, which make the search fail and which are ignored, by name, system calls and header bytes, and what an accepted file contributes |
| DiscoveryLaws.PatchSearchExactly | wmt-launcher/firmware.c:40-122 | success if and only if the directory is readable, no patch file is broken, and the accepted files agree on a count and hold each sequence once |
| DiscoveryLaws.FoundSlotsExactly | wmt-launcher/firmware.c:86-122 | the slot of each accepted file holds that file's address, name and build version |
| DiscoveryLaws.IncompleteSets | wmt-launcher/patch.c:70-77 | compatible files that are no complete set are ENODATA, and none at all is ENOENT |
| DiscoveryLaws.PatchErrors | wmt-launcher/firmware.c:40-106 | which error a file stops the search with |
| RomDiscovery.ScanRomsCollects | wmt-launcher/firmware.c:217-271 | the stateful scan over types and version buffers is the order-free collection, versions as C strings |
| RomDiscovery.RomSearchIgnoresOrder | wmt-launcher/firmware.c:217-285 | listing order decides neither success nor records, flags or version texts |
| RomDiscovery.RomSearchSucceedsExactly | wmt-launcher/firmware.c:217-285 | success exactly when the directory and its candidates are readable and valid, types are distinct and version texts agree; an empty result is a success |
| RomDiscovery.FoundRomsAreTheFiles | wmt-launcher/firmware.c:217-271 | every seen type holds a file of the directory of that type: its name and address |
| RomDiscovery.MatchingRomsAreReported | wmt-launcher/firmware.c:242-270 | every matching file is in the found set, and every version it carries is the one reported |
| RomLaws.RomEntryExactly | wmt-launcher/firmware.c:217-271 | which images are accepted, which make the search fail and which are ignored, and the record and version texts an accepted one contributes |
| RomLaws.RomSearchExactly | wmt-launcher/firmware.c:217-285 | success if and only if the directory is readable, no image is broken, and the images are of distinct types and agree on their versions |
| RomLaws.FoundImagesExactly | wmt-launcher/firmware.c:237-270 | each accepted image is seen under its type with its address, its name and the versions it carries |
| RomLaws.SeenImage | wmt-launcher/firmware.c:237-270 | a type is seen only for an accepted image of that type |
| RomLaws.UnseenIsZero | wmt-launcher/firmware.c:273-285 | the record of a type that was not found is zero |
| RomLaws.VersionsExactly | wmt-launcher/firmware.c:242-265 | a version is reported if and only if an accepted image carries it |
| RomLaws.ScanCounts | wmt-launcher/firmware.c:266-270 | the count is the number of accepted images |
| RomLaws.BtReadExactly | wmt-launcher/firmware.c:181-215 | a Bluetooth version is read exactly from a file of 32 bytes to one mebibyte whose size did not change and whose markers are paired |
| RomLaws.BtErrors | wmt-launcher/firmware.c:181-215 | which error each obstacle to reading it ends with |
| RomLaws.RomErrors | wmt-launcher/firmware.c:217-240 | which error an image stops the search with |
| DiscoveryCode.ConsumePatch | wmt-launcher/firmware.c:86-106 | fills the slot of the file's sequence in place as specified, or reports the error |
| DiscoveryCode.FirmwareSearch | wmt-launcher/firmware.c:108-122 | the directory loop returns exactly the specified set or the first error |
| DiscoveryCode.LoadBtVersion | wmt-launcher/firmware.c:181-215 | size limits, allocation, seek, short reads and growth are reported as specified, else the parsed version |
| DiscoveryCode.RomTable.KeepRom | wmt-launcher/firmware.c:237-270 | duplicate types and disagreeing versions are refused, else versions, record, mask and count change as specified |
| DiscoveryCode.RomTable.ConsumeRom | wmt-launcher/firmware.c:217-271 | the whole of read_rom as specified |
| DiscoveryCode.RomSearch | wmt-launcher/firmware.c:273-285 | the directory loop returns exactly the specified set or the first error |
| CommandHandler.FoundPatchesAreEncodable | wmt-launcher/main.c:285-306 | every found patch set has 1 to 10 records that pass every check of the list encoder |
| CommandHandler.FoundRomsAreEncodable | wmt-launcher/main.c:293-306 | every found ROM set has at most 5 records that pass every check of the list encoder |
| CommandHandler.EverySearchIsAnswerable | wmt-launcher/main.c:255-306 | whatever a search yields can be answered with a valid list or a status |
| CommandHandler.EveryCommandIsAnsweredOnce | wmt-launcher/main.c:255-332 | every command gets exactly one reply attempt, within 2680 bytes, that decodes to its own session and transaction and to what the search found |
| CommandHandler.PublishedOnlyWhenAccepted | wmt-launcher/main.c:315-331 | properties are published exactly when the search succeeded and the whole reply was accepted, and show what was found |
| CommandHandler.ReplyIgnoresOrder | wmt-launcher/main.c:255-332 | when a search succeeds, directory order changes neither the reply bytes nor any published property |
| ReplyLaws.SearchExactly | wmt-launcher/main.c:261-284 | a search runs exactly for its own command, one of two chips and a version below 65536 |
| ReplyLaws.StatusExactly | wmt-launcher/main.c:261-284 | the status that answers every other command, in the order of the checks |
| ReplyLaws.PatchReplyNamesFiles | wmt-launcher/main.c:285-306 | record s - 1 of the decoded reply is the directory's file with sequence s: its number, its address bytes after a zero, its padded name |
| ReplyLaws.PatchFilesAreListed | wmt-launcher/main.c:285-306 | conversely every accepted file is listed in its place, and there are as many records as it says |
| ReplyLaws.RomReplyNamesImages | wmt-launcher/main.c:293-306 | each record of a decoded ROM reply is an accepted image of the type it names, and the types increase |
| ReplyLaws.ImagesAreListed | wmt-launcher/main.c:293-306 | conversely every accepted image is listed |
| ReplyLaws.RefusalExactly | wmt-launcher/main.c:307-319 | a command that finds nothing is answered with its status and publishes nothing |
| ReplyLaws.ResultExactly | wmt-launcher/main.c:243-253 | the return value is the write's error, EPROTO for a short write, or 0 |
| ReplyLaws.PatchPublication | wmt-launcher/main.c:322-331 | an accepted patch reply publishes the build version of the file with sequence 1, and nothing else |
| ReplyLaws.RomPublications | wmt-launcher/main.c:322-331 | an accepted ROM reply publishes a version if and only if an accepted image carries it, wifi before Bluetooth |
| CommandLoop.CommandsAreHandledInOrder | wmt-launcher/main.c:334-378 | over every run the commands handled are the decodable frames of the turns that polled, in order, none lost or repeated |
| CommandLoop.EveryHandledCommandIsAnswered | wmt-launcher/main.c:334-378 | over every run each handled command came from this session and was answered exactly once |
| CommandLoop.ExpiredRepliesAreDiscarded | wmt-launcher/main.c:369-373 | a reply refused as expired neither ends the loop nor publishes anything |
| CommandLoop.ZeroMeansStopped | wmt-launcher/main.c:341-377 | the loop returns 0 only when a stop was requested |
| LoopLaws.TurnEndsExactly | wmt-launcher/main.c:341-377 | which turns end the loop and with which value: a stop, the first failed power result, and every input error but interruptions and expired transactions |
| LoopLaws.LoopEndsExactly | wmt-launcher/main.c:334-378 | the loop returns a value if and only if the first ending turn of the run ends it with that value |
| LoopLaws.PolledExactly | wmt-launcher/main.c:334-378 | exactly the turns before the end that are not stopped get as far as polling |
| CommandCode.Query | wmt-launcher/main.c:261-284 | chip and version checks and the search they allow, with every error, as specified |
| CommandCode.FillPatches | wmt-launcher/main.c:286-292 | the loop copies exactly the found patches in sequence order |
| CommandCode.FillRoms | wmt-launcher/main.c:293-302 | the loop gathers exactly the seen types in order and stays within the record array |
| CommandCode.Compose | wmt-launcher/main.c:303-314 | the frame buffer holds exactly the list, or the status frame for a refusal or for a list the encoder refuses |
| CommandCode.Finish | wmt-launcher/main.c:243-253 | a short or failed write publishes nothing; an accepted one publishes what was found |
| CommandCode.HandleCommand | wmt-launcher/main.c:255-332 | the code's frames, publications and return value are those of the model the theorems are about |
| CommandCode.RunLoop | wmt-launcher/main.c:334-378 | the loop's handled commands and return value are those of the model |
| LogWorker.AtMostOneWorker | wmt-launcher/main.c:165-241 | in every run at most one worker thread is alive |
| LogWorker.DisableOnlyWhenNoneRuns | wmt-launcher/main.c:182-196 | a disable ioctl is issued only when no worker is alive |
| LogWorker.NoEnableOvertakesADisable | wmt-launcher/main.c:165-196 | between a disable and any later enable a new worker was created |
| LogWorker.JoinWaitsForOneIoctlAtMost | wmt-launcher/main.c:165-190 | while the main thread joins a stopping worker, that worker issues at most one more ioctl |
| LogWorker.ShutdownDisablesWhatWasStarted | wmt-launcher/main.c:460-465 | after a shutdown whose join did not fail no worker is alive, and a worker started since the last successful disable means the log ends with a disable the driver refused |
| LogWorker.DirtyShutdownStops | wmt-launcher/main.c:460-465 | a shutdown that finds a worker started since the last successful disable goes on to join and disable |
| LogLaws.CheckStartsExactly | wmt-launcher/main.c:198-233 | over every run: "yes" reaps a gone worker, leaves a running one and starts a missing one; another value stops the worker exactly when it differs from the recorded one |
| LogLaws.RecordedValueExactly | wmt-launcher/main.c:222-233 | over every run the recorded value changes only with a started worker or a successful disable, to exactly the value asked for |
| LogLaws.StopsExactly | wmt-launcher/main.c:182-196 | over every run a stop goes from join to disable, and gives up exactly when the join fails |
| LogLaws.StartsExactly | wmt-launcher/main.c:205-226 | over every run a joined worker makes room for a new one that starts with both flags clear |
| LogLaws.WorkersExactly | wmt-launcher/main.c:165-180 | over every run a worker repeats its ioctl until it sees the stop flag or the ioctl fails, and then is gone for good |
| LogLaws.WholeCheck | wmt-launcher/main.c:198-233 | the controls and the log after a whole check, for every value and every outcome of its calls |
| LogLaws.WholeShutdown | wmt-launcher/main.c:460-465 | the same for shutdown: a stop exactly if a worker was started or the recorded value is "yes" |
| LogWorker.InvNext | wmt-launcher/main.c:165-241 | every step of both threads, with every failure, keeps the invariant |
| LogWorker.CheckIsARun | wmt-launcher/main.c:198-233 | from every reachable state and for every outcome of the calls, one check of the property is a run of the two-thread machine that ends in the controls and calls the code computes |
| LogWorker.ShutdownIsARun | wmt-launcher/main.c:460-465 | the same for the shutdown path |
| LogWorker.LogControls.StopFirmwareLog | wmt-launcher/main.c:182-196 | joins before disabling, stops at a failed join, and lets the worker set its flag meanwhile |
| LogWorker.LogControls.CheckFirmwareLog | wmt-launcher/main.c:198-233 | the code's new control state and issued calls are those of the machine's steps in sequence |
| LogWorker.LogControls.ShutDown | wmt-launcher/main.c:460-465 | the same for the shutdown path |

## Left out

- ELF scanning, /proc/self/maps parsing, dlopen and the function-table patch of the RIL shim: foreign memory; resolved slots, protections and fault outcomes are inputs.
- C11 memory ordering, pthread internals and scheduling: lock regions and atomic stores are steps.
- RilShim: other writers store into the slots only while an installation is under way, and not between its final verification and the publication of ACTIVE.
- isReissueToken's pointer comparison: a token is a datatype value, synthetic or the framework's.
- SensorsStack: one sub-HAL; the proxy serves several, each under its own mutex, in the same way.
- RadioCapability: concurrent requests are taken one at a time, and the 64-byte UUID field is its text without padding.
- Overflow of 64-bit clocks and of size_t counters: integers are unbounded, except the sub-HAL's 64-bit session counter.
- Secret zeroing, free() and all logging: no functional property to state.
- FMQ, EventFlag, binder, HIDL conversion, dynamic sensors, direct-report configuration and the sub-HAL index bits in handles: plumbing around the queue and session logic; FMQ writes are all or nothing.
- read_exact's chunking and EINTR retries, and send_frame's EINTR retries: one outcome per read or write; they would only add easy members.
- FirmwareDiscovery.Candidate: a file's content is the same for the header read and the whole-file read; only its size may differ from what fstat reported.
- NULL or empty directory arguments of the two searches: main rejects an empty directory before any search.
- power_on, open_driver, check_chip, session negotiation, dynamic dump and argument parsing of the launcher: straight-line retries without a property across steps.
- gatekeeper, power-shim, gnss-service, wmt-loader, wlan-assistant and sensors.c: thin forwarding or code whose logic lives elsewhere.
