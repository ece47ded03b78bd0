# Verified model of the engine adapters

A Dafny 4.11 model of the adapters that connect ONNX Runtime and vLLM to the
engine, with proofs about their protocols, parsers and algorithms. One module
per component; `dafny verify dfyconfig.toml` checks everything.

| file | component |
|---|---|
| `SessionPool.dfy` | the bounded session pool with its condition variable |
| `CancelRegistry.dfy` | the cancellation registry |
| `BucketKeys.dfy`, `BucketSessions.dfy` | shape buckets and the LRU of secondary session pools |
| `BackendSessions.dfy` | the session total over all pools of a backend |
| `Batching.dfy` | grouping, stacking, running and splitting of batches |
| `Packing.dfy`, `ZipDirectory.dfy`, `ZipAcceptance.dfy` | the ZIP central-directory and ZIP64 reader, its writer, and exactly what it accepts |
| `GovernedAllocator.dfy`, `AllocationScopes.dfy` | the device allocation ledger and thread-local scopes |
| `ResizeContract.dfy` | validation of elastic pools and live resizes |
| `Planning.dfy`, `PlanAgreement.dfy` | KV-cache sizing and agreement across ranks |
| `Leases.dfy` | the scheduler connector's capacity leases |
| `Framing.dfy` | the control-socket frame reader |
| `Detections.dfy`, `Transcription.dfy`, `AudioFraming.dfy` | suppression, CTC decoding, reflection padding and framing |
| `DependencyClosure.dfy` | library merging and the dependency closure |
| `Common.dfy`, `Sorting.dfy` | results, sums, slices; a stable sort |

Concurrent components (`SessionPools`, `CancelRegistry`, `GovernedAllocator`,
`Leases`) are state machines: a `Step` is one lock region, or the return of one
outside call, with whatever the environment answers as its argument. Theorems
quantify over every legal list of steps, that is, over every interleaving. The
object that holds the state in the source is a class; each of its methods is one
lock region and is proved to perform exactly one step. Loops of the source are
loops here, proved against specification functions.

Where a property one would expect is false of the code, the model keeps the
code, shows a concrete run or input, and proves the exact condition for all runs
or inputs:

- the pool strands a waiter when a woken thread leaves cancelled; exactly when
  every available session or slot was counted on by a woken thread and no
  cancellation still has to notify everybody (`DroppedWakeupMayStrand`,
  `DroppedWakeupStrandsIff`, `WaiterIsStrandedIff`);
- the comment at `integrations/ort/src/model.rs:209-210` says that locking closes
  the lost-wakeup window; the cancellation check precedes the lock, so a cancelled
  thread can sleep on, exactly when it locks after its cancellation has notified
  and finds nothing to take (`CancelledWaiterMaySleepOn`, `SleepsOnIff`,
  `CancelledWaiterSleepsOnIff`);
- a batch can succeed where single requests fail; exactly when the stack of some
  group runs and splits although a member fails alone; a graph rules this out
  exactly when it takes the members of every stack it takes (`BatchMayOutdoSingleRequests`,
  `BatchAgreesIff`, `BatchesAgreeIff`);
- the ledger and the hosts' books differ after a run exactly when it ignored a
  refused free (`RefusedReclaimLeaks`, `LeaksIffIgnored`, `LedgerMatchesHosts`);
- a lease can outlive a shutdown that no new request follows, for two reasons: a
  reservation that is under way as shutdown takes the lock is stored afterwards,
  or an exception other than `KapslKvControlError` ends a shutdown before its last
  release (`LateStoreOutlivesShutdown`, `BrokenShutdownLoses`); exactly then
  (`LeaseOutlivesShutdownIff`, `ShutdownReleasesEverything`, `EverStoresIff`,
  `RunLosesIff`);
- the frame reader depends on how the stream is cut; exactly when the first
  newline is at exactly the maximum (`CutsMayDisagreeAtMaximum`, `CutsAgreeIff`);
- the maximum-concurrency error is reachable; exactly when the byte floor exceeds
  the maximum demand (`MaximumErrorIsReachable`, `MaximumErrorIffFloorTooHigh`).

Assumptions that stand for code outside the repository: graph execution is a
function of the input values; session creation either fails or returns a new
session, and every secondary pool is newly allocated; hosts issue fresh allocation identities; the control service issues
fresh leases; every attach brings a newly allocated terminator, as both of its
callers do.

## Model

| member | source | states |
|---|---|---|
| `Batching.InferBatch` | integrations/ort/src/model.rs:567-629 | succeeds exactly when every request has a batch answer, and returns these in any grouping order: a member of a group of two or more whose stack runs and splits gets its piece of the stacked run, any other request its own run; for a row-wise graph each answer is the one the request gets alone; Ok whenever every request runs alone; the missing-result error is unreachable |
| `Batching.BatchIsFaithful` | integrations/ort/src/model.rs:567-629 | the batch answers of a row-wise graph are those of the single requests; a batch of requests that all run alone succeeds |
| `Batching.BatchAgreesIff` | integrations/ort/src/model.rs:595-620 | a batch succeeds exactly when each request runs alone or is outdone by the stack of its group; a successful batch means that all run alone exactly when none is outdone |
| `Batching.BatchesAgreeIff` | integrations/ort/src/model.rs:595-620 | no batch is more permissive than its requests exactly when the graph takes the members of every stack it takes |
| `Batching.CollectGroups` | integrations/ort/src/model.rs:572-593 | every request that cannot be grouped is answered at once, and the others are filed, in order, in the group of their element type and trailing shape; fails exactly when an ungroupable request does |
| `Batching.GroupedTogetherIff` | integrations/ort/src/model.rs:572-593 | a group is made up of exactly the requests with a lone primary input of at least two dimensions, of one element type and trailing shape, in order |
| `Batching.InferGroup` | integrations/ort/src/model.rs:595-620 | a group fills all its slots with the batch answers, stacked or one by one, and leaves every other slot as it was; fails exactly when a member has no answer |
| `Batching.InferStacked` | integrations/ort/src/model.rs:631-650 | succeeds exactly when the stack runs and its output splits; piece k is the k-th row range and what request k gets alone |
| `Batching.StackGroup` | integrations/ort/src/model.rs:917-943 | stacks exactly the compatible groups whose row total fits 64 bits; rows add up and data is concatenated in order |
| `Batching.SplitStackedOutput` | integrations/ort/src/model.rs:945-992 | accepts exactly outputs with one element-aligned row per stacked row; piece k is its row range; the pieces together are the output |
| `Batching.SliceOfStackedRun` | integrations/ort/src/model.rs:631-650 | cutting member k's rows out of the stacked run gives the member's own run |
| `Batching.BatchMayOutdoSingleRequests` | integrations/ort/src/model.rs:595-620 | a row-wise graph that needs two rows rejects a request of one row, and the batch of two such requests succeeds |
| `Batching.InferIs` | integrations/ort/src/model.rs:1001-1058 | a request is answered exactly when its inputs are as many as the model declares, every secondary name occurs, and the graph runs on the first tensor followed by the first tensor of each declared name, in order; the answer is that output |
| `Batching.BindsByName` | integrations/ort/src/model.rs:1020-1038 | binding succeeds exactly when every name occurs, and value i is that of the first tensor named like input i |
| `Batching.InferIgnoresOrder` | integrations/ort/src/model.rs:1020-1038 | the order of distinctly named secondary inputs makes no difference, nor does the name of the primary one |
| `SessionPools.PoolIsBounded` | integrations/ort/src/model.rs:94-180 | in every interleaving, cancellations included, total = idle + leased + being created, at most the maximum, and no session is in two places |
| `SessionPools.NobodyIsStranded` | integrations/ort/src/model.rs:109-180 | when no woken thread leaves cancelled, available sessions and slots never outnumber the woken threads while somebody is blocked; so a blocked thread with nobody on the way means every slot is leased or in creation |
| `SessionPools.StepCounts` | integrations/ort/src/model.rs:124-180 | every step keeps the capacity equation, and no-stranding unless it drops a wakeup |
| `SessionPools.DroppedWakeupStrandsIff` | integrations/ort/src/model.rs:118-123 | a step strands a waiter exactly when a woken thread leaves cancelled while somebody is blocked, every available session or slot was counted on by a woken thread, and no cancellation still has to notify everybody |
| `SessionPools.WaiterIsStrandedIff` | integrations/ort/src/model.rs:109-180 | over every run a waiter is stranded at some point exactly when some step strands one; never if cancelled threads leave only while a notification is owed, and then a blocked thread with nobody on the way means every slot is leased or in creation |
| `SessionPools.SleepsOnIff` | integrations/ort/src/model.rs:118-150 | a step makes a cancelled thread sleep on exactly when that thread locks with no notification owed to the pool and finds neither session nor slot; cancelling a request that has not attached the pool, or runs its graph, owes none |
| `SessionPools.CancelledWaiterSleepsOnIff` | integrations/ort/src/model.rs:109-157 | over every run, a cancelled thread sleeps on at some point exactly when some thread waits too late; never if no thread locks after being cancelled |
| `SessionPools.CancelledWaiterMaySleepOn` | integrations/ort/src/model.rs:208-214 | a run in which a cancelled waiter blocks after its notification |
| `SessionPools.SilentCancelWakesNobody` | integrations/ort/src/model.rs:109-157 | a run in which the cancellation of a running request notifies nobody, and a cancelled waiter sleeps on |
| `SessionPools.CancelledBeforeArrivalNeverLocks` | integrations/ort/src/model.rs:118-124 | a request cancelled before its first check never takes the lock |
| `SessionPools.DroppedWakeupMayStrand` | integrations/ort/src/model.rs:109-157 | a run that leaves an uncancelled thread blocked beside an idle session |
| `SessionPools.SessionPool.constructor` | integrations/ort/src/model.rs:95-107 | one idle session, a maximum of at least one |
| `SessionPools.SessionPool.TryAcquire` | integrations/ort/src/model.rs:124-147 | the lock region of acquire is one protocol step: lease the last returned session, else reserve a slot, else wait |
| `SessionPools.SessionPool.ReserveSlot` | integrations/ort/src/model.rs:159-166 | reserves exactly when below the maximum |
| `SessionPools.SessionPool.AddReservedSession` | integrations/ort/src/model.rs:168-173 | the prewarmed session becomes idle and one waiter is notified |
| `SessionPools.SessionPool.ReleaseReservedSlot` | integrations/ort/src/model.rs:175-180 | gives the slot back; the saturating decrement never saturates |
| `SessionPools.SessionPool.ReturnSession` | integrations/ort/src/model.rs:235-248 | dropping a lease puts the session back and notifies one waiter |
| `CancelRegistry.EveryCancelledRequestIsTerminated` | integrations/ort/src/model.rs:344-438 | in every interleaving, once no terminate call is under way, a cancelled request's current terminator has been terminated |
| `CancelRegistry.TerminationFollowsAttachment` | integrations/ort/src/model.rs:344-367 | a terminator has no terminate call before it is attached, so no termination is stale; the attach begins one exactly when a request of the registration is cancelled |
| `CancelRegistry.NoIdLeavesEarly` | integrations/ort/src/model.rs:344-418 | live registrations are disjoint and all their ids registered, so attach never finds one missing |
| `CancelRegistry.CancellationSticks` | integrations/ort/src/model.rs:331-342 | a registration with a cancelled id reports it until it is dropped |
| `CancelRegistry.RegistrationFollowsItsSteps` | integrations/ort/src/model.rs:331-438 | from its acceptance to its drop, over every run, a registration reports cancelled exactly when one of its ids was cancelled since; each id has the terminator of the last attach, none before the first |
| `CancelRegistry.PendingIsBegunNotReturned` | integrations/ort/src/model.rs:344-438 | a terminate call is begun exactly by an attach that finds a cancelled request or by the cancellation of a request that has the terminator, and is under way until it returns |
| `CancelRegistry.ActiveRequests.CheckIds` | integrations/ort/src/model.rs:381-404 | passes exactly non-empty, distinct, inactive ids; each error names a true reason |
| `CancelRegistry.ActiveRequests.Register` | integrations/ort/src/model.rs:381-418 | a batch of ids is registered as a whole or not at all |
| `CancelRegistry.ActiveRequests.Attach` | integrations/ort/src/model.rs:344-367 | attaches to every id and reports whether any was cancelled; never fails |
| `CancelRegistry.ActiveRequests.Cancel` | integrations/ort/src/model.rs:420-438 | marks the request and returns its terminator; unknown ids are ignored |
| `CancelRegistry.ActiveRequests.IsCancelled` | integrations/ort/src/model.rs:331-342 | true exactly when some id of the registration is cancelled |
| `CancelRegistry.ActiveRequests.DropRegistration` | integrations/ort/src/model.rs:370-378 | removes the registration's ids and no other |
| `BucketKeys.SameKeyIff` | integrations/ort/src/model.rs:771-788 | two requests share a bucket exactly when element type, rank, first dimension and the counted rounded dimensions agree |
| `BucketKeys.SharedKeyIff` | integrations/ort/src/model.rs:771-788 | two shapes share a key exactly when element type, rank and first dimension agree and no multiple of the granularity separates two later dimensions that count |
| `BucketKeys.BucketKey` | integrations/ort/src/model.rs:771-788 | builds the colon-separated key text |
| `BucketKeys.RoundedUpIsLeast` | integrations/ort/src/model.rs:776-780 | dimensions are rounded to the least multiple of the granularity at or above |
| `BucketKeys.DecimalValue` | integrations/ort/src/model.rs:783-784 | the decimal text of a dimension stands for it, without leading zeros |
| `BucketSessions.LruIsRecency` | integrations/ort/src/model.rs:732-769 | after any run whose creations succeed, the list is the last c distinct secondary keys in order of last use |
| `BucketSessions.CapacityIsMonotone` | integrations/ort/src/model.rs:732-769 | what is resident at capacity c is resident at c + 1 |
| `BucketSessions.RunKeepsInv` | integrations/ort/src/model.rs:738-768 | in every run, failures included, list and map hold the same distinct secondary keys, at most c, never the primary one |
| `BucketSessions.RecallTracksRecency` | integrations/ort/src/model.rs:750-768 | one request keeps the list a suffix of the recency order, also when the creation fails |
| `BucketSessions.RequestAnswers` | integrations/ort/src/model.rs:738-768 | the primary key is answered with the primary pool, a resident key with its pool, a miss with the created pool or not at all; hits leave the pools alone |
| `BucketSessions.RequestsKeepTheirPool` | integrations/ort/src/model.rs:738-768 | in every run a secondary request is answered with the pool that the last miss of its own key created |
| `BucketSessions.BucketSessionState.PoolForRequest` | integrations/ort/src/model.rs:732-769 | the eviction loop and the table update perform exactly one specified request |
| `BucketSessions.BucketSessionState.TouchBucketLru` | integrations/ort/src/model.rs:1074-1079 | moves the key to the end, adding it if absent |
| `BackendSessions.CollectTotalSessions` | integrations/ort/src/model.rs:1059-1072 | the report counts the sessions of the primary pool and of each pool of the table once, at most buckets times pool size, without saturating |
| `BackendSessions.RunKeepsPools` | integrations/ort/src/model.rs:732-769 | in every run the keys and the pools of the table match one to one, and none is the primary pool |
| `BackendSessions.PoolsServeOneKey` | integrations/ort/src/model.rs:732-769 | no pool ever answers two keys |
| `BackendSessions.BackendIsBounded` | integrations/ort/src/model.rs:725-801 | after any run of requests and any interleaving in every pool, the counted sessions are at most buckets times pool size |
| `BackendSessions.BucketsFitBackend` | integrations/ort/src/model.rs:725-757 | the table never holds more than the configured buckets beside the primary pool |
| `ZipDirectory.ArchiveRoundTrip` | integrations/ort/packaging/fetch_tensorrt_runtime.py:267-377 | every writable archive with distinct names, any other extra records and 64-bit values reads back as exactly its members (PKWARE APPNOTE.TXT sections 4.3.12, 4.3.16, 4.5.3), if the last end-record signature is the written one |
| `ZipAcceptance.ParseIff` | integrations/ort/packaging/fetch_tensorrt_runtime.py:267-377 | for every byte string: it is read as exactly these members if and only if its last end record places a directory that is the concatenation of their records, as many as announced, with distinct names |
| `ZipAcceptance.LocateIff` | integrations/ort/packaging/fetch_tensorrt_runtime.py:267-307 | the directory found is exactly the one the last end record places, with its fields at the offsets of PKWARE APPNOTE.TXT section 4.3.16 |
| `ZipAcceptance.MemberIff` | integrations/ort/packaging/fetch_tensorrt_runtime.py:311-374 | bytes are read as a member exactly when they are its record: fields at the offsets of section 4.3.12, its name spelled, not encrypted, not on another disk, ZIP64 values resolved |
| `ZipAcceptance.ResolveIff` | integrations/ort/packaging/fetch_tensorrt_runtime.py:217-264 | resolution succeeds exactly when the extra field is a sequence of records with one ZIP64 record, which holds the values of the all-ones fields and nothing else |
| `ZipDirectory.AcceptedDirectoryIsTiled` | integrations/ort/packaging/fetch_tensorrt_runtime.py:309-377 | an accepted directory is tiled exactly by the announced number of records, each reading alone as its member, with distinct names |
| `ZipDirectory.ResolveRoundTrip` | integrations/ort/packaging/fetch_tensorrt_runtime.py:217-264 | ZIP64 resolution restores the 64-bit values in field order, whatever records surround the ZIP64 one |
| `ZipDirectory.EntryRoundTrip` | integrations/ort/packaging/fetch_tensorrt_runtime.py:311-374 | one printed member record reads back as its member and its length |
| `ZipDirectory.DecodeIsSpelled` | integrations/ort/packaging/fetch_tensorrt_runtime.py:343-348 | a name is decoded exactly when the bytes spell it: UTF-8 if bit 11 is set, otherwise the characters of an ASCII text; a byte of 0x80 and above is rejected |
| `ZipAcceptance.ScanIff` | integrations/ort/packaging/fetch_tensorrt_runtime.py:235-247 | the scan of the extra field succeeds exactly on sequences of records with at most one ZIP64 record |
| `ZipDirectory.LocateRoundTrip` | integrations/ort/packaging/fetch_tensorrt_runtime.py:267-307 | the printed end record leads to the printed directory and member count |
| `ZipDirectory.ParseCentralDirectory` | integrations/ort/packaging/fetch_tensorrt_runtime.py:267-377 | the loop returns the parsed members by name, or the first error |
| `ZipDirectory.ResolveZip64Fields` | integrations/ort/packaging/fetch_tensorrt_runtime.py:217-264 | the two loops compute the specified resolution, errors included |
| `ZipDirectory.LastSignature` | integrations/ort/packaging/fetch_tensorrt_runtime.py:271-273 | the last place of the end-record signature, if any |
| `GovernedAllocator.LedgerIsSound` | integrations/ort/src/allocator.rs:323-417 | in every reachable state, whatever hosts answer: live entries belong to registered clients and carry their hosts, each is on its host's books, every grant is on them or freed exactly once, and no clients means nothing live |
| `GovernedAllocator.LedgerMatchesHosts` | integrations/ort/src/allocator.rs:323-417 | after any run, live entries and outstanding grants match one to one exactly when the hosts honoured every unchecked free |
| `GovernedAllocator.LeaksIffIgnored` | integrations/ort/src/allocator.rs:376-417 | a step breaks the match exactly when it ignores a refused free |
| `GovernedAllocator.LeakStays` | integrations/ort/src/allocator.rs:323-417 | a leaked grant is never returned |
| `GovernedAllocator.RefusedReclaimLeaks` | integrations/ort/src/allocator.rs:606-611 | a run in which the host refuses the free of what a client left behind |
| `GovernedAllocator.NoClientsNoLive` | integrations/ort/src/allocator.rs:632-640 | the empty client map on which unregistration relies means an empty live map |
| `GovernedAllocator.DeviceAllocator.AllocateScoped` | integrations/ort/src/allocator.rs:323-396 | succeeds exactly when the scope is of this device and its client registered, and the grant well formed, large enough, aligned, and at no live pointer; the allocation is then charged to that client |
| `GovernedAllocator.DeviceAllocator.FreeScoped` | integrations/ort/src/allocator.rs:398-417 | an accepted free removes the entry, a refused one leaves it |
| `GovernedAllocator.DeviceAllocator.RegisterClient` | integrations/ort/src/allocator.rs:504-577 | registers a new client, on a new or a known device, never twice |
| `GovernedAllocator.DeviceAllocator.UnregisterClient` | integrations/ort/src/allocator.rs:579-656 | frees exactly what the client left and releases the device after the last client; the answer lists every problem in order: unknown device or client, failed synchronization, what was left behind, a refused release |
| `AllocationScopes.ScopesNest` | integrations/ort/src/allocator.rs:145-181 | well-nested scopes charge every allocation to the innermost one that was not refused and restore the context |
| `AllocationScopes.AllocationScopeBridge.EnterAdapterScope` | integrations/ort/src/allocator.rs:200-226 | scope ids never repeat or wrap; one entry of the machine; a refused entry leaves the context alone |
| `AllocationScopes.ThreadContext.Enter` | integrations/ort/src/allocator.rs:145-175 | installs a well-formed context and keeps the old one in the guard, or changes nothing; one step of the machine |
| `AllocationScopes.ThreadContext.Drop` | integrations/ort/src/allocator.rs:178-182 | restores what the guard holds; for the innermost guard, one step of the machine |
| `ResizeContract.ValidateResizeOperation` | integrations/vllm/src/kapsl_vllm_connector/contract.py:678-746 | accepts exactly the well-framed operations whose segments, in some order, tile the changed tail with non-empty aligned pieces of distinct ids and handles; scheduler stages have none |
| `ResizeContract.AcceptableIff` | integrations/vllm/src/kapsl_vllm_connector/contract.py:678-746 | acceptance stage by stage: growing operations map or activate, shrinking ones retire or unmap; worker stages tile exactly the bytes between the two block counts, scheduler stages have no segments |
| `ResizeContract.AcceptanceIgnoresOrder` | integrations/vllm/src/kapsl_vllm_connector/contract.py:678-746 | any permutation of the segments is accepted or rejected alike |
| `ResizeContract.WalkSegments` | integrations/vllm/src/kapsl_vllm_connector/contract.py:712-741 | the loop over sorted segments finds the one end up to which they cover, if there is one |
| `ResizeContract.NonemptyIff` | integrations/vllm/src/kapsl_vllm_connector/contract.py:893-896 | an identifier is blank exactly when it has no character outside ASCII white space |
| `ResizeContract.ValidateElasticPool` | integrations/vllm/src/kapsl_vllm_connector/contract.py:811-884 | accepts exactly the aligned geometries whose segments tile the mapped prefix |
| `ResizeContract.SoundReceiptIff` | integrations/vllm/src/kapsl_vllm_connector/contract.py:811-884 | the receipt accepted in full, its segments tiling the mapped blocks piece by piece |
| `ResizeContract.MappedPrefixStaysTiled` | integrations/vllm/src/kapsl_vllm_connector/contract.py:678-746 | an accepted receipt and a chain of accepted growth operations tile [0, final) together |
| `Planning.DesiredIsExact` | integrations/vllm/src/kapsl_vllm_connector/planning.py:682-734 | desired blocks are the smaller of the least aligned count covering demand with headroom and the byte floor, and the greatest aligned count under the cap |
| `Planning.FieldsAreExact` | integrations/vllm/src/kapsl_vllm_connector/planning.py:666-810 | every count of the plan: minimum, base and headroom, desired, and the maximum, which is what the maximum concurrency asks for under the byte cap, or the desired count |
| `Planning.SizeRankOkIff` | integrations/vllm/src/kapsl_vllm_connector/planning.py:666-810 | sizing succeeds exactly when no value exceeds 64 bits, the byte floor holds one sequence, the cap holds one sequence and the floor, the maximum is not below the desired count, and a strict target is met |
| `Planning.SizingIsBounded` | integrations/vllm/src/kapsl_vllm_connector/planning.py:666-810 | minimum <= desired <= maximum, all aligned, bytes within floor and cap, every field within 64 bits |
| `Planning.EffectiveIsLargest` | integrations/vllm/src/kapsl_vllm_connector/planning.py:778-795 | effective concurrency is the largest within the target that fits; strict mode accepts no reduction |
| `Planning.OneSequenceAlwaysFits` | integrations/vllm/src/kapsl_vllm_connector/planning.py:787-788 | the cannot-hold-one-sequence error is unreachable |
| `Planning.MaximumErrorIffFloorTooHigh` | integrations/vllm/src/kapsl_vllm_connector/planning.py:735-774 | with the rest of the plan in order, the maximum-capacity error occurs exactly when the byte floor exceeds what the maximum concurrency asks for; never without a floor |
| `Planning.MaximumErrorIsReachable` | integrations/vllm/src/kapsl_vllm_connector/planning.py:771-774 | a three-block floor for one sequence reaches that error |
| `Planning.SizingIsMonotone` | integrations/vllm/src/kapsl_vllm_connector/planning.py:666-810 | raising the byte cap or the target between two successful plans never lowers desired blocks or effective concurrency |
| `Planning.PlanFailsOnlyByOverflow` | integrations/vllm/src/kapsl_vllm_connector/planning.py:598-626 | for an accepted geometry whose ranks can be sized, the cross-rank checks fail exactly by overflow of the total |
| `PlanAgreement.DescribeIff` | integrations/vllm/src/kapsl_vllm_connector/planning.py:421-466 | a geometry is accepted exactly when its ranks, in some order, are 0, 1, ... on distinct devices with one geometry and a total within 64 bits; that order is the result |
| `PlanAgreement.CheckResultIff` | integrations/vllm/src/kapsl_vllm_connector/planning.py:598-626 | the cross-rank checks accept exactly sizings of every rank with equal counts and bytes, maxima not below, and a total within 64 bits |
| `Planning.CheckedTotal` | integrations/vllm/src/kapsl_vllm_connector/planning.py:621-633 | the accumulating loop gives the sum if it fits 64 bits and overflows otherwise |
| `Planning.RoundUpLeast` | integrations/vllm/src/kapsl_vllm_connector/planning.py:195-198 | rounding up gives the least multiple at or above |
| `Planning.RoundDownGreatest` | integrations/vllm/src/kapsl_vllm_connector/planning.py:201-204 | rounding down gives the greatest multiple at or below |
| `Leases.LeasesAreConserved` | integrations/vllm/src/kapsl_vllm_connector/connector.py:331-355 | in every interleaving each received lease is in exactly one callback's hand, stored under one request, or sent to release once |
| `Leases.StoredLeaseIsItsOwn` | integrations/vllm/src/kapsl_vllm_connector/connector.py:331-355 | in every run a lease is stored under the request it was reserved for |
| `Leases.FailedCommitStillReleases` | integrations/vllm/src/kapsl_vllm_connector/connector.py:426-441 | over every continuation, once a commit has returned, failed or not, its lease is released or in the hand of the callback, which can release it at once |
| `Leases.FinishedRequestIsReleased` | integrations/vllm/src/kapsl_vllm_connector/connector.py:414-441 | a lease taken out by a finished request is released exactly once by the time the callback has ended, whatever the commit answered |
| `Leases.QuietStateIsSettled` | integrations/vllm/src/kapsl_vllm_connector/connector.py:529-549 | once every callback has ended, shutdowns left early included, all leases are released exactly when none is stored and no shutdown was left with leases to release |
| `Leases.RunLosesIff` | integrations/vllm/src/kapsl_vllm_connector/connector.py:544-549 | over every run, leases are lost at its end exactly when an unexpected exception ended a shutdown before its last release |
| `Leases.EverStoresIff` | integrations/vllm/src/kapsl_vllm_connector/connector.py:348-355 | from an empty table a lease is stored at some point of a run exactly when some reservation is stored in it |
| `Leases.LeaseOutlivesShutdownIff` | integrations/vllm/src/kapsl_vllm_connector/connector.py:541-549 | some run without new requests ends with the shutdown over and a lease stored or lost, exactly when, as shutdown took the lock, a reservation was under way, or two leases were stored or in the hand of another shutdown, or one was lost already |
| `Leases.ShutdownReleasesEverything` | integrations/vllm/src/kapsl_vllm_connector/connector.py:529-549 | after a shutdown that finds no reservation under way, and the end of all callbacks, every lease is released once exactly unless an unexpected exception ended a shutdown too early |
| `Leases.LateStoreOutlivesShutdown` | integrations/vllm/src/kapsl_vllm_connector/connector.py:348-355 | a run in which a reservation returning during shutdown is stored and stays |
| `Leases.BrokenShutdownLoses` | integrations/vllm/src/kapsl_vllm_connector/connector.py:544-549 | a run in which the first release of a shutdown raises unexpectedly and the second lease is lost |
| `Leases.Connector.IsLeased` | integrations/vllm/src/kapsl_vllm_connector/connector.py:337-339 | the first lock region of a new request |
| `Leases.Connector.SetDefault` | integrations/vllm/src/kapsl_vllm_connector/connector.py:350-355 | stores the lease unless the request has one, and says so |
| `Leases.Connector.Pop` | integrations/vllm/src/kapsl_vllm_connector/connector.py:419-424 | takes the finished request's lease out, if any |
| `Leases.Connector.TakeAll` | integrations/vllm/src/kapsl_vllm_connector/connector.py:541-543 | shutdown takes every stored lease exactly once |
| `Framing.FrameRoundTrip` | integrations/vllm/src/kapsl_vllm_connector/client.py:353-398 | a newline-free payload of 1 to max - 1 bytes and a newline come back exactly under every way of cutting the stream |
| `Framing.CutsAgree` | integrations/vllm/src/kapsl_vllm_connector/client.py:353-398 | two ways of cutting one stream give one outcome, unless its first newline is at exactly max |
| `Framing.CutsAgreeIff` | integrations/vllm/src/kapsl_vllm_connector/client.py:353-398 | all ways of cutting a stream give one outcome exactly when its first newline, if any, is not at exactly max |
| `Framing.CutsDisagreeAtMaximum` | integrations/vllm/src/kapsl_vllm_connector/client.py:380-389 | every stream with its first newline at exactly max can be cut so that it is a frame and so that it is too long |
| `Framing.CutsMayDisagreeAtMaximum` | integrations/vllm/src/kapsl_vllm_connector/client.py:380-389 | a two-byte example of such a stream |
| `Framing.OutcomeIsExpected` | integrations/vllm/src/kapsl_vllm_connector/client.py:353-398 | the outcome, errors included, told by the bytes alone |
| `Framing.FrameFits` | integrations/vllm/src/kapsl_vllm_connector/client.py:390-397 | no frame exceeds max, and the length check after the loop never fails |
| `Framing.SentFrameIsRead` | integrations/vllm/src/kapsl_vllm_connector/client.py:298-300 | whatever passes the sender's size check is read back by a reader with the same limit |
| `Framing.ReadFrame` | integrations/vllm/src/kapsl_vllm_connector/client.py:353-398 | the read loop computes the specified outcome |
| `Detections.SuppressionIsSound` | integrations/ort/src/task.rs:514-537 | the result is ordered by score, no two kept suppress each other, every dropped candidate has a kept suppressor of at least its score |
| `Detections.SuppressionInFull` | integrations/ort/src/task.rs:514-537 | the same told by IoU, threshold, classes and scores |
| `Detections.LoopChoosesGreedily` | integrations/ort/src/task.rs:525-536 | a candidate is kept exactly when no earlier kept one suppresses it |
| `Detections.GreedyChoiceIsUnique` | integrations/ort/src/task.rs:525-536 | only one set of candidates satisfies that condition |
| `Detections.SuppressionIsIdempotent` | integrations/ort/src/task.rs:514-537 | a second run changes nothing |
| `Detections.IouIsSymmetricAndBounded` | integrations/ort/src/task.rs:539-551 | IoU is symmetric and in [0, 1], inverted boxes included |
| `Detections.IouOfNested` | integrations/ort/src/task.rs:539-551 | the IoU of a box within another is the ratio of their areas, 1 for a box with area and itself |
| `Detections.IouIsShare` | integrations/ort/src/task.rs:539-551 | the common area as a share of the area covered together |
| `Detections.OverlapIsLongest` | integrations/ort/src/task.rs:540-541 | each side of the common area is the length of the longest common interval |
| `Detections.NonMaxSuppression` | integrations/ort/src/task.rs:514-537 | the nested loops return the specified choice |
| `Sorting.SortIsStable` | integrations/ort/src/task.rs:519-524 | candidates of equal score keep their order |
| `Transcription.Transcribe` | integrations/ort/src/task.rs:598-615 | the one-pass loop is argmax per frame, collapse of equal neighbours if enabled, then blank removal |
| `Transcription.BestToken` | integrations/ort/src/task.rs:601-606 | the first position of the greatest score |
| `Transcription.RepeatedFrameChangesNothing` | integrations/ort/src/task.rs:607-613 | with collapsing on, repeating any frame changes nothing |
| `Transcription.SpellingIsRecovered` | integrations/ort/src/task.rs:598-615 | any blank-free token list is recovered from frames that separate its tokens by blanks |
| `AudioFraming.FoldIsMirror` | integrations/ort/src/preprocess/audio.rs:583-595 | the constant-time fold equals repeated mirroring about the first and last sample |
| `AudioFraming.MaybeCenter` | integrations/ort/src/preprocess/audio.rs:389-405 | sample j of the padded signal is the waveform reflected at j - pad, and the length is the centred one |
| `AudioFraming.FramesFitExactly` | integrations/ort/src/preprocess/audio.rs:379-387 | every counted frame reads in bounds and one more would not fit |
| `AudioFraming.FramesCanBeCounted` | integrations/ort/src/preprocess/audio.rs:379-387 | frames are counted exactly when one fits |
| `AudioFraming.Frames` | integrations/ort/src/preprocess/audio.rs:157-175 | succeeds exactly when centring and the frame count do; frame f holds the reflected waveform from f * hop - pad on |
| `DependencyClosure.ResolveDependencyClosure` | integrations/ort/packaging/package_accelerator.py:281-304 | terminates on every graph; returns exactly the names reachable through non-host dependencies; fails exactly when a reachable name has no candidate, in any visiting order |
| `DependencyClosure.MergeCandidates` | integrations/ort/packaging/package_accelerator.py:217-233 | fails exactly when two candidates of one name differ; otherwise every name maps to its first candidate |

## Left out

- Cancellation in `Batching`: no request is cancelled, so the error branch always falls back to single requests.
- Liveness of cancelled pool waiters beyond the exact conditions above; waits are not timed.
- Lock poisoning, panics, raw pointers, the C ABI and the ONNX Runtime, CUDA, FFT and image libraries.
- `KapslDeviceAllocationScopeV1` and `dtype` codes come from a crate that is not part of this model: scope well-formedness is the request-id check only, and element types are named by a datatype.
- The registry of devices: `GovernedAllocator` is one device and its registration; the devices share no state.
- Log callbacks, wait timers and metrics counters other than the session total.
- BucketKeys.RoundedUpIsLeast: does not model 64-bit wrap-around; the source casts the granularity to `i64`, so settings of 2^63 and more turn negative, and dimensions within one granularity of 2^63 overflow.
- UTF-8 decoding of member names is a parameter of the ZIP reader; ASCII decoding is modelled.
- HTTP ranges, hashing and extraction of wheel members.
- Python type checks, field presence and Unicode white space in the contract validators; identifiers are blank when they hold only ASCII white space.
- Error texts of `ContractValidationError`: a rejection is `false`.
- Rank geometry construction: group strides, layer names and cache-policy fields are carried as opaque details; accepted ranks have non-empty groups and positive sizes.
- The resize and heartbeat threads of the connector, and exactly-once application of scheduler resizes.
- File-descriptor passing in the frame reader.
- Floating-point rounding and NaN: scores, coordinates and samples are reals.
- Windowing, FFT, mel filters and normalization after framing.
- The rules that choose the closure roots and the host libraries; both are inputs of the closure.
