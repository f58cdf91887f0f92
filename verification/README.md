# functrace: a verified model

functrace records function calls. Every goroutine has a session that turns enters and
exits into rows; background pipelines write those rows to a store; parameters are dumped
as JSON and, for pointer receivers, stored as patches on an earlier dump. This project
models the parts of it whose correctness is not visible in any one function and proves
what they promise, for all inputs, all runs and all interleavings.

`dafny verify dfyconfig.toml` checks everything.

## What is modelled

| files | subject |
|---|---|
| `TraceShard`, `TraceShardTheorems`, `TraceShardRest`, `TracePipelineTheorems`, `TracePipeline` | a trace shard's repair of the order of inserts and updates under store failures; when it can come to rest; all shards over one table; the objects |
| `MergePatch`, `Codec`, `DeltaStore`, `Batcher` | JSON merge patches, the zstd envelope, concurrent receiver handlers with their cache, the batch writer |
| `CallTree`, `SessionProtocol`, `TraceSession`, `OpChannel` | a session's call stack and its rows, its enqueue/close protocol, the session object, and the instance's own operation channel |
| `TraceTable` | from a session's calls through the shards to the table and back |
| `Heap`, `DumperWalk`, `DumperTermination`, `Dumper`, `DumperTree`, `DumperBounds`, `DumperContents`, `DumpState`, `Sdump` | the recursive dump of a possibly cyclic heap |
| `StripedIds`, `Registration`, `Int64`, `HumanBytes` | striped ids and shard routing, double-checked goroutine registration, unit choice |

Concurrent code is a state machine whose steps are the atomic sections of the source;
`Run` takes any list of steps and disabled ones do nothing, so a statement about all lists
is one about all interleavings. Fields named as history (`accepted`, `applied`, `minted`,
`sent`, `issued`, ...) record what happened and steer nothing. Code that updates objects is
a class beside the machine, each method tied to the step it performs.

## Assumptions

- A store call ends normally, with an error and no effect, or (trace table) with an error
  after the row was written; which one is an input. A batch of parameters is one
  transaction. Row ids are primary keys. A parameter row that is written past a full channel
  (trace/pipeline.go:268-285) is a batch of one whose transaction failed.
- zstd loses nothing (`Zstd.Lossless`), JSON printing can be read back
  (`JsonText.Faithful`). `createJSONPatch` delegates to a library that is not part of this
  repository; `MergePatch.Diff` is that library's object diff, and patches are applied as
  section 2 of RFC 7396 says. A number is its printed text.
- A dumped text never starts with the envelope's magic bytes: it is a JSON object
  (`Sdump.DumpIsObjectText`) or, after a panic, the name of a pointer type.
- Trace and parameter ids are fresh and positive, which `StripedIds.IdsDistinct` shows.
- Progress is counted in steps: a scheduler that never runs the forwarder is not excluded.
- The heap is finite and frozen during a dump; a map's keys come in some fixed order. The
  capacity in truncation remarks and the type names in markers are left out of the texts.

## Where the code does not keep what it or its documentation promises

- objectdump/config.go:35-40 says that circular structures are detected and no depth
  limit is needed for them. Only pointer slots are remembered: without a limit a slice that
  contains itself is walked for ever, and an interface that holds a pointer to itself is so
  under any limit. `DumperTermination.DumpTerminatesIff` gives the exact condition. A dump
  without a limit is open to direct users of objectdump only: functrace's own configuration
  accepts positive limits only and defaults to 3 (trace/config.go:59-69).
- trace/instance.go:540-546 is commented as never losing data. A send that follows the
  close of the channel panics; `OpChannel.CloseSafeIff` says exactly when that cannot happen.
- A shard retries without end what it cannot apply (trace/pipeline.go:192-204): an insert
  whose write was reported as failed although it took place, and the second update of an id.
  `TraceShardRest.CanRestIff` shows that these are the only two obstacles; an update without
  an insert waits until the insert comes.
- The cache goes on naming a base row that was never stored when both the transaction and
  the row's own write failed, because the error of the fallback is dropped
  (trace/pipeline.go:302-306). `Batcher.LostBase` is such a run, and
  `Batcher.StoredDeltaBase` says exactly when a stored patch has its base.

## Model

| member | source | states |
|---|---|---|
| `TraceShardTheorems.Confluence` | trace/pipeline.go:192-237 | for every arrival order, drain schedule and pattern of store errors, a shard at rest has the table of inserting every accepted row and then applying every accepted update |
| `TraceShardTheorems.SameEventsSameTable` | trace/pipeline.go:153-169 | two runs at rest that accepted the same events in different orders have the same table |
| `TraceShardTheorems.ShardConservation` | trace/pipeline.go:211-237 | every accepted event is in exactly one of channel, retry queue and applied log; `insertedSet` is exactly the ids saved and not yet updated; no update is applied before its insert or twice |
| `TraceShard.HandleMeaning` | trace/pipeline.go:211-237 | an event is acknowledged exactly when its row was in the right state and the store call was healthy; otherwise it goes to the end of the retry queue; what the store then holds, for every outcome |
| `TraceShardTheorems.ReceivedInOrder` | trace/pipeline.go:153-169 | the loop takes events in the order in which the channel accepted them |
| `TraceShardTheorems.OutageDrain` | trace/pipeline.go:192-204 | a drain during a store outage applies nothing, loses nothing and keeps the order |
| `TraceShardTheorems.NoLostWakeup` | trace/pipeline.go:171-204 | whenever the retry queue is not empty between steps, the timer is running or its tick is pending |
| `TraceShardTheorems.QuietHistory` | trace/pipeline.go:223-235 | a shard comes to rest only on a history with at most one update per id, each with its insert |
| `TraceShardTheorems.TwoDrainsConverge` | trace/pipeline.go:192-204 | with an empty channel and a healthy store two drains empty the retry queue if and only if no insert is half done, every update's insert was accepted and no id was updated twice |
| `TraceShardTheorems.HalfDoneDrain` | trace/pipeline.go:214-221 | an insert whose row is already there comes out of every drain as it went in, whatever the store does |
| `TraceShardRest.CanRestIff` | trace/pipeline.go:171-237 | in every reachable state some continuation brings the shard to rest if and only if no insert is half done and no id was updated twice |
| `TraceShardRest.HalfDoneForever` | trace/pipeline.go:213-221 | a half-done insert stays in the retry queue on every continuation, whatever arrives and whatever the store does |
| `TraceShardRest.LateInsertIsHalfDone` | trace/pipeline.go:217-221 | the input: an insert whose write succeeds and is reported as failed |
| `TraceShardRest.DoubleUpdateForever` | trace/pipeline.go:223-235 | a shard that accepted two updates of one id never comes to rest again |
| `TraceShardRest.TwoUpdatesNeverRest` | trace/pipeline.go:223-228 | the input: two updates of one id, after which no continuation is at rest |
| `TraceShard.NotInsertedTwice` | trace/pipeline.go:213-216 | with unique ids the early return for an id already inserted never drops an event |
| `TracePipelineTheorems.PipelineConfluence` | trace/pipeline.go:82-103 | all shards at rest, the shared table holds for every int64 id exactly what that id's own events give |
| `TracePipelineTheorems.ViewNext` | trace/pipeline.go:105-134 | a step of one shard is a step on its own ids and leaves what every other shard sees untouched |
| `TraceTable.SessionComesBack` | trace/pipeline.go:105-134 | with all shards at rest and a session's bracketed run accepted in any order, the table's rows of that goroutine rebuild the session's call forest and every call shows its own time cost |
| `TraceTable.ListingOfSession` | trace/session.go:36-57 | any listing of the table's rows of a goroutine is a permutation of the rows its session emitted |
| `TracePipelineObjects.TpShard.HandleEvent` | trace/pipeline.go:211-237 | the method performs the shard's handling step on its fields and the store, for every store outcome |
| `TracePipelineObjects.TpShard.DrainRetry` | trace/pipeline.go:192-204 | draining in place is the drain step |
| `TracePipelineObjects.TpShard.ScheduleRetry` | trace/pipeline.go:178-190 | from every timer state the timer ends up running with no stale tick |
| `TracePipelineObjects.TpShard.Serve` | trace/pipeline.go:153-169 | the loop among its producers, under any scheduler, is a run of the state machine |
| `TracePipelineObjects.TracePipeline.Insert` | trace/pipeline.go:105-118 | an insert is accepted by its id's shard or, the channel being full, written past it |
| `TracePipelineObjects.TracePipeline.Update` | trace/pipeline.go:120-134 | an update goes to the shard of its id or, the channel being full, is written past it |
| `TracePipelineObjects.TraceStore.SaveTrace` | persistence/sqlite/trace.go:24-41 | an insert fails on a used id and otherwise leaves time cost and finished mark unset |
| `TracePipelineObjects.TraceStore.UpdateTraceTimeCost` | persistence/sqlite/trace.go:44-59 | an update fails when no row has the id and otherwise sets the time cost and the finished mark only |
| `MergePatch.RoundTrip` | trace/param.go:240-252 | for all objects a and b, patching a with the diff of a and b gives b up to null members outside arrays |
| `MergePatch.ExactRoundTrip` | trace/param.go:240-252 | the patched document is exactly b if and only if every null member of b was null at the same place of a |
| `MergePatch.DiffEmpty` | trace/param.go:241-250 | the patch is empty if and only if the documents are equal |
| `MergePatch.DiffKeys` | trace/param.go:240-252 | a patch has an entry for exactly the members that differ: null for a deleted one, the inner patch between two objects, the new value otherwise |
| `MergePatch.PruneFixpoint` | trace/param.go:240-252 | pruning changes a document if and only if it has a null member outside arrays |
| `MergePatch.ApplyToNonObject` | trace/param.go:240-252 | a patch on a non-object gives the patch without its nulls, as section 2 of RFC 7396 has it |
| `Codec.CompressRoundTrip` | trace/param.go:53-82 | decompressing undoes compressing on exactly the texts of a stated class, with zstd up or down |
| `Codec.PatchRestores` | trace/param.go:240-252 | a patch text leads from the old text to the new one, and is never taken for an envelope |
| `DeltaStore.DeltaReconstruction` | trace/pipeline.go:361-416 | in every reachable state of any interleaving of handlers an issued delta row, handed to the batcher or in a handler's hand, has exactly one issued base, itself full and of the same object, and both together restore the dumped receiver |
| `DeltaStore.CacheAgreesWithBase` | trace/param.go:284-346 | in every reachable state a cache entry carries the id and exactly the data of an issued full row of its own object |
| `DeltaStore.RowsOfTheirTasks` | trace/pipeline.go:361-371 | in every reachable state each issued row is filed under its own task's id and trace id |
| `DeltaStore.HandledRow` | trace/pipeline.go:361-416 | one handler's row has its task's id and trace, is a compressed patch on the cached base exactly when that handler found one and a patch can be made, and the cache changes only at its address, after a miss and its own save |
| `DeltaStore.CacheFrame` | trace/param.go:284-346 | only an eviction and a handler's own save touch the cache, each at its own address |
| `DeltaStore.IssuedRowsStay` | trace/param.go:327-345 | no later step, eviction or cache replacement changes or takes back an issued row, and with no handler running all are handed to the batcher |
| `DeltaStore.HandleIsRun` | trace/pipeline.go:361-416 | a handler that runs alone is one run of the interleaved machine and touches nothing else |
| `DeltaStore.FirstFullThenDeltas` | trace/pipeline.go:383-400 | handled one after the other, an object's first sight is a full row and every later one a patch on that same row |
| `DeltaStore.ReceiverHandler.BuildParamFromReceiverTask` | trace/pipeline.go:361-416 | the method builds that row and leaves that cache, for every outcome of the look-up and the save |
| `Batcher.ParamPipeline.Loop` | trace/pipeline.go:288-343 | at every loop head fewer than 256 rows wait; the rows of all events before a tick are written with it at the latest; the rows of the batches written, followed by the waiting rows, are the rows of all dequeued events in order; the table is what those batches make under their faults, and holds each row once when no single write fails |
| `Batcher.TickWrites` | trace/pipeline.go:338-340 | over any run, the rows of all events before a tick are in batches that were written |
| `Batcher.BuiltRowsCount` | trace/pipeline.go:313-327 | the rows to be written are exactly those that some event before cancellation brought |
| `Batcher.ParamPipeline.Flush` | trace/pipeline.go:296-307 | the whole batch is handed on once and the table changes as one transaction or row by row |
| `Batcher.ParamPipeline.SaveParamsBatch` | persistence/sqlite/param.go:42-63 | a batch is stored entirely, exactly when nothing fails and all ids are new and different, or not at all |
| `Batcher.FallbackStoresAll` | trace/pipeline.go:302-306 | the row-by-row fallback stores what the transaction would have stored |
| `Batcher.FallbackLosesFailedOnly` | trace/pipeline.go:302-306 | the fallback loses exactly the rows whose own write failed and keeps all others unchanged |
| `Batcher.AddAllContents` | persistence/sqlite/const.go:59-59 | inserting new rows with different ids adds exactly those rows and keeps the old ones |
| `Batcher.WriteAllContents` | trace/pipeline.go:296-307 | over any number of batches with any faults the table gains exactly the rows that were not lost, a row being lost when its transaction and then its own write fail |
| `Batcher.StoredDeltaBase` | trace/pipeline.go:296-307 | at any moment, with any of the rows handed over written under any faults, a stored delta row has its full base beside it if and only if the base's write was reached and not lost |
| `Batcher.TableHoldsEveryBase` | trace/pipeline.go:308-327 | with all handlers done and their rows written under any faults, the table is exactly the built rows without the lost ones, and a stored delta has its base if and only if the base was not lost |
| `Batcher.LostBase` | trace/pipeline.go:302-306 | the input: two sights of an object whose first write fails leave a patch stored on a base that is nowhere, and a cache that goes on naming it |
| `CallTree.CallTreeRoundTrip` | trace/session.go:36-76 | every bracketed run with rising ids emits the labelled preorder of its call forest, leaves the session as new, and any listing of the rows sorted by id rebuilds that forest |
| `CallTree.RunRefinesStack` | trace/session.go:36-76 | on every run, bracketed or not, the indent and parents map emit the rows of a stack of open calls |
| `CallTree.EnterRefines` | trace/session.go:36-57 | an enter pushes, with the stack's height as indent and its top, or 0, as parent |
| `CallTree.ExitRefines` | trace/session.go:60-76 | an exit pops, and does nothing on the empty stack |
| `CallTree.Parse` | trace/session.go:36-76 | every bracketed run is the run of some call forest |
| `CallTree.RunForest` | trace/session.go:36-76 | the run of a forest emits its preorder with parents and depths and returns the session to its start |
| `TraceSessionObject.TraceSession.PrepareEnter` | trace/session.go:36-57 | the method performs the enter step on the session's fields |
| `TraceSessionObject.TraceSession.OnExit` | trace/session.go:60-76 | the method performs the exit step and returns the indent before it |
| `TraceSessionObject.TraceSession.Record` | trace/session.go:36-76 | a sequence of enters and exits on the object is a run of the model |
| `SessionProtocol.EnqueueCloseSafety` | trace/session.go:86-132 | in every interleaving nothing is sent on a closed channel or closed twice, the wait group counts the producers in flight, and forwarded, held and queued operations are the sent ones in order |
| `SessionProtocol.ExactlyOnce` | trace/session.go:98-119 | an operation whose enqueue has returned went through the channel or directly, one of the two and once |
| `SessionProtocol.CloseForwardsAll` | trace/session.go:122-132 | when Close returns all channelled operations have been forwarded in channel order and no producer is left behind |
| `SessionProtocol.SomeStepEnabled` | trace/session.go:97-132 | from the setting of `closed` until Close returns some step it waits for is possible, even with the channel full |
| `SessionProtocol.WorkFalls` | trace/session.go:97-132 | each such step makes the remaining work fall and no other step changes it |
| `SessionProtocol.CloseBounded` | trace/session.go:122-132 | no schedule can take more such steps than the work left when `closed` was set |
| `TraceSessionObject.TraceSession.Enqueue` | trace/session.go:98-119 | an uninterrupted call queues its operation before close and hands it over at once after it, and leaves the wait group as it was |
| `TraceSessionObject.TraceSession.EnqueueBegin` | trace/session.go:98-108 | the locked section either counts the producer in or marks the call as direct |
| `TraceSessionObject.TraceSession.EnqueueSend` | trace/session.go:117-117 | the send appends to an open channel |
| `TraceSessionObject.TraceSession.EnqueueDone` | trace/session.go:118-118 | the wait group goes down by one and never below zero |
| `TraceSessionObject.TraceSession.EnqueueDirect` | trace/session.go:110-114 | after close the caller hands its operation to the instance |
| `TraceSessionObject.TraceSession.Close` | trace/session.go:122-132 | an uninterrupted close hands over what is queued, in order, before it returns |
| `TraceSessionObject.TraceSession.CloseBegin` | trace/session.go:124-126 | the locked section of Close sets `closed` |
| `TraceSessionObject.TraceSession.CloseChannel` | trace/session.go:128-130 | the wait ends on a zero count and the channel, still open, is closed |
| `TraceSessionObject.TraceSession.CloseReturn` | trace/session.go:131-131 | Close returns with the channel empty and every operation ever sent on it handed over once |
| `TraceSessionObject.TraceSession.ForwarderLoop` | trace/session.go:87-94 | the loop hands over all that is queued, in order, and ends on a closed channel |
| `TraceSessionObject.TraceSession.ForwarderReceive` | trace/session.go:89-92 | the range loop takes the head, or ends on a closed and empty channel |
| `TraceSessionObject.TraceSession.ForwarderSend` | trace/session.go:91-91 | the held operation is handed to the instance |
| `OpChannel.ExecutedOnce` | trace/instance.go:527-547 | in every mode and state of closing no operation is dropped or executed twice |
| `OpChannel.SendGoes` | trace/instance.go:527-547 | an undisturbed send is executed by the sender in sync mode, after the close or when the channel is full, and goes to the channel's end otherwise |
| `OpChannel.FirstInFirstOut` | trace/instance.go:188-203 | operations leave the channel in the order in which they entered it, and the pool executes at most 50 at once |
| `OpChannel.CloseSafeIff` | trace/instance.go:448-468 | closing the channel can never lead to a panic if and only if no sender then stands between its check of the closed flag and its send |
| `OpChannel.LateSendPanics` | trace/instance.go:534-546 | a run in which a send follows the close and panics |
| `DumperTermination.DumpTerminatesIff` | objectdump/dump.go:100-139 | on every finite heap, for every depth limit and from any point of a walk, a dump ends if and only if it does not come, without stopping there, to a cell on a cycle that avoids both pointer slots and the depth count |
| `DumperTermination.AllTerminateIff` | objectdump/dump.go:100-139 | all dumps of a heap end if and only if it has no such cycle anywhere, which is what every other statement about dumps requires |
| `Dumper.SubSmaller` | objectdump/dumper_complex.go:13-34 | every recursive call lowers remaining depth, then unvisited pointer slots, then rank |
| `DumperTermination.SelfSliceLoops` | objectdump/config.go:35-41 | without a depth limit a slice that contains itself is walked for ever |
| `DumperTermination.SelfInterfaceLoops` | objectdump/dumper_complex.go:297-303 | an interface holding a pointer to itself is walked for ever under any depth limit |
| `DumperTree.RootDumpIsTreeDump` | objectdump/dumper_complex.go:13-34 | on an acyclic heap, shared cells included, the dump is the pure dump of the heap's tree unfolding cut at the depth rule |
| `DumperTree.DumpRefinesTree` | objectdump/dump.go:100-139 | the same from any point of a walk with the slots above it remembered |
| `DumperTree.MarkersAreCycles` | objectdump/dumper_complex.go:15-27 | every circular marker names a pointer slot that lies on a cycle of references |
| `DumperTree.MarkerMeaning` | objectdump/dumper_complex.go:15-27 | at any point of a walk a marker names a slot of the current path led back to, or a cycle below |
| `DumperBounds.OutputBound` | objectdump/dump.go:118-129 | the dump nests at most MaxDepth + 2 containers and its size is at most a power of the widest fan-out, whatever the heap's size |
| `DumperBounds.TruncationDepth` | objectdump/dump.go:116-129 | everything that is truncated lies at exactly the first depth beyond the limit |
| `DumperBounds.ListAccounting` | objectdump/dumper_complex.go:219-293 | a slice or array gives one entry per retained element, in order, and one more that accounts for all the others |
| `DumperContents.GoesOnIff` | objectdump/dump.go:100-139 | a walk goes on below a value exactly when the large-object registry has no text for it, the depth is within the limit or the value is flat, and it is no pointer slot of the current path |
| `DumperContents.LargeDump` | objectdump/dump.go:105-114 | a large object, held directly or by one pointer or interface, is its registry text at any depth |
| `DumperContents.TruncatedDump` | objectdump/dump.go:116-129 | beyond the limit everything that is not flat is cut, with its own length and depth |
| `DumperContents.CircularDump` | objectdump/dumper_complex.go:15-27 | a pointer slot met again on its own path gives the marker for that slot |
| `DumperContents.FlatDump` | objectdump/dumper_basic.go:18-68 | a leaf gives its own scalar, a byte slice its text, nil slices and maps give null |
| `DumperContents.PointerDump` | objectdump/dumper_complex.go:13-34 | a pointer gives the dump of what it points to, at the same depth and with its slot remembered if it has an address; nil gives null |
| `DumperContents.InterfaceDump` | objectdump/dumper_complex.go:297-303 | an interface gives the dump of what it holds, at the same depth; nil gives null |
| `DumperContents.MapSummary` | objectdump/dumper_complex.go:77-82 | a map that is not parsed gives exactly its type and its length |
| `DumperContents.StructAccounting` | objectdump/dumper_complex.go:38-67 | a struct gives exactly its type and, under each other name, the last field of that name: walked one level deeper if exported, or if unexported ones are allowed and the struct has an address, and otherwise the remark that says why not |
| `DumperContents.MapAccounting` | objectdump/dumper_complex.go:71-151 | a parsed map gives exactly one member for each different printed key among the retained entries, holding the last value under it, and a note that counts all entries without a member |
| `DumpStateObject.DumpState.DumpWithDepth` | objectdump/dump.go:100-139 | the imperative walk returns the specified dump and leaves `visited` as it found it |
| `DumpStateObject.DumpState.DumpPtr` | objectdump/dumper_complex.go:13-34 | the slot is added for the walk below and removed again, on every path |
| `DumpStateObject.DumpState.DumpStruct` | objectdump/dumper_complex.go:38-67 | the field loop builds the combined object |
| `DumpStateObject.DumpState.DumpList` | objectdump/dumper_complex.go:219-293 | the element loops build the combined list |
| `DumpStateObject.DumpState.DumpMap` | objectdump/dumper_complex.go:71-151 | the entry loop builds the combined object, or the summary |
| `DumpStateObject.DumpState.Dump` | objectdump/dump.go:96-98 | the entry point starts and ends with nothing visited |
| `Sdump.DocumentShowsDump` | objectdump/dump.go:143-167 | the document shows the whole dump: an object member by member with nothing added, and any other dump as its only member "value" |
| `Sdump.RendersOnce` | objectdump/dump.go:158-166 | only one document shows a given dump |
| `Sdump.DumpWellKeyed` | objectdump/dumper_complex.go:38-151 | in no object of any dump do two members share a key |
| `Sdump.WrapBound` | objectdump/dump.go:143-157 | the final document is an object and nests at most one container more than the walk |
| `Sdump.DumpIsObjectText` | objectdump/dump.go:154-167 | the printed dump reads back as a JSON object and is never taken for an envelope |
| `StripedIds.IdsDistinct` | trace/id_shards.go:36-64 | in every interleaving of calls, for any keys and any hash, ids of one kind are positive, pairwise different and rising along each key, as long as each stripe stays in int64 |
| `StripedIds.IdExactIffFits` | trace/id_shards.go:53-57 | an id is the intended number if and only if that number fits int64 |
| `StripedIds.StripedIDGenerator.NextTraceID` | trace/id_shards.go:53-57 | one trace counter goes up; within int64 the id divided by the stripe count is the counter and its remainder the stripe the key hashes to |
| `StripedIds.StripedIDGenerator.NextParamID` | trace/id_shards.go:60-64 | one parameter counter goes up; within int64 the id divided by the stripe count is the counter and its remainder the stripe the key hashes to |
| `StripedIds.StripedIDGenerator.constructor` | trace/id_shards.go:23-33 | counters start at zero and a zero count becomes 32 |
| `StripedIds.ShardIndexInRange` | trace/pipeline.go:95-103 | the shard index is in range for every int64, the minimum included, and is the magnitude modulo the count |
| `StripedIds.SessionShard` | trace/instance.go:161-161 | all traces of every session meet in one shard if and only if the number of shards divides the number of stripes |
| `Registration.RegistrationLinearizes` | trace/instance.go:324-413 | the step at which a call returns leaves its info registered for its gid with its indentation present, and creates exactly when the gid was free |
| `Registration.LiveIdsDistinct` | trace/instance.go:383-399 | live infos have different positive ids under their own gids and no id is handed out twice |
| `Registration.CallsAgree` | trace/instance.go:324-379 | two calls for one gid with no removal in between return the same info |
| `Registration.RegistrationStays` | trace/goroutine.go:119-123 | a registration and its indentation stay until the gid is removed |
| `Registration.FreshAfterRemoval` | trace/instance.go:360-378 | the first call for a gid that returns after its removal creates an info with an id not issued before the removal |
| `Registration.RemovalFrame` | trace/goroutine.go:119-123 | a removal unregisters its gid and touches no other gid and no indentation |
| `Registration.TraceInstance.ReadSection` | trace/instance.go:326-358 | the read-locked section returns an info only with its indentation present |
| `Registration.TraceInstance.WriteSection` | trace/instance.go:337-378 | the write-locked section looks again, then completes or creates |
| `Registration.TraceInstance.CreateNewGoroutineAndTrace` | trace/instance.go:383-399 | a fresh id is registered together with its indentation |
| `Registration.TraceInstance.InitGoroutineAndTraceAtomic` | trace/instance.go:324-379 | uninterrupted, a call is its read section followed, if need be, by its write section |
| `Registration.TraceInstance.DeleteGoroutineRunning` | trace/goroutine.go:119-123 | a removal unregisters the gid and keeps the indentation |
| `HumanBytes.ChooseUnit` | trace/memory.go:145-156 | the number is scaled from 1024 up; then for every uint64 the unit index is at most 5, the unit does not overflow and the quotient lies in [1, 1024) |

## Left out

- The direct writes of `tracePipeline` when a shard's channel is full: `Insert` and `Update` state them, the run theorems cover events the channel accepted. An id written past its shard is unknown to the shard, so a later accepted update of it stays queued.
- Shutdown: shards and the goroutine pipeline stop on cancellation without draining, so nothing is said about a stopped pipeline.
- `Session.Close` twice or without a started forwarder, and the look-up of sessions at the end of a goroutine.
- `SetGoroutineStarted` and `SetGoroutineRunning`, which write the running map with an id from elsewhere.
- `DealPointerMethod`, `DealNormalMethod`, `DealValueMethod` and the routing of operations by type: one operation per parameter, nothing that spans calls.
- JSON arrays at the top level and the number precision of the patch library: dumps are objects, numbers are compared as printed.
- Reflection and unsafe reads, recovery from panics, maps changed during a walk, the registry of large objects beyond its effect as a leaf, `SkipNilValues` (never set by functrace, trace/config.go:291).
- The wrap-around of the goroutine id counter at 2^64.
- How numbers, floats, byte slices and map keys are spelled: a number is given by its literal. A float that JSON cannot express makes the encoder fail, and the document is then an error text.
- The 64-bit FNV-1a hash of id keys: a parameter, since no guarantee depends on it.
- Times, logging, memory sampling, environment parsing, goroutine stack parsing, method-name patterns, the TTL manager and the in-memory repositories: input and output, or easy members.
