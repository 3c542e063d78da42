# Verified model of the migration platform

The platform moves a live database by fenced, replayable writes and then proves the copy right by
digest descent. This project models the parts that carry that promise and proves what they promise, for
every input, every interleaving and every run of the state machines involved.

| file | part of the system |
|---|---|
| `Prelude.dfy` | options, byte strings and their order, sorted listings, the ceiling logarithm |
| `FencedRows.dfy` | the fenced statements as row transformers; replay and convergence |
| `MySqlForm.dfy` | MySQL's left-to-right conditional assignments refine the single guarded update; offset rows |
| `Coalesce.dfy` | change events, the signed LSN conversion, coalescing |
| `Applier.dfy` | the apply transaction: split, chunk, write by table, commit offsets |
| `Refinement.dfy`, `CommittedRows.dfy` | a committed batch against arrival order; when a batch commits; what it leaves in each column, and what it counts |
| `Batches.dfy` | series of batches: they fold, and they converge |
| `Isolation.dfy`, `BisectionCost.dfy` | bisection of a failing batch: conservation and blame; its cost, from above and from below |
| `Retrying.dfy` | the retry loop around it |
| `HighWater.dfy` | high-water marks and what storing them leaves |
| `Delivery.dfy`, `ServiceRuns.dfy` | overlapping instances that poll, commit, isolate, give up, crash and restart: step by step, and over whole runs |
| `ServiceCalls.dfy` | a call of ApplyWithIsolation, and the retry loop, are sequences of those steps |
| `BulkLoad.dfy` | fenced merges of extracted parts interleaved with the change stream |
| `Window.dfy`, `Protocol.dfy` | the watermark window class and the snapshot/stream protocol around it |
| `Bisect.dfy` | integer, string and time bisection; base-256 arithmetic |
| `Recon.dfy`, `Findings.dfy`, `Reconcile.dfy`, `Exactness.dfy` | ranges, additive digests, findings and their order, the descent, and what it proves |
| `Keys.dfy`, `LsnPacking.dfy` | canonical keys; folding connector sequence numbers into one integer |
| `Parts.dfy` | manifests and the part writer, with its failure points |
| `DeadLetters.dfy`, `RepairWorkers.dfy` | the dead-letter store, and any number of repair workers sharing it |

A method that works step by step in the source is a method here, proved equal to a specification
function (`Coalesce` and `Coalesced`, `Apply` and `Applied`, `Descend` and `Descent`); the theorems are
about those functions. Errors of the database are an arbitrary function of the transaction number, the
statement number and the rows written, so a statement about all environments is a statement about all
failures.

## Where a promise fails, and exactly when it holds

- The service loop goes on polling after a batch has failed (`cmd/cdc-applier/main.go:142-149`).
  `PollingOnLosesEvents` is a run of it that loses an event, for every retry budget: the database is away for as
  many transactions as there are attempts, every call and the retry loop itself return that error, and the loop
  goes on. `LostForGood` says no continuation recovers such an event. `RunLosesNothingIff`: over every run,
  polling on included, nothing is lost if and only if no commit stores offsets over a gap, a row change beyond
  the stored offset and up to the batch's high-water mark that is neither in the batch nor accounted for.
  Instances that retry a failed batch to completion, or restart, leave no gap (`DisciplinedIsGapless`).
- Dead letters are stored only after the offsets. A call that has stored the offsets but whose answer is lost
  loses every event it had given up on (`UnansweredFinishLoses`); `Gapless`, the condition above, counts them as
  not accounted for.
- The fence is `<=`, so equal-LSN writes of a row are decided by arrival. `ConvergesIff`: deliveries can
  be permuted and repeated freely exactly when each row has one newest write that counts.
- `MergeStaging` never clears the deleted flag. `LoadMatchesSourceIff`: a row loads wrongly exactly when
  a merge of it ran over a tombstone at or below the stamp and the row never changed at or after it.
- Coalescing breaks ties by stream offset, arrival order does not: `TiedOffsetsDisagree` is a batch on which
  they differ. `RefinesArrivalIff` gives the exact condition; equal-LSN events arriving in offset order satisfy
  it (`RefinesArrival`).
- String bisection stalls exactly when the bounds differ only in trailing NULs (`StringBisectIff`).
- A binlog file longer than 4 GiB moves its own sequence numbers backwards (`LongFileGoesBackwards`,
  `BinlogOrderIff`); a rotation never does. Hexadecimal text without a prefix is read as decimal when it
  happens to use decimal digits only (`BareHexIff`). A numeric sequence number passes through a double:
  order is kept, strictly up to 2^53 and beyond it for numbers further apart than the spacing of doubles
  (`NumericOrder`); `NumericMergeIff` says exactly which pairs merge, 2^53 and its successor first
  (`NumericCollision`).
- A retry budget of one is overrun, every larger one is respected (`BudgetRespectedIff`). Entries held by
  a worker that crashes stay claimed for ever (`CrashStrands`, `SettledForever`).
- A write after a failed roll of the part writer dereferences a nil part; `WriteRow` says exactly when.
- The comment at `internal/sink/applier.go:148-150` puts isolating one bad row among 500 at about nine
  extra round trips. One bad event among n, alone on its row, costs at least 1 + 2 floor(log2 n) transactions
  beyond the first attempt (`WithIsolationCostsAtLeast`), seventeen for 500 (`FiveHundred`), and p of them at most
  1 + 2 p ceil(log2 n) (`WithIsolationLogCost`). The model follows the code.
- The escape of the NULL sentinel covers text held as a string only: a byte slice equal to the sentinel is written
  as NULL (`BytesBecomeNull`). `EncodedNullIff` says exactly which values read back as NULL.

## Model

| member | source | states |
|---|---|---|
| FencedRows.ExecVisible | internal/dialect/postgres.go:92-129 | an upsert or tombstone shows the later of stored and written at its row, and touches no other row |
| FencedRows.FoldRowLater | internal/dialect/postgres.go:92-106 | replaying any writes to a row equals one write, the last of the newest |
| FencedRows.DeliveredNewest | internal/dialect/postgres.go:92-129 | any delivery leaves each row at its highest-LSN write, unless the target was already newer |
| FencedRows.ConvergesIff | internal/dialect/postgres.go:92-106 | permuting and repeating deliveries never shows, if and only if each row not already newer has a single newest write |
| FencedRows.Converges | internal/dialect/postgres.go:92-106 | with one write per row and LSN, two deliveries of one set of writes show the same table |
| FencedRows.EqualLsnDoesNotConverge | internal/dialect/postgres.go:98 | two different writes of a row at one LSN make arrival order visible |
| FencedRows.TombstoneHolds | internal/dialect/postgres.go:109-131 | no delivery of older writes brings a deleted row back, and no delivery lowers a row's LSN |
| MySqlForm.OnDuplicateKeyUpdate | internal/dialect/mysql.go:83-98 | MySQL's assignments, each testing the LSN as it stands, compute the run of the list |
| MySqlForm.UpsertAgrees | internal/dialect/mysql.go:58-98 | MySQL's upsert leaves the same rows as Postgres's guarded update |
| MySqlForm.DeleteAgrees | internal/dialect/mysql.go:103-122 | the same for the tombstone, whose flag is assigned before the LSN |
| MySqlForm.MergeAgrees | internal/dialect/mysql.go:164-185 | the same for the merge of a staged row |
| Offsets.OffsetFormsAgree | internal/dialect/mysql.go:366-376 | both engines' offset statements agree and never lower a stored offset |
| Coalescing.FillSlots | internal/sink/applier.go:340-356 | the scan fills the slot map that the specification defines |
| Coalescing.Coalesce | internal/sink/applier.go:331-370 | the survivors, in arrival order |
| Coalescing.CoalescedRow | internal/sink/applier.go:323-330 | every row of the batch keeps exactly one event, its winner, and no other row appears |
| Coalescing.CoalescedAre | internal/sink/applier.go:331-370 | the survivors are exactly the events with the highest LSN, offset and arrival of their row, in arrival order |
| Coalescing.WinnerIsMaximum | internal/sink/applier.go:349-355 | the winner is the lexicographic maximum of LSN, offset and arrival |
| Coalescing.CoalescedDistinct | internal/sink/applier.go:327-330 | no two survivors address one row |
| Coalescing.TiedWinner | internal/sink/applier.go:349-355 | with ties in offset order the winner is the last arrival at the highest LSN |
| Statements.SplitByOp | internal/sink/applier.go:381-392 | upserts and deletes, each in order; nothing else |
| Statements.ChunkEvents | internal/sink/applier.go:394-407 | the chunks of the specification |
| Statements.ChunkBounds | internal/sink/applier.go:394-407 | chunks are non-empty and never exceed the statement limit |
| Statements.CarriedChunks | internal/sink/applier.go:394-407 | the chunks concatenated are the events chunked |
| Statements.CarriedRow | internal/sink/applier.go:226-252 | over all tables, the statements carry for each row its upserts, then its deletes, and nothing else |
| Apply.Applier.ExecUpserts | internal/sink/applier.go:236-243 | one statement per chunk, up to the first error |
| Apply.Applier.ExecDeletes | internal/sink/applier.go:245-251 | one tombstone per delete, up to the first error |
| Apply.Applier.WriteTable | internal/sink/applier.go:226-252 | a table's statements, or a permanent error for a table outside the plan |
| Apply.Applier.Write | internal/sink/applier.go:214-254 | the statements of every table in sorted order, whatever order the grouping map had |
| Apply.Applier.CommitOffsets | internal/sink/applier.go:297-306 | the offset statements, up to the first error |
| Apply.Applier.Apply | internal/sink/applier.go:106-143 | the transaction commits data and offsets together or changes nothing |
| Refinement.ApplyRow | internal/sink/applier.go:106-143 | a committed batch writes to each row the winner of its events, under the fence |
| Refinement.RefinesArrivalIff | internal/sink/applier.go:214-254 | the committed batch shows what one fenced write per event in arrival order would, if and only if each row's survivor writes what arrival order ends on or the stored row is newer |
| Refinement.RefinesArrival | internal/sink/applier.go:331-407 | equal-LSN events of a row in non-decreasing offset order suffice |
| Refinement.TiedOffsetsDisagree | internal/sink/applier.go:349-355 | two updates of a row at one LSN, the later offset first: the committed table and arrival order differ |
| Batches.ApplyAllFolds | internal/sink/applier.go:106-143 | any series of attempts, failed ones included, shows the fold of the committed events, if each committed batch agrees with its own arrival order |
| Batches.TiesInOrderAgree | internal/sink/applier.go:349-355 | batches whose ties arrive in offset order do |
| Batches.ApplyAllNewest | internal/sink/applier.go:106-143 | whatever the ties, any series of attempts leaves a row at a newest committed event, or at the stored row if that was newer |
| Batches.BatchesConverge | internal/sink/applier.go:106-143 | two targets fed the same writes in any batches, order and repetition show the same rows, if each row not already newer has one newest write |
| Refinement.StatementsDistinct | internal/sink/applier.go:327-330 | no multi-row statement of a coalesced batch names a row twice |
| Refinement.CommitsIff | internal/sink/applier.go:106-143 | a planned batch commits if and only if the database raises no error in its transaction |
| Refinement.SummaryConserves | internal/sink/applier.go:112-141 | applied + deleted + skipped is the number of events |
| CommittedRows.WinnerIsWritten | internal/sink/applier.go:256-292 | after a committed batch the row of its newest event, unless a newer row was stored, is live at that event's LSN with exactly the planned columns, each holding the after image's value, or Null (the before image only if there is no after image); or, if the event is a delete, a tombstone at its LSN; and its table is planned |
| CommittedRows.OthersStay | internal/sink/applier.go:214-254 | rows without an event in the batch stay as they were |
| CommittedRows.CountersAre | internal/sink/applier.go:112-141 | applied is the number of rows an upsert wins, deleted the number a delete wins, skipped the number of events superseded |
| CommittedRows.UnplannedFails | internal/sink/applier.go:228-234 | a batch naming a table outside the plan never commits and, unless the database fails first, fails permanently |
| CommittedRows.FailsBecause | internal/sink/applier.go:106-143 | the error of a batch that fails is one the database raised in its transaction, or the permanent one of an unplanned table |
| CommittedRows.RepeatedRowAborts | internal/sink/applier.go:327-330 | a statement aborts exactly if it names a row twice |
| Isolation.IsolateBatch | internal/sink/applier.go:183-211 | the recursion over the applier's state is the specified bisection, with its failures and counts |
| Isolation.ApplyWithIsolation | internal/sink/applier.go:151-180 | one attempt, then bisection, then the offsets alone; the dead letters and counts it returns |
| Isolation.IsolationKeepsOffsets | internal/sink/applier.go:188 | bisection never touches the stored offsets |
| Isolation.IsolationAccounts | internal/sink/applier.go:183-211 | a bisection that ends puts every event, in order, in one committed stretch or one dead letter |
| Isolation.DeadFailedAlone | internal/sink/applier.go:197-199 | nothing is dead-lettered that did not fail alone, non-transiently |
| Isolation.IsolationFolds | internal/sink/applier.go:183-211 | interrupted or not, the target is the in-order fold of what was committed |
| Isolation.WithIsolationAccounts | internal/sink/applier.go:151-180 | of any batch: an error leaves the offsets alone, success accounts for every event, and nothing is given up on that did not fail alone |
| Isolation.WithIsolationFolds | internal/sink/applier.go:151-180 | whatever it returns, the target is the in-order fold of what was committed, if each committed stretch agrees with its own arrival order; ties in offset order do |
| Isolation.WithIsolationCounts | internal/sink/applier.go:151-210 | applied, deleted, skipped and dead-lettered never exceed the events, and are all of them when nothing was bisected |
| Isolation.FailedAccounts | internal/sink/applier.go:151-180 | the dead letters returned: when the call succeeds, and when only storing the offsets has failed, they and the events committed are the whole batch; they come in batch order, each rejected alone and not transiently; after any other error there are none |
| Isolation.IsolationStops | internal/sink/applier.go:183-208 | bisection stops early only for a transient failure of one of its attempts |
| Isolation.ErrorsAreRaised | internal/sink/applier.go:151-180 | so an error the caller sees is one the database raised, or an unplanned table's; unless it is transient, only storing the offsets was left |
| Isolation.WithIsolationCounters | internal/sink/applier.go:183-211 | applied and deleted are the rows upserted and tombstoned over the committed stretches; skipped is counted when nothing was bisected |
| BisectionCost.IsolationCost | internal/sink/applier.go:183-211 | at most 2n - 1 transactions |
| BisectionCost.IsolationLogCost | internal/sink/applier.go:183-211 | at most 1 + 2 p ceil(log2 n) transactions when a stretch of the batch fails only if it holds one of its p bad events |
| BisectionCost.RealFailsOnlyOn | internal/sink/applier.go:106-143 | the applier is such an attempt, when the database raises errors only at statements that write a bad event |
| BisectionCost.WithIsolationLogCost | internal/sink/applier.go:148-180 | hence the bound for the applier, plus one first attempt and one for the offsets |
| BisectionCost.IsolationCostsAtLeast | internal/sink/applier.go:183-211 | at least 1 + 2 floor(log2 n) transactions when a stretch fails, non-transiently, exactly if it holds a bad event |
| BisectionCost.RealFailsExactlyOn | internal/sink/applier.go:106-143 | the applier is such an attempt, when the database rejects exactly the statements that write a bad event and each bad event has its row to itself |
| BisectionCost.WithIsolationCostsAtLeast | internal/sink/applier.go:148-180 | hence the lower bound for the applier, beyond its first attempt |
| BisectionCost.FiveHundred | internal/sink/applier.go:148-150 | for a batch of 500 that is seventeen, not nine |
| Retrying.ApplyWithRetry | cmd/cdc-applier/main.go:184-195 | the retry loop: the first call that succeeds or fails permanently, or the last of the budget |
| Retrying.RetryCalls | internal/retryx/backoff.go:118-150 | its result is that of the last of at most as many calls as the budget; each earlier one failed, not permanently, and the last succeeded, failed permanently or ended the budget |
| Retrying.WithRetryAccounts | internal/retryx/backoff.go:118-150 | an error leaves the offsets alone and, unless permanent, has used up the budget; success accounts for every event |
| Retrying.RetryFailedAccounts | cmd/cdc-applier/main.go:184-195 | the dead letters of the last call are those returned, and with what it committed they are the whole batch |
| HighWater.HighWaterMarks | internal/sink/applier.go:411-438 | one position per partition, the specified best, sorted by topic and partition |
| HighWater.BestIsMaximum | internal/sink/applier.go:416-425 | that best is the offset and sequence number of the first event at the partition's highest offset |
| HighWater.RunMarksRaise | internal/dialect/postgres.go:380-386 | committing them raises each stored offset to the higher of stored and best, in any order of the statements |
| Delivery.StepKeeps | cmd/cdc-applier/main.go:86-165 | every step of any instance, polling on included: rows show the newest applied event, stored offsets lie in the log and never fall |
| Delivery.StepLosesNothingIff | internal/sink/applier.go:125-141 | from a state where nothing is lost, a step loses something if and only if it stores offsets over a gap |
| Delivery.UnansweredFinishLoses | cmd/cdc-applier/main.go:142-165 | a call that stores the offsets but whose answer is lost loses the events it had given up on |
| Delivery.WholeIsGapless | cmd/cdc-applier/main.go:142-149 | an instance that has read past nothing outstanding, and drops nothing, leaves no gap |
| Delivery.StepStaysWhole | internal/stream/consumer.go:88-91 | every step but polling on leaves it so, and a restart at the stored offset + 1 makes it so |
| DeliveryRuns.RunKeeps | cmd/cdc-applier/main.go:86-165 | so every reachable state has newest rows and sound offsets |
| DeliveryRuns.RunRaises | internal/dialect/postgres.go:385 | over every run the stored offsets never decrease |
| DeliveryRuns.RunLosesNothingIff | cmd/cdc-applier/main.go:142-149 | over every run nothing is ever lost if and only if no commit stores offsets over a gap |
| DeliveryRuns.Delivered | internal/stream/consumer.go:88-91 | as long as none does, an event at or below a stored offset is folded in or dead-lettered; and always every row shown is an event of the log |
| DeliveryRuns.EffectivelyOnce | internal/sink/applier.go:294-306 | once the stored offset has passed a row's highest-LSN change, the row is that change, whatever was redelivered or overlapped |
| DeliveryRuns.DisciplinedIsGapless | cmd/cdc-applier/main.go:184-195 | instances that retry a failed batch to completion, or restart before storing offsets, and learn what was given up on, leave no gap |
| DeliveryRuns.LostForGood | internal/stream/consumer.go:88-91 | an event below the stored offset, in nobody's hands and behind every reader, is never applied or dead-lettered again |
| DeliveryRuns.PollingOnLosesEvents | cmd/cdc-applier/main.go:142-149 | for every retry budget, a run of the loop as written that loses an event so: each call it makes and the retry loop return a transient error before it polls on |
| ServiceCalls.CallIsSteps | internal/sink/applier.go:151-211 | a call of ApplyWithIsolation on a polled batch is a sequence of steps, with the same database, applied events and dead letters |
| ServiceCalls.RetriesAreSteps | cmd/cdc-applier/main.go:184-195 | so is the whole retry loop |
| BulkLoad.LoadMatchesSource | internal/snapshot/partition.go:216-222 | for any interleaving of merges and deliveries, with no tombstone under a merge, a row ends as the source has it |
| BulkLoad.LoadMatchesSourceIff | internal/dialect/postgres.go:170-217 | it does if and only if no merge ran over a tombstone at or below the stamp or the row changed at or after the stamp |
| BulkLoad.MergeShowsIff | internal/dialect/postgres.go:192-195 | when one merge makes its row visible |
| BulkLoad.BuriedMergeHidesRow | internal/dialect/postgres.go:192-195 | a load that loses a row through a buried tombstone |
| Windows.SurvivorsAre | internal/snapshot/window.go:196-201 | the survivors are exactly the keys of the read order that were not evicted, with their rows |
| Windows.SurvivorsInOrder | internal/snapshot/window.go:185-188 | in the read order |
| Windows.AcceptedIff | internal/snapshot/window.go:113-143 | a chunk is accepted if and only if it is named, keys and rows are as many, the window is idle and no key repeats; then the window is buffered and holds each key's row, in read order |
| Windows.RefusedKeeps | internal/snapshot/window.go:113-137 | which error each refusal gives; a refusal leaves the window as it was, except for a repeated key |
| Windows.BufferConserves | internal/snapshot/window.go:113-143 | RowsBuffered = RowsEmitted + RowsEvicted + pending + dropped survives an offered chunk, accepted or refused |
| Windows.EventConserves | internal/snapshot/window.go:164-177 | and an event |
| Windows.HighConserves | internal/snapshot/window.go:189-210 | and a high watermark |
| Windows.ClosedIff | internal/snapshot/window.go:189-210 | closing leaves the window idle and empty, one more chunk complete and the survivors counted as emitted; any other high watermark changes nothing |
| Windows.Window.Buffer | internal/snapshot/window.go:113-143 | the new state and error of every case, including the residue a duplicate key leaves |
| Windows.Window.OnLowWatermark | internal/snapshot/window.go:149-157 | opens the window only for its own chunk |
| Windows.Window.OnEvent | internal/snapshot/window.go:164-177 | evicts the key, if the window is open and holds it |
| Windows.Window.OnHighWatermark | internal/snapshot/window.go:189-210 | emits the survivors and resets, only for its own chunk |
| Windows.Window.Abort | internal/snapshot/window.go:214-221 | discards the chunk and counts what it dropped |
| Protocol.StepKeeps | internal/snapshot/window.go:113-221 | every step of the consumer keeps the agreement of target, window and source |
| Protocol.LastChangeDecides | docs/adr/0003-watermark-snapshot.md:1-40 | the source table the protocol is measured against: a key is as its last change left it |
| Protocol.ChunksMatchSource | docs/adr/0003-watermark-snapshot.md:1-40 | at every point of every run the target agrees with the source at that log position, completely for every key of a finished chunk, deletes included |
| Protocol.FinishedMatchesSource | docs/adr/0003-watermark-snapshot.md:1-40 | when finished chunks cover every key, the target is the source |
| Protocol.ChangedKeysMatch | internal/snapshot/window.go:159-177 | a key changed inside an open window is already right, and no longer buffered |
| Protocol.ForeignMarksInert | internal/snapshot/window.go:145-157 | watermarks of other chunks change nothing |
| Protocol.ChunkFinishes | internal/snapshot/window.go:189-210 | a chunk buffered before its low watermark is finished by its high watermark |
| Protocol.OfferedFinishes | internal/snapshot/window.go:113-210 | hence a named chunk offered to an idle window before its low watermark is reached is finished by its high watermark |
| Protocol.AbortResets | internal/snapshot/window.go:214-221 | an abort leaves an idle, empty window and nothing else changed |
| Bisection.MidpointString | internal/recon/bisect.go:178-211 | the byte loop computes the specified midpoint |
| Bisection.MidpointValue | internal/recon/bisect.go:178-211 | read as a base-256 number of that width the midpoint is half the sum of the bounds |
| Bisection.IntBisectIff | internal/recon/bisect.go:66-91 | between 64-bit bounds the midpoint is strict, and exists exactly when there is room |
| Bisection.TimeBisectIff | internal/recon/bisect.go:231-252 | the same for instants, saturating subtraction included |
| Bisection.OpenEnds | internal/recon/bisect.go:66-91 | a range open at one end is cut a fixed step from its bound: 2^20 keys within 64 bits, a day, one byte 0xff; below a string, in the middle |
| Bisection.StringBisectIff | internal/recon/bisect.go:150-176 | a strict midpoint without trailing NULs exists if and only if the bounds differ by more than trailing NULs |
| Bisection.CleanStringsSplit | internal/recon/bisect.go:150-211 | bounds without trailing NULs always split |
| Ranges.SplitWithin | internal/recon/reconcile.go:218-222 | the midpoint of a range lies in it, so both halves are ranges again |
| Ranges.Tiles | internal/recon/reconcile.go:221-222 | each key of a range is in exactly one half |
| Digests.RangeDigest | internal/dialect/postgres.go:289-299 | summing rows in any order gives the range's digest |
| Digests.SplitDigest | internal/dialect/postgres.go:270-299 | the halves' digests add up to the range's |
| Digests.TotalRows | internal/dialect/postgres.go:293 | the digest's row count is the number of rows |
| Digests.EmptyDigest | internal/dialect/postgres.go:293-295 | an empty range has the zero digest |
| Digests.RowAdds | internal/dialect/postgres.go:293-295 | one more row of the range adds one and its two hash projections; a row outside adds nothing |
| Digests.RowReplaced | internal/dialect/postgres.go:293-295 | a changed row moves the sums by the change of its projections |
| Reconciling.Reconciler.CompareRows | internal/recon/reconcile.go:246-328 | the leaf's findings up to the cap, or one unresolved range |
| Reconciling.Reconciler.Descend | internal/recon/reconcile.go:172-226 | appends the specified findings, counts visits and queries, keeps the greatest depth, and on an error leaves a prefix |
| Reconciling.Reconciler.Reconcile | internal/recon/reconcile.go:159-170 | the descent from the root with fresh counters, its findings sorted by key hash; DigestQueries is twice RangesVisited |
| Findings.ByHashSorts | internal/recon/reconcile.go:168 | the sort orders by hash, keeps every finding, and is stable |
| Findings.KeyHashOrder | internal/recon/reconcile.go:168 | in terms of the keys: unresolved ranges first, then rows by the hash of their key |
| Reconciling.AtMostCap | internal/recon/reconcile.go:173-175 | findings never exceed the cap |
| Reconciling.Defaults | internal/recon/reconcile.go:106-125 | the options that are set hold; the others default to 5000 rows, depth 48, 1000 findings |
| Exactness.LeafDiffsAre | internal/recon/reconcile.go:284-326 | a leaf lists exactly its range's differences, by kind |
| Exactness.FindingsSound | internal/recon/reconcile.go:172-226 | every row finding is a real difference of the range, every unresolved range really disagrees |
| Exactness.KeysReportedOnce | internal/recon/reconcile.go:172-328 | no key is reported twice |
| Exactness.DifferencesReported | internal/recon/reconcile.go:172-328 | with separating digests and room to spare every difference is reported or in an unresolved range |
| Exactness.ReconcileIsExact | internal/recon/reconcile.go:159-170 | all of these for the findings a whole run returns |
| Exactness.ResolvesEveryRow | internal/recon/reconcile.go:172-328 | with a row reader, a range of integers that the depth limit can halve away, separating digests and room to spare, the findings are exactly the differences, by key and kind |
| Exactness.UnresolvedOnlyDeep | internal/recon/reconcile.go:246-262 | with a row reader a range is left unresolved only when the descent has reached the depth limit |
| Exactness.UnresolvedLeaf | internal/recon/reconcile.go:246-262 | there, and everywhere without a row reader, a leaf is one unresolved range with both row counts, and no row is read |
| Exactness.ComparedLeaf | internal/recon/reconcile.go:264-328 | elsewhere a leaf takes two reads and lists its differences, all of them if the cap allows |
| Exactness.LeafIff | internal/recon/reconcile.go:206-220 | a disagreeing range is a leaf if and only if both sides hold at most LeafRows rows, the depth limit is reached or it does not split |
| Exactness.RowsReadIff | internal/recon/reconcile.go:264-282 | rows are read if and only if a row is reported |
| Exactness.MismatchFound | internal/recon/reconcile.go:195-226 | a range whose digests differ always yields a finding, with no assumption on collisions |
| Exactness.CleanIff | internal/recon/reconcile.go:154-170 | a run is clean if and only if the root digests agree, and then costs one visit and no row read |
| Exactness.OneDifferenceFound | internal/recon/reconcile.go:186-226 | one row missing, or with a hash that differs in either projection, is never reported clean |
| Exactness.DescentCost | internal/recon/reconcile.go:180-226 | at most 1 + 2 d min(MaxDepth, ceil(log2 w)) ranges for d differing keys in width w |
| Exactness.DescentDepth | internal/recon/reconcile.go:180-183 | and goes no deeper than min(MaxDepth, ceil(log2 w)) |
| Exactness.DepthLimited | internal/recon/reconcile.go:208-210 | and never below MaxDepth, whatever the keys |
| Keys.Canonical | internal/model/key.go:90-104 | the builder loop writes the canonical form |
| Keys.NewRowKey | internal/model/key.go:30-37 | the sorted columns, whatever the map's order |
| Keys.NewRowKeyOrdered | internal/model/key.go:41-49 | the key of the named columns that have values |
| Keys.CanonicalRoundTrip | internal/model/key.go:88-104 | the canonical form can be read back |
| Keys.CanonicalIff | internal/model/key.go:88-104 | equal canonical forms if and only if equal names and rendered values |
| Keys.RowKeysEqualIff | internal/model/key.go:126-127 | two keys are Equal if and only if they name the same columns with the same rendered values |
| Keys.IntegerText | internal/model/key.go:154-173 | an integer renders as its decimal digits, signed if negative |
| Keys.DistinctKeys | internal/model/key.go:142-186 | keys that differ in an integer, a text or a boolean are never Equal |
| Keys.Spelled | internal/model/key.go:144-153 | booleans and nil render as their words, nil after a NUL |
| Keys.SlotKeyCollides | internal/sink/applier.go:346 | with a NUL in a table name two rows can share a slot |
| Keys.SlotKeyIdentifies | internal/sink/applier.go:346 | table, NUL and canonical key identify the row for NUL-free table names |
| LsnPacking.PackOrder | internal/cdc/decode.go:272-278 | packing embeds lexicographic pairs in the integers |
| LsnPacking.Precedence | internal/cdc/decode.go:198-228 | the first of lsn, scn, commit_lsn, change_lsn and the sequence number that converts is the answer; then the binlog ordinal times 2^32 plus the position modulo 2^32; then the commit time |
| LsnPacking.FieldGives | internal/cdc/decode.go:248-288 | what a missing field, a negative or an exact number, decimal digits and 0x-prefixed hexadecimal convert to |
| LsnPacking.SpaceIgnored | internal/cdc/decode.go:266-269 | white space around a text, Unicode spaces included, does not matter |
| Parsing.TrimRemovesBlanks | internal/cdc/decode.go:266 | nothing but white space is removed, and none is left at either end |
| Parsing.HexDigitsAre | internal/cdc/decode.go:272-284 | the hexadecimal digits, in either case, and no other byte, have their values |
| LsnPacking.PairTextIff | internal/cdc/decode.go:272-284 | text with a slash converts exactly when both sides are 32-bit hexadecimal |
| LsnPacking.PairTextMeans | internal/cdc/decode.go:272-278 | and then to the packed pair, in any spelling |
| LsnPacking.PairTextOrder | internal/cdc/decode.go:271-278 | so such texts compare as pairs |
| LsnPacking.PairTextRoundTrip | internal/cdc/decode.go:271-278 | every 64-bit position survives being written as hi/lo |
| LsnPacking.BareHexIff | internal/cdc/decode.go:279-284 | unprefixed hexadecimal is read as such if and only if it holds a letter or is below ten |
| LsnPacking.BareHexGoesBackwards | internal/cdc/decode.go:271-284 | such texts do not keep their order |
| LsnPacking.BinlogOrdinalRoundTrip | internal/cdc/decode.go:235-250 | the ordinal of a file name, zero-padded or not, is recovered |
| LsnPacking.OrdinalIs | internal/cdc/decode.go:235-246 | the ordinal is the 32-bit decimal number after the last dot; of any other name it is zero |
| LsnPacking.RotationMovesForward | internal/cdc/decode.go:198-222 | a rotation never moves the sequence number backwards |
| LsnPacking.BinlogOrder | internal/cdc/decode.go:218-222 | below 4 GiB the number orders exactly as (file, position) |
| LsnPacking.BinlogOrderIff | internal/cdc/decode.go:221 | in one file of any length, exactly as the position modulo 2^32 |
| LsnPacking.LongFileGoesBackwards | internal/cdc/decode.go:221 | a position past 4 GiB that goes backwards |
| LsnPacking.NumericOrder | internal/cdc/decode.go:256-260 | numbers, read as doubles, keep their order, strictly up to 2^53 and beyond it when further apart than the spacing |
| LsnPacking.NumericMergeIff | internal/cdc/decode.go:256-260 | two merge if and only if they round to one multiple of one spacing, or to the power of two between two spacings |
| LsnPacking.NumericCollision | internal/cdc/decode.go:256-260 | 2^53 and its successor become one number |
| Doubles.DoubleExactIff | internal/cdc/decode.go:256-260 | a number survives exactly when it is a multiple of the spacing |
| Doubles.TiesToEven | internal/cdc/decode.go:256-260 | halfway between two doubles a number goes to the even one |
| LsnPacking.SignedOrderIff | internal/sink/applier.go:269 | the signed conversion keeps order unless the pair straddles 2^63 |
| LsnPacking.FencedBinlogOrder | internal/sink/applier.go:269 | ordinals below 2^31 reach the fence in order |
| LsnPacking.FencedPairOrder | internal/sink/applier.go:269 | so do hi/lo texts with a high part below 2^31 |
| Manifests.Validate | internal/snapshot/manifest.go:160-208 | accepts if and only if the manifest is consistent; a refusal names a real fault |
| Manifests.RowsInSealedParts | internal/snapshot/manifest.go:149-157 | the declared rows of the loadable parts |
| Manifests.SealedParts | internal/snapshot/manifest.go:125-134 | the loadable parts, all of them, in index order |
| Manifests.EligibleAre | internal/snapshot/manifest.go:120-134 | they are the parts listed that are sealed and have a digest, as often as listed |
| Manifests.EligibleRowsAre | internal/snapshot/manifest.go:149-157 | the rows counted are theirs |
| Manifests.CompleteRows | internal/snapshot/manifest.go:146-157 | in an accepted complete manifest of sealed parts they sum to TotalRows |
| Parts.EncodedNullIff | internal/snapshot/partition.go:349-361 | a value reads back as NULL if and only if it is one, or is no string and renders as the sentinel |
| Parts.WrittenAsRenderedIff | internal/snapshot/partition.go:349-361 | any other value is written as it renders, except the one string that is escaped |
| Parts.BytesBecomeNull | internal/model/key.go:148-149 | so a byte slice equal to the sentinel becomes NULL, where the same string does not |
| Parts.EncodeMergesIff | internal/snapshot/partition.go:349-361 | which strings the escape cannot tell apart, exactly |
| Parts.PartWriter.Seal | internal/snapshot/partition.go:227-292 | seals the open part, saves the manifest, then announces it; what each failure leaves behind |
| Parts.PartWriter.Roll | internal/snapshot/partition.go:183-224 | seals and opens the next part; sealed parts and files are untouched |
| Parts.PartWriter.WriteRow | internal/snapshot/partition.go:298-343 | the row goes to the end of the last part, which rolls at the row limit or on the byte test; when each error occurs, the nil part after a failed roll included |
| Parts.PartWriter.Close | internal/snapshot/partition.go:367-403 | when it publishes a manifest, exactly; and then the files in index order are the rows written, no part over the limit or needlessly empty, digests and key bounds right |
| Parts.PublishedPart | internal/snapshot/partition.go:258-270 | each published part describes its own file: place, rows, digest, extract LSN, key bounds |
| Parts.FirstKeyIs | internal/snapshot/partition.go:322-332 | the lower bound is the key of the first row that has one |
| Parts.LastKeyIs | internal/snapshot/partition.go:322-332 | and the upper bound that of the last |
| Parts.PartWriter.ValidManifest | internal/snapshot/partition.go:395-398 | the manifest it builds is accepted unless a part stayed unsealed or the window is reversed |
| Parts.ValidateSpec | internal/model/table.go:212-252 | a specification is accepted exactly if source, target, key and columns are named, no column is repeated and the key consists of columns |
| Parts.ConfigDefaults | internal/snapshot/partition.go:73-86 | settings that are given hold; the others have the documented defaults |
| DeadLetters.Store.PutDeadLetters | internal/store/store.go:80-115 | each failure becomes an entry of its own, numbered in order, and no entry is overwritten |
| DeadLetters.InsertedAre | internal/store/store.go:108-115 | each entry of a batch stands under its own number, and every other entry is as it was |
| DeadLetters.Store.SelectClaimable | internal/dialect/postgres.go:358-366 | the earliest due entries, up to the limit, skipping locked rows |
| DeadLetters.Store.Claim | internal/store/store.go:122-170 | exactly those become the worker's |
| DeadLetters.Store.Requeue | internal/store/store.go:201-224 | exactly the named entries that were quarantined become claimable, from now on and with a fresh budget; the result counts the entries that went from quarantined to pending |
| DeadLetters.Store.Resolve | internal/store/store.go:173-181 | the entry is let go with the decision's status and attempts and is claimable no more; no other entry changes |
| DeadLetters.Store.Reschedule | internal/store/store.go:185-197 | the entry is let go and is claimable from the decision's time on if it is to be retried, otherwise not at all; no other entry changes |
| DeadLetters.Store.CountByStatus | internal/store/store.go:227-267 | one number per status; clean if and only if no entry is open; the age of the oldest open entry |
| DeadLetters.CountsSum | internal/store/store.go:227-267 | the counts of a migration sum to its entries |
| DeadLetterRuns.RunKeeps | internal/store/store.go:122-224 | every interleaving keeps hands, claims and attempts in step |
| DeadLetterRuns.CreatedAs | internal/dlq/entry.go:150-185 | a failed event enters with one attempt spent, quarantined if the failure was permanent, else claimable from its retry time on |
| DeadLetterRuns.ClaimTakes | internal/store/store.go:122-170 | a claim makes due, unheld entries the worker's and moves no other |
| DeadLetterRuns.FailureDecides | internal/dlq/entry.go:109-138 | a failed retry spends an attempt; a permanent error or a spent budget quarantines, any other failure makes the entry claimable exactly from its retry time on |
| DeadLetterRuns.SuccessResolves | internal/dlq/entry.go:141-147 | a successful retry resolves the entry and lets it go |
| DeadLetterRuns.PermanentWaits | internal/dlq/entry.go:113-122 | an entry that failed permanently stays quarantined and unclaimable until a requeue names it |
| DeadLetterRuns.OneHolder | internal/dialect/postgres.go:357-377 | no entry is held twice |
| DeadLetterRuns.RetriesBounded | internal/dlq/entry.go:109-138 | attempts stay within a budget of two or more; so do claims, one fewer before the first requeue |
| DeadLetterRuns.BudgetRespectedIff | internal/dlq/entry.go:124-130 | every run respects a positive budget if and only if it is at least two |
| DeadLetterRuns.SettledStays | internal/store/store.go:173-224 | no step touches a resolved or stranded entry, nor a quarantined one unless a requeue names it |
| DeadLetterRuns.SettledForever | internal/dlq/entry.go:40-46 | hence no run does |
| DeadLetterRuns.CrashStrands | cmd/repair-worker/main.go:102-125 | a worker that stops strands what it still held |
| DeadLetterRuns.CountsSumToCreated | internal/store/store.go:227-267 | over every run the counts sum to the entries created |

## Left out

- SQL text, quoting, placeholders, target column renaming: a statement is what it does to rows. Wall-clock
  columns are erased in the comparison of the two engines.
- Cross-engine text normalisation of row digests: row hashes are uninterpreted functions, range digests
  sums of them; 60-bit truncation is part of the hash.
- Kafka readers, HTTP handlers, drivers, files, gzip, CSV quoting, fsync, signals, metrics and the mutex
  of the window: a transaction is atomic, the stream an indexed log, a method call a step.
- Error classification: an arbitrary verdict per failure. Back-off times and jitter: retry times are inputs.
- TRUNCATE events: coalesced like others and then dropped by the split, so the refinement theorems exclude
  them. Nil events are not modelled.
- Apply.Applier.WriteTable: the plan holds table names as the events spell them; two spellings of one table,
  which the source resolves to one specification by its fallback on the bare name, are two tables here.
- Apply.Applier.Apply: drops the counters that the source returns together with an error.
- Delivery.StepKeeps: a dead letter counts as accounted for once the call has returned it; the source stores it
  afterwards, and stops if that fails. The "latest" start position is not modelled.
- Retrying.ApplyWithRetry: a positive budget; a budget of zero, which retries for ever, cancellation and the waits
  between attempts are not modelled.
- Bisection.IntBisectIff: stated for bounds that fit 64 bits, since the midpoint is clamped after the
  strictness test. Floating-point and unsigned 64-bit key samples are read as integers.
- Reconciling.Reconciler.Reconcile: the listing order of row keys and the key hash are parameters; the text and
  time of findings are not modelled. Digests and row reads are views of one table, although the source's row
  reader keeps tombstones that its digest filters.
- Reconciling.Reconciler.Descend: a text-keyed descent from a range unbounded on both sides starts with an
  integer bound in the source; ranges here hold keys of one type.
- LsnPacking.NumericOrder: fractional numbers, and numbers within 4096 of 2^64, are not modelled.
- Parts.PartWriter.WriteRow: the byte threshold is an arbitrary verdict, and a row that fails inside the CSV
  buffer is not modelled.
- Parts.ValidateSpec: target renames, column protection and the chunk column are not part of the table specification.
- DeadLetters.Store.Claim: payload encryption, error text and claim times are not stored.
- Control gates and the phase graph, tokenisation and encryption, the extractor's queries, the control plane.
