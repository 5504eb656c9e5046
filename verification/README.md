# A verified model of the MVCC store, the Raft log replication and the watch hub

The repository is an etcd-like key-value server. This project models its three most intricate parts in
Dafny and proves what they promise.

**The MVCC store.** One revision counter drives three structures: the tree `kv` (latest record per key),
the tree `kv_rev` (every record, keyed by big-endian revision and key) and an in-memory index of
generations per key. Reads pick `kv` or `kv_rev` by the revision asked for; compaction cuts `kv_rev` and
the index but not `kv`; snapshots serialise the trees and rebuild the index.

- `Bytes`, `KeyValueCodec`: byte order, integer codecs, the two record codecs, the revision key.
- `KeyIndex`, `Backend`, `Mvcc`: the objects, with their loops and updates in place. Every method is proved
  against a function of the old state.
- `Store`: the state of the store as a value and its operations as functions, the meaning of `MvccStore`.
- `History`: an independent reference that knows nothing of trees, indices or generations: the contents at
  every revision and a high mark of compaction. `Histories.RunRefines` ties every run to it.
- `Reads`, `Writing`, `Replay`, `Snapshots`, `Encoding`, `Restored`, `Continued`: the theorems. Reads equal the
  reference's reads; time travel, coherence, exact compaction, replay of the event log, version accounting,
  round trips, and what a restored store answers at every revision, also after it has gone on.
- `KvService`, `Transactions`: range conventions, transaction compares, the operation loop of `txn`, and what
  compares and answers say of the history.

**Raft log replication.** `RaftLog`, `RaftState` and `RaftNode` are the objects, each with its state as a value
and total functions for what its methods do; `Receiving` and `Leading` say what those do to message, log and
peers; `Quorum` the commit candidate and its overlap with elections;
`RaftCluster` a step system of nodes that restart and of append requests that can be lost, duplicated and
reordered; `CatchUp` the conflict back-off of one leader and one follower. All of them work on the log as
it is kept, tree cells and cached fields included; `RaftLogs.Full` reads it as a sequence of entries.

**The watch hub.** `WatchRange` and `WatchHub`: the range-grouped index of watchers, and dispatch proved
equal to one filter per watcher. `WatchDelivery` compares what the service notifies when it writes with what
`watch_events` reports of the same write.

Each method of the source is one atomic step. Revisions, leases and versions are 64-bit signed integers;
the counter wraps in `Stores.Next`. Methods that take a revision ask that one is left
(`currentRevision < MAX_I64`). Lengths of 2^32 and more do not survive the cast to `u32`
(`KeyValues.DecodeInvertsEncode` says so as an if-and-only-if): a put of such a key or value is specified, but
what it leaves is no longer a store whose records can all be read. Panics and errors of the source are
outcomes (`Panicked`, `Failed`), never preconditions.

## What the code does, where that is not what one would expect

- `compact` removes from the index also the newest revision of a live key, when it lies below the point. The
  key stays in `kv` but no read finds it until its next put. `Reads.CompactedRange` states the exact effect:
  a full read keeps the records last written at or after the point, and is unchanged if and only if all were.
- A restore rebuilds the index from `kv`, so those keys come back: `RestoredStores.RestoreKeepsReads` gives
  the exact condition under which reads agree, `RestoredStores.CompactionHidesRestoreReveals` the runs on
  which they do not. Older revisions of live keys are forgotten, and a read of the past counts more keys
  than it returns records exactly when compaction had hidden one (`ContinuedRuns.RestoredPastRead`).
- `range` and `delete_range` panic when the start lies above a non-empty end; the delete has taken a
  revision by then.
- `decode` panics on 32 to 35 bytes.
- `txn` translates an empty range end as `range` does, but not the one-byte zero end
  (`KvServices.TxnConventionDiffers`). A failing operation ends it after earlier ones took effect. Its ranges
  and deletes report the store as it was before, its puts report the running store
  (`KvServices.PutReportsPrevious`); a delete counts what is visible by then (`Transactions.DeleteCountsUnreported`).
- The previous record a put reports may be one that compaction has hidden from reads
  (`Writings.PreviousIsReadExactly`).
- `watch_events` with a negative start returns nothing, since negative numbers sort last in the revision key.
- The notification of a delete carries the old record, so a watcher's start revision is compared with the
  revision of the last write (`WatchDeliveries.DeletesTold`): a watcher with the default start is not told of
  the removal of a key last written before the watch began, and is told once the key has been put again
  (`WatchDeliveries.MissedThenTold`).
- Saving a Raft snapshot moves the first index before `truncate_before` is called, which then does nothing:
  snapshots free no log entry (`RaftLogs.SnapshotFreesNothing`).
- Truncating the log down to its snapshot, or to nothing, leaves the cached last term as it was, until the
  next append or recovery repairs it. The cached term is then right exactly if the index is above the snapshot
  or the dropped entries ended in the same term (`RaftLogs.TruncateRefines`); `RaftLogs.TruncateLeavesStale`
  is a log on which it is wrong.
- An accepted append request always truncates, and then sets the commit index to at most the new end of the
  log: a follower's commit index can fall (`RaftNodes.CommitFallsExactly`).
- The commit index follows the majority match index without a look at the entry's term: the rule to commit
  only entries of the own term by counting is kept exactly if no majority is beyond the commit index or the
  entry at the majority index is of that term (`RaftNodes.CommitRuleExactly`), and
  `RaftNodes.CommitsEarlierTerm` is a leader that breaks it.
- A candidate that gets an append request of its own term stays a candidate (`Receivings.AppendAnswered`), and a
  mere pre-vote makes its receiver take over the term (`Receivings.VoteRecorded`).
- A leader that is refused by a later term goes on leading (`Leadings.RefusedByLaterTerm`).
- Snapshot data is not kept on disk. After a restart a leader sends peers that are behind its snapshot entries
  that do not follow the previous index; an empty follower accepts them and has a gap in its log
  (`Leadings.GapSentExactly`, `Leadings.GapAccepted`).
- The compaction point a store records is that of the last accepted compaction and can lie below the one reads
  depend on (`Writings.RecordedBelowMark`).
- Any answer to a snapshot, a refusal included, moves the peer's match and next index to the leader's
  snapshot (`RaftNodes.AppendFollowsInstall`).

## Model

| member | source | states |
|---|---|---|
| ByteStrings.SuccessorIsTight | src/api/kv_service.rs:230-241 | the interval from a key to the key followed by a zero byte holds that key alone |
| ByteStrings.BytesOnDisk | src/storage/mvcc.rs:47-78 | every byte of the little-endian and big-endian numbers on disk is the digit of its place |
| KeyValues.Encode | src/storage/mvcc.rs:47-60 | writes the fields of the record in the `kv` format |
| KeyValues.EncodeWithKey | src/storage/mvcc.rs:63-78 | writes the `kv_rev` format |
| KeyValues.DecodeInvertsEncode | src/storage/mvcc.rs:122-155 | the `kv` codec inverts, with any bytes behind, exactly when the value length fits `u32` |
| KeyValues.DecodeInvertsEncodeWithKey | src/storage/mvcc.rs:81-119 | the `kv_rev` codec inverts exactly when both lengths fit |
| KeyValues.DecodeSound | src/storage/mvcc.rs:122-155 | whatever `decode` accepts starts with the encoding of its result; it panics exactly on 32 to 35 bytes |
| KeyValues.DecodeWithKeySound | src/storage/mvcc.rs:81-119 | the same for `decode_with_key`, which never panics |
| KeyValues.HeaderLayout | src/storage/mvcc.rs:47-78 | create revision, modification revision, version and lease lie in the first 32 bytes, in this order |
| KeyValues.ValueLayout | src/storage/mvcc.rs:47-60 | the value lies behind its length, at byte 36 |
| KeyValues.KeyValueLayout | src/storage/mvcc.rs:63-78 | key and value lie each behind its length |
| KeyValues.RevKeyLayout | src/storage/mvcc.rs:279-284 | eight bytes of revision, then the key |
| KeyValues.RevKeyInjective | src/storage/mvcc.rs:279-284 | the revision key determines revision and key |
| KeyValues.RevKeyOrder | src/storage/mvcc.rs:279-284 | byte order of revision keys is (revision, key) order, negative revisions last |
| KeyIndexing.GetAfterPut | src/storage/index.rs:116-147 | a put at a fresh revision is what later lookups see, earlier lookups stay |
| KeyIndexing.GetAfterTombstone | src/storage/index.rs:150-178 | a tombstone hides the key from then on, earlier lookups stay |
| KeyIndexing.GetAfterCompact | src/storage/index.rs:207-222 | compaction at any point hides exactly the answers below it and keeps liveness |
| KeyIndexing.IndexRefinesHistory | src/storage/index.rs:70-76 | after any changes with rising revisions a lookup is the key's last change at or before, if that was a write |
| KeyIndexing.RangeRefinesHistory | src/storage/index.rs:181-201 | the range scan lists, ascending, exactly the keys in bounds with such a write |
| KeyIndexing.KeyIndex.Put | src/storage/index.rs:116-147 | the map after a put, generation opened or extended |
| KeyIndexing.KeyIndex.Tombstone | src/storage/index.rs:150-178 | the map after a tombstone |
| KeyIndexing.KeyIndex.Range | src/storage/index.rs:181-201 | the scan loop computes the range answer, and panics on inverted bounds |
| KeyIndexing.KeyIndex.Compact | src/storage/index.rs:207-222 | the loop over all keys compacts every entry |
| Histories.PutRefines | src/storage/mvcc.rs:287-357 | a put moves the store as it moves the reference history |
| Histories.DeleteRefines | src/storage/mvcc.rs:360-423 | a range delete removes from the reference exactly the visible keys in bounds that are held |
| Histories.CompactRefines | src/storage/mvcc.rs:508-533 | compaction raises the high mark of the reference and changes nothing else |
| Histories.RunRefines | src/storage/mvcc.rs:287-533 | every run of puts, range deletes and compactions follows the reference: counter, contents, index answers, log |
| Reads.FetchIsReference | src/storage/mvcc.rs:449-475 | a fetch through `kv` or `kv_rev` yields the record the history holds at that revision |
| Reads.RangeIsReference | src/storage/mvcc.rs:426-484 | every range read, at any revision and limit, is the reference's read |
| Reads.ReadMeans | src/storage/mvcc.rs:426-484 | the reference read holds exactly the visible records in bounds, by key, up to the limit; the count is all of theirs and `more` tells that a limit cut some |
| Reads.TimeTravel | src/storage/mvcc.rs:287-484 | later puts and deletes never change a read at a revision reached before |
| Reads.ReachableCoherent | src/storage/mvcc.rs:333-528 | `kv`, `kv_rev` and the index agree in every reachable store, up to the high mark of compaction |
| Reads.MarkIsHighMark | src/storage/mvcc.rs:508-517 | the mark of the reference is the highest accepted compaction point |
| Reads.CompactLookups | src/storage/index.rs:207-222 | in every reachable store compaction turns lookups below the point into none and keeps the others |
| Reads.CompactedRange | src/storage/mvcc.rs:508-533 | the exact effect of compaction on full reads at every revision, with the condition for no change |
| Writings.PutIsRead | src/storage/mvcc.rs:287-484 | right after a put its key has the record with that value and lease, created now or inherited, one version up; every other key reads as before |
| Writings.PreviousIsLast | src/storage/mvcc.rs:302-357 | the previous record a put reports is the last one written, in all fields |
| Writings.PreviousIsReadExactly | src/storage/mvcc.rs:302-484 | it is what a read shows exactly if compaction has not hidden it |
| Writings.DeleteReportsRead | src/storage/mvcc.rs:360-484 | a range delete reports what a read of its bounds shows, in order, and leaves that read empty |
| Writings.LastPointRecorded | src/storage/mvcc.rs:508-533 | over every run the recorded compaction point is that of the last accepted compaction, 0 before one |
| Writings.RecordedBelowMark | src/storage/mvcc.rs:508-533 | a run whose recorded point lies below the mark reads depend on |
| Replay.EventsExact | src/storage/mvcc.rs:539-574 | `watch_events` reports every kept change since the start exactly once, by revision and key, puts as puts |
| Replay.CatchUpReplays | src/storage/mvcc.rs:539-574 | the read before a start revision with the events since then applied is the current read |
| Replay.VersionCountsWrites | src/storage/mvcc.rs:310-331 | the version counts the writes since the key was last absent, starting at its create revision |
| Replay.VersionAccounting | src/storage/index.rs:116-138 | version, create revision and the live generation agree in every reachable store |
| Backends.Backend.Scan | src/storage/backend.rs:210-230 | the entries from start up to end in key order, cut at the limit |
| Backends.Backend.Snapshot | src/storage/backend.rs:257-290 | the loops write the snapshot format of the six trees |
| Backends.Backend.Restore | src/storage/backend.rs:293-384 | the nested offset loops compute the parse, and fail exactly when it does |
| Backends.Backend.RestoreEntries | src/storage/backend.rs:330-380 | the inner loop inserts the parsed entries, also those before malformed data |
| Backends.Backend.Compact | src/storage/backend.rs:390-423 | removes the collected entries of `kv_rev` |
| Snapshots.RestoreMergesSnapshot | src/storage/backend.rs:257-384 | restoring a snapshot succeeds and writes every tree over its namesake |
| Snapshots.RestoreInvertsSnapshot | src/storage/backend.rs:257-384 | on an empty backend it rebuilds all six trees |
| Snapshots.CutSnapshot | src/storage/backend.rs:293-384 | data that breaks off among the entries of a tree is refused with the entries before the break written |
| Snapshots.UnknownTreeRefused | src/storage/backend.rs:293-384 | a tree of another name is refused and changes nothing |
| Snapshots.SnapshotLayout | src/storage/backend.rs:257-290 | a snapshot holds one section per tree, spelled name first, in the source's order |
| Encodings.DoomedExact | src/storage/backend.rs:395-407 | on ordered revision keys, stopping at the first kept one finds all keys below the point |
| Encodings.CompactedTreeEncodes | src/storage/backend.rs:390-423 | backend compaction removes from the log exactly the entries below the point |
| Encodings.ScanVisitsSpan | src/storage/mvcc.rs:539-552 | the encoded bounds of `watch_events` select exactly the logged keys of the span, in order |
| Encodings.EncodingUnique | src/storage/mvcc.rs:47-155 | the trees determine the contents |
| RestoredStores.RestoredLookup | src/storage/mvcc.rs:634-653 | a rebuilt index knows the latest write of every live key and nothing older |
| RestoredStores.RestoreKeepsReads | src/storage/mvcc.rs:602-653 | a restore keeps all events; it keeps a current read if and only if no live key in bounds was hidden |
| ContinuedRuns.RestoredPastRead | src/storage/mvcc.rs:602-653 | a past read after a restore counts the live keys last written by then and returns those compaction had not hidden |
| RestoredStores.CompactionHidesRestoreReveals | src/storage/mvcc.rs:508-653 | on any two puts, compaction between them hides the first key and a restore brings it back |
| ContinuedRuns.RestoredContinues | src/storage/mvcc.rs:602-653 | a restored store has the history in which nothing is hidden, an index that remembers the live records, and the log from the highest compaction point on |
| ContinuedRuns.StepContinues | src/storage/mvcc.rs:287-533 | puts, deletes and compactions keep that relation, deletes finding the same victims |
| ContinuedRuns.ReadsAfterRestore | src/storage/mvcc.rs:287-653 | any run, a restore and any further run, read at every revision and limit: current reads are those of that history; past reads count what the index remembers and return what of it the log still has |
| ContinuedRuns.EventsAfterRestore | src/storage/mvcc.rs:539-653 | the events after any run, a restore and any further run: every change no compaction has dropped, once and in order |
| Mvcc.IndexOfEncodedTree | src/storage/mvcc.rs:634-653 | rebuilding from the encoded `kv` tree succeeds and is complete |
| Mvcc.SnapshotRoundTrip | src/storage/mvcc.rs:587-653 | a snapshot of a store reads back its counters, all trees and a rebuilt index |
| Mvcc.MvccStore.Put | src/storage/mvcc.rs:287-357 | the object after a put holds the store after a put, all of it readable if and only if both lengths fit `u32`; record and previous record returned |
| Mvcc.MvccStore.DeleteRange | src/storage/mvcc.rs:360-423 | the object after a range delete, the deleted records in key order, the panic on inverted bounds |
| Mvcc.MvccStore.Range | src/storage/mvcc.rs:426-484 | the read loop computes the range read of the represented store |
| Mvcc.MvccStore.Compact | src/storage/mvcc.rs:508-533 | the object after compaction, refused beyond the current revision |
| Mvcc.MvccStore.WatchEvents | src/storage/mvcc.rs:539-574 | scan and decode loop compute the events of the represented store |
| Mvcc.MvccStore.CreateSnapshot | src/storage/mvcc.rs:587-599 | the snapshot bytes, which read back as this store whenever lengths and counts fit `u32` |
| Mvcc.MvccStore.RestoreContents | src/storage/mvcc.rs:602-631 | exactly which parts change when the data is short, malformed or good |
| Mvcc.MvccStore.TransferTo | src/storage/mvcc.rs:587-631 | a snapshot taken here and restored there leaves the other store as this one with a rebuilt index if lengths and counts fit `u32`, and otherwise with what the reader makes of the bytes |
| KvServices.RangeConventionsAgree | src/watch/mod.rs:48-63 | a watch and a range request on the same key and end cover the same keys, for every end |
| KvServices.TxnConventionDiffers | src/api/kv_service.rs:581-595 | transactions cover the same keys exactly when the end is not the zero byte, on which they panic above it |
| KvServices.CompareTestsVisibleRecord | src/api/kv_service.rs:132-173 | a compare, which reads the store, decides as one on the visible record of the history; what that decision is, is `Transactions.CompareMeans` |
| Transactions.CompareMeans | src/api/kv_service.rs:132-202 | for each of the five targets and four relations, what the compare says of that field of the visible record, or of zeros and the empty value; no target holds |
| Transactions.CompareTrichotomy | src/api/kv_service.rs:132-202 | on every target exactly one of equal, greater and smaller holds, and not-equal is the opposite of equal |
| Transactions.GuardsMean | src/api/kv_service.rs:132-173 | the guard "modification revision equals r" holds exactly if the key is visible and has not changed since r; "create revision equals 0" exactly if no read shows it |
| KvServices.TxnReadsOneSnapshot | src/api/kv_service.rs:550-694 | every range, and every previous record reported by a delete, is what the store held before the transaction |
| KvServices.PutReportsPrevious | src/api/kv_service.rs:610-640 | the previous record a put reports is that of the store before the transaction exactly when no earlier operation wrote or removed the key, or removed one that had not been there |
| KvServices.SecondPutReportsFirst | src/api/kv_service.rs:610-640 | two puts of a key in one transaction, where it is not |
| Transactions.RangeAnswers | src/api/kv_service.rs:571-609 | a range adds its answer behind the earlier ones: all that was visible when the transaction began, counted, under the running revision |
| Transactions.DeleteAnswers | src/api/kv_service.rs:641-701 | a delete counts the keys visible by then and reports those visible at first |
| Transactions.DeleteCountsUnreported | src/api/kv_service.rs:641-701 | a put and a delete of a key no read shows: one deleted, none reported |
| Transactions.PutAnswered | src/api/kv_service.rs:610-640 | a put answers with its revision and, if asked, the last record written before it |
| Transactions.Stops | src/api/kv_service.rs:568-713 | which operations stop a transaction, and what they leave |
| KvServices.KvService.EvaluateCompare | src/api/kv_service.rs:132-173 | the method computes that test, whose meaning for every target and relation is `Transactions.CompareMeans` |
| KvServices.KvService.Txn | src/api/kv_service.rs:538-720 | all compares choose one list; its operations run in order until one fails |
| KvServices.KvService.RunOps | src/api/kv_service.rs:568-713 | the operation loop, ended by the first operation that fails |
| Quorums.SortSorts | src/raft/state.rs:209 | the sort is descending and a permutation |
| Quorums.MajorityMatchIsGreatest | src/raft/state.rs:201-220 | a majority is at or beyond `m` exactly for the `m` up to the computed index |
| Quorums.MajorityMeetsElections | src/raft/node.rs:368-369 | the nodes at or beyond that index are a majority and meet every set that could win an election |
| RaftStates.RaftState.BecomeLeader | src/raft/state.rs:79-95 | next indices right after the log and match indices 0 for all peers |
| RaftStates.RaftState.GetMajorityMatchIndex | src/raft/state.rs:201-220 | the loop computes the greatest index a majority has reached |
| RaftLogs.PointReads | src/raft/log.rs:121-136 | exactly the entries above the snapshot can be read, and the reported term is true at and above it |
| RaftLogs.RangeIsSlice | src/raft/log.rs:138-157 | a range read is the slice of the readable entries within its bounds |
| RaftLogs.AppendRefines | src/raft/log.rs:92-119 | contiguous entries are added at the end, and the last term is theirs |
| RaftLogs.TruncateRefines | src/raft/log.rs:159-191 | at or above the snapshot the entries up to the index stay; the cached last term is right exactly if the index is above the snapshot or the old last term is that of the index |
| RaftLogs.TruncateLeavesStale | src/raft/log.rs:159-191 | a log with one entry, truncated to nothing, keeps the entry's term |
| RaftLogs.SnapshotFreesNothing | src/raft/log.rs:193-211 | saving a snapshot and then cutting the log before its end cuts nothing, whatever the log |
| RaftLogs.SnapshotRefines | src/raft/log.rs:247-261 | at a live index with its own term the log stays and the mark moves |
| RaftLogs.RecoverRefines | src/raft/log.rs:48-90 | recovery finds the log the tree holds, with the right last term even where it was stale |
| RaftLogs.LogRunRefines | src/raft/log.rs:48-261 | any run of appends, replacements, snapshots and restarts reads, from the last snapshot on, as the plain sequence of kept entries |
| RaftLogs.RaftLog.constructor | src/raft/log.rs:32-90 | opening a log on any tree gives the recovered state |
| RaftLogs.RaftLog.Append | src/raft/log.rs:92-119 | the batch loop puts every entry into its cell; fields and metadata follow the last one |
| RaftLogs.RaftLog.GetRange | src/raft/log.rs:138-157 | the loop collects the entries found between the clamped bounds |
| RaftLogs.RaftLog.TruncateAfter | src/raft/log.rs:159-191 | the deletion loop removes the cells after the index; fields and metadata as the code sets them, for every log and index |
| RaftLogs.RaftLog.TermAt | src/raft/log.rs:225-238 | the reported term for every log and index |
| RaftNodes.Backed | src/raft/node.rs:616-628 | the conflict index starts a maximal run of readable indices of the conflicting term |
| RaftNodes.CommitBacked | src/raft/node.rs:563-569 | the commit index never falls and moves only to an index a majority has reached |
| RaftNodes.CommitRuleExactly | src/raft/node.rs:550-569 | only an entry of the leader's term is committed by counting exactly if the majority index is not beyond the commit index or the log reports the leader's term there |
| RaftNodes.CommitsEarlierTerm | src/raft/node.rs:550-569 | a leader of a later term commits an entry of an earlier one on a single success |
| RaftNodes.AppendFollowsInstall | src/raft/node.rs:480-542 | after a snapshot was answered the next request starts at the snapshot, and the peer accepts it exactly if its term was not above the leader's; otherwise it need not have what the match index says |
| RaftNodes.RaftNode.HandleInstallResponse | src/raft/node.rs:495-513 | match and next index of the peer move past the leader's snapshot on any answer |
| RaftNodes.CommitFallsExactly | src/raft/node.rs:639-662 | an append request lowers the commit index exactly when it leaves the log shorter than it while the leader's is beyond; it never passes the leader's |
| RaftNodes.CommitFalls | src/raft/node.rs:639-662 | a request that lowers it, at any follower that committed its two entries |
| Receivings.AppendAnswered | src/raft/node.rs:581-673 | an append request succeeds exactly if its term is not behind and the entry before is there; what answer and node carry in each case |
| Receivings.RefusalNames | src/raft/node.rs:607-637 | the term and index a refusal names |
| Receivings.CommitFollows | src/raft/node.rs:658-662 | an accepted request whose leader has committed more moves the commit index to the lesser of the leader's and the end of the log; no other request moves it |
| Receivings.VoteGrantedExactly | src/raft/node.rs:675-713 | a vote is granted exactly if the term is not behind, the vote is free or the candidate's, and the voter's log is not ahead |
| Receivings.VoteRecorded | src/raft/node.rs:675-713 | the whole state afterwards: the vote stands exactly if granted and real; a later term is taken over even from a pre-vote |
| Receivings.SomeoneIsElectable | src/raft/node.rs:675-713 | among any nodes one gets all votes in every later term, and each gets those of the nodes not ahead of it |
| Receivings.InstallLeaves | src/raft/node.rs:716-764 | what installing a snapshot leaves of state, log, marks and data, also after a restart |
| Receivings.TriggerLeaves | src/raft/node.rs:808-833 | after taking a snapshot exactly the last entries stay readable, at most half a threshold of them, and the mark has its entry's term |
| RaftNodes.OneVotePerTerm | src/raft/node.rs:675-714 | over any run of receiving handlers the term never falls and real votes of a term go to one candidate |
| RaftNodes.ElectionMeetsCommit | src/raft/node.rs:368-409 | among any majority that granted its votes is a node at or beyond the commit candidate whose log is not ahead of the winner's |
| RaftNodes.RaftNode.HandleAppendEntries | src/raft/node.rs:581-673 | the handler, conflict loop included, does what the step of the cluster model does, on every log |
| RaftNodes.RaftNode.HandleRequestVote | src/raft/node.rs:675-714 | the handler does what the vote step does |
| RaftNodes.RaftNode.HandleInstallSnapshot | src/raft/node.rs:716-764 | the whole node afterwards: state, log with its cells and marks, snapshot data |
| RaftNodes.TriggerKeepsLog | src/raft/node.rs:808-833 | taking a snapshot keeps a sound log, frees no cell, and survives a restart |
| RaftNodes.RaftNode.TriggerSnapshot | src/raft/node.rs:808-833 | the mark goes half a threshold before the end, if that is beyond the old one |
| RaftNodes.RaftNode.Propose | src/raft/node.rs:766-789 | a leader appends one entry of its term and sends to every peer; others refuse |
| RaftNodes.RaftNode.ProposeConfChange | src/raft/node.rs:932-955 | the same with a configuration entry |
| RaftNodes.RaftNode.ProposeNew | src/raft/node.rs:913-929 | a leader appends one entry, sends nothing and commits nothing |
| Leadings.ProposalAppended | src/raft/node.rs:766-780 | a proposal to a leader puts its data, type and term into the next entry; only a node without peers moves its commit index; others change nothing |
| Leadings.RequestChosen | src/raft/node.rs:478-513 | a peer whose next index the snapshot covers gets the snapshot, if there is data, and else an append request |
| Leadings.AppendCarries | src/raft/node.rs:521-542 | term, id, previous index and term, entries and commit index of an append request |
| Leadings.UnknownPeer | src/raft/node.rs:474-536 | a peer without a next index is sent the log from its first entry on |
| Leadings.GapSentExactly | src/raft/node.rs:478-542 | a leader without its snapshot's data sends entries that do not follow the previous index, exactly to a peer behind the snapshot with something in its window |
| Leadings.GapAccepted | src/raft/node.rs:478-673 | an empty follower accepts the second entry of a restarted leader without the first |
| Leadings.RequestsToPeers | src/raft/node.rs:470-542 | a round holds one request for every peer but the node itself, in order |
| Leadings.NewLeaderStarts | src/raft/state.rs:79-95 | a new leader sends every peer no entry but the term of its last, and counts no majority before an answer |
| Leadings.CommitIsMajority | src/raft/node.rs:563-569 | the commit index after an answer is the greatest index reached by it before or by a majority |
| Leadings.AnswerMoves | src/raft/node.rs:550-569 | which indices an answer moves and where to; the term of the answer is not looked at |
| Leadings.RefusedByLaterTerm | src/raft/node.rs:550-569 | a leader refused by a later term goes on leading and asks one entry earlier |
| RaftNodes.RaftNode.SendHeartbeats | src/raft/node.rs:456-542 | the peer loop builds the request of every peer but itself, a snapshot for those too far behind |
| RaftNodes.RaftNode.HandleAppendResponse | src/raft/node.rs:550-569 | next and match index of the peer, then the commit index |
| RaftClusters.AcceptedIsPrefix | src/raft/node.rs:607-656 | accepting a piece of a leader's log leaves a prefix of that log |
| RaftClusters.StepKeeps | src/raft/node.rs:456-789 | every step keeps the invariant that ties logs and requests to the leaders' logs |
| RaftClusters.LogMatching | src/raft/node.rs:607-656 | in every reachable cluster two entries with the same index and term end equal prefixes |
| RaftClusters.InFlightWellFormed | src/raft/node.rs:521-542 | without snapshots, every request ever sent is numbered as the handler takes for granted, and every log is sound |
| CatchUps.ReachableMatching | src/raft/node.rs:607-656 | the logs of any two nodes of a reachable cluster match, so catch-up may start |
| CatchUps.ConflictRound | src/raft/node.rs:607-637 | a conflict answer strictly lowers the next index and keeps it at least 1 |
| CatchUps.AcceptedRound | src/raft/node.rs:639-672 | an accepted request advances the next index past what was sent, and the next one is accepted too |
| CatchUps.CatchesUp | src/raft/node.rs:474-672 | from any start catch-up ends within a bounded number of rounds with the leader's log a prefix of the follower's |
| CatchUps.CommitCatchesUp | src/raft/node.rs:521-672 | one more round after catching up, and the follower has committed what the leader had, entry by entry the same |
| CatchUps.ProposalArrives | src/raft/node.rs:474-780 | what is proposed to a leader is in the follower's log after catching up, with its index, term, data and type |
| WatchHubs.EachWatcherListedOnce | src/watch/mod.rs:186-254 | a live watcher sits once in the list of its own range and in no other |
| WatchHubs.AddedIndexed | src/watch/mod.rs:219-224 | creating a watch keeps the index exact: every watched range lists its live watchers in order of creation |
| WatchHubs.RemovedIndexed | src/watch/mod.rs:231-247 | cancelling keeps it exact, and no range is left with an empty list |
| WatchHubs.WantedPositions | src/watch/mod.rs:288-316 | the events a watcher wants are an order-preserving selection, nothing missing and nothing extra |
| WatchHubs.WantedBatches | src/watch/mod.rs:258-324 | two batches deliver what one batch would |
| WatchHubs.WatchHub.CreateWatch | src/watch/mod.rs:186-228 | a fresh id, the watcher recorded and indexed; an empty key is refused |
| WatchHubs.WatchHub.CancelWatch | src/watch/mod.rs:231-254 | the watcher and, if last, its range are gone; unknown ids are refused |
| WatchHubs.WatchHub.Notify | src/watch/mod.rs:258-324 | every watcher gets exactly the events its own filter selects, in order, and nobody else is sent anything |
| WatchDeliveries.LiveDeletesAreCaughtUp | src/api/kv_service.rs:513-529 | a delete told live names the keys that catch-up reports exactly when the watcher wants no deletes, starts later, or every removed key it watches was written since its start |
| WatchDeliveries.DeletesTold | src/watch/mod.rs:288-316 | of the removals of a delete a watcher is told exactly the watched ones last written at or after its start, unless it wants no deletes |
| WatchDeliveries.PutsTold | src/watch/mod.rs:288-316 | of the puts dispatched a watcher is told exactly the watched ones at or after its start, unless it wants no puts |
| WatchDeliveries.NextPutTold | src/api/watch_service.rs:77-81 | a watcher without a start of its own is told of the very next put of its key, with the new and the old record; one with a start exactly if that is reached |
| WatchDeliveries.MissedThenTold | src/api/watch_service.rs:77-81 | one watcher with the default start: the removal of its key is missed, though caught up on, and told once the key was put again |
| WatchDeliveries.LivePutIsCaughtUp | src/api/kv_service.rs:404-420 | a put told live carries the record that catch-up reports, to the same watchers |
| WatchDeliveries.WritesAsEvents | src/storage/mvcc.rs:287-574 | the events catch-up reports of a put and of a delete, field by field |

## Left out

- Mvcc.MvccStore.Put: after a put of a key or value of 2^32 bytes or more the trees and the index are known, but the other methods ask for a store all of whose records can be read.
- KvServices.KvService.Txn: asks for puts of keys and values shorter than 2^32 bytes, does not model nested transactions beyond their refusal, nor the watch notifications sent for its operations.
- KvServices.KvService.RunOps: as KvServices.KvService.Txn.
- KvService.range beyond the range-end translation: forwarding to the leader, sorting and the revision filters of the result (applied after the limit).
- KvService.put and KvService.delete_range: the textual replication format loses information (lease, colons in keys, non-UTF-8), so replicas need not agree. Of their notifications, `WatchDelivery` models the events.
- WatchDeliveries.LiveDeletesAreCaughtUp: nothing in `src` calls `watch_events` outside its own tests, and the watch service does not feed it to a watcher, so the events caught up on are what the hub's filter would pass.
- KeyIndexing.KeyIndex.Range: on a map that never held an entry the library returns an empty range without comparing the bounds, where the model panics on inverted ones like on any other map.
- WatchHubs.WatchHub.Notify: channels never refuse a batch, and the order in which ranges are visited is arbitrary.
- WatchHubs.WatchHub.CreateWatch: does not model progress notification, fragmentation and the previous-record flag, which dispatch never reads; the id counter does not wrap.
- RaftNodes.RaftNode.HandleAppendEntries: a first entry of index 0 wraps the subtraction, as a release build does. Election timers are not modelled.
- RaftLogs.RaftLog.Append: indices and terms are unbounded naturals, and the cells of the tree hold values instead of their serialised bytes; the same holds for the other methods of the log.
- RaftLogs.LogRunRefines: covers replacements at or above the snapshot and snapshots of live indices. A snapshot installed ahead of the log, or entries sent from below the mark, leave a log that is not contiguous or whose terms below the mark are not known; the methods are specified there too, but no sequence of entries is claimed.
- RaftClusters.LogMatching: assumes that a term is led at most once, and that no snapshots are taken or installed. Elections are not modelled: the source raises the term twice when it starts one and counts votes across awaits.
- Leader completeness and state machine safety are not theorems of this code: there is no check of the current term before committing, and a late append request truncates unconditionally.
- True concurrency: every method is one atomic step.
- Backend errors and a disk that fails: the embedded database is a map iterated in key order.
- Leases, authentication, cluster membership, configuration, background compaction scheduling and server start-up: map updates and plumbing.
- MvccStore.txn, the write batch and flush: unused or empty in the source.
- Database size, defragmentation and prefix scans of the backend: no property depends on them.
