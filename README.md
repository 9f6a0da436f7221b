# Replication-record garbage collection and layered ZooKeeper configuration

This project models two pieces of the Accumulo master and server:

1. **Garbage collection of the replication table.** The replication table
   has one row per source file (a write-ahead log or other file whose
   mutations are shipped to peer clusters). A row holds one Status entry
   per source table and one Work entry per replication target
   (peer name, remote table id, source table id). Each entry holds a
   progress value `{begin, end, closed, infiniteEnd}`. An entry is *fully
   replicated* when `closed && !infiniteEnd && begin >= end`. A
   garbage-collection pass scans the table one whole row at a time. It
   deletes a row, all of its entries in one mutation, exactly when every
   entry of that row is fully replicated. It returns the number of
   key-value entries it deleted.
   The implementation class of the pass is not part of this model. Its
   behaviour is taken from the test that pins it down,
   `RemoveCompleteReplicationRecordsTest`.
2. **`ZooConfiguration`.** A property read consults the ZooKeeper cache
   only for keys that may be set in ZooKeeper. It falls back to the parent
   configuration when ZooKeeper has no value or an ill-formed one.
   Fixed properties are remembered after their first read, and
   `getProperties` overlays ZooKeeper's children on the parent's
   properties.

Files:

- `replication.dfy` (module `Replication`): the `Progress` value, the
  completion predicate `IsFullyReplicated`, and the table as
  `map<Row, map<Column, Progress>>`. The class `ReplicationTable` holds
  that map as its state. `RemoveCompleteRecords` walks a whole-row scan
  (a sequence of row groups) and deletes complete rows in place through
  column-delete mutations. The pure `AfterPass`, `CompleteRows` and
  `EntryCount` specify the pass, and lemmas state its properties.
- `replication_scenarios.dfy` (module `ReplicationScenarios`): the five
  test scenarios, each stated over the table the test builds. The pass's
  contract turns each one into the outcome of any whole-row scan of that
  table.
- `zoo_configuration.dfy` (module `ZooConfig`): the class
  `ZooConfiguration`, with `fixedProps` as mutable state. The ZooKeeper
  cache and the parent configuration are maps. The property catalogue's
  rules (`isValidZooPropertyKey`, `isFixedZooPropertyKey`,
  `isValidFormat`) and the properties filter are uninterpreted functions,
  so every property proved holds for all of them.

How the pieces fit together:

- The BatchScanner with `WholeRowIterator` over the whole range becomes the
  precondition `IsWholeRowScan`. Every row of the table appears exactly
  once, and each group holds that row's entries with distinct columns.
- The BatchWriter becomes `ApplyDeletion`. The listed columns disappear,
  and the row disappears once it has no entry left.
- The mock writer's "no expected calls" becomes the `writes` output. The
  rows it writes are exactly the complete rows, each one once, and every
  mutation deletes all columns of its row. So it is empty when no row is
  complete.
- `Iterables.size(scanner)` becomes `EntryCount`.

The pass returns the number of deleted entries, not of deleted rows: the
test expects 4 for two rows of two entries each
(`RemoveCompleteReplicationRecordsTest.java`, line 248).

## Model

| member | source | states |
|---|---|---|
| Replication.CompletionNeedsEveryCondition | server/master/src/test/java/org/apache/accumulo/master/replication/RemoveCompleteReplicationRecordsTest.java:218 | an entry is fully replicated when its file is closed, its end is known and begin has reached end; reopening the file, making the end unknown or moving the end past begin each makes it incomplete, and further progress keeps it complete |
| Replication.OpenWithUnknownLength | server/master/src/test/java/org/apache/accumulo/master/replication/RemoveCompleteReplicationRecordsTest.java:80 | the Status of an open file of unknown length is not closed, has an unknown end and is not fully replicated |
| Replication.CellsToEntries | server/master/src/test/java/org/apache/accumulo/master/replication/RemoveCompleteReplicationRecordsTest.java:88-91 | the row a whole-row group decodes to has exactly the group's columns as keys |
| Replication.DecodedRowSize | server/master/src/test/java/org/apache/accumulo/master/replication/RemoveCompleteReplicationRecordsTest.java:88-91 | with distinct columns, the decoded row has exactly one entry per cell of the group |
| Replication.DecodedRowValues | server/master/src/test/java/org/apache/accumulo/master/replication/RemoveCompleteReplicationRecordsTest.java:88-91 | with distinct columns, each cell's column holds that cell's progress in the decoded row |
| Replication.DecodedRowComplete | server/master/src/test/java/org/apache/accumulo/master/replication/RemoveCompleteReplicationRecordsTest.java:303-306 | a scanned row is complete if and only if every cell of its group is fully replicated |
| Replication.RowDeletions | server/master/src/test/java/org/apache/accumulo/master/replication/RemoveCompleteReplicationRecordsTest.java:283-309 | for one row: all of its columns, in order, when every entry is fully replicated; no deletion at all when any entry is not |
| Replication.ApplyDeletion | server/master/src/test/java/org/apache/accumulo/master/replication/RemoveCompleteReplicationRecordsTest.java:254-257 | a mutation deleting every column of a row removes that row, and leaves every other row as it was |
| Replication.EntryCountPick | server/master/src/test/java/org/apache/accumulo/master/replication/RemoveCompleteReplicationRecordsTest.java:86 | the number of entries in the table is the same whichever row is counted first, so counts do not depend on scan order |
| Replication.AfterPassEntryCount | server/master/src/test/java/org/apache/accumulo/master/replication/RemoveCompleteReplicationRecordsTest.java:184 | a pass never adds entries; when no row is complete it removes none |
| Replication.PassIsIdempotent | server/master/src/test/java/org/apache/accumulo/master/replication/RemoveCompleteReplicationRecordsTest.java:254-260 | after a pass no complete row is left, so a second pass changes nothing |
| Replication.IncompleteEntryKeepsRow | server/master/src/test/java/org/apache/accumulo/master/replication/RemoveCompleteReplicationRecordsTest.java:289-292 | one entry that is not fully replicated keeps its whole row, unchanged, in the table |
| Replication.RemovedEntriesWereComplete | server/master/src/test/java/org/apache/accumulo/master/replication/RemoveCompleteReplicationRecordsTest.java:214-232 | every entry a pass removes was fully replicated, and its whole row is gone |
| Replication.ReplicationTable.RemoveRowIfComplete | server/master/src/test/java/org/apache/accumulo/master/replication/RemoveCompleteReplicationRecordsTest.java:214-234 | one scanned row: a complete row is deleted by one mutation of all its columns and its entry count is returned; an incomplete row causes no write and counts 0 |
| Replication.ReplicationTable.RemoveCompleteRecords | server/master/src/test/java/org/apache/accumulo/master/replication/RemoveCompleteReplicationRecordsTest.java:242-260 | the table afterwards holds exactly the incomplete rows, unchanged; the result is the number of entries removed; the rows the mutations write are exactly the complete rows, no row is written twice, so there are as many mutations as complete rows, and each deletes all of its row's columns |
| ReplicationScenarios.Replicated | server/master/src/test/java/org/apache/accumulo/master/replication/RemoveCompleteReplicationRecordsTest.java:218 | closed, finite, begin = end = 10000 is fully replicated |
| ReplicationScenarios.OpenAt | server/master/src/test/java/org/apache/accumulo/master/replication/RemoveCompleteReplicationRecordsTest.java:107-114 | a Status that is not closed is never fully replicated, whatever its begin |
| ReplicationScenarios.NotYetReplicationRecordsIgnored | server/master/src/test/java/org/apache/accumulo/master/replication/RemoveCompleteReplicationRecordsTest.java:72-100 | three open rows of unknown length: no complete row (so no write), the table is unchanged and keeps its 3 entries |
| ReplicationScenarios.PartiallyReplicatedRecordsIgnored | server/master/src/test/java/org/apache/accumulo/master/replication/RemoveCompleteReplicationRecordsTest.java:102-136 | three Status entries at begin 1000·(i+1) of 10000, not closed: nothing is complete, all 3 entries remain |
| ReplicationScenarios.ReplicatedClosedWorkRecordsAreNotRemovedWithoutClosedStatusRecords | server/master/src/test/java/org/apache/accumulo/master/replication/RemoveCompleteReplicationRecordsTest.java:138-189 | begin = end = 10000 without closed is not enough: nothing is complete and the pass removes 0 entries |
| ReplicationScenarios.ReplicatedClosedRowsAreRemoved | server/master/src/test/java/org/apache/accumulo/master/replication/RemoveCompleteReplicationRecordsTest.java:191-261 | exactly the two replicated rows are complete; the pass removes 4 entries and exactly the 3 partial rows, with 3 entries, remain |
| ReplicationScenarios.PartiallyReplicatedEntriesPrecludeRowDeletion | server/master/src/test/java/org/apache/accumulo/master/replication/RemoveCompleteReplicationRecordsTest.java:263-314 | an unclosed peer3 Work entry keeps the row although its Status and peer1/peer2 Work entries are replicated; the pass removes 0 entries |
| ZooConfig.OverlayEntries | server/base/src/main/java/org/apache/accumulo/server/conf/ZooConfiguration.java:133-141 | the overlay keeps every base key, adds the overlaid children, gives each overlaid child its ZooKeeper value and every other key its base value |
| ZooConfig.ZooConfiguration.constructor | server/base/src/main/java/org/apache/accumulo/server/conf/ZooConfiguration.java:46-50 | a new configuration has its parent, its cache and no fixed property stored |
| ZooConfig.ZooConfiguration.Lookup | server/base/src/main/java/org/apache/accumulo/server/conf/ZooConfiguration.java:85-99 | a valid ZooKeeper key with a present, well-formed value yields that value; an invalid key, a key the cache has no value for (the raw read of lines 119-126 returning null) or an ill-formed value yields the parent's value; the result is always one of those two |
| ZooConfig.ZooConfiguration.Get | server/base/src/main/java/org/apache/accumulo/server/conf/ZooConfiguration.java:101-117 | a fixed property already stored answers its stored value; its first read stores the looked-up value; a non-fixed property is looked up and leaves fixedProps unchanged |
| ZooConfig.ZooConfiguration.InvalidateCache | server/base/src/main/java/org/apache/accumulo/server/conf/ZooConfiguration.java:79-83 | only the ZooKeeper cache changes; fixedProps is untouched |
| ZooConfig.ZooConfiguration.GetProperties | server/base/src/main/java/org/apache/accumulo/server/conf/ZooConfiguration.java:128-142 | the caller's map plus the parent's accepted properties, overwritten by every listed, non-null, accepted child for which the cache holds a value (a child with none, where the raw read of lines 119-126 returns null, adds nothing); every other key keeps its earlier value |
| ZooConfig.FixedPropertySurvivesInvalidation | server/base/src/main/java/org/apache/accumulo/server/conf/ZooConfiguration.java:79-111 | a fixed property read, then a cache invalidation whatever ZooKeeper holds afterwards, then a second read gives the same value |

## Left out

- The pass's implementation class is not part of this model. Its
  behaviour is taken from the test's scenarios only. Decoding failures of
  a stored value or of a whole-row group are not modelled: every entry
  holds a well-formed progress value.
- Protobuf encoding of the progress values, the whole-row iterator's row
  encoding, and the BatchScanner, BatchWriter and mock-instance plumbing.
  The scan is a sequence of row groups; the writer is a map update.
- Progress: offsets are unbounded integers rather than 64-bit fields. The
  completion rule compares them only, so no wrap-around can arise.
- Replication targets configured for a table, the sequential work
  assigner and the two-cluster integration tests. No code for them is
  part of this model.
- Concurrency. Writers racing the pass, `synchronized` and the
  synchronized map around `fixedProps` are left out; both pieces are
  modelled sequentially.
- `ZooConfiguration.getInstance`: the static singleton, the ZooKeeper
  cache factory, the volume manager and the instance-id file are I/O and
  global state. The model is built by its constructor with its parent and
  cache already in hand.
- ZooConfig.ZooConfiguration.InvalidateCache: `ZooCache.clear` is not part of this
  model. The content the cache answers with afterwards is passed in as
  what ZooKeeper holds. The null check on the static cache is dropped,
  because a constructed configuration always has a cache.
- ZooKeeper paths and UTF-8 decoding. The cache is keyed by the child
  name under the configuration node, and its values are already strings.
  The error log for ill-formed values is dropped.
- ZooConfig.ParentProperties: the parent's own `getProperties` is not part
  of this model. The parent is a plain map whose properties call adds its
  entries that the filter accepts.
