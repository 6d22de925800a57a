# Verified model of the serial and Modbus tool's core

This project models the parts of the program whose correctness no finite test settles, and proves
what they promise:

- **The crash-safe session store** (`src/native_storage`). A directory is a map from names to bytes;
  renaming, removing and writing are its steps. `Transaction.dfy` writes down the step sequences of
  the commit, rollback, roll-forward, per-file recovery and single-file replacement;
  `StoreDirectory.dfy` is the imperative code, proved to perform exactly those steps.
  `TransactionStates`, `CommitSteps`, `RollbackPath`, `RecoverySteps` and `TransactionTheorems` prove
  atomicity under crashes, `ReplaceTheorems` the same for one file, and `StoreRuns` lifts both to
  whole runs. `StoreOpening` and `OpeningTheorems` are about all of an opening, `FailedAborts` and
  `InterimWrites` about an abort that fails in its turn. `RecordLog`, `ParserLoop`,
  `RecordLogTheorems`, `EndlessParse`, `TailRecovery`, `Compaction` and `LogBytes` are about the
  length-prefixed log, `NumberText`, `IdCounters`, `IdSafety`, `IdReuse` and `SessionIds` about record
  IDs, `Sorting`, `TableRows`, `StoreCaches`, `SavedReads`, `RowCodec` and `StaleCaches` about the read
  caches, the transactional save and its record codec.
- **The Modbus RTU path** (`src/core`, `src/transport`). `Crc`, `CrcDivision`, `ModbusFrames`, `ScanPlan`,
  `ScanExecutor`, `ScanTheorems`, `RtuFraming`, `RtuTransport`, `RtuTransportTheorems` and
  `SerialScan` go from the CRC register to a completed scan over a serial line. The standards are
  MODBUS over Serial Line V1.02 (sections 2.5.1.2 and 6.2.2) and MODBUS Application Protocol V1.1b3
  (sections 6.3, 6.4 and 7).
- **The serial write queue**: `WriteQueue` (one call as a function), `SerialWriteQueue` (the class),
  `WriteQueueRuns` and `WriteQueueAdmission` (every sequence of calls).
- **Command sequences**: `CommandValidation`, `CommandExecution`, `CommandTheorems`,
  `CommandOutcomes`.
- **Candidate ranking**: `Ranking`, `BestCandidates` (with `Sorting`).

## How to read it

Code that changes things step by step is a method or a class whose contract equates its effect with a
function; the theorems are lemmas about that function. Transports, callbacks, clocks and backends are
arbitrary streams of answers, so every theorem about them holds for any behaviour.

The fault model of the store: a file-system call takes effect or the process stops, and while a file
is written the process may stop after any number of its bytes. In addition one rename of a commit or
of a replacement may fail, which changes nothing and takes the error path. Removing a name that is
not there succeeds. An append may also fail after any byte with the process going on. The rename of a
finished file is one step; bytes in a disk cache are not lost. `FailedAborts`, `StaleCaches` and
`InterimWrites` add one more failing call: a step of the abort that follows the failed rename.

## Where the code falls short of its promise

Each of these is proved: the condition under which it happens, and an input at which it does.

- Tail recovery reads spans with a seek that does not notice the end of the file. An append torn
  inside the content of its last field is therefore not repaired, and the file stays unreadable for
  the stream reader (`TailRecovery.TornAppend`, exactly; `IdReuse.TornStays`, an input).
- `appendRecords` does not look at the file. What it puts behind such a torn record is read as the rest
  of the torn field and as records that nobody wrote, and their IDs are not covered by the counter: in
  `IdReuse.LiveIdReused` two raw events, such as those of `IdReuse.EventsAreFatal`, make the store hand
  out the ID of a record that is there. As long as every append lands on a file that a read accepts,
  IDs are fresh over every run, wherever the appends stop (`IdSafety.RunsAreSafe`, `IdSafety.AllocationIsFresh`); that condition is sufficient, and after a torn
  append and a reopen it holds exactly when the cut missed the content of the last field
  (`LogBytes.TornThenRecovered`).
- A record ID of 2^63 - 1 makes the counter of its file wrap, and IDs are no longer fresh
  (`IdCounters.AbsorbCoversExactly`, `IdCounters.AllocatedIsCoveredExactly`; `IdReuse.LastIdWraps`).
- A single-file replacement commits only when the backup is removed: stopped just before, recovery
  puts the old file back although the new one was in place (`ReplaceTheorems.ReplaceAtomicity`,
  `ReplaceTheorems.NewFileUndone`).
- A saved row that names another session than the one saved is stored under that other session
  (`TableRows.SaveIsExact`, `TableRows.StrayRow`).
- When a rename of the commit fails and the abort fails too, the process goes on with files moved aside
  or already replaced. The disk recovers (`TransactionTheorems.FailedAbort`), but the recovery at the
  start of the next transaction does not clear the caches of tables it does not rewrite. A read in
  between caches a missing table as empty (`StaleCaches.MissingIsCached`) or the records of the refused
  save (`StaleCaches.RefusedIsCached`), and is wrong afterwards. It is right for certain exactly when
  the old version of the file is in place (`StaleCaches.CacheLastsExactly`).
- In that state appends and single-file rewrites do not recover first, and the next recovery may undo
  them although they succeeded: `InterimWrites.AppendBetween` and `InterimWrites.RewriteBetween` say
  exactly which. Counters persisted in between can be lost (`InterimWrites.CountersLost`), and an open that
  follows loads the older ones.
- The command validator admits Modbus reads that the scan planner then always refuses: more than 64
  registers, more than 5 retries, or a range beyond the address space
  (`CommandTheorems.ReadIsPlannedExactly`, `CommandTheorems.UnplannedReadFails`). Time bounds hold all
  the same.
- With limits that allow 2^31 - 1 retries the attempt count of the validator overflows
  (`CommandValidation.AttemptCountOverflows`). Signed overflow is taken as two's complement; the plan
  of such a read is refused, so `CommandTheorems.BudgetBoundsTime` needs no exception.
- The positions of the buffer parser are sums of `std::size_t`, so a length near 2^64 passes the check
  `position + fieldLength > size` and takes the parser back. It then never returns exactly when its
  loop comes to one position twice (`ParserLoop.NeverReturnsExactly`), never when no length wraps
  (`ParserLoop.ReturnsWithoutWrap`), and always on the 24 bytes `1|18446744073709551593:x` at the end of
  a log (`EndlessParse.NeverReturnsOn`). With them in the manifest, recovery does not return
  (`EndlessParse.RecoveryNeverReturns`); nor does `open` with them in the counters file, which
  `loadRecords` gives to the same parser. The stream reader rejects such files
  (`EndlessParse.StreamReaderStops`), and what it accepts the buffer parser returns on, with the same
  records (`RecordLogTheorems.StreamAcceptanceCarriesOver`).

## Model

| member | source | states |
|---|---|---|
| `TransactionTheorems.CrashAtomicity` | src/native_storage/native_store_file_ops.cpp:219-621 | stop a commit anywhere (also inside a write), stop any number of recoveries anywhere, then let one finish: no recovery refuses, every target is new if the marker was published and every target is old (or absent) otherwise, every other live file is as before, no manifest and no marker is left, no backup of a managed file and no temporary file of a swept file |
| `TransactionTheorems.OutcomesExclude` | src/native_storage/native_store_file_ops.cpp:517-621 | all old and all new exclude each other as soon as one target changes |
| `TransactionTheorems.SessionAtStop` | src/native_storage/native_store_file_ops.cpp:517-621 | every stop of a commit, with or without one failing rename, leaves the directory on the old side of the marker before its rename and on the new side after it |
| `TransactionTheorems.StopsKeepSide` | src/native_storage/native_store_file_ops.cpp:374-454 | recoveries that are themselves stopped, in any number, never refuse and never change sides |
| `RecoverySteps.RecoverSteps` | src/native_storage/native_store_file_ops.cpp:374-407 | from every stop of a commit none of the inconsistency errors fires, and every intermediate state of recovery is on the same side |
| `RecoverySteps.NothingToRestore` | src/native_storage/native_store_file_ops.cpp:409-454 | after the transaction stage no managed file has a backup, so the per-file stage never brings back the old copy of a committed file |
| `RecoverySteps.ReopenSteps` | src/native_storage/native_session_store.cpp:112-157 | the two recovery stages, run one after the other, keep the side at every step and leave nothing behind |
| `RecoverySteps.ReopenIsStable` | src/native_storage/native_session_store.cpp:112-157 | a second run of both recovery stages changes nothing |
| `CommitSteps.BackUpSteps` | src/native_storage/native_store_file_ops.cpp:562-571 | moving the old files aside one by one keeps every old version within reach of a rollback |
| `CommitSteps.PlaceSteps` | src/native_storage/native_store_file_ops.cpp:574-588 | moving the new files into place one by one keeps every old version within reach of a rollback |
| `CommitSteps.MarkerPublished` | src/native_storage/native_store_file_ops.cpp:281-308 | publishing the marker is the one step that turns an old-side state into a new-side state |
| `CommitSteps.FinishSteps` | src/native_storage/native_store_file_ops.cpp:310-344 | cleaning up after the marker never leaves the new side and removes every trace |
| `RollbackPath.UndoSteps` | src/native_storage/native_store_file_ops.cpp:243-270 | undoing the targets, last first, keeps the old side at every step and ends with every old version in place |
| `RollbackPath.RollbackSteps` | src/native_storage/native_store_file_ops.cpp:219-279 | a rollback from any old-side state passes its own checks, stays on the old side and removes manifest and temporary files |
| `ReplaceTheorems.ReplaceAtomicity` | src/native_storage/native_store_file_ops.cpp:456-515 | a single-file replacement stopped anywhere and recovered ends exactly old or exactly new; it is new only once the backup is gone, not when the new file is in place |
| `StoreRuns.GroupIsAtomic` | src/native_storage/native_store_file_ops.cpp:517-621 | a transaction, finished or stopped and recovered, is for readers one write of all its files or nothing |
| `StoreRuns.SingleIsAtomic` | src/native_storage/native_store_file_ops.cpp:456-515 | the same for a single-file replacement |
| `TransactionTheorems.FailedAbort` | src/native_storage/native_store_file_ops.cpp:346-360 | when a rename of the commit fails and a step of the abort fails in its turn, with the process going on, every old version is still there, and the recovery that begins the next transaction puts all of them back |
| `FailedAborts.InPlace` | src/native_storage/native_store_file_ops.cpp:219-360 | after such an abort, cut short after any of its steps: the next recovery puts the old version of every file back; until then a file without a backup that had an old version, or that had none and is not there, is as it was, and any other is a target that is missing or holds the new contents |
| `FailedAborts.AbortBegins` | src/native_storage/native_store_file_ops.cpp:517-595 | where the abort begins: after a failed backup rename the targets before it are aside, after a failed placing rename all old files are aside and the targets before it hold the new contents, after a failed marker all targets do |
| `InterimWrites.AppendBetween` | src/native_storage/native_session_store.cpp:705-737 | an append between the failed abort and the next recovery survives exactly when no manifest is there, or the file is no target, or it had an old version and has no backup; otherwise the file is as before the save, and all other files are in any case |
| `InterimWrites.RewriteBetween` | src/native_storage/native_session_store.cpp:948-1063 | a single-file rewrite in between survives exactly when no manifest is there, or the file is no target, or it had an old version and some version is in place |
| `InterimWrites.CountersLost` | src/native_storage/native_session_store.cpp:1272-1281 | a run: counters persisted after a failed save of the counters file and its failed abort are replaced by the ones from before that save |
| `OpeningTheorems.OpeningLosesNothing` | src/native_storage/native_session_store.cpp:99-161 | stop a commit anywhere, then any number of openings anywhere, with schema, artefacts, tail recovery and creation of files, then let one go through: none refuses, every data file is in place and needs no recovery, with exactly the records of the new version if the marker was published and of the old one otherwise, and opening once more changes nothing |
| `OpeningTheorems.OpeningSteps` | src/native_storage/native_session_store.cpp:99-157 | from every such stop an opening succeeds, every state on its way is one from which the next opening does, and at the end no transaction, backup or temporary file is left |
| `OpeningTheorems.TailSteps` | src/native_storage/native_session_store.cpp:804-892 | tail recovery as steps: wherever it stops, the backup or the file in place holds the same records; at the end the file is the readable prefix |
| `OpeningTheorems.TailKeepsBytes` | src/native_storage/native_session_store.cpp:804-892 | in any directory: tail recovery changes nothing, or afterwards the file and its orphan together are the bytes that the file had |
| `OpeningTheorems.OpenedStays` | src/native_storage/native_session_store.cpp:99-157 | opening a directory that an opening left changes nothing |
| `ReplaceTheorems.NewFileUndone` | src/native_storage/native_store_file_ops.cpp:456-515 | stopped just before the removal of the backup, with the new file in place, recovery puts the old file back |
| `StoreRuns.RunsAreAtomic` | src/native_storage/native_session_store.cpp:1066-1185 | any run of saves, failed saves, crashes and interrupted recoveries looks like a store that applies each save at once or not at all |
| `ManifestFile.ValidateTargets` | src/native_storage/native_store_file_ops.cpp:79-107 | accepts exactly the non-empty lists of distinct managed file names |
| `ManifestFile.LoadTransactionManifest` | src/native_storage/native_store_file_ops.cpp:155-217 | the loop returns the targets of a well-formed manifest, refuses the other bytes on which `parseRecords` returns, and does not come back on the rest |
| `ManifestFile.ManifestRoundTrip` | src/native_storage/native_store_file_ops.cpp:109-217 | a manifest written for valid targets loads back as those targets |
| `ManifestFile.ManifestFits` | src/native_storage/native_store_file_ops.cpp:109-153 | a manifest of valid targets is short enough for every width in the reader |
| `StoreNames.RolesDistinctOnDisk` | src/native_storage/native_store_file_ops.cpp:35-49 | live, temporary, backup, orphan, manifest and marker names never collide on disk |
| `StoreDirectory.Directory.Rename` | src/native_storage/native_store_file_ops.cpp:565-582 | one rename is one step of the directory |
| `StoreDirectory.Directory.WriteTransactionManifest` | src/native_storage/native_store_file_ops.cpp:109-153 | performs exactly the steps that publish a manifest, or those of its failed rename |
| `StoreDirectory.Directory.MoveAside` | src/native_storage/native_store_file_ops.cpp:562-571 | performs exactly the backup renames, up to the failing one |
| `StoreDirectory.Directory.MoveIntoPlace` | src/native_storage/native_store_file_ops.cpp:574-588 | performs exactly the placing renames, up to the failing one |
| `StoreDirectory.Directory.WriteTransactionCommitMarker` | src/native_storage/native_store_file_ops.cpp:281-308 | performs exactly the steps that publish the marker |
| `StoreDirectory.Directory.FinishCommittedTransaction` | src/native_storage/native_store_file_ops.cpp:310-344 | fails exactly when a target is missing, else performs exactly the clean-up |
| `StoreDirectory.Directory.RollbackUncommittedTransaction` | src/native_storage/native_store_file_ops.cpp:219-279 | fails exactly on its two inconsistencies, having changed nothing, else performs exactly the rollback |
| `StoreDirectory.Directory.AbortTransaction` | src/native_storage/native_store_file_ops.cpp:346-360 | performs exactly the rollback that its directory allows |
| `StoreDirectory.Directory.CommitReplacementTargets` | src/native_storage/native_store_file_ops.cpp:517-621 | succeeds exactly when its checks pass and no rename fails; performs exactly the steps the crash theorems are about |
| `StoreDirectory.Directory.RecoverReplacementTransaction` | src/native_storage/native_store_file_ops.cpp:374-407 | does not return exactly when the manifest is one that `parseRecords` never leaves, fails exactly on a bad manifest or an inconsistency, else performs exactly the roll-forward or rollback |
| `StoreDirectory.Directory.RecoverReplacementArtifacts` | src/native_storage/native_store_file_ops.cpp:409-454 | performs exactly the per-file recovery |
| `StoreDirectory.Directory.ReplaceFileWithTemp` | src/native_storage/native_store_file_ops.cpp:456-515 | performs exactly the steps of a single-file replacement, for every failing rename |
| `StoreDirectory.Directory.RecoverRecordFileTail` | src/native_storage/native_session_store.cpp:804-892 | performs exactly the copies and the replacement that split off a broken tail, or nothing |
| `StoreDirectory.Directory.OpenDataFile` | src/native_storage/native_session_store.cpp:135-153 | performs exactly one turn of the file loop |
| `StoreDirectory.Directory.InitializeSchema` | src/native_storage/native_session_store.cpp:112-157 | performs exactly the steps the opening theorems are about, fails exactly when the transaction stage does, and does not return exactly when that does not |
| `StoreDirectory.Directory.RecoverStore` | src/native_storage/native_session_store.cpp:112-157 | performs exactly the two recovery stages of `initializeSchema`, one after the other, or does not return from the first |
| `RecordLog.WriteRecord` | src/native_storage/native_store_record_io.cpp:71-82 | appends the length-prefixed encoding of a record |
| `RecordLog.ParseUnsigned` | src/native_storage/native_store_record_io.cpp:12-27 | reads a decimal up to its delimiter, or nothing |
| `RecordLog.ReadStreamUnsigned` | src/native_storage/native_store_record_io.cpp:29-69 | the same on a stream, with its limit of twenty digits |
| `RecordLog.ParseRecords` | src/native_storage/native_store_record_io.cpp:84-123 | the buffer loop, with positions that wrap at 2^64, gives the records, the rejection or the endless run that its specification says of the whole buffer |
| `ParserLoop.NeverReturnsExactly` | src/native_storage/native_store_record_io.cpp:84-123 | for all bytes: `parseRecords` never returns, however many turns one follows, if and only if its loop stands twice at one position within as many turns as there are bytes |
| `ParserLoop.ReturnsWithoutWrap` | src/native_storage/native_store_record_io.cpp:84-123 | it returns on all bytes in which no written length wraps |
| `EndlessParse.NeverReturnsOn` | src/native_storage/native_store_record_io.cpp:84-123 | after any written records, with a header or without, the 24 bytes of a field length of 2^64 - 23 make it go round for ever |
| `EndlessParse.RecoveryNeverReturns` | src/native_storage/native_store_file_ops.cpp:155-407 | a manifest file that ends in these bytes is never loaded, so recovery of its directory does not return |
| `EndlessParse.StreamReaderStops` | src/native_storage/native_store_record_io.cpp:215-270 | the stream reader rejects the same bytes |
| `RecordLog.ReadNextRecordFromStream` | src/native_storage/native_store_record_io.cpp:215-270 | the stream reader takes one record or reports corruption |
| `RecordLog.ReadNextRecordSpan` | src/native_storage/native_store_record_io.cpp:136-213 | the span reader takes one span, seeking over field contents without looking at the end of the file |
| `RecordLog.ValueOfDecimal` | src/native_storage/native_store_record_io.cpp:71-82 | a decimal length reads back as the number it was written for |
| `RecordLogTheorems.RoundTrip` | src/native_storage/native_store_record_io.cpp:12-270 | any records of any bytes, header included, read back from their written form under both readers |
| `RecordLogTheorems.RoundTripWithoutHeader` | src/native_storage/native_store_record_io.cpp:84-123 | the buffer parser also reads records without a header |
| `RecordLogTheorems.EncodeInjective` | src/native_storage/native_store_record_io.cpp:71-82 | different record lists have different files |
| `RecordLogTheorems.StreamAcceptanceCarriesOver` | src/native_storage/native_store_record_io.cpp:84-270 | whatever file the stream reader accepts, the buffer parser accepts with the same records |
| `RecordLogTheorems.RecordWritten` | src/native_storage/native_store_record_io.cpp:71-270 | all three readers agree on a written record at any position |
| `Compaction.SpansPartition` | src/native_storage/native_store_record_io.cpp:136-213 | the spans that the reader returns on a written log partition its body: span i holds exactly the bytes of record i |
| `Compaction.DropOldest` | src/native_storage/native_session_store.cpp:739-802 | the running byte count is exact, never underflows, and the fewest possible spans are dropped |
| `Compaction.RetainSpans` | src/native_storage/native_session_store.cpp:739-802 | after the reading loop the deque holds the longest suffix that fits |
| `Compaction.CompactIfNeeded` | src/native_storage/native_session_store.cpp:739-802 | acts exactly above the soft limit, cuts any readable file at the longest suffix of its spans that fits, and leaves a written log, the empty one included, as the log of the longest fitting suffix of its records |
| `Compaction.CompactionKeepsLongestSuffix` | src/native_storage/native_session_store.cpp:739-802 | a cut at the longest fit of the spans that the reader returns on a written log is, byte for byte, the log of the longest suffix of the records that fits the target, or of the newest record alone, and reads back as these |
| `TailRecovery.RecoverRecordFileTail` | src/native_storage/native_session_store.cpp:804-892 | splits the file at the last good span, or leaves it unchanged when no span error occurs |
| `TailRecovery.CutAtRecordBoundary` | src/native_storage/native_session_store.cpp:804-892 | kept prefix and orphan together are the original bytes; the prefix parses to exactly the records before the error and needs no second cut |
| `TailRecovery.UncutReadability` | src/native_storage/native_session_store.cpp:804-892 | an unchanged file is readable exactly when the scan ended inside it |
| `TailRecovery.TornAppend` | src/native_storage/native_session_store.cpp:804-892 | exactly when recovery repairs an append torn at byte k: when the cut lies before the content of the last field; later cuts leave an unreadable file, unless only the newline is missing |
| `IdCounters.AbsorbCoversExactly` | src/native_storage/native_session_store.cpp:1191-1211 | the counter ends above every ID it absorbed if and only if none of them is 2^63 - 1 |
| `IdCounters.AllocatedIsCoveredExactly` | src/native_storage/native_session_store.cpp:1213-1223 | the counter moves past an allocated ID if and only if it had not reached 2^63 - 1 |
| `IdCounters.CountersLoadBack` | src/native_storage/native_session_store.cpp:1225-1270 | persisted counters load back as the counters in memory |
| `LogBytes.AppendReads` | src/native_storage/native_session_store.cpp:705-737 | an append to a readable file, stopped after any byte, leaves the old records and the first so many of the new ones to read; a complete one all of them, in a readable file |
| `LogBytes.RecoveredReads` | src/native_storage/native_session_store.cpp:804-892 | tail recovery keeps every record that can be read, on any bytes, and a second one changes nothing |
| `LogBytes.TornThenRecovered` | src/native_storage/native_session_store.cpp:705-892 | after a torn append and recovery the file is readable if and only if the cut missed the content of the last field |
| `LogBytes.CutBeforeReads` | src/native_storage/native_session_store.cpp:739-802 | compaction leaves a suffix of the records that can be read, on any bytes |
| `LogBytes.CompactionIsCut` | src/native_storage/native_session_store.cpp:739-802 | whatever compaction comes to is such a cut |
| `IdSafety.PrepareKeeps` | src/native_storage/native_session_store.cpp:135-153 | recovering the tail of a file, or creating it, wherever that stops, loses no record that can be read |
| `IdSafety.OpenEstablishes` | src/native_storage/native_session_store.cpp:135-161 | opening any safe disk, by loading or by rescanning, makes every counter exceed every ID that can be read from its file, and loses no record |
| `IdSafety.EmptyIsSafe` | src/native_storage/native_session_store.cpp:137-153 | an empty store directory is a safe start |
| `IdSafety.StepPreserves` | src/native_storage/native_session_store.cpp:112-1299 | every append stopped after any byte, rewrite, commit, compaction, allocation, stop and partial or full reopen with tail recovery keeps the counters above the IDs, in memory and for the next open, if no append lands on a file that a read rejects and no ID is 2^63 - 1 |
| `IdSafety.RunsAreSafe` | src/native_storage/native_session_store.cpp:112-1299 | the same over every run |
| `IdSafety.AllocationIsFresh` | src/native_storage/native_session_store.cpp:1213-1223 | after any such run, while the store is open, no record that can be read from a file carries the next ID allocated for it |
| `IdReuse.EventsAreFatal` | src/native_storage/native_store_record_codec.cpp:162-182 | there are such events |
| `IdReuse.TornStays` | src/native_storage/native_session_store.cpp:804-892 | a raw event whose last field is a ten-digit outputQueueBytes, torn where that field begins, is left alone by recovery and rejected by reads |
| `IdReuse.ThenReadable` | src/native_storage/native_session_store.cpp:705-737 | appending a raw event whose sessionId looks like records makes the file the log of three records that nobody wrote |
| `IdReuse.LiveIdReused` | src/native_storage/native_session_store.cpp:705-1299 | for all such events, a run in which only that append breaks the rule, and after which the store hands out the ID of a record that is there |
| `IdReuse.LastIdWraps` | src/native_storage/native_session_store.cpp:1191-1223 | an input: the record with ID 9223372036854775807 wraps its counter, and the next allocated ID is 1 |
| `SessionIds.SessionStore.AbsorbRecordIds` | src/native_storage/native_session_store.cpp:1191-1211 | changes the counter and the dirty flag as specified |
| `SessionIds.SessionStore.AllocateId` | src/native_storage/native_session_store.cpp:1213-1223 | returns the counter and moves it on |
| `SessionIds.SessionStore.CounterLines` | src/native_storage/native_session_store.cpp:1225-1235 | one line per data file |
| `SessionIds.SessionStore.PersistCounters` | src/native_storage/native_session_store.cpp:1272-1281 | writes dirty counters, or fails and stays dirty |
| `SessionIds.SessionStore.LoadPersistedCounters` | src/native_storage/native_session_store.cpp:1237-1270 | takes the file only when every data file has a positive counter |
| `SessionIds.SessionStore.LargestId` | src/native_storage/native_session_store.cpp:1286-1292 | the largest numeric ID of a file |
| `SessionIds.SessionStore.ReloadCounters` | src/native_storage/native_session_store.cpp:1283-1300 | rescans every file and persists; fails at a file that cannot be read |
| `SessionIds.SessionStore.PrepareFiles` | src/native_storage/native_session_store.cpp:135-153 | recovers the tail of every data file or creates it |
| `SessionIds.SessionStore.OpenStore` | src/native_storage/native_session_store.cpp:135-163 | prepares the files, then loads the counters, else rescans; succeeds exactly when the counters are usable, or every file can be read and the counters be saved |
| `SessionIds.SessionStore.AppendRecords` | src/native_storage/native_session_store.cpp:705-737 | persists counters before the first byte is written; the header when the file is empty, then the records, as far as the bytes get |
| `TableRows.RowsAfterSave` | src/native_storage/native_session_store.cpp:434-453 | after a save, an owner has its old rows (none, if it is the one saved) and the new rows that name it |
| `TableRows.SaveIsExact` | src/native_storage/native_session_store.cpp:434-453 | a save replaces one owner's rows and leaves the others' alone if and only if every new row names that owner |
| `TableRows.StrayRow` | src/native_storage/native_session_store.cpp:401-453 | an input: a row saved for session A that names B is not read for A, but for B |
| `Sorting.SortedIsUnique` | src/native_storage/native_session_store_cache.cpp:119-209 | items that do not tie have one sorted order |
| `TableRows.SortRows` | src/native_storage/native_session_store_cache.cpp:119-127 | a sort by the ranking fields and the ID |
| `TableRows.LessExactly` | src/native_storage/native_session_store_cache.cpp:119-209 | of two sort keys the one is before the other that is smaller at the first difference, or ends there |
| `TableRows.OrderIsUnique` | src/native_storage/native_session_store_cache.cpp:119-209 | rows with distinct sort keys have one order, so a valid cache equals any fresh sorted read |
| `StoreCaches.ReplacedFiles` | src/native_storage/native_session_store.cpp:1094-1175 | a transaction gives each table its own new contents and leaves every other file alone |
| `StoreCaches.SavedRowsRead` | src/native_storage/native_session_store.cpp:401-453 | a saved table reads back as what was kept and what was added; the session's rows are exactly the saved ones, and all others unchanged, if and only if every row names the session |
| `StoreCaches.FilledOwners` | src/native_storage/native_session_store.cpp:410-432 | after the missing session IDs are filled in, every row names the session if and only if each row named it or none |
| `StoreCaches.FilledIds` | src/native_storage/native_session_store.cpp:410-432 | a row keeps its ID and everything else; the first row without one gets the next ID of the table, and each later one the number after the one before it |
| `SavedReads.SaveIsRead` | src/native_storage/native_session_store.cpp:401-496 | with a codec that gives these rows back, after a successful save whose rows name the session: the session is found, a read of its attempts or observations gives exactly the saved rows in order, and every read for another session gives what it gave before |
| `NumberText.PrintedReads` | src/native_storage/native_store_record_codec.cpp:125-133 | a printed integer is read back whenever it fits the width |
| `NumberText.PrintedInOrder` | src/native_storage/native_store_record_codec.cpp:125-127 | an input: -1205 is printed as "-1205" |
| `RowCodec.AttemptReads` | src/native_storage/native_store_record_codec.cpp:359-402 | an attempt of any values its C++ types hold is decoded from its record |
| `RowCodec.SourceCodecIsFaithful` | src/native_storage/native_store_record_codec.cpp:320-433 | so is every row of a scan execution |
| `RowCodec.SaveIsReadBack` | src/native_storage/native_session_store.cpp:401-496 | so `SavedReads.SaveIsRead` holds of the codec of the program, for all rows its types hold |
| `StaleCaches.CacheLastsExactly` | src/native_storage/native_session_store_cache.cpp:17-211 | a cache of any parent or child table that is filled after a failed abort stays right through the next recovery, whatever the files hold, if and only if the old version of its file is in place: it had one and has no backup, or it had none and is not there |
| `StaleCaches.MissingIsCached` | src/native_storage/native_session_store_cache.cpp:50-211 | a run: the placing rename and the first step of the abort fail, a read caches the missing table as empty, and recovery brings its records back behind the cache |
| `StaleCaches.RefusedIsCached` | src/native_storage/native_session_store_cache.cpp:50-211 | a run: the marker rename and the first step of the abort fail, a read caches the records of the refused save, and recovery takes them back behind the cache |
| `StoreCaches.SessionStoreReader.InvalidateCachesForFile` | src/native_storage/native_session_store_cache.cpp:17-48 | clears exactly the caches listed for a file and keeps all others |
| `StoreCaches.SessionStoreReader.CachedTable` | src/native_storage/native_session_store_cache.cpp:50-99 | returns what a fresh read gives, nothing if the file cannot be read, and keeps every cache coherent |
| `StoreCaches.SessionStoreReader.CachedRows` | src/native_storage/native_session_store_cache.cpp:101-211 | the same for one owner's rows, sorted |
| `StoreCaches.SessionStoreReader.HasScanSession` | src/native_storage/native_session_store.cpp:475-482 | finds a session exactly when the file holds one |
| `StoreCaches.SessionStoreReader.RowsOfSession` | src/native_storage/native_session_store.cpp:484-496 | returns exactly the session's rows, sorted, when the session exists and its table can be read, and no row otherwise |
| `StoreCaches.SessionStoreReader.RewriteTransaction` | src/native_storage/native_session_store.cpp:1066-1185 | replaces all files or none, and every valid cache stays coherent |
| `StoreCaches.SessionStoreReader.SaveScanExecution` | src/native_storage/native_session_store.cpp:401-453 | succeeds if and only if the session has an ID, the three tables can be read and the commit goes through; then the tables have their new contents together, with missing session and row IDs filled in, and otherwise nothing changes; `SavedReads.SaveIsRead` is about every save that succeeds |
| `Crc.Crc16Modbus` | src/core/modbus_core.cpp:52-65 | the nested loops compute the register; which one that is, for all bytes, is `CrcDivision.CrcIsRemainder` |
| `CrcDivision.CrcIsRemainder` | src/core/modbus_core.cpp:52-65 | for all bytes: the register, lowest bit first, is the remainder modulo x^16 + x^15 + x^2 + 1 of the bits in transmission order with sixteen zeros behind them and the first sixteen complemented (section 6.2.2 of MODBUS over Serial Line V1.02) |
| `CrcDivision.DivisionIsExact` | src/core/modbus_core.cpp:52-65 | the long division it speaks of: quotient times generator plus remainder is the dividend, for no other quotient and remainder |
| `CrcDivision.AcceptedIsDivisible` | src/core/modbus_core.cpp:75-109 | a frame of at least four bytes, CRC included, is accepted exactly when the generator divides it, preset and shifted in this way |
| `CrcDivision.CheckValue` | src/core/modbus_core.cpp:52-65 | the published check value: the CRC of "123456789" is 0x4B37 |
| `Crc.AcceptedIsZeroResidue` | src/core/modbus_core.cpp:75-109 | a frame of at least four bytes is accepted exactly when the CRC run over all of it, CRC included, is 0 |
| `Crc.AppendedIsAccepted` | src/core/modbus_core.cpp:67-92 | a body of at least two bytes with its CRC appended is accepted |
| `Crc.AcceptedIsAppended` | src/core/modbus_core.cpp:67-92 | every accepted frame is its body with the CRC appended |
| `Crc.ShiftInjective` | src/core/modbus_core.cpp:56-62 | clocking the register loses nothing |
| `Crc.CrcIsSerial` | src/core/modbus_core.cpp:52-65 | the byte-wise loop is the bit-serial register fed bit by bit |
| `Crc.BurstIsDetected` | src/core/modbus_core.cpp:75-92 | two different frames of equal length, however long, that differ within sixteen consecutive bits are never both accepted |
| `Crc.NeighbouringBytesAreDetected` | src/core/modbus_core.cpp:75-92 | nor are two that differ only in two neighbouring bytes |
| `Crc.OddErrorsAreDetected` | src/core/modbus_core.cpp:75-92 | nor are two that differ in an odd number of bits |
| `ModbusFrames.BuildReadRequest` | src/core/modbus_core.cpp:137-169 | succeeds exactly for requests in range, and builds their frame |
| `ModbusFrames.RequestRoundTrip` | src/core/modbus_core.cpp:137-169 | a built request validates and decodes to what was asked |
| `ModbusFrames.BigEndianRoundTrip` | src/core/modbus_core.cpp:41-48 | writing and reading a register are inverse |
| `ModbusFrames.HighByteFirst` | src/core/modbus_core.cpp:41-48 | the first byte of a register is its quotient by 256, the second the remainder |
| `ModbusFrames.ParseReadResponse` | src/core/modbus_core.cpp:171-257 | computes the specified outcome: registers, exception or rejection |
| `ModbusFrames.ParsesExactlyCanonical` | src/core/modbus_core.cpp:171-257 | registers are returned if and only if the parameters are in range and the frame is the encoding of that many registers for that slave and function (sections 6.3 and 6.4 of the MODBUS Application Protocol V1.1b3); they re-encode to the frame |
| `ModbusFrames.ReadingsAreConsecutive` | src/core/modbus_core.cpp:244-253 | as many readings as asked, at consecutive addresses inside the address space |
| `ModbusFrames.ExceptionsExactly` | src/core/modbus_core.cpp:209-219 | an exception is recognised exactly in its three-byte body (section 7) |
| `ScanPlanner.BuildScanPlan` | src/core/modbus_core.cpp:312-385 | succeeds exactly for valid options, so its inner failure exit is never taken; terminates; the blocks tile the range |
| `ScanPlanner.BlockStart` | src/core/modbus_core.cpp:360-379 | block i starts i block sizes after the start and all but the last are full |
| `ScanPlanner.BlockCount` | src/core/modbus_core.cpp:358-379 | the number of blocks is the ceiling quotient |
| `ScanPlanner.EachAddressOnce` | src/core/modbus_core.cpp:360-379 | an address lies in the range exactly when it lies in some block, and then in one only |
| `ScanPlanner.RequestsAskForTheirBlocks` | src/core/modbus_core.cpp:364-375 | every request frame validates and decodes to its block |
| `ScanExecution.RecordAttempt` | src/core/modbus_scan_executor_core.cpp:84-120 | an exchange becomes the specified attempt record and observations |
| `ScanExecution.RunAttempts` | src/core/modbus_scan_executor_core.cpp:228-291 | the attempt loop makes the specified attempts |
| `ScanExecution.RunBlocks` | src/core/modbus_scan_executor_core.cpp:215-315 | the block loop makes the specified run and keeps its counts and observations exact |
| `ScanExecution.Execute` | src/core/modbus_scan_executor_core.cpp:194-330 | an invalid plan is refused untouched; a valid one gives the result of the run that the theorems below are about: `ScanTheorems.RunRecords` and `ScanTheorems.AttemptsGoOn` say of the answers alone what it records and when it goes on |
| `ScanTheorems.TriesAreSound` | src/core/modbus_scan_executor_core.cpp:228-291 | each attempt records its own exchange, all but the last failed with a retryable status, at most retryCount + 1 are made, and the loop stops for a reason |
| `ScanTheorems.ScanIsSound` | src/core/modbus_scan_executor_core.cpp:215-315 | every recorded block is the next block of the plan with the exchanges made for it; the run ends only at the end, at a failed block or when cancelled |
| `ScanTheorems.RunIsSound` | src/core/modbus_scan_executor_core.cpp:194-330 | for any transport and cancellation: success + failed = recorded blocks, 1 to retryCount + 1 attempts each, observations are the concatenation of the blocks', Cancelled is reported exactly when the last cancellation query said so, and otherwise the run came to the end of the plan or stopped at a failed block |
| `ScanTheorems.CompletedExactly` | src/core/modbus_scan_executor_core.cpp:317-326 | Completed is reported exactly when the run was not cancelled and read every block of the plan |
| `ScanTheorems.ErrorsExactly` | src/core/modbus_scan_executor_core.cpp:317-326 | a run that was not cancelled reports Failed exactly when it read none of its blocks, and CompletedWithErrors exactly when it read some and not all |
| `ScanTheorems.BuiltPlansAreTaken` | src/core/modbus_scan_executor_core.cpp:33-65 | every plan that the planner builds passes the checks of the executor |
| `ScanTheorems.RunRecords` | src/core/modbus_scan_executor_core.cpp:84-291 | every attempt of a run records the answer to its own exchange: Timeout, TransportError, Success exactly for the encoding of the registers asked for, ModbusException with its code exactly for an exception response of that slave and function, ParseError for any other frame |
| `ScanTheorems.AttemptsGoOn` | src/core/modbus_scan_executor_core.cpp:67-291 | unless the run was cancelled at that block, an exchange is followed by another exactly when an attempt is left and the option for its answer says so: retryOnTimeout, retryOnTransportError, retryOnModbusException for an exception response, retryOnParseError for any other frame, and never after the registers asked for |
| `ScanTheorems.NoNeedlessAttempts` | src/core/modbus_scan_executor_core.cpp:67-291 | also at a block where the run was cancelled, no exchange follows unless an attempt was left and the option said so |
| `ScanTheorems.ScanPauses` | src/core/modbus_scan_executor_core.cpp:150-155 | a run sleeps for the interval of the plan between its blocks, once more at most when it is cancelled after a block, and at no other time |
| `ScanTheorems.ReadBlockIsCanonical` | src/core/modbus_scan_executor_core.cpp:234-273 | the observations of a read block are the registers of the canonical response its last exchange returned, at its own addresses |
| `ScanTheorems.ReadExactly` | src/core/modbus_scan_executor_core.cpp:237-273 | a block counts as read exactly when its last exchange was answered with an encoding of that many registers |
| `ScanTheorems.CompletedScanIsComplete` | src/core/modbus_scan_executor_core.cpp:194-330 | a completed scan of a built plan observed every address from start to end exactly once, in ascending order |
| `RtuFraming.ResponseFrameLength` | src/transport/serial_rtu_transport.cpp:20-43 | the search that continues where the last call stopped finds what a search from length four finds; that this is the end of the frame is `RtuFraming.ResponseIsCut`, `RtuFraming.ExceptionIsCut` and `RtuFraming.OtherFrameIsCut` |
| `RtuFraming.ResponseIsCut` | src/transport/serial_rtu_transport.cpp:20-43 | the response frame of any registers, for any slave and either function, is what any stream begins with that begins with it, whatever follows |
| `RtuFraming.ExceptionIsCut` | src/transport/serial_rtu_transport.cpp:26-28 | so is the exception frame of any slave, function and code |
| `RtuFraming.OtherFrameIsCut` | src/transport/serial_rtu_transport.cpp:35-41 | under any other function code the frame ends where the CRC check first passes |
| `RtuFraming.FrameLengthStays` | src/transport/serial_rtu_transport.cpp:20-43 | a length, once known, does not change when more bytes arrive |
| `RtuFraming.CompleteStays` | src/transport/serial_rtu_transport.cpp:223-235 | bytes after a complete frame change nothing |
| `RtuTransport.SerialRtuTransport.SendRequest` | src/transport/serial_rtu_transport.cpp:58-140 | writes the request or ends with the specified outcome |
| `RtuTransport.SerialRtuTransport.CheckRead` | src/transport/serial_rtu_transport.cpp:161-214 | judges a read and marks the transport as specified |
| `RtuTransport.SerialRtuTransport.ReceiveFrame` | src/transport/serial_rtu_transport.cpp:142-236 | the read and assemble loop receives the specified bytes, never more than 260 |
| `RtuTransport.SerialRtuTransport.Exchange` | src/transport/serial_rtu_transport.cpp:52-266 | status, frame and recorded failure are those of the specified exchange |
| `RtuTransportTheorems.ReceivesFromLine` | src/transport/serial_rtu_transport.cpp:148-236 | a complete reception is the beginning of the bytes read |
| `RtuTransportTheorems.SuccessIsTheFrame` | src/transport/serial_rtu_transport.cpp:52-266 | a successful exchange returns the frame its bytes begin with; all of them came from reads that succeeded for the bound generation, and no query found it stale or cancelled |
| `RtuTransportTheorems.ChunkingDoesNotMatter` | src/transport/serial_rtu_transport.cpp:142-236 | two successful exchanges that read from the beginning of the same bytes return the same frame, however the reads split them |
| `RtuTransportTheorems.QuietExchangeSucceeds` | src/transport/serial_rtu_transport.cpp:142-236 | on an undisturbed line an exchange succeeds as soon as the reads it has time for hold a frame |
| `RtuTransportTheorems.QuietResponseArrives` | src/transport/serial_rtu_transport.cpp:142-236 | on an undisturbed line whose bytes begin with the response to any registers, the exchange returns exactly that response |
| `RtuTransportTheorems.QuietExceptionArrives` | src/transport/serial_rtu_transport.cpp:142-236 | the same for an exception response |
| `RtuTransportTheorems.QuietExchangeFails` | src/transport/serial_rtu_transport.cpp:142-265 | on an undisturbed line that brings no frame, the read that ends it decides: a timed-out read or the deadline gives a timeout with the bytes so far, a cancelled one ends the scan, one of another kind or session or after closing gives no bytes, and any other failure is reported with that read |
| `RtuTransportTheorems.WriteFails` | src/transport/serial_rtu_transport.cpp:74-140 | the same for a request that is empty, not written, or not written whole |
| `RtuTransportTheorems.FrameIsBounded` | src/transport/serial_rtu_transport.cpp:238-265 | at most 260 bytes are returned, and none once the session was found changed |
| `SerialScan.ReportedRegistersCameOverTheLine` | src/core/modbus_scan_executor_core.cpp:234-273 | every register a scan over the serial line reports was in a canonical response read for the bound session |
| `SerialWriteQueues.SerialWriteQueue.BeginGeneration` | src/transport/serial_write_queue.cpp:103-111 | begins only on an empty queue, and resets the marks |
| `SerialWriteQueues.SerialWriteQueue.ReserveRequestId` | src/transport/serial_write_queue.cpp:295-306 | hands out the next ID, none after the largest |
| `SerialWriteQueues.SerialWriteQueue.Append` | src/transport/serial_write_queue.cpp:149-173 | takes a request in, with exact bytes and marks |
| `SerialWriteQueues.SerialWriteQueue.Enqueue` | src/transport/serial_write_queue.cpp:113-181 | refuses or accepts with the whole new state; which requests are accepted is `WriteQueueAdmission.AdmittedExactly` |
| `SerialWriteQueues.SerialWriteQueue.ActivateNext` | src/transport/serial_write_queue.cpp:190-205 | reserves the oldest pending request |
| `SerialWriteQueues.SerialWriteQueue.FindPending` | src/transport/serial_write_queue.cpp:211-213 | the first pending request that matches |
| `SerialWriteQueues.SerialWriteQueue.CancelPending` | src/transport/serial_write_queue.cpp:207-229 | takes out exactly the request named |
| `SerialWriteQueues.SerialWriteQueue.CancelByToken` | src/transport/serial_write_queue.cpp:231-242 | the same, by ID and generation |
| `SerialWriteQueues.SerialWriteQueue.CancelAllPending` | src/transport/serial_write_queue.cpp:244-261 | cancels every pending request, oldest first |
| `SerialWriteQueues.SerialWriteQueue.CompleteActive` | src/transport/serial_write_queue.cpp:263-293 | settles the active request, or changes nothing |
| `WriteQueueRuns.StepKeeps` | src/transport/serial_write_queue.cpp:103-306 | every call keeps the partition of requests, their order, their generation, the byte and request counts, the high-water marks and the honesty of results |
| `WriteQueueRuns.EveryRunHolds` | src/transport/serial_write_queue.cpp:103-306 | so do all runs from a new queue: counts are exact and within the limits, the marks are the maxima since the last reset, a Sent result carries the full payload size |
| `WriteQueueRuns.ExactlyOnce` | src/transport/serial_write_queue.cpp:103-306 | in every run an accepted request is pending, active or settled by one terminal result, exactly one of these, and no other ID is anywhere |
| `WriteQueueRuns.NeverReissued` | src/transport/serial_write_queue.cpp:295-306 | IDs are never handed out twice, and none is once all 64-bit IDs are used |
| `WriteQueueRuns.StaleCompletionIgnored` | src/transport/serial_write_queue.cpp:263-293 | a completion for a settled request or another generation changes nothing |
| `WriteQueueRuns.AdmissionOrder` | src/transport/serial_write_queue.cpp:103-306 | in every run the requests activated so far and then those that wait are the accepted ones in the order of acceptance, without those cancelled before |
| `WriteQueueAdmission.CountsOutstanding` | src/transport/serial_write_queue.cpp:85-101 | in every reachable state, the counted requests and bytes are the number and the total size of the accepted requests that are not settled |
| `WriteQueueAdmission.AdmittedExactly` | src/transport/serial_write_queue.cpp:113-181 | in every run a request is accepted if and only if it is well-formed, its generation is admissible, it fits among what is outstanding, in number and in bytes, and an ID is left; RejectedFull exactly when only the fit fails, RejectedInvalid otherwise; a refused one changes nothing |
| `WriteQueueAdmission.BegunExactly` | src/transport/serial_write_queue.cpp:103-111 | in every run a generation begins exactly when nothing is outstanding |
| `WriteQueueAdmission.ActivatedExactly` | src/transport/serial_write_queue.cpp:190-205 | in every run, with nothing being written and something waiting, the request that waits longest is activated, and otherwise none |
| `WriteQueueAdmission.CancelledExactly` | src/transport/serial_write_queue.cpp:207-242 | in every run a request is cancelled by ID exactly when it waits, by token exactly when it waits and the token names the generation |
| `WriteQueueAdmission.WithdrawnIsCancelled` | src/transport/serial_write_queue.cpp:207-261 | in every run a request cancelled while it waited is settled as Cancelled with 0 bytes |
| `WriteQueueAdmission.CompletedExactly` | src/transport/serial_write_queue.cpp:263-293 | in every run a completion of the active request, in its generation, with a terminal status and no more bytes than it has, settles it with just that; only Sent without all bytes becomes Failed; any other completion settles nothing |
| `WriteQueueAdmission.IdsCountUp` | src/transport/serial_write_queue.cpp:295-306 | in every run the IDs handed out are 1, 2, 3 and so on |
| `CommandValidation.AddBudget` | src/command_sequence/command_sequence.cpp:54-63 | adds a positive amount if the sum fits 32 bits |
| `CommandValidation.ValidateModbusRead` | src/command_sequence/command_sequence.cpp:139-170 | accepts exactly the admissible reads whose cost fits, and adds that cost |
| `CommandValidation.ValidateStep` | src/command_sequence/command_sequence.cpp:197-218 | accepts exactly the admissible steps whose cost fits |
| `CommandValidation.ValidateCommandSequence` | src/command_sequence/command_sequence.cpp:639-665 | accepts exactly the sequences of admissible steps whose total cost is within the budget, and names the first bad step otherwise |
| `CommandValidation.AttemptCountOverflows` | src/command_sequence/command_sequence.cpp:156-168 | an admissible read overflows the 32-bit attempt count if and only if the limits allow 2^31 - 1 retries |
| `CommandExecution.PerformDelay` | src/command_sequence/command_sequence.cpp:289-326 | the slicing loop sleeps as specified |
| `CommandExecution.PerformRead` | src/command_sequence/command_sequence.cpp:387-444 | plans one block, runs the executor and maps its outcome |
| `CommandExecution.PerformStep` | src/command_sequence/command_sequence.cpp:492-516 | runs one step against its backend |
| `CommandExecution.ExecuteCommandSequence` | src/command_sequence/command_sequence.cpp:667-710 | an unacceptable sequence has no effect; an acceptable one has exactly the specified effects |
| `CommandTheorems.DelayIsExact` | src/command_sequence/command_sequence.cpp:289-326 | a delay that completes slept exactly its duration, at most 100 ms at a time |
| `CommandTheorems.ReadIsPlannedExactly` | src/command_sequence/command_sequence.cpp:408-422 | an admitted read is planned if and only if it asks for at most 64 registers inside the address space with at most 5 retries |
| `CommandTheorems.UnplannedReadFails` | src/command_sequence/command_sequence.cpp:408-422 | an admitted read that is not planned fails without an exchange on every backend |
| `CommandTheorems.ReadFits` | src/command_sequence/command_sequence.cpp:387-444 | all exchanges of a read, retries included, take at most its cost |
| `CommandTheorems.ReadObservesItsRange` | src/command_sequence/command_sequence.cpp:387-444 | a read that completes observed each of its addresses once, in order |
| `CommandTheorems.BudgetBoundsTime` | src/command_sequence/command_sequence.cpp:639-710 | whatever the backends do, all waits of an accepted sequence together are at most the total budget |
| `CommandOutcomes.CostIsReached` | src/command_sequence/command_sequence.cpp:85-218 | the bound is tight: when no exchange is answered and nobody cancels, every admissible step takes exactly the cost that the validator adds for it, a read if it is planned |
| `CommandOutcomes.ReadEndsAsAnswered` | src/command_sequence/command_sequence.cpp:387-444 | a planned read that is not cancelled completes exactly when its last exchange was answered with the registers asked for, times out exactly when that was not answered, and fails otherwise |
| `CommandOutcomes.RunEndsAsAnswered` | src/command_sequence/command_sequence.cpp:452-709 | every step that a run comes to and does not cancel ends as the backends answered: the n-th write by its acceptance, the n-th wait by whether its response contains the text, an assertion about the last write or read by whether one came before, one about the last response by the answer to the last wait |
| `CommandTheorems.StopsAtFirstFailure` | src/command_sequence/command_sequence.cpp:683-709 | steps run in order up to the first that does not complete, which gives the sequence its status |
| `Ranking.RankIsStrictWeakOrder` | src/core/analysis_core.cpp:225-248 | `candidateRankedBefore` is a strict weak order whose ties are equal rank keys |
| `Ranking.RankIsKeyOrder` | src/core/analysis_core.cpp:231-248 | it depends on the rank key only |
| `Ranking.RankDirection` | src/core/analysis_core.cpp:225-248 | the higher score is first, then the smaller error, fewer registers, the more usual byte and word order, the lower address, and the name that comes first, each where all before it are equal |
| `BestCandidates.RemoveWorstCandidate` | src/core/analysis_core.cpp:250-258 | removes the first of the worst ranked |
| `BestCandidates.AppendBoundedCandidate` | src/core/analysis_core.cpp:260-267 | after each candidate the best so far are kept |
| `BestCandidates.SortCandidates` | src/core/analysis_core.cpp:742 | the same candidates, none ranked before an earlier one |
| `BestCandidates.BestIsSortedPrefix` | src/core/analysis_core.cpp:742-745 | the best keys in order are the first of all keys in order |
| `BestCandidates.GenerateCandidates` | src/core/analysis_core.cpp:653-749 | fails exactly without room for a candidate; otherwise the result consists of admissible candidates, and its keys are those of sorting every one of them and taking the first |

## Left out

- Failing removals, short writes of replaced files without a stop, and loss of cached disk blocks. A removal that fails after the marker is published only postpones the clean-up to the next open.
- Failing `exists` queries: every path query answers.
- The environment variables that simulate failures, and all error texts, timestamps, endpoint names, evidence callbacks and progress callbacks.
- RecoverySteps.ReopenSteps: the two recovery stages alone; all of an opening is `OpeningTheorems.OpeningSteps`.
- RecoverySteps.ReopenIsStable: the same two stages; all of an opening is `OpeningTheorems.OpenedStays`.
- StoreDirectory.Directory.RecoverStore: the same two stages; all of an opening is `StoreDirectory.Directory.InitializeSchema`.
- OpeningTheorems.OpeningLosesNothing: files below 2^63 bytes; loading or rescanning the counters comes after it, in `IdSafety.OpenEstablishes`.
- StoreRuns.RunsAreAtomic: the recovery calls at the start of a transaction are left out, since they change nothing on a settled directory; appends are left out, since they are not atomic (`LogBytes.AppendReads`).
- `IdCounters` and `StoreCaches` treat a commit, a replacement and the rewriting of a torn file as one step, which `TransactionTheorems` and `ReplaceTheorems` prove of them; the counters file is the list of its records.
- IdSafety.RunsAreSafe: requires that no append lands on a file that a read rejects, that no caller supplies the ID 2^63 - 1 and that no counter is allocated at that value, and speaks of files below 2^63 bytes. `IdReuse.LiveIdReused`, `IdCounters.AbsorbCoversExactly` and `IdCounters.AllocatedIsCoveredExactly` show what happens otherwise. At most one call of a save fails without a stop. Some appends to a rejected file do no harm; which ones is not characterised.
- RecordLog.ParseRecords: memory is unbounded, so `reserve` of a huge field count does not throw and an endless parse does not run out of it.
- RecordLogTheorems.RoundTrip: files and fields are shorter than 2^63 bytes, as stream sizes require; running out of memory is not modelled.
- The record codec (`native_store_record_codec.cpp`) of the tables other than the three of a scan execution: their decoding and encoding are arbitrary functions. In `RowCodec` columns that are neither owner, rank nor ID are kept as printed text.
- StoreCaches.SavedRowsRead: assumes that decoding undoes encoding on the rows saved, which `RowCodec.SourceCodecIsFaithful` proves of the program's codec, and speaks of one table's new contents; `SavedReads.SaveIsRead` is about the saved disk.
- SavedReads.SaveIsRead: the same assumption on the rows saved, discharged in `RowCodec.SaveIsReadBack`, and files below 2^63 bytes.
- StoreCaches.SessionStoreReader.RewriteTransaction: whether the commit goes through is an input; the recovery calls before it and the counters request are not part of this class.
- `saveMatchRun` and `saveRuleVerificationRun`, which save in the way of `saveScanExecution`; the counters request that a save with dirty counters adds to its transaction is modelled in `IdCounters`.
- StoreCaches.SessionStoreReader.SaveScanExecution: the next row IDs are parameters; their freshness is `IdSafety.AllocationIsFresh`.
- The order `std::sort` gives to rows or candidates with equal keys: the models promise only what any sort promises.
- Native threading, serial port drivers, sleeping and real time. The one-millisecond sleep after an empty read is a turn of the loop like any other.
- RtuTransport.SerialRtuTransport.Exchange: the number of turns that start before the deadline is finite and given; how long a read blocks is not modelled.
- Integer widths in `ScanExecutor` for plans that the planner did not build: a retry count of 2^31 - 1 in a hand-made plan overflows `retryCount + 1`.
- Writing `startAddress + quantity - 1` beyond 32 bits in `runModbusRead`: taken as two's complement; the plan is then refused for its start address.
- CommandOutcomes.RunEndsAsAnswered: an assertion about a register after a read is only said to pass or fail; what it looks at is what that read observed (`CommandTheorems.ReadObservesItsRange`).
- RtuTransportTheorems.QuietExchangeFails: lines without cancellation and with a session that stays; that a success needs both is `RtuTransportTheorems.SuccessIsTheFrame`.
- Whether the serial write queue's deadlines are met: a deadline is carried along and never consulted by the queue.
- Decoding registers into numbers, scoring, tolerances and stability analysis: candidates arrive with their score and error as exact keys, and the filter of `addCandidate` is an input.
- BestCandidates.GenerateCandidates: the other argument checks of `generateValueCandidates` (no samples, values that are not numbers, no usable scale) are not modelled.
- User interface, layout, reports, redaction, policies, scripts and protocol helpers, which would only add easy members.
