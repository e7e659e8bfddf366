# Verified model of the durable transaction log

A Dafny model of the transaction log's storage pipeline and proofs of what it promises: record framing, the
incremental reader and the batch writer, the paired log and index writer, recovery after a crash, the location
arithmetic that ties record IDs to files, and the object pool.

`dafny verify dfyconfig.toml` checks everything.

## How the model is built

Files and sockets are `ByteDevice.Device` objects: contents, cursor, flushed and synchronized marks, and a finite
script of outcomes (some bytes, interrupted, failed, abandoned after some effect). Abandoning stands for both
cancellation and a panic: the call stops with the fields as they are. A finite script also bounds the retry loops. Which
steps a call has met decides its result: `Reads`, `Writes`, `Calls` and `Operations` say that the first error or
abandonment ends the call and is what it reports.

Objects whose methods update fields are classes: the reader, the byte buffer and builder, the writer, the index
writer, the pair writer, the initialization state, the pool. Each method's contract ties the new state to a
function of the old one or to an invariant that also holds when the call is cut short.

| module | content |
|---|---|
| Bytes, Crc32c, PolynomialDivision | field encodings; CRC-32C (section 12.1 of RFC 3720) as the bitwise reference, and as division over GF(2) |
| RecordProtocol, FrameLayout | frames and the one-shot parse, and both byte by byte |
| ByteDevice, RecordReader, RecordBuilder, RecordWriter, RecordTransfer | scripted input and output, the streaming reader, frames built in place, batched output, the round trip |
| Locations, RecordRanges | file ranges, positions, ranges over several files |
| DenseIndex, IndexWriter, IndexedLogWriter | the dense index, its writer, the pair and its crash invariant |
| LogFileValidator, IndexFileValidator, IndexedLogValidator | recovery of one log, of its index, of the pair |
| Storage, MaximumLogFile, StreamInitializer | the disk and its operations, discovery by directory search, initialization |
| CrashRecovery, RecoveredPrefix, InitOutcomes, OrphanIndexes, RestartableRecovery | what recovery guarantees: for a writer stopped anywhere, for arbitrary disks, with the exact condition of every outcome, under interruption |
| StreamDurability, StreamRestarts | whole streams through crashes, interrupted recoveries, appends and new files |
| ObjectPool | pool with a history of its counts |

`StreamInitializer.Init` is the outcome of an undisturbed initialization as a function of the disk, and
`CrashState` says which disks an interrupted one can leave. The method `Initialize` follows the program step by
step and is proved against both; the theorems about recovery are about these two.

## Where code and documentation differ

- Bytes behind a file's assigned record range are documented to be removed. For the last representable file the
  validation panics instead when all 51,616 records are there and another valid frame follows, because the next
  expected ID is computed before the comparison (exhaustion is documented as operationally unreachable).
  `LogFileValidator.RecoveryPanicsExactly` gives the exact condition, `LastFileRecoveryCanPanic` an input, and
  `InitOutcomes.InitPanicsExactly` lifts it to initialization. No `next` on file numbers can panic there.
- Creation of the successor pair refuses an orphan index only after it has created the log. The documentation offers
  no retry for such a failure; `RecoveredPrefix.OrphanIndexHeals` shows that the next initialization succeeds.
- After an interruption inside the deletion loop an orphan index can stay above the active file.
  `RestartableRecovery.CleanedIndex` says exactly which ones stay, and `OrphanIndexes` shows one come about, survive the
  restart and stop a later initialization.

## Model

| member | source | states |
|---|---|---|
| StreamDurability.StreamSurvivesCrash | services/transaction-log/src/streams/stream_initializer/stream_initializer.rs:34-46 | For any stream of appended records split over complete files and a last one cut off anywhere behind its synchronized part, any index bytes behind the trusted entries, any orphan indexes above, and any synchronized end as checkpoint: initialization recovers a prefix that contains every synchronized record, with exact logs and indexes from the starting file on, and leaves a disk of the same kind; only an orphan index directly above complete files makes it fail instead |
| StreamRestarts.StreamSurvivesInterruptedRecovery | services/transaction-log/src/streams/stream_initializer/stream_initializer.rs:34-46 | Initialization interrupted any number of times, anywhere: the disk in the end still survives, the same records are recovered from it with exact files, and the result and disk are those the first attempt would have given |
| StreamRestarts.CrashedRecoverySurvives | services/transaction-log/src/streams/stream_initializer/stream_initializer.rs:148-257 | Every disk an interrupted initialization leaves is again one that the theorem covers, with no synchronized or trusted record lost and the same records to recover |
| StreamRestarts.AppendingSurvives | services/transaction-log/src/streams/indexed_log_writer/indexed_log_writer.rs:149-298 | Appending to a recovered stream and crashing again, anywhere, leaves a disk that the same theorem covers, with everything the writer has synchronized since: append, crash and recovery can alternate for ever |
| StreamRestarts.FinalizedFileRotates | services/transaction-log/src/streams/indexed_log_writer/indexed_log_writer.rs:195-210 | A finalized file followed by the creation of the next pair, finished or interrupted, is a stream that survives, with the next file empty |
| StreamRestarts.RotationSurvives | services/transaction-log/src/storage/storage_provider.rs:385-411 | Creating the next pair behind complete, synchronized files keeps the stream recoverable, also if only the log has been created |
| StreamDurability.WriterImagesSurvive | services/transaction-log/src/streams/indexed_log_writer/indexed_log_writer.rs:284-298 | Whatever a crash leaves of a pair writer's two files is such a cut-off pair: all synchronized records, every trusted index entry, no log byte that was not appended |
| StreamRestarts.RecoveredPairResumes | services/transaction-log/src/streams/indexed_log_writer/indexed_log_writer.rs:96-126 | The recovered active pair meets everything the pair writer relies on when it takes over: records in sequence, exact index, the file-local end of exactly these records |
| StreamRestarts.ResumeStream | services/transaction-log/src/streams/indexed_log_writer/indexed_log_writer.rs:96-126 | Initialization followed by the conversion into a pair writer that expects the record behind the recovered prefix, with everything in front of it synchronized; cut short or refused, it can be called again for the disk it leaves and recovers the same records; undisturbed, only an orphan index directly above complete files stops it |
| StreamRestarts.RefusedOnlyOnce | services/transaction-log/src/streams/stream_initializer/stream_initializer.rs:240-257 | The attempt that an orphan index stops leaves a disk on which none can stop the next one |
| CrashRecovery.DurableThroughCrash | services/transaction-log/src/streams/validation/indexed_log_validator/indexed_log_validator.rs:47-78 | From every state of every run of the pair writer, for every surviving log prefix, every index tail and every trusted end up to the synchronized one: recovery of the pair restores a prefix of the appended records including all synchronized ones, and their exact index |
| RestartableRecovery.RecoveryIsRestartable | services/transaction-log/src/streams/stream_initializer/stream_initializer.rs:148-257 | Stopping initialization after any of its disk effects (index repair, truncation, any point of the deletion loop, staging, rename, log created without index) and running it again gives the same recovered end, active file, checkpoint, logs and indexes through the active file |
| RestartableRecovery.RecoveryIsRestartableOften | services/transaction-log/src/streams/stream_initializer/stream_initializer.rs:148-257 | The same for any number of interrupted attempts, and once one finishes every further run changes nothing |
| RestartableRecovery.FinishedRecoveryIsStable | services/transaction-log/src/streams/stream_initializer/stream_initializer.rs:34-46 | Initializing the disk an initialization left behind is the identity: same result, same disk, indexes included |
| RestartableRecovery.WalkAgain | services/transaction-log/src/streams/stream_initializer/stream_initializer.rs:148-184 | The walk over the files depends only on the pairs it visits and on there being no log behind a gap |
| RestartableRecovery.CleanedIndex | services/transaction-log/src/streams/stream_initializer/stream_initializer.rs:196-207 | Exactly which index files are left behind the recovered prefix: those above all discovered logs |
| RecoveredPrefix.RecoveryLeavesCompleteFilesAndActiveOne | services/transaction-log/src/streams/stream_initializer/stream_initializer.rs:148-257 | After success, for every file number: untouched in front of the start, complete and repaired up to the active file, the active file partial (or newly created and empty), and no log behind it |
| RecoveredPrefix.CheckpointIsRecoveredEnd | services/transaction-log/src/streams/stream_initializer/stream_initializer.rs:217-226 | The published checkpoint is the end of the last record in front of the next append, the active end is file-local, and the checkpoint never moves backward |
| RecoveredPrefix.RecoveredLogIsLongestPrefix | services/transaction-log/src/streams/validation/log_file_validator/log_file_validator.rs:45-82 | Recovery of one log keeps the trusted bytes and the longest run of valid, consecutive records behind them, and reports each record's end |
| RecoveredPrefix.RecoveredPairIsExact | services/transaction-log/src/streams/validation/indexed_log_validator/indexed_log_validator.rs:47-78 | A pair recovered from its start holds the longest run of its records in sequence, the end of exactly these, and their exact index |
| InitOutcomes.InitSucceedsExactly | services/transaction-log/src/streams/stream_initializer/stream_initializer.rs:34-46 | Initialization succeeds with a file as its active one if and only if the checkpoint fits the logs, every file from the start up to it is complete, and it is partial, or a gap in front of later logs, or the next number without an orphan index |
| InitOutcomes.GapIsFilled | services/transaction-log/src/streams/stream_initializer/stream_initializer.rs:148-207 | In the gap case initialization cannot fail and creates the gap file itself, whose orphan index is gone |
| InitOutcomes.InitRejectsExactly | services/transaction-log/src/streams/stream_initializer/stream_initializer.rs:156-181 | Content is rejected if and only if the checkpoint, which no smaller log alone disagrees with, is refuted by its own file: the log is missing, or its position is not one its records can have, or lies behind the log's end, or (unless the last file is overfull) the eight bytes of its index entry are not this position; no file behind the checkpoint's is ever rejected |
| InitOutcomes.DifferentEntryIsRejected | services/transaction-log/src/streams/stream_initializer/stream_initializer.rs:156-181 | A checkpoint whose own log is there but whose index entry holds other bytes makes initialization fail |
| InitOutcomes.CheckpointDisagreesExactly | services/transaction-log/src/streams/stream_initializer/stream_initializer.rs:85-136 | The checkpoint is refused before any file is opened if and only if it is another stream's or every log is smaller than its file |
| InitOutcomes.InitPanicsExactly | services/transaction-log/src/streams/stream_initializer/stream_initializer.rs:156-181 | Initialization panics if and only if it reaches the last representable file over complete ones and finds all of its records there with one more valid frame behind them |
| InitOutcomes.InitFailsOnOrphanExactly | services/transaction-log/src/streams/stream_initializer/stream_initializer.rs:240-257 | An orphan index stops initialization if and only if every file from the start through the last log is complete and the index is the next one's |
| OrphanIndexes.InterruptedRemovalLeavesOrphan | services/transaction-log/src/storage/storage_provider.rs:485-520 | A concrete initialization stopped inside its deletion loop leaves an orphan index above the active file |
| OrphanIndexes.RestartKeepsOrphan | services/transaction-log/src/streams/stream_initializer/stream_initializer.rs:34-46 | The restart on that disk succeeds and leaves the orphan index where it is |
| OrphanIndexes.OrphanStopsFullStream | services/transaction-log/src/streams/stream_initializer/stream_initializer.rs:240-257 | Once the active file holds its 100,000 records, that index stops the next initialization |
| RecoveredPrefix.OrphanIndexHeals | services/transaction-log/src/streams/stream_initializer/stream_initializer.rs:240-257 | The attempt that fails on an orphan index leaves a disk from which the next attempt succeeds with the same prefix |
| StreamInitializer.Initialize | services/transaction-log/src/streams/stream_initializer/stream_initializer.rs:34-46 | Success carries out exactly the outcome function `Init`, with durable, positioned handles of the active pair; a refusal is the one `Init` names; every other end leaves a crash state of the original disk. The first storage operation that reports an error or abandonment cuts it short, and otherwise only the validation of a pair can |
| StreamInitializer.InitializationState.LoadCheckpoint | services/transaction-log/src/streams/stream_initializer/stream_initializer.rs:85-104 | Loads the checkpoint or refuses one of another stream, without touching files |
| StreamInitializer.InitializationState.DiscoverLogFiles | services/transaction-log/src/streams/stream_initializer/stream_initializer.rs:111-136 | Finds the greatest log by the directory search and refuses when it does not cover the checkpoint's file |
| StreamInitializer.InitializationState.ValidateFiles | services/transaction-log/src/streams/stream_initializer/stream_initializer.rs:148-184 | The file loop computes the walk: recovered end, active pair and cleanup boundary, over exactly the repaired disk; stopping inside leaves each pair somewhere between its old and its repaired bytes |
| StreamInitializer.InitializationState.RemoveLaterFiles | services/transaction-log/src/streams/stream_initializer/stream_initializer.rs:196-207 | Removes everything behind the prefix through the greatest log |
| StreamInitializer.InitializationState.AdvanceCheckpoint | services/transaction-log/src/streams/stream_initializer/stream_initializer.rs:217-226 | Publishes the recovered end if there is one and it is new |
| StreamInitializer.InitializationState.PrepareActivePair | services/transaction-log/src/streams/stream_initializer/stream_initializer.rs:240-257 | Keeps the partial pair or creates the empty successor; the successor of the recovered file exists |
| StreamInitializer.RecoveredPairEnd | services/transaction-log/src/streams/stream_initializer/stream_initializer.rs:156-170 | A recovered end lies in its own file, and a file found complete is never the last representable one, so its successor can be requested |
| StreamInitializer.SuccessorNumber | services/transaction-log/src/streams/stream_initializer/stream_initializer.rs:240-257 | Where a file has to be created, it is the one behind the last visited file, below the number limit |
| IndexedLogValidator.Validate | services/transaction-log/src/streams/validation/indexed_log_validator/indexed_log_validator.rs:47-78 | Open, log recovery, index repair and positioning: each report is the one the bytes of both files determine; only this pair changes, and only as far as its recovery can have come |
| IndexedLogValidator.Recover | services/transaction-log/src/streams/validation/indexed_log_validator/indexed_log_validator.rs:47-78 | The ordered effects on both open files, the Complete/Partial decision, and durable files positioned at their ends; which operations precede each result, and that the index is not touched before the log is valid |
| IndexedLogValidator.PairStepsAreCalls | services/transaction-log/src/streams/validation/indexed_log_validator/indexed_log_validator.rs:47-78 | Nothing is called after an error or abandonment on either file, and that is what stops the recovery |
| IndexedLogValidator.PairRejectedExactly | services/transaction-log/src/streams/validation/indexed_log_validator/indexed_log_validator.rs:47-78 | A pair is rejected if and only if its trusted end cannot be one of the log's, or (unless the last file is overfull) is not the one stored in the index; both on bytes and numbers alone |
| IndexedLogValidator.PairIsRestartable | services/transaction-log/src/streams/validation/indexed_log_validator/indexed_log_validator.rs:24-40 | Recovery of a pair gives the same result from wherever an earlier attempt stopped |
| IndexedLogValidator.PairFromRecoveredEnd | services/transaction-log/src/streams/validation/indexed_log_validator/indexed_log_validator.rs:55-59 | Trusting the recovered end, a further recovery leaves both files as they are |
| IndexedLogValidator.RecoveredIndexIsFull | services/transaction-log/src/streams/validation/indexed_log_validator/indexed_log_validator.rs:59-78 | After repair the index covers exactly the recovered records and its last entry is the recovered end, which makes the computed cursor the file's end |
| LogFileValidator.Validate | services/transaction-log/src/streams/validation/log_file_validator/log_file_validator.rs:45-82 | Start checks, scan, truncation and synchronization amount to the recovery function of the log bytes; interrupted anywhere, the log is the old or the recovered one. A read error is the one reported, and nothing is truncated after it |
| LogFileValidator.StartRefusedExactly | services/transaction-log/src/streams/validation/log_file_validator/log_file_validator.rs:45-72 | A trusted end is refused if and only if it is another file's, is not between 16 and 65,535 bytes for each of its records, or lies behind the end of the log |
| LogFileValidator.ScanRecords | services/transaction-log/src/streams/validation/log_file_validator/log_file_validator.rs:101-166 | The scan with the incremental reader equals the scan of the one-shot parse, for every schedule of the source |
| LogFileValidator.DrainBatch | services/transaction-log/src/streams/validation/log_file_validator/log_file_validator.rs:139-158 | Draining one validated batch preserves the scan's result |
| LogFileValidator.AcceptedRunIsLongest | services/transaction-log/src/streams/validation/log_file_validator/log_file_validator.rs:101-166 | The accepted run continues the file, and one record more would not |
| LogFileValidator.ScanKeepsLongestRun | services/transaction-log/src/streams/validation/log_file_validator/log_file_validator.rs:101-166 | The scan accepts exactly the longest run, up to the position its lengths add up to |
| LogFileValidator.ScanEnds | services/transaction-log/src/streams/validation/log_file_validator/log_file_validator.rs:154-157 | Every reported end is the trusted position plus the lengths of all accepted records so far |
| LogFileValidator.ScanTail | services/transaction-log/src/streams/validation/log_file_validator/log_file_validator.rs:115-137 | The reported tail: bytes behind a full file, a record with expected and actual ID, the parse's error, or none |
| LogFileValidator.RecoveryPanicsExactly | services/transaction-log/src/streams/validation/log_file_validator/log_file_validator.rs:145-148 | Recovery of a log panics if and only if it is the last representable file, all its 51,616 records are accepted and one more valid frame follows |
| LogFileValidator.LastFileRecoveryCanPanic | services/transaction-log/src/streams/validation/log_file_validator/log_file_validator.rs:145-148 | A concrete last file whose recovery requests the successor of sequence u64::MAX |
| LogFileValidator.RecoveryIsIdempotent | services/transaction-log/src/streams/validation/log_file_validator/log_file_validator.rs:45-82 | Recovering the kept bytes finds the same ends and nothing to remove |
| LogFileValidator.RecoveryFromRecoveredEnd | services/transaction-log/src/streams/validation/log_file_validator/log_file_validator.rs:45-82 | Trusting the recovered end finds nothing new and nothing to remove |
| IndexFileValidator.Validate | services/transaction-log/src/streams/validation/index_file_validator/index_file_validator.rs:50-90 | Success leaves the trusted prefix followed by the encoded ends, durable; a count or trusted-entry error leaves the file unchanged; interrupted anywhere, the trusted prefix is intact; the first error or abandonment of the file stops it and is reported |
| IndexFileValidator.RepairedExactly | services/transaction-log/src/streams/validation/index_file_validator/index_file_validator.rs:50-90 | An index is repaired if and only if the entries are at most 100,000 and the eight bytes at the trusted record's place are the trusted position; otherwise the reported count, expected and actual values are these |
| IndexFileValidator.ReadIndexAt | services/transaction-log/src/streams/validation/index_file_validator/index_file_validator.rs:98-110 | Reads one entry through short reads, finds that the file does not cover it, or reports the operation that failed |
| IndexFileValidator.RepairIsRestartable | services/transaction-log/src/streams/validation/index_file_validator/index_file_validator.rs:50-90 | Wherever a repair stops, repeating it gives the uninterrupted result |
| IndexFileValidator.RepairIsIdempotent | services/transaction-log/src/streams/validation/index_file_validator/index_file_validator.rs:50-90 | A finished repair repeated changes nothing |
| Storage.StreamStorage.RemoveLogAndIndex | services/transaction-log/src/storage/storage_provider.rs:485-520 | Removes exactly the range, ascending and log before index; stopped at any operation, exactly the files of the earlier ones are gone, and perhaps the one in progress if it was abandoned |
| Storage.StreamStorage.CreateLogAndIndex | services/transaction-log/src/storage/storage_provider.rs:385-411 | Creates an empty pair, log first, touching nothing that exists; states the disk after every operation it can stop at |
| Storage.StreamStorage.WriteCheckpoint | services/transaction-log/src/storage/storage_provider.rs:601-637 | Creates, writes, flushes and synchronizes the staging file, renames it and synchronizes the directory, in this order, and states the disk after every operation it can stop at: only a synchronized document is renamed, and staging never counts |
| MaximumLogFile.MaximumLogFile | services/transaction-log/src/storage/storage_provider.rs:348-363 | The stack search returns the greatest canonical log number of any directory tree, or none if there is none; it ends, and fails exactly when an operation on the directories does or the stream's place holds no directory |
| Storage.StreamStorage.MaximumLogFile | services/transaction-log/src/storage/storage_provider.rs:236-364 | Discovery searches any directory tree whose logs are those of the disk and returns the greatest of them |
| MaximumLogFile.AnyLogsHaveATree | services/transaction-log/src/storage/storage_provider.rs:537-549 | Every set of file numbers is exactly the logs of some directory tree in the stored layout |
| MaximumLogFile.RangeDirectories | services/transaction-log/src/storage/storage_provider.rs:255-297 | Lists exactly the valid child ranges, each once, in descending order, whatever the enumeration order; completes when undisturbed |
| MaximumLogFile.MaximumLogInDirectory | services/transaction-log/src/storage/storage_provider.rs:300-344 | The greatest canonical regular log of one leaf, whatever the enumeration order; completes when undisturbed |
| MaximumLogFile.ChildrenPushed | services/transaction-log/src/storage/storage_provider.rs:357-360 | Replacing the top of the stack by its children keeps the pending ranges disjoint, ascending to the top and covering every log not ruled out, and makes the stack smaller in the order that proves termination |
| MaximumLogFile.LeafVisited | services/transaction-log/src/storage/storage_provider.rs:352-356 | A leaf with a log holds the greatest log of the whole tree; without one it can be forgotten |
| MaximumLogFile.LogsInLeaf | services/transaction-log/src/storage/storage_provider.rs:308-330 | A leaf's entries that pass the name, domain, path and type checks are exactly the stream's logs in its range |
| MaximumLogFile.PathInRange | services/transaction-log/src/storage/storage_provider.rs:537-549 | A log's path passes through exactly the range directories that cover its number, at every depth |
| MaximumLogFile.LogPathIsSpelled | services/transaction-log/src/storage/storage_provider.rs:537-549 | The path character by character: fifteen decimal digits and `.log`, below four directories that repeat the first twelve digits |
| IndexedLogWriter.PairWriter.New | services/transaction-log/src/streams/indexed_log_writer/indexed_log_writer.rs:81-93 | A pair over empty files satisfies the invariant |
| IndexedLogWriter.PairWriter.FromInitialized | services/transaction-log/src/streams/indexed_log_writer/indexed_log_writer.rs:107-126 | A pair resumed from a recovered end satisfies the invariant with all endpoints there |
| IndexedLogWriter.PairWriter.WriteRecord | services/transaction-log/src/streams/indexed_log_writer/indexed_log_writer.rs:149-184 | Accepts exactly the next expected record of an open, not full file, and otherwise changes nothing; the invariant is kept |
| IndexedLogWriter.PairWriter.Flush | services/transaction-log/src/streams/indexed_log_writer/indexed_log_writer.rs:243-265 | Log output completes before index output starts; endpoints move only on success, and the invariant holds wherever the call stops. It fails exactly when the log or the index file reports an error or abandonment, names the right one and poisons the pair; nothing follows such a report |
| IndexedLogWriter.PairWriter.SyncData | services/transaction-log/src/streams/indexed_log_writer/indexed_log_writer.rs:284-298 | Log before index; on success both files are durable through the buffered end, otherwise the synchronized end stays; the file that failed is the one named |
| IndexedLogWriter.PairWriter.Finalize | services/transaction-log/src/streams/indexed_log_writer/indexed_log_writer.rs:195-210 | Succeeds if and only if the pair is open and all 100,000 records are synchronized in both files |
| IndexedLogWriter.IndexNeverAheadOfLog | services/transaction-log/src/streams/indexed_log_writer/indexed_log_writer.rs:243-265 | In every state a run can be cut short in, each complete index entry is the end of its record, and the log holds everything through it, flushed |
| IndexedLogWriter.NothingBufferedExactly | services/transaction-log/src/streams/indexed_log_writer/indexed_log_writer.rs:243-265 | In an open pair the buffered and flushed ends agree exactly when both buffers are empty |
| IndexedLogWriter.CountersDescribeRecords | services/transaction-log/src/streams/indexed_log_writer/indexed_log_writer.rs:38-72 | Counter, expected ID and buffered end describe the same records; the position lies between 16 and 65,535 bytes per record |
| IndexedLogWriter.StartOfNext | services/transaction-log/src/streams/indexed_log_writer/indexed_log_writer.rs:149-184 | The computed start is the end of everything before it, and advancing by the record cannot overflow |
| IndexWriter.EntryWriter.FlushBuffer | services/transaction-log/src/streams/index_writer/index_writer.rs:122-142 | Short and interrupted writes, errors and cancellation: accepted bytes followed by the buffer are all entries ever written while the writer is usable; the first error, zero write or abandonment ends the output, is reported and makes the writer unusable for good |
| IndexWriter.EntryWriter.SyncData | services/transaction-log/src/streams/index_writer/index_writer.rs:166-172 | Success makes everything flushed before durable; failure poisons |
| IndexWriter.EntryOfPrefix | services/transaction-log/src/streams/index_writer/index_writer.rs:77-82 | Every complete entry in any prefix of an index reads back as the end that was written |
| IndexWriter.EntryBytes | services/transaction-log/src/streams/index_writer/index_writer.rs:77-82 | The eight bytes of an entry, least significant first |
| DenseIndex.EndsLast | services/transaction-log/src/streams/indexed_log_writer/indexed_log_writer.rs:149-184 | Appending a record appends its exclusive end to the dense index |
| RecordBuilder.Builder.Write | services/transaction-log-exports/src/record_writer/record_builder.rs:183-213 | A chunk is accepted whole or not at all; the first rejection is sticky |
| RecordBuilder.Builder.Finish | services/transaction-log-exports/src/record_writer/record_builder.rs:134-158 | Publishes one valid frame of exactly the accepted chunks, or nothing after any rejection |
| RecordBuilder.Builder.Drop | services/transaction-log-exports/src/record_writer/record_builder.rs:161-169 | Dropping an unfinished builder leaves the readable buffer as it was |
| RecordWriter.Writer.Write | services/transaction-log-exports/src/record_writer/record_writer.rs:149-167 | For every sequence of body chunks, ignored rejections, callback failures and panics: the buffer is the old one, or the old one plus one frame of all chunks |
| RecordWriter.Writer.FlushBuffer | services/transaction-log-exports/src/record_writer/record_writer.rs:219-246 | Accepted bytes are always a prefix of all appended records, and together with the buffer exactly these while the writer is usable; the first error, zero write or abandonment ends the output, is reported and makes the writer unusable for good |
| RecordWriter.Writer.SyncData | services/transaction-log-exports/src/record_writer/record_writer.rs:280-291 | Success makes everything flushed before durable; failure poisons |
| RecordReader.ReadAll | services/transaction-log-exports/src/record_reader/record_reader.rs:81-247 | For every stream and every schedule of chunk sizes, interruptions and repeated cancelled waits, the delivered records and the ending are those of the one-shot parse; it ends otherwise exactly when the source reports an error, with a prefix of the records and without another read |
| RecordReader.Reader.TryReadNext | services/transaction-log-exports/src/record_reader/record_reader.rs:81-111 | Delivers the next record of the one-shot parse of everything not yet delivered |
| RecordReader.Reader.PrepareBatch | services/transaction-log-exports/src/record_reader/record_reader.rs:113-166 | Publishes the longest validated prefix of the buffer, remembers a validated length, or reports the first bad frame with nothing delivered behind it |
| RecordReader.Reader.WaitToRead | services/transaction-log-exports/src/record_reader/record_reader.rs:191-247 | Ready, end and error results are those of the parse of the remaining bytes; a cancelled wait loses nothing; the first read error or abandonment is the result and no read follows it |
| RecordReader.Reader.Refill | services/transaction-log-exports/src/record_reader/record_reader.rs:205-246 | One read with room for it, so zero bytes mean the end of the input; only an interruption is retried, an error or abandonment is reported |
| RecordProtocol.RecordIsEncoded | services/transaction-log-exports/src/record/record_protocol.rs:159-213 | Every valid frame is the encoding of its own ID and body |
| RecordProtocol.ParseRecords | services/transaction-log-exports/src/record_reader/record_reader.rs:113-166 | Records in front of any bytes parse to themselves, followed by the rest's parse |
| RecordProtocol.ParseIsSound | services/transaction-log-exports/src/record_reader/record_reader.rs:113-166 | What is parsed is a prefix of the stream, and the end is clean exactly when nothing is left over |
| RecordProtocol.ParsePrefix | services/transaction-log-exports/src/record_reader/record_reader.rs:113-166 | A cut-off stream of records parses to exactly those that are complete, and reports a truncation |
| RecordProtocol.BurstIsDetected | services/transaction-log-exports/src/record/record_protocol.rs:102-104 | No frame that differs from a valid one only within four consecutive bytes is valid, its trailer included |
| RecordProtocol.DamagedStream | services/transaction-log-exports/src/record_reader/record_reader.rs:141-148 | With one frame damaged within four consecutive bytes behind an intact length, everything before it is delivered, nothing behind it, and the error is the stream ID's or the checksum's |
| RecordTransfer.Transfer | services/transaction-log-exports/src/record_writer/record_writer.rs:149-246 | Writer and reader undo each other: any list of IDs and bodies, in any pieces, batches, short writes and short reads, arrives unchanged and in order, followed by a clean end |
| Crc32c.ReferenceCrc | services/transaction-log-exports/src/record/record_protocol.rs:246-259 | The bitwise loop computes the checksum function, which is the remainder below |
| Crc32c.BurstChangesChecksum | services/transaction-log-exports/src/record/record_protocol.rs:246-259 | Contents of any equal length that differ only within four consecutive bytes have different checksums |
| Crc32c.TrailerLeavesResidue | services/transaction-log-exports/src/record/record_protocol.rs:195-213 | A trailer is the content's checksum exactly when content and trailer together leave the fixed residue |
| PolynomialDivision.ChecksumIsRemainder | services/transaction-log-exports/src/record/record_protocol.rs:246-259 | The checksum is the complement of the one remainder of the content (first 32 bits complemented, 32 zeros behind) modulo x^32 + 0x1edc6f41 over GF(2): content = q * generator + remainder has a solution for it and for no other word |
| PolynomialDivision.RemainderIsUnique | services/transaction-log-exports/src/record/record_protocol.rs:246-259 | Whatever the quotient, the remainder of a polynomial modulo the generator is the one long division finds |
| PolynomialDivision.FeedIsRemainder | services/transaction-log-exports/src/record/record_protocol.rs:246-259 | Feeding any bits to any register is long division of the bits, xored with the register |
| PolynomialDivision.BitOfContent | services/transaction-log-exports/src/record/record_protocol.rs:246-259 | The order of the bits: byte by byte, least significant first |
| FrameLayout.FramesAreValid | services/transaction-log-exports/src/record/record_protocol.rs:16-104 | A byte string is a valid frame if and only if its first two bytes are its length, the next two are below 4,096, and its trailer is the polynomial remainder of what is in front of it |
| FrameLayout.EncodedBytes | services/transaction-log-exports/src/record/record_protocol.rs:159-213 | Every byte of an encoded frame: length, stream ID and sequence number least significant byte first, body, trailer |
| FrameLayout.ParseEndsExactly | services/transaction-log-exports/src/record_reader/record_reader.rs:113-166 | The parse stops at the first place where no frame starts, and names the first field that is wrong or missing there, with its values |
| Locations.RangesPartitionSequences | services/transaction-log/src/streams/location/log_file_id.rs:55-60 | A sequence number lies in the range of one file, its own |
| Locations.RangesAreAdjacent | services/transaction-log/src/streams/location/log_file_id.rs:126-159 | Consecutive file ranges leave no gap; only the last one is short, with 51,616 positions |
| Locations.CountAndIndexAreInverse | services/transaction-log/src/streams/location/log_file_id.rs:81-119 | Position count and position lookup are inverse exactly on the representable positions, with both error cases |
| Locations.IterTo | services/transaction-log/src/streams/location/log_file_id.rs:171-188 | Lists every file of the range once in ascending order, or names the mismatch: both conditions are exact |
| Locations.FoldPlacesRecords | services/transaction-log/src/streams/location/record_start_location.rs:90-92 | Folding the next-start step over any records across any files puts each into its assigned file at the sum of the lengths since that file began |
| Locations.ToNextPosition | services/transaction-log/src/streams/location/record_end_location.rs:66-74 | The next start is at zero exactly when the file rotates |
| RecordRanges.NewRange | services/transaction-log/src/streams/location/record_range_location.rs:77-114 | The exact condition of each result: different streams, reversed sequence numbers, or an end that is not behind where the range begins in the last record's file; otherwise the endpoints are kept |
| RecordRanges.PartsOfLocated | services/transaction-log/src/streams/location/record_range_location.rs:128-158 | The parts of every accepted range: one bounded part of positive length, or a postfix from its start, whole files, and a nonempty prefix to its end |
| RecordRanges.ResolvedRangesAreAccepted | services/transaction-log/src/streams/location/record_range_location.rs:77-114 | Endpoints taken from actual records are always accepted |
| RecordRanges.Iter | services/transaction-log/src/streams/location/record_range_location.rs:128-158 | One item for each file of the range, ascending, never requesting a successor of the last one |
| RecordRanges.IterationReadsTheRange | services/transaction-log/src/streams/location/record_range_location.rs:128-158 | Slicing each yielded file by its range and concatenating gives exactly the encodings of the requested records |
| ObjectPool.Pool.TryTake | lib/object-pool/src/object_pool.rs:43-47 | Takes the newest object; every object put in stays exactly once available, taken or discarded |
| ObjectPool.Pool.TakeOrElse | lib/object-pool/src/object_pool.rs:55-57 | Hands out a new object exactly when the pool is empty |
| ObjectPool.Pool.Put | lib/object-pool/src/object_pool.rs:66-68 | Adds the object without changing the window's minimum |
| ObjectPool.Pool.ReclaimUnused | lib/object-pool/src/object_pool.rs:101-110 | Discards exactly the least available count seen in the window, newest first, keeping the oldest prefix, and opens a new window |
| ObjectPool.Perform | lib/object-pool/src/object_pool.rs:43-110 | The pool carries out any run of operations as the run function says, reclaim by reclaim |
| ObjectPool.IdleWindowReclaimsItsStart | lib/object-pool/src/object_pool.rs:101-110 | A window without checkouts makes everything that was available at its start surplus |

## Left out

- IndexedLogWriter.PairWriter.WriteRecord: a record that would be accepted must not carry sequence number u64::MAX, whose successor panics in the source; FromInitialized and ResumeStream do not resume behind that number either.
- StreamInitializer.Initialize: files opened by recovery are copies of the disk's contents that are written back, so aliasing between two open handles of one file is not modelled.
- MaximumLogFile.MaximumLogFile: names that are not valid text are left out, because the program skips them; a failing enumeration has no path and cause.
- Storage.StreamStorage.ReadCheckpoint: returns the published document as a value; its text form, size limit and field checks are not modelled.
- RestartableRecovery.RecoveryIsRestartable: says nothing about indexes above the active file, because an interrupted attempt may leave orphans there.
- Loss of directory entries that were not synchronized: completed disk effects persist in order, and a rename is atomic.
- Locations: `retreat`, conversions, display and error text.
- Tokio scheduling, wakers and futures: an asynchronous call is a sequence of steps with scripted outcomes.
- Pointers, alignment, capacity reuse and zero-copy sharing: buffers are modelled by contents and room.
- The writer's compile-time modes: one class has both appending operations; `into_inner` and `get_ref` are not modelled.
- `lib/message-io`, clustering, configuration, command line, benchmarks, and `clear_all`.
- Errors keep what distinguishes them for callers; paths and nested causes are dropped.
