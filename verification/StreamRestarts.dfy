/**
 A stream's life across restarts: initialization interrupted anywhere, appending resumed behind the recovered
 records, the next file, the next crash. Every disk met on the way is one that initialization recovers.
 */
module StreamRestarts {
  import opened Bytes
  import opened RecordProtocol
  import opened ByteDevice
  import opened Locations
  import opened IndexWriter
  import opened DenseIndex
  import opened LogFileValidator
  import opened IndexFileValidator
  import opened Storage
  import opened IndexedLogValidator
  import opened StreamInitializer
  import opened RestartableRecovery
  import opened RecoveredPrefix
  import opened CrashRecovery
  import opened StreamDurability
  import IndexedLogWriter

  // ---------- Interrupted initializations ----------

  /** A pair whose recovery was interrupted still holds what it has to. */
  lemma PairInProgressSurvives(file: LogFileId, own: seq<Record>, j: nat, synced: nat, m: nat,
                               log0: seq<byte>, index0: seq<byte>, log1: seq<byte>, index1: seq<byte>)
    requires FileSurvives(own, j, synced, log0, index0) && FirstRecordId(file).sequence + |own| <= U64_MAX + 1
    requires synced <= m <= |own|
    requires RecoverPair(file, EndAfter(file, own, j), log0, index0) == Prefix(file, own, m)
    requires PairInProgress(file, EndAfter(file, own, j), log0, index0, log1, index1)
    ensures FileSurvives(own, j, synced, log1, index1)
  {
    hide Concat, Ends, EncodeIndex, EndAfter, RecoverLog, KeptLog, ValidFrame, RepairIndex;
    var trusted := EndAfter(file, own, j);
    CountOfEndAfter(file, own, j);
    KeptOfPrefix(file, trusted, log0, index0, own, m);
    ConcatMonotone(own, synced, m);
    TrustedEntriesStay(own, j, index0, index1);
  }

  lemma KeptOfPrefix(file: LogFileId, trusted: Option<RecordEnd>, log: seq<byte>, index: seq<byte>, own: seq<Record>, m: nat)
    requires m <= |own| && m <= RECORDS_PER_FILE && FirstRecordId(file).sequence + m <= U64_MAX + 1
    requires RecoverPair(file, trusted, log, index) == Prefix(file, own, m)
    ensures KeptLog(file, trusted, log) == Concat(own[..m])
  {
    hide Concat, Ends, EncodeIndex, EndAfter, RecoverLog, KeptLog, ValidFrame, RepairIndex;
  }

  lemma TrustedEntriesStay(own: seq<Record>, j: nat, index0: seq<byte>, index1: seq<byte>)
    requires j <= |own| <= RECORDS_PER_FILE && SurvivingIndex(EncodeIndex(Ends(own)), INDEX_ENTRY_LEN * j, index0)
    ensures INDEX_ENTRY_LEN * j <= |index0|
    ensures index0[..INDEX_ENTRY_LEN * j] <= index1 ==> SurvivingIndex(EncodeIndex(Ends(own)), INDEX_ENTRY_LEN * j, index1)
  {
    hide Ends, EncodeIndex, ValidFrame;
    assert index0[..INDEX_ENTRY_LEN * j] == EncodeIndex(Ends(own))[..INDEX_ENTRY_LEN * j];
  }

  /** Stopped while repairing pairs. */
  lemma RepairingSurvives(stream: StreamId, records: seq<Record>, top: int, synced: nat, trusted: nat, before: Disk, after: Disk)
    requires Survives(stream, records, top, synced, trusted, before) && Repairing(stream, before, after)
    ensures Survives(stream, records, top, synced, trusted, after)
  {
    hide SurvivesAt, Appended, StreamEnd, Repairing, IndexOf, StartNumber;
    forall n: LogFileNumber
      ensures SurvivesAt(records, top, synced, trusted, after, n)
    {
      RepairingSurvivesAt(stream, records, top, synced, trusted, before, after, n);
    }
    RepairingKeepsPairs(stream, before, after);
  }

  lemma RepairingSurvivesAt(stream: StreamId, records: seq<Record>, top: int, synced: nat, trusted: nat, before: Disk, after: Disk,
                            n: LogFileNumber)
    requires Survives(stream, records, top, synced, trusted, before) && Repairing(stream, before, after)
    ensures SurvivesAt(records, top, synced, trusted, after, n)
  {
    hide InFile, FileSurvives, Appended, StreamEnd, PairInProgress, PairAt, StartNumber, IndexOf;
    assert SurvivesAt(records, top, synced, trusted, before, n);
    if n > top || n < StartNumber(before) {
      assert SameIndex(before, after, n);
      if n <= top {
        assert PairRepairing(stream, before, after, n);
      }
    } else {
      assert PairRepairing(stream, before, after, n);
      var m := FileInStreamRecovers(stream, records, top, synced, trusted, before, n);
      InProgressSurvivesAt(stream, records, top, synced, trusted, before, after, n, m);
    }
  }

  lemma InProgressSurvivesAt(stream: StreamId, records: seq<Record>, top: int, synced: nat, trusted: nat, before: Disk, after: Disk,
                             n: LogFileNumber, m: nat)
    requires Survives(stream, records, top, synced, trusted, before) && StartNumber(before) <= n <= top
    requires n in before.logs && n in after.logs
    requires Within(synced, n) <= m <= |InFile(records, n)| && FirstRecordId(LogFileId(stream, n)).sequence + m <= U64_MAX + 1
    requires PairAt(stream, before, n) == Prefix(LogFileId(stream, n), InFile(records, n), m)
    requires PairInProgress(LogFileId(stream, n), TrustedIn(before.checkpoint, n),
                            before.logs[n], IndexOf(before, n), after.logs[n], IndexOf(after, n))
    ensures SurvivesAt(records, top, synced, trusted, after, n)
  {
    hide InFile, FileSurvives, Appended, StreamEnd, PairInProgress, RecoverPair;
    hide StartNumber, IndexOf, EndAfter, InSequence, TrustedIn, Prefix;
    var file, own := LogFileId(stream, n), InFile(records, n);
    assert SurvivesAt(records, top, synced, trusted, before, n);
    TrustedCount(stream, records, top, synced, trusted, before, n);
    InFileIsInSequence(stream, records, n);
    SequenceFits(file, own);
    PairInProgressSurvives(file, own, Within(trusted, n), Within(synced, n), m,
                           before.logs[n], IndexOf(before, n), after.logs[n], IndexOf(after, n));
  }

  /** A file recovered exactly up to its `k`-th record. */
  lemma PrefixSurvives(own: seq<Record>, k: nat, trusted: nat, log: seq<byte>, index: seq<byte>)
    requires trusted <= k <= |own| <= RECORDS_PER_FILE
    requires log == Concat(own[..k]) && index == EncodeIndex(Ends(own[..k]))
    ensures FileSurvives(own, trusted, k, log, index)
  {
    hide Concat, Ends, EncodeIndex, ValidFrame;
    ConcatMonotone(own, k, k);
    EndsPrefix(own, k);
    EncodeIndexPrefix(Ends(own), k);
    var encoded := EncodeIndex(Ends(own));
    assert index == encoded[..INDEX_ENTRY_LEN * k];
    assert encoded[..INDEX_ENTRY_LEN * trusted] == index[..INDEX_ENTRY_LEN * trusted];
  }

  lemma SurvivingTop(stream: StreamId, records: seq<Record>, top: int, synced: nat, trusted: nat, disk: Disk)
    requires Survives(stream, records, top, synced, trusted, disk)
    ensures -1 <= top <= MAX_FILE_NUMBER && trusted <= synced <= |records| <= U64_MAX + 1
    ensures top * RECORDS_PER_FILE <= synced && |records| <= (top + 1) * RECORDS_PER_FILE
    ensures Appended(stream, records) && disk.checkpoint == StreamEnd(stream, records, trusted)
  {
    hide SurvivesAt, StreamEnd;
  }

  lemma KeepsFacts(stream: StreamId, records: seq<Record>, top: int, disk: Disk, m: nat)
    requires Keeps(stream, records, top, disk, m)
    ensures m <= |records| <= U64_MAX + 1 && Discovered(stream, disk) && WalkAll(stream, disk).Walked?
    ensures var walk := WalkAll(stream, disk);
            && walk.visited == top && walk.recovered == StreamEnd(stream, records, m)
            && (walk.active == None <==> m == (top + 1) * RECORDS_PER_FILE)
  {
    hide WalkAll, Discovered, KeepsLast, StreamEnd;
  }

  /** One file of the cleaned disk, with the new checkpoint or still with the old one. */
  lemma CleanedSurvivesAt(stream: StreamId, records: seq<Record>, top: int, synced: nat, trusted: nat, before: Disk, m: nat,
                          top1: int, trusted1: nat, after: Disk, n: LogFileNumber)
    requires Survives(stream, records, top, synced, trusted, before) && synced <= m && Keeps(stream, records, top, before, m)
    requires Discovered(stream, before) && WalkAll(stream, before).Walked?
    requires n <= top <= top1 && trusted <= trusted1 <= m
    requires SameLog(Cleaned(stream, before), after, n) && IndexOf(after, n) == IndexOf(Cleaned(stream, before), n)
    ensures SurvivesAt(records, top1, m, trusted1, after, n)
  {
    hide Discovered, WalkAll, WalkOf, Cleaned, StreamEnd, IndexOf, InFile, PairAt;
    hide IndexedAfter, FileSurvives, StartNumber, Appended, EndAfter, Concat, Ends, EncodeIndex;
    KeepsFacts(stream, records, top, before, m);
    SurvivingStart(stream, records, top, synced, trusted, before);
    CleanedLog(stream, before, n);
    CleanedIndex(stream, before, n);
    InFileLength(records, m, n);
    assert SurvivesAt(records, top, synced, trusted, before, n);
    if n >= StartNumber(before) {
      KeptExactly(stream, records, top, synced, trusted, before, m, n);
      PrefixSurvives(InFile(records, n), Within(m, n), Within(trusted1, n), after.logs[n], IndexOf(after, n));
    }
  }

  lemma InFileLength(records: seq<Record>, m: nat, n: LogFileNumber)
    requires m <= |records|
    ensures Within(m, n) <= |InFile(records, n)| <= RECORDS_PER_FILE
  {
  }

  lemma SameFiles(a: Disk, b: Disk, n: LogFileNumber)
    requires (n in a.logs <==> n in b.logs) && (n in a.logs ==> a.logs[n] == b.logs[n])
    requires (n in a.indexes <==> n in b.indexes) && (n in a.indexes ==> a.indexes[n] == b.indexes[n])
    ensures SameLog(a, b, n) && IndexOf(a, n) == IndexOf(b, n)
  {
  }

  lemma NothingCleanedAbove(stream: StreamId, records: seq<Record>, top: int, before: Disk, m: nat, n: LogFileNumber)
    requires Keeps(stream, records, top, before, m) && n > top
    requires Discovered(stream, before) && WalkAll(stream, before).Walked?
    ensures n !in Cleaned(stream, before).logs
  {
    hide Discovered, WalkAll, WalkOf, Cleaned;
    KeepsFacts(stream, records, top, before, m);
    CleanedLog(stream, before, n);
  }

  /** The checkpoint after publication, whether or not it had to be written. */
  lemma PublishedEnd(stream: StreamId, records: seq<Record>, top: int, synced: nat, trusted: nat, before: Disk, m: nat)
    requires Survives(stream, records, top, synced, trusted, before) && synced <= m && Keeps(stream, records, top, before, m)
    requires Discovered(stream, before) && WalkAll(stream, before).Walked?
    ensures |records| <= U64_MAX + 1 && Published(stream, before).checkpoint == StreamEnd(stream, records, m)
    ensures Published(stream, before).logs == Cleaned(stream, before).logs
    ensures Published(stream, before).indexes == Cleaned(stream, before).indexes
  {
    hide Discovered, WalkAll, WalkOf, Cleaned, SurvivesAt, StreamEnd, Appended, Keeps;
    KeepsFacts(stream, records, top, before, m);
    CleanedKeepsCheckpoint(stream, before);
  }

  /** Stopped around the publication of the new checkpoint. */
  lemma PublishingSurvives(stream: StreamId, records: seq<Record>, top: int, synced: nat, trusted: nat, before: Disk, m: nat, after: Disk)
    returns (trusted1: nat)
    requires Survives(stream, records, top, synced, trusted, before) && synced <= m && Keeps(stream, records, top, before, m)
    requires Discovered(stream, before) && WalkAll(stream, before).Walked? && Publishing(stream, before, after)
    ensures trusted <= trusted1 && Survives(stream, records, top, m, trusted1, after)
  {
    hide Discovered, WalkAll, WalkOf, Cleaned, Published, SurvivesAt, StreamEnd, IndexOf, Appended, KeepsLast;
    SurvivingTop(stream, records, top, synced, trusted, before);
    PublishedEnd(stream, records, top, synced, trusted, before, m);
    trusted1 := if after.checkpoint == before.checkpoint then trusted else m;
    forall n: LogFileNumber
      ensures SurvivesAt(records, top, m, trusted1, after, n)
    {
      if n <= top {
        SameFiles(Cleaned(stream, before), after, n);
        CleanedSurvivesAt(stream, records, top, synced, trusted, before, m, top, trusted1, after, n);
      } else {
        NothingCleanedAbove(stream, records, top, before, m, n);
        AboveSurvives(records, top, m, trusted1, after, n);
      }
    }
  }

  /** Stopped while creating the next pair, or because of an orphan index in its place. */
  lemma CreatingSurvives(stream: StreamId, records: seq<Record>, top: int, synced: nat, trusted: nat, before: Disk, m: nat, after: Disk)
    requires Survives(stream, records, top, synced, trusted, before) && synced <= m && Keeps(stream, records, top, before, m)
    requires Discovered(stream, before) && WalkAll(stream, before).Walked? && Creating(stream, before, after)
    ensures Survives(stream, records, top + 1, m, m, after)
  {
    hide Discovered, WalkAll, WalkOf, Cleaned, Published, SurvivesAt, StreamEnd, IndexOf, Appended, KeepsLast;
    SurvivingTop(stream, records, top, synced, trusted, before);
    KeepsFacts(stream, records, top, before, m);
    PublishedEnd(stream, records, top, synced, trusted, before, m);
    SuccessorNumber(stream, before);
    var next := top + 1;
    forall n: LogFileNumber
      ensures SurvivesAt(records, next, m, m, after, n)
    {
      if n <= top {
        SameFiles(Cleaned(stream, before), after, n);
        CleanedSurvivesAt(stream, records, top, synced, trusted, before, m, next, m, after, n);
      } else {
        NothingCleanedAbove(stream, records, top, before, m, n);
        if n == next {
          EmptyFileSurvives(records, n, m, m, after);
        } else {
          AboveSurvives(records, next, m, m, after, n);
        }
      }
    }
  }

  lemma EmptyFileSurvives(records: seq<Record>, n: LogFileNumber, synced: nat, trusted: nat, disk: Disk)
    requires |records| <= n * RECORDS_PER_FILE && trusted <= synced <= |records|
    requires n in disk.logs && disk.logs[n] == []
    ensures SurvivesAt(records, n, synced, trusted, disk, n)
  {
    hide IndexOf;
  }

  lemma NothingToRemove(stream: StreamId, records: seq<Record>, top: int, synced: nat, trusted: nat, before: Disk, m: nat, after: Disk)
    requires Survives(stream, records, top, synced, trusted, before) && Keeps(stream, records, top, before, m)
    requires Discovered(stream, before) && WalkAll(stream, before).Walked?
    ensures !Removing(stream, before, after)
  {
    hide Survives, Keeps, Discovered, WalkAll, Bound;
    KeepsFacts(stream, records, top, before, m);
    SurvivingMaximum(stream, records, top, synced, trusted, before);
  }

  /** Wherever an initialization is interrupted, the disk it leaves survives, and the same records are recovered from it. */
  lemma CrashedRecoverySurvives(stream: StreamId, records: seq<Record>, top: int, synced: nat, trusted: nat, before: Disk, m: nat, after: Disk)
    returns (top1: int, synced1: nat, trusted1: nat)
    requires Survives(stream, records, top, synced, trusted, before) && CrashState(stream, before, after)
    requires synced <= m && Keeps(stream, records, top, before, m)
    ensures top <= top1 && synced <= synced1 <= m && trusted <= trusted1
    ensures Survives(stream, records, top1, synced1, trusted1, after) && Keeps(stream, records, top1, after, m)
  {
    hide Survives, Keeps, Discovered, WalkAll, Repairing, Publishing, Creating, Removing;
    SurvivingTop(stream, records, top, synced, trusted, before);
    KeepsFacts(stream, records, top, before, m);
    top1, synced1, trusted1 := top, synced, trusted;
    if Repairing(stream, before, after) {
      RepairingSurvives(stream, records, top, synced, trusted, before, after);
      RepairingWalk(stream, before, after);
    } else {
      NothingToRemove(stream, records, top, synced, trusted, before, m, after);
      synced1 := m;
      if Publishing(stream, before, after) {
        trusted1 := PublishingSurvives(stream, records, top, synced, trusted, before, m, after);
      } else {
        CreatingSurvives(stream, records, top, synced, trusted, before, m, after);
        top1, trusted1 := top + 1, m;
      }
    }
    var k := SurvivingPrefix(stream, records, top1, synced1, trusted1, after);
    KeepsFacts(stream, records, top1, after, k);
    if !Repairing(stream, before, after) {
      RecoversNoMore(stream, records, top, synced, trusted, before, m, top1, after, k);
    }
    SameEndSameCount(stream, records, m, k);
  }

  lemma SameEndSameCount(stream: StreamId, records: seq<Record>, m: nat, k: nat)
    requires m <= |records| <= U64_MAX + 1 && k <= |records| && StreamEnd(stream, records, m) == StreamEnd(stream, records, k)
    ensures m == k
  {
    hide EndAfter, InFile;
  }

  lemma SameRecoveredEnd(a: InitResult, b: InitResult)
    requires SameRecovery(a, b)
    ensures a.InitOk? && b.InitOk? && a.recovered == b.recovered
  {
  }

  /** An interrupted initialization keeps no record that the finished one would not have kept. */
  lemma RecoversNoMore(stream: StreamId, records: seq<Record>, top: int, synced: nat, trusted: nat, before: Disk, m: nat,
                       top1: int, after: Disk, k: nat)
    requires Survives(stream, records, top, synced, trusted, before) && CrashState(stream, before, after)
    requires Keeps(stream, records, top, before, m) && Keeps(stream, records, top1, after, k) && m <= k <= |records| <= U64_MAX + 1
    ensures StreamEnd(stream, records, m) == StreamEnd(stream, records, k)
  {
    hide Survives, Keeps, Init, CrashState, StreamEnd, ContinuesBehind, Obstructed;
    if Obstructed(before, top, m) {
      ObstructedIsFull(stream, records, top, synced, trusted, before, m, k);
    } else {
      SurvivingInit(stream, records, top, synced, trusted, before, m);
      SameKeptEnd(stream, records, top, before, m, top1, after, k);
    }
  }

  /** Behind an orphan index there is nothing more to keep. */
  lemma ObstructedIsFull(stream: StreamId, records: seq<Record>, top: int, synced: nat, trusted: nat, before: Disk, m: nat, k: nat)
    requires Survives(stream, records, top, synced, trusted, before) && Obstructed(before, top, m) && m <= k <= |records|
    ensures m == k
  {
    hide Survives;
    SurvivingTop(stream, records, top, synced, trusted, before);
  }

  lemma SameKeptEnd(stream: StreamId, records: seq<Record>, top: int, before: Disk, m: nat, top1: int, after: Disk, k: nat)
    requires Init(stream, before).InitOk? && CrashState(stream, before, after)
    requires Keeps(stream, records, top, before, m) && Keeps(stream, records, top1, after, k)
    ensures |records| <= U64_MAX + 1 && m <= |records| && k <= |records|
    ensures StreamEnd(stream, records, m) == StreamEnd(stream, records, k)
  {
    hide Keeps, Init, CrashState, Discovered, WalkAll, StreamEnd, SameRecovery, PrecedingComplete;
    KeepsFacts(stream, records, top, before, m);
    KeepsFacts(stream, records, top1, after, k);
    RecoveryIsRestartable(stream, before, after);
    SameRecoveredEnd(Init(stream, before), Init(stream, after));
    RecoveredByWalk(stream, before);
    RecoveredByWalk(stream, after);
  }

  /**
   Initialization interrupted any number of times, wherever it is: the disk left in the end still survives, and the
   records the first attempt would have recovered are recovered from it, with exact files; the disk that leaves is one of
   exactly these records. What the first attempt would have made of the disk is what the last one makes of it.
   */
  lemma {:induction false} StreamSurvivesInterruptedRecovery(stream: StreamId, records: seq<Record>, top: int, synced: nat, trusted: nat,
                                                             disks: seq<Disk>)
    returns (m: nat, top1: int, synced1: nat, trusted1: nat)
    requires disks != [] && Survives(stream, records, top, synced, trusted, disks[0])
    requires forall i :: 0 <= i < |disks| - 1 ==> CrashState(stream, disks[i], disks[i + 1])
    ensures synced <= synced1 <= m <= |records| <= U64_MAX + 1
    ensures Keeps(stream, records, top, disks[0], m) && Keeps(stream, records, top1, disks[|disks| - 1], m)
    ensures Survives(stream, records, top1, synced1, trusted1, disks[|disks| - 1])
    ensures RecoversUnlessObstructed(stream, records, top, disks[0], m)
    ensures RecoversUnlessObstructed(stream, records, top1, disks[|disks| - 1], m)
    ensures !Obstructed(disks[0], top, m) ==> SameRecovery(Init(stream, disks[0]), Init(stream, disks[|disks| - 1]))
    decreases |disks|
  {
    hide Survives, Keeps, Recovers, Init, CrashState, SameRecovery, Obstructed;
    var last := |disks| - 1;
    if last == 0 {
      m := StreamSurvivesCrash(stream, records, top, synced, trusted, disks[0]);
      top1, synced1, trusted1 := top, synced, trusted;
    } else {
      var shorter := disks[..last];
      m, top1, synced1, trusted1 := StreamSurvivesInterruptedRecovery(stream, records, top, synced, trusted, shorter);
      top1, synced1, trusted1 :=
        CrashedRecoverySurvives(stream, records, top1, synced1, trusted1, disks[last - 1], m, disks[last]);
      KeptPrefixRecovers(stream, records, top1, synced1, trusted1, disks[last], m);
    }
    if !Obstructed(disks[0], top, m) {
      RecoversIsOk(stream, records, disks[0], m);
      RecoveryIsRestartableOften(stream, disks);
    }
  }

  lemma KeptPrefixRecovers(stream: StreamId, records: seq<Record>, top: int, synced: nat, trusted: nat, disk: Disk, m: nat)
    requires Survives(stream, records, top, synced, trusted, disk) && Keeps(stream, records, top, disk, m)
    requires synced <= m <= |records| <= U64_MAX + 1
    ensures RecoversUnlessObstructed(stream, records, top, disk, m)
  {
    hide Survives, Keeps, Recovers, Init, ContinuesBehind;
    SurvivingInit(stream, records, top, synced, trusted, disk, m);
    if !Obstructed(disk, top, m) {
      StreamRecovers(stream, records, top, synced, trusted, disk, m);
    }
  }

  lemma RecoversIsOk(stream: StreamId, records: seq<Record>, disk: Disk, m: nat)
    requires m <= |records| <= U64_MAX + 1 && Recovers(stream, records, disk, m)
    ensures Init(stream, disk).InitOk?
  {
    hide Survives, Init;
  }

  // ---------- Resuming ----------

  /** The disk's active pair, as a writer for the records behind the stream's `m`-th takes it over. */
  ghost predicate Resumable(stream: StreamId, records: seq<Record>, m: nat, active: Active, disk: Disk)
    requires m <= |records|
  {
    var file, own := LogFileId(stream, active.number), InFile(records[..m], active.number);
    && |own| < RECORDS_PER_FILE && InSequence(file, own)
    && active.number == m / RECORDS_PER_FILE
    && FirstRecordId(file).sequence + |own| == m <= U64_MAX
    && active.end == EndAfter(file, own, |own|)
    && active.number in disk.logs && disk.logs[active.number] == Concat(own)
    && active.number in disk.indexes && disk.indexes[active.number] == EncodeIndex(Ends(own))
  }

  /** The recovered active pair is what a writer resumes from, unless the last sequence number is used up. */
  lemma RecoveredPairResumes(stream: StreamId, records: seq<Record>, disk: Disk, m: nat)
    requires m <= |records| <= U64_MAX && Appended(stream, records) && Recovers(stream, records, disk, m)
    ensures Resumable(stream, records, m, Init(stream, disk).active, Init(stream, disk).disk)
  {
    hide InFile, EndAfter, PairAt, StreamEnd, SurvivesAt, Init;
    hide FileSurvives, StartNumber, Concat, Ends, EncodeIndex, ValidFrame, IdOf;
    var r := Init(stream, disk);
    var n := r.active.number;
    RecoveryLeavesCompleteFilesAndActiveOne(stream, disk, n);
    InFileIsInSequence(stream, records[..m], n);
    if m % RECORDS_PER_FILE > 0 {
      StreamEndOfPrefix(stream, records, m);
      EndInFile(stream, records[..m], n, m);
      CountInFile(LogFileId(stream, n), m % RECORDS_PER_FILE);
    }
    assert ExactAt(records[..m], r.disk, n);
  }

  /** The disk holds exactly the first `m` records, all of them synchronized and trusted. */
  ghost predicate StreamKept(stream: StreamId, records: seq<Record>, m: nat, disk: Disk)
    requires m <= |records| <= U64_MAX
  {
    && disk.checkpoint == StreamEnd(stream, records, m)
    && Survives(stream, records[..m], m / RECORDS_PER_FILE, m, m, disk)
  }

  /** A writer that has appended to file `n` of the stream. */
  ghost predicate ExtendsFile(stream: StreamId, records: seq<Record>, n: LogFileNumber, w: IndexedLogWriter.PairWriter)
    reads w, w.log, w.log.destination, w.log.buffer, w.index, w.index.file
  {
    w.Valid() && w.fileId == LogFileId(stream, n) && w.recovered == InFile(records, n)
  }

  /** An open writer for the file of record `m`, with everything in front of that record synchronized. */
  ghost predicate WritesBehind(stream: StreamId, records: seq<Record>, m: nat, w: IndexedLogWriter.PairWriter)
    requires m <= |records| <= U64_MAX
    reads w, w.log, w.log.destination, w.log.buffer, w.index, w.index.file
  {
    var next := RecordId(stream, m);
    && ExtendsFile(stream, records[..m], FileOf(next).number, w)
    && w.state == IndexedLogWriter.Open && w.expectedRecordId == next
    && w.All() == w.recovered && w.syncedCount == |w.recovered|
  }

  lemma StreamResumes(stream: StreamId, records: seq<Record>, disk: Disk, m: nat)
    requires m <= |records| <= U64_MAX && Appended(stream, records) && Recovers(stream, records, disk, m)
    ensures var r := Init(stream, disk);
            r.InitOk? && StreamKept(stream, records, m, r.disk) && Resumable(stream, records, m, r.active, r.disk)
  {
    hide Survives, Init, StreamEnd, Resumable, Appended;
    CheckpointIsRecoveredEnd(stream, disk);
    RecoveredPairResumes(stream, records, disk, m);
  }

  /** The attempt that an orphan index stops leaves a disk whose next attempt it cannot stop. */
  lemma RefusedOnlyOnce(stream: StreamId, records: seq<Record>, top: int, before: Disk, m: nat,
                        top1: int, synced1: nat, trusted1: nat, after: Disk)
    requires Obstructed(before, top, m) && Discovered(stream, before) && WalkAll(stream, before).Walked?
    requires Keeps(stream, records, top, before, m) && StoppedAtOrphan(stream, before, after)
    requires Survives(stream, records, top1, synced1, trusted1, after)
    ensures !Obstructed(after, top1, m)
  {
    hide Discovered, WalkAll, Keeps, Published, StreamEnd, Appended, FileSurvives, InFile;
    KeepsFacts(stream, records, top, before, m);
    assert SurvivesAt(records, top1, synced1, trusted1, after, top + 1);
  }

  /**
   Initialization followed by a writer for the active pair: appending continues behind the recovered records. Cut
   short or refused, it can be called again for the disk it leaves, and recovers the same records then. Only an orphan
   index directly above complete files refuses it, and only once.
   */
  method ResumeStream(storage: StreamStorage, ghost records: seq<Record>, ghost top: int, ghost synced: nat, ghost trusted: nat)
    returns (r: InitializeResult, writer: IndexedLogWriter.PairWriter?, ghost m: nat, ghost top1: int, ghost synced1: nat, ghost trusted1: nat)
    requires Survives(storage.stream, records, top, synced, trusted, storage.disk)
    requires |records| <= U64_MAX  // the successor of the last sequence number panics
    modifies storage
    ensures r.Initialized? <==> writer != null
    ensures synced <= m <= |records| && Keeps(storage.stream, records, top, old(storage.disk), m)
    ensures Smooth(old(storage.script)) ==> !r.Cut?
    ensures r.Refused? ==> Obstructed(old(storage.disk), top, m) && !Obstructed(storage.disk, top1, m)
    ensures writer != null ==> StreamKept(storage.stream, records, m, storage.disk)
    ensures writer != null ==> WritesBehind(storage.stream, records, m, writer)
    ensures writer == null ==>
              && synced <= synced1 <= m && Survives(storage.stream, records, top1, synced1, trusted1, storage.disk)
              && Keeps(storage.stream, records, top1, storage.disk, m)
  {
    hide Survives, SurvivesAt, Keeps, StreamKept, Init, CrashState, StreamEnd;
    hide InFile, Concat, Ends, EncodeIndex, EndAfter, InSequence, Smooth;
    hide Recovers, Obstructed, Discovered, WalkAll, StoppedAtOrphan, Appended;
    writer, top1, synced1, trusted1 := null, top, synced, trusted;
    ghost var stream, before := storage.stream, storage.disk;
    SurvivingTop(stream, records, top, synced, trusted, before);
    m := StreamSurvivesCrash(stream, records, top, synced, trusted, before);
    if !Obstructed(before, top, m) {
      StreamResumes(stream, records, before, m);
    }
    r := Initialize(storage);
    if r.Initialized? {
      writer := new IndexedLogWriter.PairWriter.FromInitialized(r.pair.file, r.pair.log, r.pair.index, r.pair.end,
                                                                InFile(records[..m], r.pair.file.number));
    } else {
      top1, synced1, trusted1 := CrashedRecoverySurvives(stream, records, top, synced, trusted, before, m, storage.disk);
      if r.Refused? {
        RefusedOnlyOnce(stream, records, top, before, m, top1, synced1, trusted1, storage.disk);
      }
    }
  }

  // ---------- The next crash ----------

  /** The disk a crash leaves when a writer for the last file is stopped and these images of its files survive. */
  function WithImages(disk: Disk, n: LogFileNumber, logImage: seq<byte>, indexImage: seq<byte>): Disk {
    disk.(logs := disk.logs[n := logImage], indexes := disk.indexes[n := indexImage])
  }

  /**
   Appending to a recovered stream and crashing again, anywhere: the disk is again one that initialization
   recovers, now with the records the writer has synchronized since.
   */
  lemma AppendingSurvives(stream: StreamId, records: seq<Record>, n: LogFileNumber, trusted: nat, disk: Disk,
                          w: IndexedLogWriter.PairWriter, logImage: seq<byte>, indexImage: seq<byte>)
    requires Survives(stream, records, n, |records|, trusted, disk)
    requires ExtendsFile(stream, records, n, w) && |w.recovered| <= w.syncedCount
    requires SurvivingLog(w.log.destination.contents, w.log.destination.synced, logImage)
    requires SurvivingIndex(w.index.file.contents, w.index.file.synced, indexImage)
    ensures Survives(stream, records + w.log.records, n, n * RECORDS_PER_FILE + w.syncedCount, trusted,
                     WithImages(disk, n, logImage, indexImage))
  {
    hide InFile, EndAfter, StreamEnd, FileSurvives, SurvivesAt, Concat, Ends, EncodeIndex, SurvivingIndex, ValidFrame, IdOf;
    var longer := records + w.log.records;
    var synced := n * RECORDS_PER_FILE + w.syncedCount;
    var after := WithImages(disk, n, logImage, indexImage);
    WriterRecords(stream, records, n, w);
    WriterImagesSurvive(w, Within(trusted, n), logImage, indexImage);
    assert longer[..trusted] == records[..trusted];
    StreamEndOfPrefix(stream, longer, trusted);
    StreamEndOfPrefix(stream, records, trusted);
    forall k: LogFileNumber
      ensures SurvivesAt(longer, n, synced, trusted, after, k)
    {
      assert SurvivesAt(records, n, |records|, trusted, disk, k);
      ImageAt(records, longer, n, trusted, disk, synced, logImage, indexImage, k);
    }
  }

  /** The writer's file holds exactly the longer stream's records of that file. */
  lemma WriterRecords(stream: StreamId, records: seq<Record>, n: LogFileNumber, w: IndexedLogWriter.PairWriter)
    requires Appended(stream, records) && n * RECORDS_PER_FILE <= |records| <= (n + 1) * RECORDS_PER_FILE
    requires ExtendsFile(stream, records, n, w)
    ensures Appended(stream, records + w.log.records)
    ensures InFile(records + w.log.records, n) == w.All()
    ensures |records + w.log.records| == n * RECORDS_PER_FILE + |w.All()| <= (n + 1) * RECORDS_PER_FILE
    ensures w.syncedCount <= |w.All()|
  {
    hide EndAfter, Concat, Ends, EncodeIndex, ValidFrame, IdOf;
    hide IndexedLogWriter.PairWriter.LogBeforeIndex, IndexedLogWriter.PairWriter.Durable;
    hide IndexedLogWriter.PairWriter.Settled;
    var longer, all := records + w.log.records, w.All();
    forall i | 0 <= i < |longer|
      ensures IdOf(longer[i]) == RecordId(stream, i)
    {
      if i >= |records| {
        assert longer[i] == all[i - n * RECORDS_PER_FILE];
      }
    }
    assert InFile(longer, n) == all;
  }

  /** One file number of the crashed disk. */
  lemma ImageAt(records: seq<Record>, longer: seq<Record>, n: LogFileNumber, trusted: nat, disk: Disk, synced: nat,
                logImage: seq<byte>, indexImage: seq<byte>, k: LogFileNumber)
    requires SurvivesAt(records, n, |records|, trusted, disk, k) && records <= longer && trusted <= |records|
    requires n * RECORDS_PER_FILE <= |records| && n * RECORDS_PER_FILE <= synced
    requires synced - n * RECORDS_PER_FILE <= |InFile(longer, n)|
    requires FileSurvives(InFile(longer, n), Within(trusted, n), synced - n * RECORDS_PER_FILE, logImage, indexImage)
    ensures SurvivesAt(longer, n, synced, trusted, WithImages(disk, n, logImage, indexImage), k)
  {
    hide FileSurvives, ValidFrame;
    if k < n {
      assert InFile(longer, k) == InFile(records, k);
    }
  }

  // ---------- The next file ----------

  /** The next pair may be there already, or only its log. */
  ghost predicate NextFileCreated(before: Disk, next: LogFileNumber, after: Disk) {
    || after == WithEmptyPair(before, next)
    || after == before.(logs := before.logs[next := []])
  }

  /** Creating the next pair behind a complete, synchronized file, finished or interrupted. */
  lemma RotationSurvives(stream: StreamId, records: seq<Record>, n: LogFileNumber, trusted: nat, before: Disk, after: Disk)
    requires Survives(stream, records, n, |records|, trusted, before) && |records| == (n + 1) * RECORDS_PER_FILE
    requires n < MAX_FILE_NUMBER && NextFileCreated(before, n + 1, after)
    ensures Survives(stream, records, n + 1, |records|, trusted, after)
  {
    hide SurvivesAt, StreamEnd, Appended, IndexOf;
    var next: LogFileNumber := n + 1;
    forall k: LogFileNumber
      ensures SurvivesAt(records, next, |records|, trusted, after, k)
    {
      assert SurvivesAt(records, n, |records|, trusted, before, k);
      if k < next {
        SurvivesBelow(records, n, trusted, before, after, k);
      } else {
        NothingAbove(records, n, |records|, trusted, before, k);
        if k == next {
          EmptyFileSurvives(records, k, |records|, trusted, after);
        } else {
          AboveSurvives(records, next, |records|, trusted, after, k);
        }
      }
    }
  }

  lemma SurvivesBelow(records: seq<Record>, n: LogFileNumber, trusted: nat, before: Disk, after: Disk, k: LogFileNumber)
    requires n < MAX_FILE_NUMBER && k <= n && NextFileCreated(before, n + 1, after)
    requires SurvivesAt(records, n, |records|, trusted, before, k)
    ensures SurvivesAt(records, n + 1, |records|, trusted, after, k)
  {
    hide FileSurvives, InFile;
  }

  /** The disk with everything the writer's files contain. */
  ghost function WithFilesOf(w: IndexedLogWriter.PairWriter, disk: Disk): Disk
    reads w, w.log, w.log.destination, w.index, w.index.file
  {
    WithImages(disk, w.fileId.number, w.log.destination.contents, w.index.file.contents)
  }

  /** A finalized writer's file is complete and synchronized, so that the stream continues in the next file. */
  lemma FinalizedFileRotates(stream: StreamId, records: seq<Record>, n: LogFileNumber, trusted: nat, disk: Disk,
                             w: IndexedLogWriter.PairWriter, after: Disk)
    requires Survives(stream, records, n, |records|, trusted, disk) && n < MAX_FILE_NUMBER
    requires ExtendsFile(stream, records, n, w) && w.state == IndexedLogWriter.Finalized
    requires NextFileCreated(WithFilesOf(w, disk), n + 1, after)
    ensures Survives(stream, records + w.log.records, n + 1, |records + w.log.records|, trusted, after)
    ensures InFile(records + w.log.records, n + 1) == []
  {
    hide Survives, SurvivesAt, Appended, StreamEnd, IdOf, ValidFrame, Concat, EncodeIndex, Ends;
    var log, index := w.log.destination, w.index.file;
    WriterIsDurable(w);
    SurvivingTop(stream, records, n, |records|, trusted, disk);
    WriterRecords(stream, records, n, w);
    AppendingSurvives(stream, records, n, trusted, disk, w, log.contents, index.contents);
    RotationSurvives(stream, records + w.log.records, n, trusted, WithFilesOf(w, disk), after);
  }

  lemma WriterIsDurable(w: IndexedLogWriter.PairWriter)
    requires w.Valid()
    ensures SurvivingLog(w.log.destination.contents, w.log.destination.synced, w.log.destination.contents)
    ensures SurvivingIndex(w.index.file.contents, w.index.file.synced, w.index.file.contents)
    ensures w.state == IndexedLogWriter.Finalized ==> w.syncedCount == |w.All()| == RECORDS_PER_FILE
    ensures |w.recovered| <= |w.All()|
  {
    hide Concat, EncodeIndex, Ends, EndAfter, ValidFrame, IdOf, InSequence;
  }
}
