/**
 How an orphan index comes about and what it does: an interrupted removal leaves one above the active file, the
 restart succeeds and does not see it, and once the active file is complete it stops the next initialization.
 */
module OrphanIndexes {
  import opened Bytes
  import opened RecordProtocol
  import opened Locations
  import opened IndexWriter
  import opened DenseIndex
  import opened Storage
  import opened IndexedLogValidator
  import opened StreamInitializer
  import opened RestartableRecovery
  import opened InitOutcomes
  import opened StreamDurability

  /** Two empty pairs: initialization keeps the first one and removes the second. */
  function TwoEmptyPairs(): Disk {
    Disk(map[0 := [], 1 := []], map[0 := [], 1 := []], None, NoStaging)
  }

  /** The removal was interrupted between the second pair's log and its index. */
  function OrphanLeft(): Disk {
    Disk(map[0 := []], map[0 := [], 1 := []], None, NoStaging)
  }

  /** The first file filled with `records`. */
  function FilledUp(records: seq<Record>): Disk
    requires |records| <= RECORDS_PER_FILE
  {
    Disk(map[0 := Concat(records)], map[0 := EncodeIndex(Ends(records)), 1 := []], None, NoStaging)
  }

  /** A file's worth of empty records. */
  function FullFile(stream: StreamId): (r: seq<Record>)
    ensures |r| == RECORDS_PER_FILE && InSequence(LogFileId(stream, 0), r)
  {
    hide ValidFrame;
    seq(RECORDS_PER_FILE, i requires 0 <= i < RECORDS_PER_FILE => Encode(RecordId(stream, i), []))
  }

  /** An initialization stopped inside its deletion loop leaves the orphan. */
  lemma InterruptedRemovalLeavesOrphan(stream: StreamId)
    ensures Init(stream, TwoEmptyPairs()).InitOk? && CrashState(stream, TwoEmptyPairs(), OrphanLeft())
  {
    hide PairAt, Repairing, Publishing, Creating, CompletePair;
    var before := TwoEmptyPairs();
    MaximumIsUnique(before.logs.Keys, Some(1));
    EmptyLogAt(stream, before, 0);
    NoPredecessor(stream, -1);
    assert WalkAll(stream, before) == Walked(None, Some(Active(0, None)), 0);
    var repaired := RepairedDisk(stream, before, 0, 0);
    EmptyRepaired(stream);
    assert WithoutLog(WithoutPairs(before, 1, 1), 1) == OrphanLeft() by {
      RemoveNone(before, 1);
    }
    assert RemovedThrough(repaired, 1, 1, OrphanLeft());
    assert Removing(stream, before, OrphanLeft());
    InitFollowsWalk(stream, before);
  }

  lemma EmptyRepaired(stream: StreamId)
    ensures RepairedDisk(stream, TwoEmptyPairs(), 0, 0) == TwoEmptyPairs()
  {
    hide PairAt;
    var before := TwoEmptyPairs();
    EmptyLogAt(stream, before, 0);
    assert RepairedDisk(stream, before, 0, 0).logs == before.logs;
    assert RepairedDisk(stream, before, 0, 0).indexes == before.indexes;
  }

  /** The restart succeeds and leaves everything as it is, the orphan included. */
  lemma RestartKeepsOrphan(stream: StreamId)
    ensures Init(stream, OrphanLeft()) == InitOk(Active(0, None), None, OrphanLeft())
  {
    hide PairAt, CompletePair;
    var disk := OrphanLeft();
    MaximumIsUnique(disk.logs.Keys, Some(0));
    EmptyLogAt(stream, disk, 0);
    NoPredecessor(stream, -1);
    assert WalkAll(stream, disk) == Walked(None, Some(Active(0, None)), 0);
    assert AtRest(stream, disk, WalkAll(stream, disk));
    InitAtRest(stream, disk, WalkAll(stream, disk));
  }

  /** Once the active file is full, the same index stops the next initialization. */
  lemma OrphanStopsFullStream(stream: StreamId)
    ensures Init(stream, FilledUp(FullFile(stream))) == OrphanIndex(1)
  {
    hide FullFile, Concat, EncodeIndex, Ends, ValidFrame, IdOf, EndAfter, InSequence;
    var records := FullFile(stream);
    var disk := FilledUp(records);
    MaximumIsUnique(disk.logs.Keys, Some(0));
    FullFileIsComplete(stream, records);
    InitFailsOnOrphanExactly(stream, disk, 1);
  }

  lemma FullFileIsComplete(stream: StreamId, records: seq<Record>)
    requires |records| == RECORDS_PER_FILE && InSequence(LogFileId(stream, 0), records)
    ensures CompleteAt(stream, FilledUp(records), 0)
  {
    hide Concat, EncodeIndex, Ends, ValidFrame, IdOf, InSequence, RecoverPair, EndAfter;
    var file, disk := LogFileId(stream, 0), FilledUp(records);
    assert records[..|records|] == records;
    SequenceFits(file, records);
    assert FileSurvives(records, 0, |records|, disk.logs[0], disk.indexes[0]);
    var m := FileRecovers(file, records, 0, |records|, disk.logs[0], disk.indexes[0]);
    CountInFile(file, RECORDS_PER_FILE);
    NothingTrusted(file, records);
  }

  lemma NothingTrusted(file: LogFileId, records: seq<Record>)
    requires |records| <= RECORDS_PER_FILE
    ensures EndAfter(file, records, 0) == None
  {
  }
}
