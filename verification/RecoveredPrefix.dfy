/**
 What a successful initialization has recovered: the longest valid prefix, file by file and across the stream,
 with exact indexes, and the conditions under which it fails instead.
 */
module RecoveredPrefix {
  import opened Bytes
  import opened RecordProtocol
  import opened Locations
  import opened IndexWriter
  import opened DenseIndex
  import opened LogFileValidator
  import opened IndexFileValidator
  import opened Storage
  import opened IndexedLogValidator
  import opened StreamInitializer
  import opened RestartableRecovery

  // ---------- One file ----------

  /** The kept log is the trusted prefix and the longest run of valid records that continues it. */
  lemma RecoveredLogIsLongestPrefix(file: LogFileId, trusted: Option<RecordEnd>, log: seq<byte>)
    requires RecoverLog(file, trusted, log).LogRecovered?
    ensures var r, kept := RecoverLog(file, trusted, log), KeptLog(file, trusted, log);
            var start, count := EndPositionOf(trusted), CountOf(trusted);
            var records := Parse(log[start..]).records;
            var k := |r.suffixEnds|;
            && k <= |records| && kept == log[..start] + Concat(records[..k])
            && EndPositionOf(r.end) == |kept| && CountOf(r.end) == count + k
            && Continues(file, count, records[..k])
            && (k < |records| && count + k < RECORDS_PER_FILE ==> !Continues(file, count, records[..k + 1]))
            && forall i :: 0 <= i < k ==> r.suffixEnds[i] == start + |Concat(records[..i + 1])|
  {
    hide Parse, Concat, ValidFrame, IdOf, Plausible, Scan, Continues;
    var r, kept := RecoverLog(file, trusted, log), KeptLog(file, trusted, log);
    var start: nat, count: nat := EndPositionOf(trusted), CountOf(trusted);
    var parsed := Parse(log[start..]);
    var k := |r.suffixEnds|;
    RecoveredEndIsPlausible(file, trusted, log);
    ScanEndInFile(file, trusted, log);
    ScanKeepsLongestRun(file, trusted, count, parsed, |log|);
    CountFits(file, trusted);
    AcceptedRunIsLongest(file, count, parsed.records);
    KeptIsAccepted(log[start..], k);
    assert kept == log[..start] + log[start..][..|kept| - start];
    forall i | 0 <= i < k
      ensures r.suffixEnds[i] == start + |Concat(parsed.records[..i + 1])|
    {
      ScanEnds(file, trusted, count, parsed, |log|, i);
    }
  }

  lemma CountFits(file: LogFileId, trusted: Option<RecordEnd>)
    requires Plausible(file, trusted, CountOf(trusted))
    ensures FirstRecordId(file).sequence + CountOf(trusted) <= U64_MAX + 1
  {
  }

  /** A pair recovered from its start holds its records in sequence and their exact index. */
  lemma RecoveredPairIsExact(file: LogFileId, log: seq<byte>, index: seq<byte>)
    requires RecoverPair(file, None, log, index).PairRecovered?
    ensures var r := RecoverPair(file, None, log, index);
            var m := CountOf(r.end);
            && m <= |Parse(log).records| && InSequence(file, Parse(log).records[..m])
            && r.end == EndAfter(file, Parse(log).records, m)
            && r.log == Concat(Parse(log).records[..m])
            && r.index == EncodeIndex(Ends(Parse(log).records[..m]))
  {
    hide Parse, Concat, ValidFrame, IdOf, Scan, EncodeIndex, Ends;
    var found := RecoverLog(file, None, log);
    RecoveredLogIsLongestPrefix(file, None, log);
    assert log[0..] == log;
    var records := Parse(log).records;
    var m := |found.suffixEnds|;
    assert found.suffixEnds == Ends(records[..m]) by {
      forall i | 0 <= i < m
        ensures found.suffixEnds[i] == Ends(records[..m])[i]
      {
        assert records[..m][..i + 1] == records[..i + 1];
      }
    }
    RecoveredEndIsPlausible(file, None, log);
    EndOfCount(file, found.end, m, records);
    assert index[..0] + EncodeIndex(found.suffixEnds) == EncodeIndex(found.suffixEnds);
  }

  lemma EndOfCount(file: LogFileId, end: Option<RecordEnd>, m: nat, records: seq<Record>)
    requires Plausible(file, end, m) && m <= |records| && m <= RECORDS_PER_FILE
    requires EndPositionOf(end) == |Concat(records[..m])|
    ensures FirstRecordId(file).sequence + m <= U64_MAX + 1
    ensures end == EndAfter(file, records, m)
  {
    hide Concat, ValidFrame;
  }

  // ---------- The whole stream ----------

  /** Every visited file in front of the last one is complete. */
  lemma {:induction false} VisitedComplete(stream: StreamId, disk: Disk, number: LogFileNumber, maximum: LogFileNumber,
                                           recovered: Option<RecordEnd>, n: LogFileNumber)
    requires number <= maximum && PrecedingComplete(stream, recovered, number - 1)
    requires Walk(stream, disk, number, maximum, recovered).Walked?
    requires number <= n <= Walk(stream, disk, number, maximum, recovered).visited
    ensures var walk := Walk(stream, disk, number, maximum, recovered);
            && n in disk.logs && PairAt(stream, disk, n).PairRecovered?
            && (CompletePair(PairAt(stream, disk, n).end) <==> n < walk.visited || walk.active == None)
            && (walk.active.Some? && n == walk.visited ==> PairAt(stream, disk, n).end == walk.active.value.end)
    decreases maximum - number
  {
    hide PairAt, CompletePair, PrecedingComplete;
    if number in disk.logs {
      var end := PairAt(stream, disk, number).end;
      if CompletePair(end) {
        CompletePrecedes(stream, disk, number);
        if number < maximum {
          if n > number {
            VisitedComplete(stream, disk, number + 1, maximum, end, n);
          } else if Walk(stream, disk, number + 1, maximum, end).visited < number + 1 {
            BeyondEnd(stream, disk, number + 1, maximum, end);
          }
        }
      }
    }
  }

  lemma VisitedFile(stream: StreamId, disk: Disk, n: LogFileNumber)
    requires Discovered(stream, disk) && WalkAll(stream, disk).Walked?
    requires StartNumber(disk) <= n <= WalkAll(stream, disk).visited
    ensures var walk := WalkAll(stream, disk);
            && n in disk.logs && PairAt(stream, disk, n).PairRecovered?
            && (CompletePair(PairAt(stream, disk, n).end) <==> n < walk.visited || walk.active == None)
            && (walk.active.Some? && n == walk.visited ==> PairAt(stream, disk, n).end == walk.active.value.end)
  {
    hide PairAt, CompletePair, Walk;
    NoPredecessor(stream, StartNumber(disk) as int - 1);
    VisitedComplete(stream, disk, StartNumber(disk), Maximum(disk.logs.Keys).value, None, n);
  }

  /** What has become of one file number. */
  ghost predicate RecoveredFile(stream: StreamId, before: Disk, active: Active, after: Disk, n: LogFileNumber) {
    if n < StartNumber(before) then
      // in front of the checkpoint's file: untouched
      SameLog(before, after, n) && SameIndex(before, after, n)
    else if n < active.number then
      // complete, and what recovery made of it
      n in before.logs && RecoveredTo(after, n, PairAt(stream, before, n)) && CompletePair(PairAt(stream, before, n).end)
    else if n == active.number then
      // the partial file recovery kept, or the empty one it created
      if n in before.logs then
        RecoveredTo(after, n, PairAt(stream, before, n)) && PairAt(stream, before, n).end == active.end && !CompletePair(active.end)
      else
        RecoveredTo(after, n, PairRecovered(None, [], [])) && active.end == None
    else
      // gone; an orphan index is left only if it lay above all logs
      n !in after.logs && (n in after.indexes <==> n in before.indexes && n >= Bound(before))
  }

  ghost predicate SameLog(before: Disk, after: Disk, n: LogFileNumber) {
    (n in after.logs <==> n in before.logs) && (n in before.logs && n in after.logs ==> after.logs[n] == before.logs[n])
  }

  ghost predicate RecoveredTo(disk: Disk, n: LogFileNumber, pair: PairRecovery) {
    && pair.PairRecovered? && n in disk.logs && n in disk.indexes
    && disk.logs[n] == pair.log && disk.indexes[n] == pair.index
  }

  /**
   After a successful initialization the files from the starting one on are exactly the complete ones, in order
   and without a gap, followed by the active one; nothing else is left, and nothing in front has changed.
   */
  lemma RecoveryLeavesCompleteFilesAndActiveOne(stream: StreamId, disk: Disk, n: LogFileNumber)
    requires Init(stream, disk).InitOk?
    ensures var r := Init(stream, disk);
            StartNumber(disk) <= r.active.number && RecoveredFile(stream, disk, r.active, r.disk, n)
  {
    hide Init, WalkAll, Discovered, Cleaned, PairAt, CompletePair, Maximum;
    InitNeedsWalk(stream, disk);
    InitFollowsWalk(stream, disk);
    WalkFacts(stream, disk);
    var walk := WalkAll(stream, disk);
    CleanedLog(stream, disk, n);
    CleanedIndex(stream, disk, n);
    LogsAreBounded(disk, n);
    if StartNumber(disk) <= n <= walk.visited {
      VisitedFile(stream, disk, n);
    }
    if walk.active == None {
      NoOrphan(stream, disk);
    }
  }

  /** Sequence number the next append gets: all positions of the files in front, and the active file's records. */
  function NextSequence(active: Active): nat {
    active.number * RECORDS_PER_FILE + CountOf(active.end)
  }

  /** The end of the last record in front of the next append, and not behind `checkpoint`. */
  ghost predicate EndsStream(stream: StreamId, recovered: Option<RecordEnd>, active: Active, checkpoint: Option<RecordEnd>) {
    && (recovered == None <==> NextSequence(active) == 0)
    && (recovered.Some? ==> recovered.value.id.stream == stream && recovered.value.id.sequence == NextSequence(active) - 1)
    && (active.end.Some? ==> recovered == active.end)
    && (checkpoint.Some? ==>
          recovered.Some? && (recovered == checkpoint || checkpoint.value.id.sequence < recovered.value.id.sequence))
  }

  /** The published checkpoint is the recovered end of the whole stream, and it never moves backward. */
  lemma CheckpointIsRecoveredEnd(stream: StreamId, disk: Disk)
    requires Init(stream, disk).InitOk?
    ensures var r := Init(stream, disk);
            r.disk.checkpoint == r.recovered && EndsStream(stream, r.recovered, r.active, disk.checkpoint)
  {
    hide Init, WalkAll, Discovered, Cleaned, PairAt, Maximum;
    InitNeedsWalk(stream, disk);
    WalkFacts(stream, disk);
    InitFollowsWalk(stream, disk);
    CleanedKeepsCheckpoint(stream, disk);
    var walk := WalkAll(stream, disk);
    if walk.recovered.Some? {
      var last := RecoveredIn(stream, disk);
      RecoveredPairEnd(stream, disk, last);
      CheckpointOfStream(stream, disk);
      if disk.checkpoint.Some? && StartNumber(disk) == last {
        NotBehindTrusted(stream, disk, last);
      }
    } else {
      NothingRecovered(stream, disk);
    }
  }

  lemma CheckpointOfStream(stream: StreamId, disk: Disk)
    requires Discovered(stream, disk)
    ensures disk.checkpoint.Some? ==> disk.checkpoint.value.id.stream == stream
  {
  }

  /** The file the recovered end lies in. */
  lemma RecoveredIn(stream: StreamId, disk: Disk) returns (last: LogFileNumber)
    requires Discovered(stream, disk) && WalkAll(stream, disk).Walked? && WalkAll(stream, disk).recovered.Some?
    ensures var walk := WalkAll(stream, disk);
            && StartNumber(disk) <= last && RecoveredEndOf(stream, disk, last, walk.recovered)
            && match walk.active
               case None => last == walk.visited && CompletePair(walk.recovered)
               case Some(active) =>
                 if active.end.Some? then last == walk.visited && walk.recovered == active.end
                 else last == walk.visited - 1 && CompletePair(walk.recovered)
  {
    hide PairAt, CompletePair, PrecedingComplete, Walk;
    WalkFacts(stream, disk);
    var first: nat := StartNumber(disk);
    NoPredecessor(stream, first - 1);
    WalkRecoversLast(stream, disk, first, Maximum(disk.logs.Keys).value, None);
    var walk := WalkAll(stream, disk);
    last := if walk.active.Some? && walk.active.value.end == None then walk.visited - 1 else walk.visited;
  }

  lemma NothingRecovered(stream: StreamId, disk: Disk)
    requires Discovered(stream, disk) && WalkAll(stream, disk).Walked? && WalkAll(stream, disk).recovered == None
    ensures var walk := WalkAll(stream, disk);
            match walk.active
            case None => walk.visited == -1
            case Some(active) => active == Active(0, None)
  {
    hide PairAt, CompletePair, PrecedingComplete, Walk;
    WalkFacts(stream, disk);
    SuccessorOrActive(stream, disk);
    var walk := WalkAll(stream, disk);
    if walk.active.Some? {
      NoPredecessor(stream, -1);
      WalkRecoversLast(stream, disk, 0, Maximum(disk.logs.Keys).value, None);
    }
  }

  lemma SuccessorOrActive(stream: StreamId, disk: Disk)
    requires Discovered(stream, disk) && WalkAll(stream, disk).Walked? && WalkAll(stream, disk).recovered == None
    ensures WalkAll(stream, disk).active == None ==> WalkAll(stream, disk).visited == -1
  {
    hide WalkAll, Discovered;
    if WalkAll(stream, disk).active == None {
      SuccessorNumber(stream, disk);
    }
  }

  /** Recovery of the checkpoint's own file ends at the checkpoint or behind it. */
  lemma NotBehindTrusted(stream: StreamId, disk: Disk, n: LogFileNumber)
    requires disk.checkpoint.Some? && disk.checkpoint.value.id.stream == stream && StartNumber(disk) == n
    requires n in disk.logs && PairAt(stream, disk, n).PairRecovered?
    ensures var end := PairAt(stream, disk, n).end;
            && end.Some? && FileOf(end.value.id) == LogFileId(stream, n)
            && (end == disk.checkpoint || disk.checkpoint.value.id.sequence < end.value.id.sequence)
  {
    hide RecoverLog, KeptLog, RepairIndex;
    var file, trusted := LogFileId(stream, n), TrustedIn(disk.checkpoint, n);
    RecoveredPairEnd(stream, disk, n);
    RecoveredEndIsPlausible(file, trusted, disk.logs[n]);
    if RecoverLog(file, trusted, disk.logs[n]).suffixEnds == [] {
      SameEndWithoutSuffix(file, trusted, disk.logs[n]);
    }
  }

  // ---------- A refused attempt ----------

  /** The attempt that fails on an orphan index leaves a disk from which the next attempt succeeds. */
  lemma OrphanIndexHeals(stream: StreamId, before: Disk, after: Disk)
    requires Discovered(stream, before) && WalkAll(stream, before).Walked? && StoppedAtOrphan(stream, before, after)
    ensures var walk, r := WalkAll(stream, before), Init(stream, after);
            && r.InitOk? && r.active == Active(walk.visited + 1, None) && r.recovered == walk.recovered
            && r.disk.logs == after.logs && r.disk.checkpoint == walk.recovered
  {
    hide WalkAll, Discovered, Cleaned, PairAt, CompletePair, Maximum, IndexOf, Init;
    var walk := WalkAll(stream, before);
    SuccessorWalk(stream, before, after);
    InitOutcome(stream, after);
    forall n: LogFileNumber
      ensures n in Cleaned(stream, after).logs <==> n in after.logs
      ensures n in after.logs ==> Cleaned(stream, after).logs[n] == after.logs[n]
    {
      CleanedLog(stream, after, n);
      LogsAreBounded(after, n);
    }
    assert Cleaned(stream, after).logs == after.logs;
  }

  /** The next attempt finds the prefix in place and the new log empty. */
  lemma SuccessorWalk(stream: StreamId, before: Disk, after: Disk)
    requires Discovered(stream, before) && WalkAll(stream, before).Walked? && StoppedAtOrphan(stream, before, after)
    ensures Discovered(stream, after) && WalkAll(stream, after) == WithSuccessor(WalkAll(stream, before))
    ensures Bound(after) == WalkAll(stream, before).visited + 2
    ensures forall n: LogFileNumber :: StartNumber(after) <= n && n in after.logs && PairAt(stream, after, n).PairRecovered? ==>
              PairAt(stream, after, n).log == after.logs[n]
  {
    hide WalkAll, Cleaned, PairAt, CompletePair, PrecedingComplete, PairInPlace, Published;
    var walk := WalkAll(stream, before);
    var next: LogFileNumber := walk.visited + 1;
    WalkFacts(stream, before);
    SuccessorNumber(stream, before);
    OrphanOverCleaned(stream, before, after);
    CleanedLogsBelow(stream, before);
    MaximumIsUnique(after.logs.Keys, Some(next));
    LastLogExists(after);
    if walk.recovered.Some? {
      var last := CheckpointedFile(stream, before, after);
      CompletePrecedes(stream, after, last);
      EmptyLogAt(stream, after, next);
      WalkFromCheckpoint(stream, after, last, next, WithSuccessor(walk));
      WalkAllIsWalk(stream, after, next);
    } else {
      EmptyLogAt(stream, after, 0);
      WalkAllIsWalk(stream, after, 0);
    }
  }

  lemma OrphanOverCleaned(stream: StreamId, before: Disk, after: Disk)
    requires Discovered(stream, before) && WalkAll(stream, before).Walked? && StoppedAtOrphan(stream, before, after)
    ensures var walk, cleaned := WalkAll(stream, before), Cleaned(stream, before);
            && after.checkpoint == walk.recovered && after.logs == cleaned.logs[walk.visited + 1 := []]
            && forall n: LogFileNumber :: n <= walk.visited ==> PairInPlace(stream, before, after, walk.visited, n)
  {
    hide WalkAll, Discovered, Cleaned, PairInPlace, Maximum, PairAt, AllRecovered;
    WalkFacts(stream, before);
    CleanedKeepsCheckpoint(stream, before);
    forall n: LogFileNumber | n <= WalkAll(stream, before).visited
      ensures PairInPlace(stream, before, after, WalkAll(stream, before).visited, n)
    {
      CleanedInPlace(stream, before, after, n);
    }
  }
}
