/**
 Which disks an initialization succeeds on: every other outcome has its exact condition on the files, their
 indexes and the checkpoint.
 */
module InitOutcomes {
  import opened Bytes
  import opened RecordProtocol
  import opened Locations
  import opened LogFileValidator
  import opened IndexFileValidator
  import opened Storage
  import opened IndexedLogValidator
  import opened StreamInitializer
  import opened RestartableRecovery
  import opened RecoveredPrefix

  // ---------- The first file that is not complete ----------

  /** The log exists and is recovered with all 100,000 records. */
  ghost predicate CompleteAt(stream: StreamId, disk: Disk, n: LogFileNumber) {
    n in disk.logs && PairAt(stream, disk, n).PairRecovered? && CompletePair(PairAt(stream, disk, n).end)
  }

  ghost predicate AllComplete(stream: StreamId, disk: Disk, first: int, stop: int) {
    forall n: LogFileNumber :: first <= n < stop ==> CompleteAt(stream, disk, n)
  }

  lemma {:induction false} FirstIncomplete(stream: StreamId, disk: Disk, number: nat, maximum: LogFileNumber) returns (n: nat)
    requires number <= maximum + 1
    ensures number <= n <= maximum + 1 && AllComplete(stream, disk, number, n)
    ensures n <= maximum ==> !CompleteAt(stream, disk, n)
    decreases maximum + 1 - number
  {
    hide CompleteAt;
    n := number;
    if number <= maximum && CompleteAt(stream, disk, number) {
      n := FirstIncomplete(stream, disk, number + 1, maximum);
    }
  }

  lemma WalkPastComplete(stream: StreamId, disk: Disk, number: LogFileNumber, maximum: LogFileNumber, recovered: Option<RecordEnd>)
    requires number < maximum && PrecedingComplete(stream, recovered, number - 1)
    requires number in disk.logs && PairAt(stream, disk, number).PairRecovered? && CompletePair(PairAt(stream, disk, number).end)
    ensures PrecedingComplete(stream, PairAt(stream, disk, number).end, number)
    ensures Walk(stream, disk, number, maximum, recovered)
         == Walk(stream, disk, number + 1, maximum, PairAt(stream, disk, number).end)
  {
    hide PairAt, CompletePair, PrecedingComplete;
    CompletePrecedes(stream, disk, number);
  }

  lemma WalkAtMaximum(stream: StreamId, disk: Disk, number: LogFileNumber, recovered: Option<RecordEnd>)
    requires PrecedingComplete(stream, recovered, number - 1)
    requires number in disk.logs && PairAt(stream, disk, number).PairRecovered?
    ensures var end := PairAt(stream, disk, number).end;
            && (CompletePair(end) ==> Walk(stream, disk, number, number, recovered) == Walked(end, None, number))
            && (!CompletePair(end) ==> Walk(stream, disk, number, number, recovered)
                                       == Walked(if end.Some? then end else recovered, Some(Active(number, end)), number))
  {
    hide PairAt, CompletePair, PrecedingComplete;
    if CompletePair(PairAt(stream, disk, number).end) {
      CompletePrecedes(stream, disk, number);
    }
  }

  /** The walk's result, from the first file that is not complete. */
  ghost predicate Verdict(stream: StreamId, disk: Disk, maximum: LogFileNumber, n: nat, walk: WalkResult)
    requires n <= maximum + 1
  {
    if n == maximum + 1 then walk.Walked? && walk.active == None && walk.visited == maximum
    else if n !in disk.logs then
      if TrustedIn(disk.checkpoint, n).Some? then walk == WalkRejected
      else walk.Walked? && walk.active == None && walk.visited == n - 1
    else match PairAt(stream, disk, n)
         case PairRejected => walk == WalkRejected
         case PairPanics => walk == WalkPanics
         case PairRecovered(end, _, _) => walk.Walked? && walk.active == Some(Active(n, end)) && walk.visited == n
  }

  lemma {:induction false} WalkVerdict(stream: StreamId, disk: Disk, number: LogFileNumber, maximum: LogFileNumber,
                                       recovered: Option<RecordEnd>, n: nat)
    requires number <= n <= maximum + 1 && number <= maximum && PrecedingComplete(stream, recovered, number - 1)
    requires AllComplete(stream, disk, number, n) && (n <= maximum ==> !CompleteAt(stream, disk, n))
    ensures Verdict(stream, disk, maximum, n, Walk(stream, disk, number, maximum, recovered))
    decreases maximum - number
  {
    hide PairAt, CompletePair, PrecedingComplete;
    if n > number {
      assert CompleteAt(stream, disk, number);
      if number < maximum {
        WalkPastComplete(stream, disk, number, maximum, recovered);
        WalkVerdict(stream, disk, number + 1, maximum, PairAt(stream, disk, number).end, n);
      } else {
        WalkAtMaximum(stream, disk, number, recovered);
      }
    }
  }

  /** The same for the whole walk. */
  lemma WalkAllVerdict(stream: StreamId, disk: Disk, n: nat)
    requires Discovered(stream, disk) && StartNumber(disk) <= n <= Bound(disk)
    requires AllComplete(stream, disk, StartNumber(disk), n) && (n < Bound(disk) ==> !CompleteAt(stream, disk, n))
    ensures Bound(disk) == 0 ==> WalkAll(stream, disk) == Walked(None, None, -1)
    ensures Bound(disk) > 0 ==> Verdict(stream, disk, Bound(disk) - 1, n, WalkAll(stream, disk))
  {
    hide PairAt, CompletePair, Walk, AllComplete, CompleteAt;
    if Bound(disk) > 0 {
      var maximum: LogFileNumber := Bound(disk) - 1;
      WalkAllIsWalk(stream, disk, maximum);
      NoPredecessor(stream, StartNumber(disk) as int - 1);
      WalkVerdict(stream, disk, StartNumber(disk), maximum, None, n);
    }
  }

  lemma WalkAllFirst(stream: StreamId, disk: Disk) returns (n: nat)
    requires Discovered(stream, disk)
    ensures StartNumber(disk) <= n <= Bound(disk) || Bound(disk) == 0
    ensures AllComplete(stream, disk, StartNumber(disk), n) && (n < Bound(disk) ==> !CompleteAt(stream, disk, n))
    ensures Bound(disk) == 0 ==> n == 0 == StartNumber(disk)
  {
    hide PairAt, CompletePair, CompleteAt;
    if Bound(disk) == 0 {
      n := 0;
    } else {
      n := FirstIncomplete(stream, disk, StartNumber(disk), Bound(disk) - 1);
    }
  }

  // ---------- Outcomes ----------

  /**
   An orphan index stops an initialization exactly when every file from the start through the last log is complete
   and the index is the next file's.
   */
  lemma InitFailsOnOrphanExactly(stream: StreamId, disk: Disk, number: LogFileNumber)
    ensures Init(stream, disk) == OrphanIndex(number)
            <==> && Discovered(stream, disk) && number == Bound(disk) && number in disk.indexes
                 && AllComplete(stream, disk, StartNumber(disk), Bound(disk))
  {
    hide WalkAll, Discovered, Cleaned, PairAt, AllComplete, CompleteAt, Maximum, IsMaximum, StartNumber, Init;
    if Discovered(stream, disk) {
      var n := WalkAllFirst(stream, disk);
      WalkAllVerdict(stream, disk, n);
      if n < Bound(disk) && AllComplete(stream, disk, StartNumber(disk), Bound(disk)) {
        FirstIsUnique(stream, disk, n, Bound(disk));
      }
      OrphanAfterWalk(stream, disk, number);
    } else {
      Undiscovered(stream, disk);
    }
  }

  lemma FirstIsUnique(stream: StreamId, disk: Disk, n: nat, k: nat)
    requires StartNumber(disk) <= n && AllComplete(stream, disk, StartNumber(disk), k) && n < k <= MAX_FILE_NUMBER + 1
    ensures CompleteAt(stream, disk, n)
  {
    hide CompleteAt;
  }

  lemma Undiscovered(stream: StreamId, disk: Disk)
    ensures Init(stream, disk) == CheckpointDisagrees <==> !Discovered(stream, disk)
  {
    hide WalkAll, Discovered, Published;
  }

  /** The orphan index in terms of the walk. */
  lemma OrphanAfterWalk(stream: StreamId, disk: Disk, number: LogFileNumber)
    requires Discovered(stream, disk)
    ensures Init(stream, disk) == OrphanIndex(number)
            <==> && WalkAll(stream, disk).Walked? && WalkAll(stream, disk).active == None
                 && number == WalkAll(stream, disk).visited + 1 == Bound(disk) && number in disk.indexes
  {
    hide WalkAll, Discovered, Cleaned, PairAt;
    if WalkAll(stream, disk).Walked? {
      WalkFacts(stream, disk);
      if WalkAll(stream, disk).active == None {
        CleanedIndex(stream, disk, WalkAll(stream, disk).visited + 1);
      }
    }
  }

  /** The checkpoint's file is missing, too short for the checkpoint, or indexed differently. */
  ghost predicate CheckpointRefuted(stream: StreamId, disk: Disk, end: RecordEnd)
    requires end.id.stream == stream
  {
    var n: LogFileNumber := end.id.sequence / 100_000;
    n in disk.logs ==>
      var file := LogFileId(stream, n);
      || !CoversPrefix(file, Some(end), disk.logs[n])
      || (!OverfullLastFile(file, Some(end), disk.logs[n]) && !StoresTrustedEnd(Some(end), IndexOf(disk, n)))
  }

  /**
   Content is rejected exactly when the checkpoint is refuted by its own file while a log of that number or a greater
   one exists; no file behind the checkpoint's is ever rejected.
   */
  lemma InitRejectsExactly(stream: StreamId, disk: Disk)
    ensures Init(stream, disk) == InitRejected
            <==> && disk.checkpoint.Some? && disk.checkpoint.value.id.stream == stream
                 && (exists n :: n in disk.logs && n >= disk.checkpoint.value.id.sequence / 100_000)
                 && CheckpointRefuted(stream, disk, disk.checkpoint.value)
  {
    hide WalkAll, Discovered, PairAt, AllComplete, CompleteAt, Init, CheckpointRefuted, Maximum, IsMaximum;
    DiscoveredExactly(stream, disk);
    if Discovered(stream, disk) {
      StartsBelowBound(stream, disk);
      var n := WalkAllFirst(stream, disk);
      WalkAllVerdict(stream, disk, n);
      FailedWalkExactly(stream, disk);
      if Bound(disk) > 0 {
        RefutedAt(stream, disk, n);
        if disk.checkpoint.Some? && n > StartNumber(disk) {
          assert CompleteAt(stream, disk, StartNumber(disk)) by { FirstOfComplete(stream, disk, n); }
          CompleteIsNotRefuted(stream, disk);
        }
      }
    } else {
      Undiscovered(stream, disk);
    }
  }

  /** A checkpoint whose own file holds its end, but whose index holds another one, makes initialization fail. */
  lemma DifferentEntryIsRejected(stream: StreamId, disk: Disk, end: RecordEnd)
    requires disk.checkpoint == Some(end) && end.id.stream == stream
    requires var n: LogFileNumber := end.id.sequence / 100_000;
             n in disk.logs && !StoresTrustedEnd(Some(end), IndexOf(disk, n))
             && !OverfullLastFile(LogFileId(stream, n), Some(end), disk.logs[n])
    ensures Init(stream, disk) == InitRejected
  {
    hide Init, OverfullLastFile, StoresTrustedEnd, CoversPrefix;
    InitRejectsExactly(stream, disk);
  }

  /** Discovery on the checkpoint's numbers and the logs that exist. */
  lemma DiscoveredExactly(stream: StreamId, disk: Disk)
    ensures Discovered(stream, disk)
            <==> match disk.checkpoint
                 case None => true
                 case Some(end) => && end.id.stream == stream
                                   && exists n :: n in disk.logs && n >= end.id.sequence / 100_000
  {
    hide Maximum;
    var maximum := Maximum(disk.logs.Keys);
    assert IsMaximum(disk.logs.Keys, maximum);
  }

  /** The checkpoint disagrees with the stream or with what was discovered. */
  lemma CheckpointDisagreesExactly(stream: StreamId, disk: Disk)
    ensures Init(stream, disk) == CheckpointDisagrees
            <==> && disk.checkpoint.Some?
                 && (disk.checkpoint.value.id.stream != stream
                     || forall n :: n in disk.logs ==> n < disk.checkpoint.value.id.sequence / 100_000)
  {
    hide Init, Discovered;
    Undiscovered(stream, disk);
    DiscoveredExactly(stream, disk);
  }

  lemma StartsBelowBound(stream: StreamId, disk: Disk)
    requires Discovered(stream, disk)
    ensures disk.checkpoint.Some? ==> StartNumber(disk) < Bound(disk)
  {
    hide Maximum, IsMaximum, WalkAll;
  }

  lemma FirstOfComplete(stream: StreamId, disk: Disk, n: nat)
    requires AllComplete(stream, disk, StartNumber(disk), n) && StartNumber(disk) < n
    ensures CompleteAt(stream, disk, StartNumber(disk))
  {
    hide CompleteAt;
  }

  /** At the first file that is not complete, a walk is rejected exactly when this is the checkpoint's and refutes it. */
  lemma RefutedAt(stream: StreamId, disk: Disk, n: nat)
    requires Discovered(stream, disk) && StartNumber(disk) <= n <= Bound(disk) && Bound(disk) > 0
    requires Verdict(stream, disk, Bound(disk) - 1, n, WalkAll(stream, disk))
    ensures WalkAll(stream, disk) == WalkRejected
            <==> disk.checkpoint.Some? && n == StartNumber(disk) && n < Bound(disk)
                 && CheckpointRefuted(stream, disk, disk.checkpoint.value)
  {
    hide WalkAll, Maximum, IsMaximum, RecoverPair, OverfullLastFile, StoresTrustedEnd, CoversPrefix;
    if n < Bound(disk) && n in disk.logs {
      NoTrustNoRejection(LogFileId(stream, n), disk.logs[n], IndexOf(disk, n));
      PairRejectedExactly(LogFileId(stream, n), TrustedIn(disk.checkpoint, n), disk.logs[n], IndexOf(disk, n));
    }
  }

  lemma NoTrustNoRejection(file: LogFileId, log: seq<byte>, index: seq<byte>)
    ensures RecoverPair(file, None, log, index) != PairRejected
  {
    hide RecoverPair, OverfullLastFile;
    PairRejectedExactly(file, None, log, index);
  }

  lemma CompleteIsNotRefuted(stream: StreamId, disk: Disk)
    requires Discovered(stream, disk) && disk.checkpoint.Some? && CompleteAt(stream, disk, StartNumber(disk))
    ensures !CheckpointRefuted(stream, disk, disk.checkpoint.value)
  {
    hide Maximum, IsMaximum, RecoverPair, OverfullLastFile, StoresTrustedEnd, CoversPrefix;
    var n := StartNumber(disk);
    PairRejectedExactly(LogFileId(stream, n), disk.checkpoint, disk.logs[n], IndexOf(disk, n));
  }

  lemma FailedWalkExactly(stream: StreamId, disk: Disk)
    requires Discovered(stream, disk)
    ensures Init(stream, disk) == InitRejected <==> WalkAll(stream, disk) == WalkRejected
    ensures Init(stream, disk) == InitPanics <==> WalkAll(stream, disk) == WalkPanics
    ensures Init(stream, disk) != CheckpointDisagrees
  {
    hide WalkAll, Discovered, Published;
  }

  /**
   An initialization panics exactly when it reaches the last representable file over complete ones and finds all of
   that file's records there with one more valid frame behind them.
   */
  lemma InitPanicsExactly(stream: StreamId, disk: Disk)
    ensures Init(stream, disk) == InitPanics
            <==> && Discovered(stream, disk) && MAX_FILE_NUMBER in disk.logs
                 && AllComplete(stream, disk, StartNumber(disk), MAX_FILE_NUMBER)
                 && OverfullLastFile(LogFileId(stream, MAX_FILE_NUMBER), TrustedIn(disk.checkpoint, MAX_FILE_NUMBER),
                                     disk.logs[MAX_FILE_NUMBER])
  {
    hide WalkAll, Discovered, PairAt, AllComplete, CompleteAt, Maximum;
    hide IsMaximum, StartNumber, Init, TrustedIn, OverfullLastFile;
    if Discovered(stream, disk) {
      var n := WalkAllFirst(stream, disk);
      WalkAllVerdict(stream, disk, n);
      FailedWalkExactly(stream, disk);
      if n < Bound(disk) && n in disk.logs {
        PairPanicsExactly(stream, disk, n);
      }
      if MAX_FILE_NUMBER in disk.logs {
        LogsAreBounded(disk, MAX_FILE_NUMBER);
        PairPanicsExactly(stream, disk, MAX_FILE_NUMBER);
        if AllComplete(stream, disk, StartNumber(disk), MAX_FILE_NUMBER) && PairAt(stream, disk, MAX_FILE_NUMBER) == PairPanics {
          PanickingIsIncomplete(stream, disk, MAX_FILE_NUMBER);
          WalkAllVerdict(stream, disk, MAX_FILE_NUMBER);
        }
      }
    } else {
      Undiscovered(stream, disk);
    }
  }

  lemma PairPanicsExactly(stream: StreamId, disk: Disk, n: LogFileNumber)
    requires n in disk.logs
    ensures PairAt(stream, disk, n) == PairPanics
            <==> OverfullLastFile(LogFileId(stream, n), TrustedIn(disk.checkpoint, n), disk.logs[n])
    ensures PairAt(stream, disk, n) == PairPanics ==> n == MAX_FILE_NUMBER
  {
    hide RecoverLog, RepairIndex, KeptLog, TrustedIn, Continues, Parse, ValidStart;
    RecoveryPanicsExactly(LogFileId(stream, n), TrustedIn(disk.checkpoint, n), disk.logs[n]);
  }

  lemma PanickingIsIncomplete(stream: StreamId, disk: Disk, n: LogFileNumber)
    requires n in disk.logs && PairAt(stream, disk, n) == PairPanics
    ensures !CompleteAt(stream, disk, n)
  {
    hide PairAt, CompletePair;
  }

  /** The first file that is not complete is partial, or a gap in front of later logs, or the next one without an index. */
  ghost predicate ContinuesAt(stream: StreamId, disk: Disk, n: LogFileNumber) {
    && StartNumber(disk) <= n <= Bound(disk) && AllComplete(stream, disk, StartNumber(disk), n)
    && if n in disk.logs then PairAt(stream, disk, n).PairRecovered? && !CompletePair(PairAt(stream, disk, n).end)
       else if n < Bound(disk) then TrustedIn(disk.checkpoint, n) == None
       else n !in disk.indexes
  }

  /** When an initialization succeeds, and with which file as the active one. */
  lemma InitSucceedsExactly(stream: StreamId, disk: Disk, number: LogFileNumber)
    ensures Init(stream, disk).InitOk? && Init(stream, disk).active.number == number
            <==> Discovered(stream, disk) && ContinuesAt(stream, disk, number)
  {
    hide WalkAll, Discovered, PairAt, AllComplete, CompleteAt, StartNumber, Init, TrustedIn, Maximum, IsMaximum;
    if Discovered(stream, disk) {
      FailedWalkExactly(stream, disk);
      var n := WalkAllFirst(stream, disk);
      WalkAllVerdict(stream, disk, n);
      if WalkAll(stream, disk).Walked? {
        SuccessFollowsWalk(stream, disk);
        if n < Bound(disk) && n in disk.logs {
          PartialIsIncomplete(stream, disk, n);
        }
      }
      LogsAreBounded(disk, number);
      if ContinuesAt(stream, disk, number) {
        ContinuingIsIncomplete(stream, disk, number);
        WalkAllVerdict(stream, disk, number);
      }
    } else {
      Undiscovered(stream, disk);
    }
  }

  /** Success in terms of the walk. */
  lemma SuccessFollowsWalk(stream: StreamId, disk: Disk)
    requires Discovered(stream, disk) && WalkAll(stream, disk).Walked?
    ensures var walk, r := WalkAll(stream, disk), Init(stream, disk);
            && (walk.active.Some? ==> r.InitOk? && r.active == walk.active.value)
            && (walk.active == None ==>
                  && 0 <= walk.visited + 1 <= Bound(disk)
                  && (r.InitOk? <==> walk.visited + 1 < Bound(disk) || walk.visited + 1 !in disk.indexes)
                  && (r.InitOk? ==> r.active == Active(walk.visited + 1, None)))
  {
    hide WalkAll, Discovered, Cleaned, PairAt, Init, AllRecovered;
    WalkFacts(stream, disk);
    InitFollowsWalk(stream, disk);
    if WalkAll(stream, disk).active == None {
      CleanedIndex(stream, disk, WalkAll(stream, disk).visited + 1);
    }
  }

  lemma PartialIsIncomplete(stream: StreamId, disk: Disk, n: LogFileNumber)
    requires n in disk.logs && !CompleteAt(stream, disk, n)
    ensures PairAt(stream, disk, n).PairRecovered? ==> !CompletePair(PairAt(stream, disk, n).end)
  {
    hide PairAt, CompletePair;
  }

  lemma ContinuingIsIncomplete(stream: StreamId, disk: Disk, n: LogFileNumber)
    requires ContinuesAt(stream, disk, n)
    ensures n < Bound(disk) ==> !CompleteAt(stream, disk, n)
  {
    hide PairAt, CompletePair, AllComplete;
  }

  /** A gap never fails: the file created is the gap's, whose index has been removed with everything behind it. */
  lemma GapIsFilled(stream: StreamId, disk: Disk, gap: LogFileNumber)
    requires Discovered(stream, disk) && StartNumber(disk) <= gap < Bound(disk) && gap !in disk.logs
    requires AllComplete(stream, disk, StartNumber(disk), gap) && TrustedIn(disk.checkpoint, gap) == None
    ensures var r := Init(stream, disk);
            r.InitOk? && r.active == Active(gap, None) && RecoveredTo(r.disk, gap, PairRecovered(None, [], []))
  {
    hide Discovered, PairAt, AllComplete, Init, Bound, StartNumber, WalkAll;
    InitSucceedsExactly(stream, disk, gap);
    RecoveryLeavesCompleteFilesAndActiveOne(stream, disk, gap);
  }
}
