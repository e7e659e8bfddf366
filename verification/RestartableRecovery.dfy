/**
 Recovery can be interrupted anywhere, any number of times, and still gives the result an uninterrupted run
 would have given; once it has finished, running it again changes nothing.
 */
module RestartableRecovery {
  import opened Bytes
  import opened RecordProtocol
  import opened Locations
  import opened LogFileValidator
  import opened IndexFileValidator
  import opened Storage
  import opened IndexedLogValidator
  import opened StreamInitializer

  /** The same recovered end, active file, checkpoint and logs, and the same indexes through the active file. */
  ghost predicate SameRecovery(a: InitResult, b: InitResult) {
    && a.InitOk? && b.InitOk?
    && a.active == b.active && a.recovered == b.recovered
    && a.disk.checkpoint == b.disk.checkpoint && a.disk.logs == b.disk.logs
    && forall n: LogFileNumber :: n <= a.active.number ==> SameIndex(a.disk, b.disk, n)
  }

  lemma SameTwice(a: InitResult, b: InitResult, c: InitResult)
    requires SameRecovery(a, b) && SameRecovery(b, c)
    ensures SameRecovery(a, c)
  {
    forall n: LogFileNumber | n <= a.active.number
      ensures SameIndex(a.disk, c.disk, n)
    {
      assert SameIndex(a.disk, b.disk, n) && SameIndex(b.disk, c.disk, n);
    }
  }

  // ---------- Walks ----------

  /** Every visited pair exists and was recovered. */
  lemma {:induction false} VisitedPairs(stream: StreamId, disk: Disk, number: LogFileNumber, maximum: LogFileNumber, recovered: Option<RecordEnd>)
    requires number <= maximum && PrecedingComplete(stream, recovered, number - 1)
    requires Walk(stream, disk, number, maximum, recovered).Walked?
    ensures AllRecovered(stream, disk, number, Walk(stream, disk, number, maximum, recovered).visited)
    decreases maximum - number
  {
    hide PairAt, CompletePair, PrecedingComplete;
    if number in disk.logs {
      var end := PairAt(stream, disk, number).end;
      if CompletePair(end) {
        CompletePrecedes(stream, disk, number);
        if number < maximum {
          VisitedPairs(stream, disk, number + 1, maximum, end);
        }
      }
    }
  }

  /** A walk without an active pair ends at the last log or in front of a gap. */
  lemma {:induction false} WalkEndsAtGap(stream: StreamId, disk: Disk, number: LogFileNumber, maximum: LogFileNumber, recovered: Option<RecordEnd>)
    requires number <= maximum && PrecedingComplete(stream, recovered, number - 1)
    requires Walk(stream, disk, number, maximum, recovered).Walked?
    requires Walk(stream, disk, number, maximum, recovered).active == None
    ensures var visited := Walk(stream, disk, number, maximum, recovered).visited;
            visited == maximum || visited + 1 !in disk.logs
    decreases maximum - number
  {
    hide PairAt, CompletePair, PrecedingComplete;
    if number in disk.logs {
      CompletePrecedes(stream, disk, number);
      if number < maximum {
        WalkEndsAtGap(stream, disk, number + 1, maximum, PairAt(stream, disk, number).end);
      }
    }
  }

  /** The pairs of both disks recover alike. */
  ghost predicate SamePairs(stream: StreamId, a: Disk, b: Disk, first: int, stop: int) {
    forall n: LogFileNumber :: first <= n <= stop ==> n in a.logs && n in b.logs && PairAt(stream, a, n) == PairAt(stream, b, n)
  }

  /** A walk depends only on the pairs it visits and on there being no log behind a gap. */
  lemma {:induction false} WalkAgain(stream: StreamId, a: Disk, b: Disk, number: LogFileNumber, maximumA: LogFileNumber,
                                     maximumB: LogFileNumber, recovered: Option<RecordEnd>)
    requires number <= maximumA && number <= maximumB && PrecedingComplete(stream, recovered, number - 1)
    requires Walk(stream, a, number, maximumA, recovered).Walked?
    requires a.checkpoint == b.checkpoint && StartNumber(a) <= number
    requires number == StartNumber(a) && a.checkpoint.Some? ==> number in a.logs
    requires var walk := Walk(stream, a, number, maximumA, recovered);
             && walk.visited <= maximumB && SamePairs(stream, a, b, number, walk.visited)
             && (walk.active == None ==> walk.visited + 1 !in b.logs)
    ensures Walk(stream, b, number, maximumB, recovered) == Walk(stream, a, number, maximumA, recovered)
    decreases maximumA - number
  {
    hide PairAt, CompletePair, PrecedingComplete;
    if number in a.logs {
      var end := PairAt(stream, a, number).end;
      assert number in b.logs && PairAt(stream, b, number) == PairAt(stream, a, number);
      if CompletePair(end) {
        CompletePrecedes(stream, a, number);
        if number < maximumA {
          if number == maximumB {
            BeyondEnd(stream, a, number + 1, maximumA, end);
          } else {
            WalkAgain(stream, a, b, number + 1, maximumA, maximumB, end);
          }
        } else if number < maximumB {
          assert TrustedIn(b.checkpoint, number + 1) == None;
        }
      }
    }
  }

  /** A walk that visits nothing any more has found a gap. */
  lemma BeyondEnd(stream: StreamId, disk: Disk, number: LogFileNumber, maximum: LogFileNumber, recovered: Option<RecordEnd>)
    requires number <= maximum && PrecedingComplete(stream, recovered, number - 1)
    requires Walk(stream, disk, number, maximum, recovered).Walked? && Walk(stream, disk, number, maximum, recovered).visited < number
    ensures Walk(stream, disk, number, maximum, recovered) == Walked(recovered, None, number - 1)
  {
    hide PairAt, CompletePair, PrecedingComplete;
  }

  /** The whole walk: what it visited, and what lies behind it. */
  lemma WalkFacts(stream: StreamId, disk: Disk)
    requires Discovered(stream, disk) && WalkAll(stream, disk).Walked?
    ensures var walk := WalkAll(stream, disk);
            && AllRecovered(stream, disk, StartNumber(disk), walk.visited)
            && -1 <= StartNumber(disk) - 1 <= walk.visited < Bound(disk)
            && (walk.visited < StartNumber(disk) ==> walk == Walked(None, None, -1) && disk.checkpoint == None)
            && (walk.active == None ==> walk.visited + 1 == Bound(disk) || walk.visited + 1 !in disk.logs)
            && (walk.recovered == None ==> disk.checkpoint == None)
            && (disk.checkpoint.Some? ==> StartNumber(disk) in disk.logs)
  {
    hide PairAt, CompletePair;
    if WalkAll(stream, disk).recovered == None {
      StartedFromZero(stream, disk);
    }
    match Maximum(disk.logs.Keys)
    case None =>
    case Some(maximum) =>
      NoPredecessor(stream, StartNumber(disk) - 1);
      VisitedPairs(stream, disk, StartNumber(disk), maximum, None);
      if WalkAll(stream, disk).active == None {
        WalkEndsAtGap(stream, disk, StartNumber(disk), maximum, None);
      }
  }

  // ---------- The cleaned disk ----------

  lemma LogsAreBounded(disk: Disk, n: LogFileNumber)
    ensures n in disk.logs ==> n < Bound(disk)
  {
  }

  /** After cleaning, exactly the logs up to the last visited one are left, repaired. */
  lemma CleanedLog(stream: StreamId, disk: Disk, n: LogFileNumber)
    requires Discovered(stream, disk) && WalkAll(stream, disk).Walked?
    ensures var visited, cleaned := WalkAll(stream, disk).visited, Cleaned(stream, disk);
            && (n in cleaned.logs <==> n in disk.logs && n <= visited)
            && (n in cleaned.logs ==> cleaned.logs[n] == RepairedLog(stream, disk, StartNumber(disk), visited, n))
  {
    hide RepairedDisk, PairAt, WalkAll, Discovered;
    RepairedAt(stream, disk, StartNumber(disk), WalkAll(stream, disk).visited, n);
    LogsAreBounded(disk, n);
  }

  /** Recovery opens or creates the index of every log from the start on, and leaves the other ones alone. */
  predicate IndexedAfter(disk: Disk, n: LogFileNumber) {
    n in disk.indexes || (n in disk.logs && StartNumber(disk) <= n)
  }

  /** Indexes up to the last visited one are left, repaired; an index behind it survives only above all logs. */
  lemma CleanedIndex(stream: StreamId, disk: Disk, n: LogFileNumber)
    requires Discovered(stream, disk) && WalkAll(stream, disk).Walked?
    ensures var visited, cleaned := WalkAll(stream, disk).visited, Cleaned(stream, disk);
            && (n <= visited ==> IndexOf(cleaned, n) == RepairedIndex(stream, disk, StartNumber(disk), visited, n))
            && (n <= visited ==> (n in cleaned.indexes <==> IndexedAfter(disk, n)))
            && (n > visited ==> (n in cleaned.indexes <==> n in disk.indexes && n >= Bound(disk)))
  {
    hide RepairedDisk, PairAt, WalkAll, Discovered;
    RepairedAt(stream, disk, StartNumber(disk), WalkAll(stream, disk).visited, n);
    LogsAreBounded(disk, n);
  }

  // ---------- Equal prefixes give equal results ----------

  /** The second walk ends alike, and the files up to its end are repaired to the same bytes. */
  ghost predicate SamePrefix(stream: StreamId, a: Disk, b: Disk)
    requires Discovered(stream, a) && WalkAll(stream, a).Walked?
  {
    var walk := WalkAll(stream, a);
    && Discovered(stream, b) && WalkAll(stream, b) == walk
    && (forall n: LogFileNumber :: n <= walk.visited ==>
          && (n in a.logs <==> n in b.logs)
          && (n in a.logs ==> SameRepairedLog(stream, a, b, walk.visited, n))
          && SameRepairedIndex(stream, a, b, walk.visited, n))
    && (walk.active == None && walk.visited + 1 >= Bound(b) ==> walk.visited + 1 !in b.indexes)
  }

  ghost predicate SameRepairedLog(stream: StreamId, a: Disk, b: Disk, stop: int, n: LogFileNumber)
    requires n in a.logs && n in b.logs
  {
    RepairedLog(stream, a, StartNumber(a), stop, n) == RepairedLog(stream, b, StartNumber(b), stop, n)
  }

  ghost predicate SameRepairedIndex(stream: StreamId, a: Disk, b: Disk, stop: int, n: LogFileNumber) {
    && (IndexedAfter(a, n) <==> IndexedAfter(b, n))
    && RepairedIndex(stream, a, StartNumber(a), stop, n) == RepairedIndex(stream, b, StartNumber(b), stop, n)
  }

  lemma CleanedLogsAgree(stream: StreamId, a: Disk, b: Disk)
    requires Discovered(stream, a) && WalkAll(stream, a).Walked? && SamePrefix(stream, a, b)
    ensures Discovered(stream, b) && WalkAll(stream, b) == WalkAll(stream, a)
    ensures Cleaned(stream, a).logs == Cleaned(stream, b).logs
    ensures var walk := WalkAll(stream, b); walk.active == None ==> walk.visited + 1 !in Cleaned(stream, b).indexes
  {
    hide WalkAll, Discovered, Cleaned, RepairedLog, Init, RepairedIndex;
    forall n: LogFileNumber
      ensures n in Cleaned(stream, a).logs <==> n in Cleaned(stream, b).logs
      ensures n in Cleaned(stream, a).logs ==> Cleaned(stream, a).logs[n] == Cleaned(stream, b).logs[n]
    {
      CleanedLog(stream, a, n);
      CleanedLog(stream, b, n);
    }
    if WalkAll(stream, b).active == None {
      CleanedIndex(stream, b, WalkAll(stream, b).visited + 1);
    }
  }

  /** The parts of a successful outcome, in terms of the walk and the cleaned disk. */
  ghost predicate Outcome(stream: StreamId, r: InitResult, walk: WalkResult, cleaned: map<LogFileNumber, seq<byte>>)
    requires walk.Walked? && (walk.active == None ==> 0 <= walk.visited + 1 <= MAX_FILE_NUMBER)
  {
    && r.InitOk? && r.recovered == walk.recovered && r.disk.checkpoint == walk.recovered
    && match walk.active
       case Some(active) => r.active == active && r.disk.logs == cleaned
       case None =>
         var number: LogFileNumber := walk.visited + 1;
         r.active == Active(number, None) && r.disk.logs == cleaned[number := []]
  }

  lemma InitOutcome(stream: StreamId, disk: Disk)
    requires Discovered(stream, disk) && WalkAll(stream, disk).Walked?
    requires var walk := WalkAll(stream, disk);
             walk.active == None ==> walk.visited + 1 !in Cleaned(stream, disk).indexes || Init(stream, disk).InitOk?
    ensures Outcome(stream, Init(stream, disk), WalkAll(stream, disk), Cleaned(stream, disk).logs)
  {
    hide WalkAll, Discovered, Cleaned, Init;
    InitFollowsWalk(stream, disk);
    WalkFacts(stream, disk);
    CleanedKeepsCheckpoint(stream, disk);
  }

  /** The indexes of a successful outcome, through the active file. */
  lemma OutcomeIndex(stream: StreamId, disk: Disk, n: LogFileNumber)
    requires Init(stream, disk).InitOk?
    requires Discovered(stream, disk) && WalkAll(stream, disk).Walked?
    ensures var r, walk := Init(stream, disk).disk, WalkAll(stream, disk);
            && (n <= walk.visited ==>
                  && (n in r.indexes <==> IndexedAfter(disk, n))
                  && IndexOf(r, n) == RepairedIndex(stream, disk, StartNumber(disk), walk.visited, n))
            && (walk.active == None && n == walk.visited + 1 ==> n in r.indexes && IndexOf(r, n) == [])
  {
    hide WalkAll, Discovered, Cleaned, Init, IndexedAfter, RepairedIndex;
    InitFollowsWalk(stream, disk);
    CleanedIndex(stream, disk, n);
  }

  /** Equally repaired indexes stay equal in the outcomes. */
  lemma OutcomeIndexesAgree(stream: StreamId, a: Disk, b: Disk, n: LogFileNumber)
    requires Init(stream, a).InitOk? && Init(stream, b).InitOk?
    requires Discovered(stream, a) && WalkAll(stream, a).Walked? && SamePrefix(stream, a, b)
    requires n <= Init(stream, a).active.number
    ensures SameIndex(Init(stream, a).disk, Init(stream, b).disk, n)
  {
    hide WalkAll, Discovered, Init, IndexedAfter, RepairedIndex, RepairedLog, IndexOf, Bound, Published;
    InitFollowsWalk(stream, a);
    WalkFacts(stream, a);
    OutcomeIndex(stream, a, n);
    OutcomeIndex(stream, b, n);
    if n <= WalkAll(stream, a).visited {
      assert SameRepairedIndex(stream, a, b, WalkAll(stream, a).visited, n);
    }
  }

  lemma SamePrefixSameResult(stream: StreamId, a: Disk, b: Disk)
    requires Init(stream, a).InitOk?
    requires Discovered(stream, a) && WalkAll(stream, a).Walked? && SamePrefix(stream, a, b)
    ensures SameRecovery(Init(stream, a), Init(stream, b))
  {
    hide WalkAll, Discovered, Cleaned, Init, SamePrefix;
    CleanedLogsAgree(stream, a, b);
    InitOutcome(stream, a);
    InitOutcome(stream, b);
    forall n: LogFileNumber | n <= Init(stream, a).active.number
      ensures SameIndex(Init(stream, a).disk, Init(stream, b).disk, n)
    {
      OutcomeIndexesAgree(stream, a, b, n);
    }
  }

  lemma InitNeedsWalk(stream: StreamId, disk: Disk)
    requires Init(stream, disk).InitOk?
    ensures Discovered(stream, disk) && WalkAll(stream, disk).Walked?
  {
    hide WalkAll, Discovered, Published;
  }

  // ---------- Stopped while repairing pairs ----------

  lemma RestartRepairing(stream: StreamId, a: Disk, b: Disk)
    requires Init(stream, a).InitOk? && Repairing(stream, a, b)
    ensures SameRecovery(Init(stream, a), Init(stream, b))
  {
    hide Init, PairAt, WalkAll, Discovered, Repairing, Bound;
    InitNeedsWalk(stream, a);
    WalkFacts(stream, a);
    var walk := WalkAll(stream, a);
    RepairingKeepsPairs(stream, a, b);
    RepairingWalk(stream, a, b);
    forall n: LogFileNumber | n <= walk.visited && n in a.logs
      ensures SameRepairedLog(stream, a, b, walk.visited, n)
    {
      RepairingRepairsAlike(stream, a, b, walk.visited, n);
    }
    forall n: LogFileNumber | n <= walk.visited
      ensures SameRepairedIndex(stream, a, b, walk.visited, n)
    {
      RepairingIndexesAlike(stream, a, b, walk.visited, n);
    }
    if walk.active == None && walk.visited + 1 >= Bound(b) {
      SuccessorHasNoIndex(stream, a);
      assert SameIndex(a, b, walk.visited + 1) by {
        LogsAreBounded(a, walk.visited + 1);
      }
    }
    SamePrefixSameResult(stream, a, b);
  }

  /** Pairs with repairs in progress recover as before, and the rest is as before. */
  lemma RepairingKeepsPairs(stream: StreamId, a: Disk, b: Disk)
    requires Repairing(stream, a, b)
    ensures b.logs.Keys == a.logs.Keys && b.checkpoint == a.checkpoint && Bound(a) == Bound(b)
    ensures forall n: LogFileNumber :: n in a.logs && n in b.logs && StartNumber(a) <= n ==> PairAt(stream, b, n) == PairAt(stream, a, n)
    ensures forall n: LogFileNumber :: n in a.logs && n in b.logs && n < StartNumber(a) ==> a.logs[n] == b.logs[n]
    ensures forall n: LogFileNumber :: n !in a.logs || n < StartNumber(a) ==> SameIndex(a, b, n)
  {
    hide PairAt, PairInProgress;
    forall n: LogFileNumber | n in a.logs && StartNumber(a) <= n
      ensures PairAt(stream, b, n) == PairAt(stream, a, n)
    {
      assert PairRepairing(stream, a, b, n);
      SamePairRecovery(stream, a, b, n);
    }
    forall n: LogFileNumber | n in a.logs && n < StartNumber(a)
      ensures a.logs[n] == b.logs[n]
    {
      assert PairRepairing(stream, a, b, n);
    }
  }

  lemma RepairingWalk(stream: StreamId, a: Disk, b: Disk)
    requires Discovered(stream, a) && WalkAll(stream, a).Walked? && Repairing(stream, a, b)
    ensures Discovered(stream, b) && WalkAll(stream, b) == WalkAll(stream, a)
  {
    hide PairAt, Repairing;
    WalkFacts(stream, a);
    RepairingKeepsPairs(stream, a, b);
    match Maximum(a.logs.Keys) {
      case None =>
      case Some(maximum) =>
        NoPredecessor(stream, StartNumber(a) as int - 1);
        GapStaysGap(stream, a, b);
        WalkAgain(stream, a, b, StartNumber(a), maximum, maximum, None);
    }
  }

  lemma RepairingRepairsAlike(stream: StreamId, a: Disk, b: Disk, stop: int, n: LogFileNumber)
    requires Repairing(stream, a, b) && n in a.logs && AllRecovered(stream, a, StartNumber(a), stop) && n <= stop
    ensures n in b.logs && SameRepairedLog(stream, a, b, stop, n)
  {
    hide PairAt, Repairing;
    RepairingKeepsPairs(stream, a, b);
  }

  lemma RepairingIndexesAlike(stream: StreamId, a: Disk, b: Disk, stop: int, n: LogFileNumber)
    requires Repairing(stream, a, b) && AllRecovered(stream, a, StartNumber(a), stop) && n <= stop
    ensures SameRepairedIndex(stream, a, b, stop, n)
  {
    hide PairAt, Repairing, IndexOf;
    RepairingKeepsPairs(stream, a, b);
    if n in a.logs && StartNumber(a) <= n {
      assert n in b.logs && PairAt(stream, b, n) == PairAt(stream, a, n) && PairAt(stream, a, n).PairRecovered?;
      assert RepairedIndex(stream, a, StartNumber(a), stop, n) == PairAt(stream, a, n).index;
    } else {
      assert SameIndex(a, b, n);
      assert RepairedIndex(stream, a, StartNumber(a), stop, n) == IndexOf(a, n);
    }
  }

  lemma SamePairRecovery(stream: StreamId, a: Disk, b: Disk, n: LogFileNumber)
    requires n in a.logs && n in b.logs && a.checkpoint == b.checkpoint
    requires PairInProgress(LogFileId(stream, n), TrustedIn(a.checkpoint, n), a.logs[n], IndexOf(a, n), b.logs[n], IndexOf(b, n))
    ensures PairAt(stream, b, n) == PairAt(stream, a, n)
  {
    hide PairInProgress, RecoverPair;
    PairIsRestartable(LogFileId(stream, n), TrustedIn(a.checkpoint, n), a.logs[n], IndexOf(a, n), b.logs[n], IndexOf(b, n));
  }

  lemma GapStaysGap(stream: StreamId, a: Disk, b: Disk)
    requires Discovered(stream, a) && WalkAll(stream, a).Walked? && b.logs.Keys == a.logs.Keys
    ensures WalkAll(stream, a).active == None ==> WalkAll(stream, a).visited + 1 !in b.logs
  {
    hide WalkAll, Discovered;
    WalkFacts(stream, a);
    if WalkAll(stream, a).active == None {
      LogsAreBounded(a, WalkAll(stream, a).visited + 1);
    }
  }

  /** Where initialization succeeds by creating a pair, no orphan index is in its way. */
  lemma SuccessorHasNoIndex(stream: StreamId, disk: Disk)
    requires Init(stream, disk).InitOk?
    requires Discovered(stream, disk) && WalkAll(stream, disk).Walked? && WalkAll(stream, disk).active == None
    requires WalkAll(stream, disk).visited + 1 >= Bound(disk)
    ensures WalkAll(stream, disk).visited + 1 !in disk.indexes
  {
    hide WalkAll, Discovered, Cleaned, Init;
    InitFollowsWalk(stream, disk);
    CleanedIndex(stream, disk, WalkAll(stream, disk).visited + 1);
  }

  // ---------- Stopped while removing, or before the new checkpoint is in place ----------

  /** One file of `b` is what recovery made of it on `a`. */
  ghost predicate PairInPlace(stream: StreamId, a: Disk, b: Disk, stop: int, n: LogFileNumber) {
    && (n in b.logs <==> n in a.logs)
    && (n in b.logs && n in a.logs ==> b.logs[n] == RepairedLog(stream, a, StartNumber(a), stop, n))
    && IndexOf(b, n) == RepairedIndex(stream, a, StartNumber(a), stop, n)
    && (n in b.indexes <==> IndexedAfter(a, n))
  }

  /** Recovering a pair that is in place once more changes nothing about its index. */
  lemma InPlaceIndex(stream: StreamId, a: Disk, b: Disk, stop: int, n: LogFileNumber)
    requires PairInPlace(stream, a, b, stop, n) && StartNumber(a) <= StartNumber(b)
    requires n in b.logs && StartNumber(b) <= n <= stop && PairAt(stream, b, n).PairRecovered? ==>
               PairAt(stream, b, n).index == IndexOf(b, n)
    ensures SameRepairedIndex(stream, a, b, stop, n)
  {
    hide RepairedIndex, RepairedLog, IndexOf;
    SettledIndex(stream, b, stop, n);
  }

  lemma SettledIndex(stream: StreamId, disk: Disk, stop: int, n: LogFileNumber)
    requires n in disk.logs && StartNumber(disk) <= n <= stop && PairAt(stream, disk, n).PairRecovered? ==>
               PairAt(stream, disk, n).index == IndexOf(disk, n)
    ensures RepairedIndex(stream, disk, StartNumber(disk), stop, n) == IndexOf(disk, n)
  {
    hide PairAt, IndexOf, StartNumber;
  }

  /** The recovered prefix is in place under the old checkpoint, and what lies behind it may be partly gone. */
  ghost predicate PrefixInPlace(stream: StreamId, a: Disk, b: Disk)
    requires Discovered(stream, a) && WalkAll(stream, a).Walked?
  {
    var walk := WalkAll(stream, a);
    && b.checkpoint == a.checkpoint
    && (forall n: LogFileNumber :: n <= walk.visited ==> PairInPlace(stream, a, b, walk.visited, n))
    && (walk.active == None ==> walk.visited + 1 !in b.logs)
    && (walk.active == None && walk.visited + 1 >= Bound(b) ==> walk.visited + 1 !in b.indexes)
  }

  lemma RestartPrefixInPlace(stream: StreamId, a: Disk, b: Disk)
    requires Init(stream, a).InitOk?
    requires Discovered(stream, a) && WalkAll(stream, a).Walked? && PrefixInPlace(stream, a, b)
    ensures SameRecovery(Init(stream, a), Init(stream, b))
  {
    hide Init, PairAt, RecoverPair;
    WalkFacts(stream, a);
    var first, walk := StartNumber(a), WalkAll(stream, a);
    forall n: LogFileNumber | first <= n <= walk.visited
      ensures n in a.logs && n in b.logs && PairAt(stream, b, n) == PairAt(stream, a, n)
    {
      assert PairInPlace(stream, a, b, walk.visited, n);
      RecoveredPairAgain(stream, a, b, n);
    }
    PrefixWalk(stream, a, b);
    forall n: LogFileNumber | n <= walk.visited
      ensures n in a.logs <==> n in b.logs
      ensures n in a.logs ==> SameRepairedLog(stream, a, b, walk.visited, n)
      ensures SameRepairedIndex(stream, a, b, walk.visited, n)
    {
      assert PairInPlace(stream, a, b, walk.visited, n);
      InPlaceIndex(stream, a, b, walk.visited, n);
    }
    SamePrefixSameResult(stream, a, b);
  }

  lemma RecoveredPairAgain(stream: StreamId, a: Disk, b: Disk, n: LogFileNumber)
    requires n in a.logs && n in b.logs && a.checkpoint == b.checkpoint && PairAt(stream, a, n).PairRecovered?
    requires b.logs[n] == PairAt(stream, a, n).log && IndexOf(b, n) == PairAt(stream, a, n).index
    ensures PairAt(stream, b, n) == PairAt(stream, a, n)
  {
    hide PairInProgress, RecoverPair;
    FinishedPairIsInProgress(LogFileId(stream, n), TrustedIn(a.checkpoint, n), a.logs[n], IndexOf(a, n));
    SamePairRecovery(stream, a, b, n);
  }

  /** Over the same prefix, the second walk finds the same. */
  lemma PrefixWalk(stream: StreamId, a: Disk, b: Disk)
    requires Discovered(stream, a) && WalkAll(stream, a).Walked? && PrefixInPlace(stream, a, b)
    requires SamePairs(stream, a, b, StartNumber(a), WalkAll(stream, a).visited)
    ensures Discovered(stream, b) && WalkAll(stream, b) == WalkAll(stream, a)
  {
    hide PairAt, RepairedLog, RepairedIndex;
    WalkFacts(stream, a);
    assert WalkAll(stream, a).visited >= 0 ==> PairInPlace(stream, a, b, WalkAll(stream, a).visited, WalkAll(stream, a).visited);
    var first: nat, walk := StartNumber(a), WalkAll(stream, a);
    if walk.visited >= first {
      assert walk.visited in b.logs;
      LogsAreBounded(b, walk.visited);
    }
    match Maximum(b.logs.Keys) {
      case None =>
      case Some(maximumB) =>
        NoPredecessor(stream, first - 1);
        if Maximum(a.logs.Keys) == None {
          assert 0 !in b.logs;
          NothingToWalk(stream, b, maximumB);
        } else {
          WalkAgain(stream, a, b, first, Maximum(a.logs.Keys).value, maximumB, None);
        }
    }
  }

  lemma NothingToWalk(stream: StreamId, disk: Disk, maximum: LogFileNumber)
    requires disk.checkpoint == None && 0 !in disk.logs
    ensures PrecedingComplete(stream, None, -1) && Walk(stream, disk, 0, maximum, None) == Walked(None, None, -1)
  {
  }

  lemma RemovingKeepsPrefix(stream: StreamId, a: Disk, b: Disk)
    requires Discovered(stream, a) && WalkAll(stream, a).Walked? && Removing(stream, a, b)
    ensures PrefixInPlace(stream, a, b)
  {
    hide WalkAll, Discovered, RepairedDisk, RemovedThrough, PairInPlace, IndexOf, AllRecovered, PairAt;
    var first, walk := StartNumber(a), WalkAll(stream, a);
    var repaired := RepairedDisk(stream, a, first, walk.visited);
    WalkFacts(stream, a);
    var last: LogFileNumber := Bound(a) - 1;
    var k: nat :| walk.visited + 1 <= k <= last && RemovedThrough(repaired, walk.visited + 1, k, b);
    RemovedKeepsPairs(stream, a, walk.visited, k, b);
    if walk.active == None {
      RepairedAt(stream, a, first, walk.visited, last);
      RepairedAt(stream, a, first, walk.visited, walk.visited + 1);
      LastLogExists(a);
      RemovedBelowLast(repaired, walk.visited + 1, k, last, b);
    }
  }

  lemma RemovedKeepsPairs(stream: StreamId, a: Disk, visited: int, k: nat, b: Disk)
    requires -1 <= visited < k && RemovedThrough(RepairedDisk(stream, a, StartNumber(a), visited), visited + 1, k, b)
    ensures b.checkpoint == a.checkpoint
    ensures forall n: LogFileNumber :: n <= visited ==> PairInPlace(stream, a, b, visited, n)
  {
    hide RepairedDisk, RemovedThrough, PairInPlace, IndexOf, StartNumber;
    var repaired := RepairedDisk(stream, a, StartNumber(a), visited);
    RepairedAt(stream, a, StartNumber(a), visited, 0);
    RemovalKeepsBelow(repaired, visited + 1, k, b);
    forall n: LogFileNumber | n <= visited
      ensures PairInPlace(stream, a, b, visited, n)
    {
      StillInPlace(stream, a, visited, b, n);
    }
  }

  lemma StillInPlace(stream: StreamId, a: Disk, stop: int, b: Disk, n: LogFileNumber)
    requires var repaired := RepairedDisk(stream, a, StartNumber(a), stop);
             && (n in b.logs <==> n in repaired.logs)
             && (n in repaired.logs ==> b.logs[n] == repaired.logs[n])
             && SameIndex(repaired, b, n)
    requires n <= stop
    ensures PairInPlace(stream, a, b, stop, n)
  {
    hide RepairedDisk, RepairedLog, RepairedIndex, IndexOf;
    RepairedAt(stream, a, StartNumber(a), stop, n);
  }

  lemma RemovalKeepsBelow(before: Disk, first: nat, k: nat, after: Disk)
    requires first <= k && RemovedThrough(before, first, k, after)
    ensures after.checkpoint == before.checkpoint
    ensures forall n: LogFileNumber :: n < first ==>
              && (n in after.logs <==> n in before.logs)
              && (n in before.logs ==> after.logs[n] == before.logs[n])
              && SameIndex(before, after, n)
  {
  }

  lemma LastLogExists(disk: Disk)
    ensures Bound(disk) > 0 ==> Bound(disk) - 1 in disk.logs
  {
  }

  /** Removal from a gap on: while the last log is there, the gap lies below it; once it is gone, so is the gap's index. */
  lemma RemovedBelowLast(before: Disk, gap: LogFileNumber, k: nat, last: LogFileNumber, after: Disk)
    requires gap <= k <= last && gap !in before.logs && last in before.logs && RemovedThrough(before, gap, k, after)
    ensures gap !in after.logs
    ensures gap >= Bound(after) ==> gap !in after.indexes
  {
    if k < last {
      LogsAreBounded(after, last);
    }
  }

  lemma CleanedInPlace(stream: StreamId, a: Disk, b: Disk, n: LogFileNumber)
    requires Discovered(stream, a) && WalkAll(stream, a).Walked? && n <= WalkAll(stream, a).visited
    requires var cleaned := Cleaned(stream, a);
             && (n in b.logs <==> n in cleaned.logs) && (n in cleaned.logs ==> b.logs[n] == cleaned.logs[n])
             && SameIndex(cleaned, b, n)
    ensures PairInPlace(stream, a, b, WalkAll(stream, a).visited, n)
  {
    hide WalkAll, Discovered, Cleaned, RepairedLog, RepairedIndex, IndexOf;
    CleanedLog(stream, a, n);
    CleanedIndex(stream, a, n);
  }

  lemma CleanedPairsInPlace(stream: StreamId, a: Disk, b: Disk)
    requires Discovered(stream, a) && WalkAll(stream, a).Walked?
    requires b.logs == Cleaned(stream, a).logs && b.indexes == Cleaned(stream, a).indexes
    ensures forall n: LogFileNumber :: n <= WalkAll(stream, a).visited ==> PairInPlace(stream, a, b, WalkAll(stream, a).visited, n)
  {
    hide WalkAll, Discovered, Cleaned, PairInPlace, Maximum;
    forall n: LogFileNumber | n <= WalkAll(stream, a).visited
      ensures PairInPlace(stream, a, b, WalkAll(stream, a).visited, n)
    {
      CleanedInPlace(stream, a, b, n);
    }
  }

  /** After the removal, under the old checkpoint. */
  lemma CleanedIsInPlace(stream: StreamId, a: Disk, b: Disk)
    requires Init(stream, a).InitOk?
    requires Discovered(stream, a) && WalkAll(stream, a).Walked?
    requires b.logs == Cleaned(stream, a).logs && b.indexes == Cleaned(stream, a).indexes && b.checkpoint == a.checkpoint
    ensures PrefixInPlace(stream, a, b)
  {
    hide WalkAll, Discovered, Cleaned, PairInPlace, Init, Maximum, IsMaximum, IndexOf, AllRecovered, RepairedLog, PairAt;
    WalkFacts(stream, a);
    CleanedPairsInPlace(stream, a, b);
    if WalkAll(stream, a).active == None {
      CleanedLog(stream, a, WalkAll(stream, a).visited + 1);
      NoOrphan(stream, a);
    }
  }

  lemma NoOrphan(stream: StreamId, disk: Disk)
    requires Init(stream, disk).InitOk?
    requires Discovered(stream, disk) && WalkAll(stream, disk).Walked? && WalkAll(stream, disk).active == None
    ensures WalkAll(stream, disk).visited + 1 !in Cleaned(stream, disk).indexes
  {
    hide WalkAll, Discovered, Cleaned, Init;
    InitFollowsWalk(stream, disk);
  }

  // ---------- Stopped, or finished, with the new checkpoint in place ----------

  /** `number` was recovered to `end`. */
  ghost predicate RecoveredEndOf(stream: StreamId, disk: Disk, number: int, end: Option<RecordEnd>) {
    && 0 <= number <= MAX_FILE_NUMBER && number in disk.logs
    && PairAt(stream, disk, number).PairRecovered? && PairAt(stream, disk, number).end == end
  }

  /** The recovered end is the end of the last visited file, or of the one before an empty active file. */
  ghost predicate RecoveredWhere(stream: StreamId, disk: Disk, number: int, recovered: Option<RecordEnd>, walk: WalkResult)
    requires walk.Walked?
  {
    match walk.active
    case None =>
      walk.visited >= number ==> RecoveredEndOf(stream, disk, walk.visited, walk.recovered) && CompletePair(walk.recovered)
    case Some(active) =>
      && RecoveredEndOf(stream, disk, walk.visited, active.end)
      && if active.end.Some? then walk.recovered == active.end
         else if walk.visited == number then walk.recovered == recovered
         else RecoveredEndOf(stream, disk, walk.visited - 1, walk.recovered) && CompletePair(walk.recovered)
  }

  lemma {:induction false} WalkRecoversLast(stream: StreamId, disk: Disk, number: LogFileNumber, maximum: LogFileNumber, recovered: Option<RecordEnd>)
    requires number <= maximum && PrecedingComplete(stream, recovered, number - 1)
    requires Walk(stream, disk, number, maximum, recovered).Walked?
    ensures RecoveredWhere(stream, disk, number, recovered, Walk(stream, disk, number, maximum, recovered))
    decreases maximum - number
  {
    hide PairAt, CompletePair, PrecedingComplete;
    if number in disk.logs {
      var end := PairAt(stream, disk, number).end;
      if CompletePair(end) {
        CompletePrecedes(stream, disk, number);
        if number < maximum {
          WalkRecoversLast(stream, disk, number + 1, maximum, end);
          if Walk(stream, disk, number + 1, maximum, end).visited < number + 1 {
            BeyondEnd(stream, disk, number + 1, maximum, end);
          }
        }
      }
    }
  }

  /** A visited pair, once recovered, is found unchanged when trusted up to its own end, or empty and untrusted. */
  lemma SettledPair(stream: StreamId, a: Disk, b: Disk, n: LogFileNumber)
    requires n in a.logs && n in b.logs && PairAt(stream, a, n).PairRecovered?
    requires b.logs[n] == PairAt(stream, a, n).log && IndexOf(b, n) == PairAt(stream, a, n).index
    requires TrustedIn(b.checkpoint, n) == PairAt(stream, a, n).end
    ensures PairAt(stream, b, n) == PairRecovered(PairAt(stream, a, n).end, b.logs[n], IndexOf(b, n))
  {
    hide RecoverPair;
    PairFromRecoveredEnd(LogFileId(stream, n), TrustedIn(a.checkpoint, n), a.logs[n], IndexOf(a, n));
  }

  /** Every visited pair recovers to exactly what is there. */
  ghost predicate Settled(stream: StreamId, disk: Disk, first: int, stop: int) {
    forall n: LogFileNumber :: first <= n <= stop ==>
      && n in disk.logs && PairAt(stream, disk, n).PairRecovered?
      && PairAt(stream, disk, n).log == disk.logs[n] && PairAt(stream, disk, n).index == IndexOf(disk, n)
  }

  /** `b` holds the cleaned files of `a` up to the last visited one, under the new checkpoint. */
  ghost predicate PrefixPublished(stream: StreamId, a: Disk, b: Disk)
    requires Discovered(stream, a) && WalkAll(stream, a).Walked?
  {
    var walk := WalkAll(stream, a);
    && walk.recovered.Some? && b.checkpoint == walk.recovered
    && (forall n: LogFileNumber :: n <= walk.visited ==> PairInPlace(stream, a, b, walk.visited, n))
  }

  /** Where the new checkpoint points, and how its file recovers from it. */
  lemma CheckpointedFile(stream: StreamId, a: Disk, b: Disk) returns (last: LogFileNumber)
    requires Discovered(stream, a) && WalkAll(stream, a).Walked? && PrefixPublished(stream, a, b)
    ensures var walk := WalkAll(stream, a);
            && walk.recovered.Some? && b.checkpoint.value.id.stream == stream && StartNumber(b) == last
            && StartNumber(a) <= last <= walk.visited && last in b.logs
            && PairAt(stream, b, last) == PairRecovered(walk.recovered, b.logs[last], IndexOf(b, last))
            && (walk.active == None ==> last == walk.visited && CompletePair(walk.recovered))
            && (walk.active.Some? && walk.active.value.end.Some? ==>
                  last == walk.visited && walk.recovered == walk.active.value.end && !CompletePair(walk.recovered))
            && (walk.active.Some? && walk.active.value.end == None ==>
                  && last == walk.visited - 1 && CompletePair(walk.recovered)
                  && walk.visited in b.logs
                  && PairAt(stream, b, walk.visited) == PairRecovered(None, b.logs[walk.visited], IndexOf(b, walk.visited)))
  {
    hide PairAt, CompletePair, PrecedingComplete;
    var first: nat, walk := StartNumber(a), WalkAll(stream, a);
    WalkFacts(stream, a);
    var maximum := Maximum(a.logs.Keys).value;
    NoPredecessor(stream, first - 1);
    WalkRecoversLast(stream, a, first, maximum, None);
    if walk.active.Some? && walk.active.value.end == None {
      last := walk.visited - 1;
      RecoveredPairEnd(stream, a, last);
      assert PairInPlace(stream, a, b, walk.visited, walk.visited);
      SettledPair(stream, a, b, walk.visited);
    } else {
      last := walk.visited;
      RecoveredPairEnd(stream, a, last);
    }
    assert PairInPlace(stream, a, b, walk.visited, last);
    SettledPair(stream, a, b, last);
  }

  /** Without anything behind the prefix, recovery from the new checkpoint finds everything in place. */
  lemma PublishedWalk(stream: StreamId, a: Disk, b: Disk)
    requires Discovered(stream, a) && WalkAll(stream, a).Walked? && PrefixPublished(stream, a, b)
    requires Bound(b) == WalkAll(stream, a).visited + 1
    ensures Discovered(stream, b) && WalkAll(stream, b) == WalkAll(stream, a)
    ensures StartNumber(a) <= StartNumber(b)
    ensures Settled(stream, b, StartNumber(b), WalkAll(stream, a).visited)
  {
    hide PairAt, CompletePair, PrecedingComplete, PrefixPublished, WalkAll;
    var last := CheckpointedFile(stream, a, b);
    var walk := WalkAll(stream, a);
    LastLogExists(b);
    MaximumIsUnique(b.logs.Keys, Some(walk.visited));
    assert CompletePair(walk.recovered) ==> PrecedingComplete(stream, walk.recovered, last) by {
      if CompletePair(walk.recovered) {
        CompletePrecedes(stream, b, last);
      }
    }
    WalkFromCheckpoint(stream, b, last, walk.visited, walk);
    WalkAllIsWalk(stream, b, walk.visited);
    SettledPairs(stream, b, last, walk.visited);
  }

  /** A walk of at most two files over pairs that recover to what is there. */
  lemma SettledPairs(stream: StreamId, disk: Disk, first: nat, last: LogFileNumber)
    requires first <= last <= first + 1 && first in disk.logs && last in disk.logs
    requires PairAt(stream, disk, first).PairRecovered? && PairAt(stream, disk, last).PairRecovered?
    requires PairAt(stream, disk, first).log == disk.logs[first] && PairAt(stream, disk, first).index == IndexOf(disk, first)
    requires PairAt(stream, disk, last).log == disk.logs[last] && PairAt(stream, disk, last).index == IndexOf(disk, last)
    ensures Settled(stream, disk, first, last)
  {
    hide PairAt;
  }

  lemma WalkAllIsWalk(stream: StreamId, disk: Disk, maximum: LogFileNumber)
    requires Discovered(stream, disk) && Maximum(disk.logs.Keys) == Some(maximum) && StartNumber(disk) <= maximum
    ensures PrecedingComplete(stream, None, StartNumber(disk) as int - 1)
    ensures WalkAll(stream, disk) == Walk(stream, disk, StartNumber(disk), maximum, None)
  {
    hide Walk;
  }

  /** One or two steps: the checkpointed file, and an empty active file behind it. */
  lemma WalkFromCheckpoint(stream: StreamId, b: Disk, last: LogFileNumber, maximum: LogFileNumber, walk: WalkResult)
    requires walk.Walked? && walk.visited == maximum && last <= maximum && last in b.logs
    requires PairAt(stream, b, last).PairRecovered? && PairAt(stream, b, last).end == walk.recovered
    requires CompletePair(walk.recovered) ==> PrecedingComplete(stream, walk.recovered, last)
    requires match walk.active
             case None => last == maximum && CompletePair(walk.recovered)
             case Some(active) =>
               && active.number == maximum
               && (active.end.Some? ==> last == maximum && walk.recovered == active.end && !CompletePair(active.end))
               && (active.end == None ==>
                     && last == maximum - 1 && CompletePair(walk.recovered) && maximum in b.logs
                     && PairAt(stream, b, maximum).PairRecovered? && PairAt(stream, b, maximum).end == None)
    requires walk.recovered.Some?
    ensures PrecedingComplete(stream, None, last as int - 1)
    ensures Walk(stream, b, last, maximum, None) == walk
  {
    hide PairAt;
  }

  lemma RestartPublished(stream: StreamId, a: Disk, b: Disk)
    requires Init(stream, a).InitOk?
    requires Discovered(stream, a) && WalkAll(stream, a).Walked? && PrefixPublished(stream, a, b)
    requires Bound(b) == WalkAll(stream, a).visited + 1
    requires WalkAll(stream, a).active == None ==> WalkAll(stream, a).visited + 1 !in b.indexes
    ensures SameRecovery(Init(stream, a), Init(stream, b))
  {
    hide PairAt, Init, WalkAll, Discovered;
    PublishedWalk(stream, a, b);
    var visited := WalkAll(stream, a).visited;
    forall n: LogFileNumber | n <= visited
      ensures n in a.logs <==> n in b.logs
      ensures n in a.logs ==> SameRepairedLog(stream, a, b, visited, n)
      ensures SameRepairedIndex(stream, a, b, visited, n)
    {
      assert PairInPlace(stream, a, b, visited, n);
      InPlaceIndex(stream, a, b, visited, n);
    }
    SamePrefixSameResult(stream, a, b);
  }

  // ---------- A settled disk ----------

  /** The walk visits everything there is, and every visited pair is already what recovery makes of it. */
  ghost predicate AtRest(stream: StreamId, disk: Disk, walk: WalkResult) {
    && Discovered(stream, disk) && WalkAll(stream, disk) == walk && walk.Walked? && walk.active.Some?
    && Bound(disk) == walk.visited + 1
    && walk.recovered == disk.checkpoint
    && Settled(stream, disk, StartNumber(disk), walk.visited)
  }

  ghost predicate Indexed(disk: Disk, first: int, stop: int) {
    forall n: LogFileNumber :: first <= n <= stop ==> n in disk.indexes
  }

  lemma RepairedAtRest(stream: StreamId, disk: Disk, first: int, stop: int)
    requires Settled(stream, disk, first, stop)
    ensures RepairedDisk(stream, disk, first, stop).logs == disk.logs
    ensures Indexed(disk, first, stop) ==> RepairedDisk(stream, disk, first, stop) == disk
  {
    hide PairAt;
    var d := RepairedDisk(stream, disk, first, stop);
    assert d.logs == disk.logs;
    if Indexed(disk, first, stop) {
      assert d.indexes == disk.indexes;
    }
  }

  /** Initializing a disk at rest changes no log, and nothing at all where no index is missing. */
  lemma InitAtRest(stream: StreamId, disk: Disk, walk: WalkResult)
    requires AtRest(stream, disk, walk)
    ensures var r := Init(stream, disk);
            && r.InitOk? && r.active == walk.active.value && r.recovered == walk.recovered
            && r.disk.logs == disk.logs && r.disk.checkpoint == disk.checkpoint
            && (Indexed(disk, StartNumber(disk), walk.visited) ==> r.disk == disk)
  {
    hide WalkAll, Discovered, RepairedDisk, Settled, Indexed;
    InitFollowsWalk(stream, disk);
    RepairedAtRest(stream, disk, StartNumber(disk), walk.visited);
    NothingBehind(stream, disk, RepairedDisk(stream, disk, StartNumber(disk), walk.visited));
    CleanedKeepsCheckpoint(stream, disk);
  }

  /** An empty log makes its index empty, whatever that holds. */
  lemma EmptyLog(file: LogFileId, index: seq<byte>)
    ensures RecoverPair(file, None, [], index) == PairRecovered(None, [], [])
  {
    ParseNothing();
    NoEntries();
  }

  lemma EmptyLogAt(stream: StreamId, disk: Disk, n: LogFileNumber)
    requires n in disk.logs && disk.logs[n] == [] && TrustedIn(disk.checkpoint, n) == None
    ensures PairAt(stream, disk, n) == PairRecovered(None, [], []) && !CompletePair(None)
  {
    hide RecoverPair;
    EmptyLog(LogFileId(stream, n), IndexOf(disk, n));
  }

  // ---------- Stopped while creating the new pair, or finished with it ----------

  /** The result of the walk once the empty successor exists. */
  function WithSuccessor(walk: WalkResult): WalkResult
    requires walk.Walked? && -1 <= walk.visited < MAX_FILE_NUMBER
  {
    Walked(walk.recovered, Some(Active(walk.visited + 1, None)), walk.visited + 1)
  }

  /** The new log exists and is empty; its index is empty or missing. */
  ghost predicate SuccessorCreated(stream: StreamId, a: Disk, b: Disk)
    requires Discovered(stream, a) && WalkAll(stream, a).Walked?
  {
    var walk := WalkAll(stream, a);
    && walk.active == None && b.checkpoint == walk.recovered
    && Bound(b) == walk.visited + 2
    && walk.visited + 1 in b.logs && b.logs[walk.visited + 1] == [] && IndexOf(b, walk.visited + 1) == []
    && (forall n: LogFileNumber :: n <= walk.visited ==> PairInPlace(stream, a, b, walk.visited, n))
  }

  /** Creation in terms of the cleaned disk: the log is there and empty, the index is missing or empty. */
  lemma CreatingOverCleaned(stream: StreamId, a: Disk, b: Disk)
    requires Init(stream, a).InitOk?
    requires Discovered(stream, a) && WalkAll(stream, a).Walked? && Creating(stream, a, b)
    ensures var walk, cleaned := WalkAll(stream, a), Cleaned(stream, a);
            && walk.active == None && -1 <= walk.visited < MAX_FILE_NUMBER && b.checkpoint == walk.recovered
            && b.logs == cleaned.logs[walk.visited + 1 := []]
            && walk.visited + 1 !in cleaned.indexes
            && (b.indexes == cleaned.indexes || b.indexes == cleaned.indexes[walk.visited + 1 := []])
  {
    hide WalkAll, Discovered, Cleaned, Init, Maximum, IsMaximum;
    WalkFacts(stream, a);
    SuccessorNumber(stream, a);
    NoOrphan(stream, a);
    CleanedKeepsCheckpoint(stream, a);
  }

  lemma CreatingIsSuccessorCreated(stream: StreamId, a: Disk, b: Disk)
    requires Init(stream, a).InitOk?
    requires Discovered(stream, a) && WalkAll(stream, a).Walked? && Creating(stream, a, b)
    ensures SuccessorCreated(stream, a, b)
  {
    hide WalkAll, Discovered, Cleaned, Creating, PairInPlace, Init, Maximum;
    CreatingOverCleaned(stream, a, b);
    var walk := WalkAll(stream, a);
    CleanedLogsBelow(stream, a);
    MaximumIsUnique(b.logs.Keys, Some(walk.visited + 1));
    forall n: LogFileNumber | n <= walk.visited
      ensures PairInPlace(stream, a, b, walk.visited, n)
    {
      CleanedInPlace(stream, a, b, n);
    }
  }

  lemma CleanedLogsBelow(stream: StreamId, disk: Disk)
    requires Discovered(stream, disk) && WalkAll(stream, disk).Walked?
    ensures forall n: LogFileNumber :: n in Cleaned(stream, disk).logs ==> n <= WalkAll(stream, disk).visited
  {
    hide WalkAll, Discovered, Cleaned;
    forall n: LogFileNumber
      ensures n in Cleaned(stream, disk).logs ==> n <= WalkAll(stream, disk).visited
    {
      CleanedLog(stream, disk, n);
    }
  }

  lemma SuccessorAtRest(stream: StreamId, a: Disk, b: Disk)
    requires Discovered(stream, a) && WalkAll(stream, a).Walked? && SuccessorCreated(stream, a, b)
    ensures -1 <= WalkAll(stream, a).visited < MAX_FILE_NUMBER
    ensures AtRest(stream, b, WithSuccessor(WalkAll(stream, a)))
  {
    hide WalkAll, PairAt, CompletePair, PrecedingComplete, RepairedLog, RepairedIndex;
    var walk := WalkAll(stream, a);
    var next: LogFileNumber := walk.visited + 1;
    WalkFacts(stream, a);
    SuccessorNumber(stream, a);
    LastLogExists(b);
    MaximumIsUnique(b.logs.Keys, Some(next));
    if walk.recovered.Some? {
      var last := CheckpointedFile(stream, a, b);
      CompletePrecedes(stream, b, last);
      EmptyLogAt(stream, b, next);
      WalkFromCheckpoint(stream, b, last, next, WithSuccessor(walk));
      WalkAllIsWalk(stream, b, next);
      SettledPairs(stream, b, last, next);
    } else {
      EmptyLogAt(stream, b, 0);
      WalkAllIsWalk(stream, b, 0);
      SettledPairs(stream, b, 0, 0);
    }
  }

  lemma RestartCreating(stream: StreamId, a: Disk, b: Disk)
    requires Init(stream, a).InitOk?
    requires Discovered(stream, a) && WalkAll(stream, a).Walked? && Creating(stream, a, b)
    ensures SameRecovery(Init(stream, a), Init(stream, b))
  {
    hide WalkAll, Discovered, Cleaned, Init, SuccessorCreated, AtRest, Creating, Maximum;
    WalkFacts(stream, a);
    CreatingOverCleaned(stream, a, b);
    CreatingIsSuccessorCreated(stream, a, b);
    SuccessorAtRest(stream, a, b);
    InitAtRest(stream, b, WithSuccessor(WalkAll(stream, a)));
    AtRestCheckpoint(stream, b, WithSuccessor(WalkAll(stream, a)));
    InitOutcome(stream, a);
    forall n: LogFileNumber | n <= WalkAll(stream, a).visited + 1
      ensures SameIndex(Init(stream, a).disk, Init(stream, b).disk, n)
    {
      CreatedIndex(stream, a, b, n);
    }
  }

  /** Every index through the new pair's. */
  lemma CreatedIndex(stream: StreamId, a: Disk, b: Disk, n: LogFileNumber)
    requires Init(stream, a).InitOk? && Init(stream, b).InitOk?
    requires Discovered(stream, a) && WalkAll(stream, a).Walked? && SuccessorCreated(stream, a, b)
    requires n <= WalkAll(stream, a).visited + 1 <= MAX_FILE_NUMBER
    requires AtRest(stream, b, WithSuccessor(WalkAll(stream, a)))
    ensures SameIndex(Init(stream, a).disk, Init(stream, b).disk, n)
  {
    hide WalkAll, Discovered, Init, PairAt, Bound, RepairedLog;
    var walk := WalkAll(stream, a);
    RecoveredStart(stream, a, b);
    WalkFacts(stream, b);
    OutcomeIndex(stream, a, n);
    OutcomeIndex(stream, b, n);
    if n <= walk.visited {
      assert PairInPlace(stream, a, b, walk.visited, n);
      InPlaceIndex(stream, a, b, walk.visited, n);
    }
  }

  lemma AtRestCheckpoint(stream: StreamId, disk: Disk, walk: WalkResult)
    requires AtRest(stream, disk, walk)
    ensures walk.recovered == disk.checkpoint
  {
    hide WalkAll, Discovered;
  }

  // ---------- The main theorems ----------

  /**
   Stopping an initialization after any of its disk effects and running it again gives the same recovered end,
   active file, checkpoint, logs and indexes through the active file as not stopping it.
   */
  lemma RecoveryIsRestartable(stream: StreamId, before: Disk, stopped: Disk)
    requires Init(stream, before).InitOk? && CrashState(stream, before, stopped)
    ensures SameRecovery(Init(stream, before), Init(stream, stopped))
  {
    hide Init, WalkAll, Discovered, Repairing, Removing, Creating, Cleaned;
    InitNeedsWalk(stream, before);
    if Repairing(stream, before, stopped) {
      RestartRepairing(stream, before, stopped);
    } else if Removing(stream, before, stopped) {
      RemovingKeepsPrefix(stream, before, stopped);
      RestartPrefixInPlace(stream, before, stopped);
    } else if Creating(stream, before, stopped) {
      RestartCreating(stream, before, stopped);
    } else if stopped.checkpoint == before.checkpoint {
      CleanedIsInPlace(stream, before, stopped);
      RestartPrefixInPlace(stream, before, stopped);
    } else {
      RestartNewCheckpoint(stream, before, stopped);
    }
  }

  lemma RestartNewCheckpoint(stream: StreamId, a: Disk, b: Disk)
    requires Init(stream, a).InitOk?
    requires Discovered(stream, a) && WalkAll(stream, a).Walked?
    requires Publishing(stream, a, b) && b.checkpoint != a.checkpoint
    ensures SameRecovery(Init(stream, a), Init(stream, b))
  {
    hide Init, WalkAll, Discovered, Cleaned;
    CleanedKeepsCheckpoint(stream, a);
    PublishedInPlace(stream, a, b);
    if WalkAll(stream, a).active == None {
      NoOrphan(stream, a);
    }
    RestartPublished(stream, a, b);
  }

  /** The cleaned disk under the recovered end as its checkpoint. */
  lemma PublishedInPlace(stream: StreamId, a: Disk, b: Disk)
    requires Discovered(stream, a) && WalkAll(stream, a).Walked?
    requires b.checkpoint == WalkAll(stream, a).recovered && b.checkpoint.Some?
    requires b.logs == Cleaned(stream, a).logs && b.indexes == Cleaned(stream, a).indexes
    ensures PrefixPublished(stream, a, b)
    ensures Bound(b) == WalkAll(stream, a).visited + 1
  {
    hide WalkAll, Discovered, Cleaned, PairInPlace, IndexOf;
    var visited := WalkAll(stream, a).visited;
    WalkFacts(stream, a);
    CleanedPairsInPlace(stream, a, b);
    CleanedLogsBelow(stream, a);
    CleanedLog(stream, a, visited);
    LastVisitedExists(stream, a);
    MaximumIsUnique(b.logs.Keys, Some(visited));
  }

  lemma LastVisitedExists(stream: StreamId, disk: Disk)
    requires Discovered(stream, disk) && WalkAll(stream, disk).Walked? && WalkAll(stream, disk).visited >= StartNumber(disk)
    ensures WalkAll(stream, disk).visited in disk.logs
  {
    hide WalkAll, Discovered, PairAt;
    WalkFacts(stream, disk);
  }

  // ---------- Finished recoveries ----------

  /** Every file from the start through the active one keeps or gets its index. */
  lemma CleanedIsIndexed(stream: StreamId, a: Disk, first: nat, b: Disk)
    requires Discovered(stream, a) && WalkAll(stream, a).Walked? && StartNumber(a) <= first
    requires forall n: LogFileNumber :: n <= WalkAll(stream, a).visited && n in Cleaned(stream, a).indexes ==> n in b.indexes
    ensures Indexed(b, first, WalkAll(stream, a).visited)
  {
    hide WalkAll, Discovered, Cleaned, PairAt;
    WalkFacts(stream, a);
    forall n: LogFileNumber | first <= n <= WalkAll(stream, a).visited
      ensures n in b.indexes
    {
      CleanedIndex(stream, a, n);
    }
  }

  /** Once recovery has finished, running it again changes nothing and finds the same. */
  lemma FinishedRecoveryIsStable(stream: StreamId, disk: Disk)
    requires Init(stream, disk).InitOk?
    ensures Init(stream, Init(stream, disk).disk) == Init(stream, disk)
  {
    hide Init, WalkAll, Discovered;
    InitNeedsWalk(stream, disk);
    if WalkAll(stream, disk).active == None {
      CreatedIsStable(stream, disk);
    } else {
      ContinuedIsStable(stream, disk);
    }
  }

  lemma CreatedIsStable(stream: StreamId, disk: Disk)
    requires Init(stream, disk).InitOk?
    requires Discovered(stream, disk) && WalkAll(stream, disk).Walked? && WalkAll(stream, disk).active == None
    ensures Init(stream, Init(stream, disk).disk) == Init(stream, disk)
  {
    hide Init, WalkAll, Discovered, Cleaned, AtRest, SuccessorCreated, Indexed, IndexOf, Maximum, CompletePair;
    var walk, done := WalkAll(stream, disk), Init(stream, disk).disk;
    InitFollowsWalk(stream, disk);
    WalkFacts(stream, disk);
    CleanedKeepsCheckpoint(stream, disk);
    NoOrphan(stream, disk);
    assert Creating(stream, disk, done);
    CreatingIsSuccessorCreated(stream, disk, done);
    SuccessorAtRest(stream, disk, done);
    InitAtRest(stream, done, WithSuccessor(walk));
    SuccessorIsIndexed(stream, disk, done);
  }

  lemma ContinuedIsStable(stream: StreamId, disk: Disk)
    requires Init(stream, disk).InitOk?
    requires Discovered(stream, disk) && WalkAll(stream, disk).Walked? && WalkAll(stream, disk).active.Some?
    ensures Init(stream, Init(stream, disk).disk) == Init(stream, disk)
  {
    hide Init, WalkAll, Discovered, Cleaned, AtRest, Indexed, IndexOf, Maximum;
    var walk, done := WalkAll(stream, disk), Init(stream, disk).disk;
    InitFollowsWalk(stream, disk);
    WalkFacts(stream, disk);
    CleanedKeepsCheckpoint(stream, disk);
    if walk.recovered.Some? {
      PublishedAtRest(stream, disk, done);
    } else {
      EmptyAtRest(stream, disk, done);
    }
    InitAtRest(stream, done, walk);
    RecoveredStart(stream, disk, done);
    CleanedIsIndexed(stream, disk, StartNumber(done), done);
  }

  /** The published checkpoint's file is not before the old one's. */
  lemma RecoveredStart(stream: StreamId, a: Disk, b: Disk)
    requires Discovered(stream, a) && WalkAll(stream, a).Walked? && b.checkpoint == WalkAll(stream, a).recovered
    ensures StartNumber(a) <= StartNumber(b)
  {
    hide PairAt, CompletePair, PrecedingComplete;
    var walk := WalkAll(stream, a);
    WalkFacts(stream, a);
    if walk.recovered.Some? {
      var maximum := Maximum(a.logs.Keys).value;
      NoPredecessor(stream, StartNumber(a) as int - 1);
      WalkRecoversLast(stream, a, StartNumber(a), maximum, None);
      if walk.active.Some? && walk.active.value.end == None {
        RecoveredPairEnd(stream, a, walk.visited - 1);
      } else {
        RecoveredPairEnd(stream, a, walk.visited);
      }
    }
  }

  lemma SuccessorIsIndexed(stream: StreamId, a: Disk, b: Disk)
    requires Discovered(stream, a) && WalkAll(stream, a).Walked? && WalkAll(stream, a).active == None
    requires b.indexes == Cleaned(stream, a).indexes[WalkAll(stream, a).visited + 1 := []]
    requires b.checkpoint == WalkAll(stream, a).recovered
    ensures Indexed(b, StartNumber(b), WalkAll(stream, a).visited + 1)
  {
    hide WalkAll, Discovered, Cleaned, Indexed, Maximum, IsMaximum, AllRecovered, PairAt;
    var visited := WalkAll(stream, a).visited;
    WalkFacts(stream, a);
    SuccessorNumber(stream, a);
    RecoveredStart(stream, a, b);
    CleanedIsIndexed(stream, a, StartNumber(b), b);
    IndexedUpTo(b, StartNumber(b), visited);
  }

  lemma IndexedUpTo(disk: Disk, first: int, visited: int)
    requires Indexed(disk, first, visited)
    requires 0 <= visited + 1 <= MAX_FILE_NUMBER && visited + 1 in disk.indexes
    ensures Indexed(disk, first, visited + 1)
  {
  }

  lemma PublishedAtRest(stream: StreamId, a: Disk, b: Disk)
    requires Discovered(stream, a) && WalkAll(stream, a).Walked? && WalkAll(stream, a).active.Some?
    requires WalkAll(stream, a).recovered.Some? && b.checkpoint == WalkAll(stream, a).recovered
    requires b.logs == Cleaned(stream, a).logs && b.indexes == Cleaned(stream, a).indexes
    ensures AtRest(stream, b, WalkAll(stream, a))
  {
    hide WalkAll, Discovered, Cleaned, PairAt, PrefixPublished;
    PublishedInPlace(stream, a, b);
    PublishedWalk(stream, a, b);
  }

  /** Nothing recovered: file zero is the active file, and it is empty. */
  lemma EmptyAtRest(stream: StreamId, a: Disk, b: Disk)
    requires Init(stream, a).InitOk?
    requires Discovered(stream, a) && WalkAll(stream, a).Walked? && WalkAll(stream, a).active.Some?
    requires WalkAll(stream, a).recovered == None && b.checkpoint == a.checkpoint
    requires b.logs == Cleaned(stream, a).logs && b.indexes == Cleaned(stream, a).indexes
    ensures AtRest(stream, b, WalkAll(stream, a))
  {
    hide WalkAll, Discovered, Cleaned, PairAt, Init, PrefixInPlace;
    var walk := WalkAll(stream, a);
    WalkFacts(stream, a);
    CleanedIsInPlace(stream, a, b);
    forall n: LogFileNumber | StartNumber(a) <= n <= walk.visited
      ensures n in a.logs && n in b.logs && PairAt(stream, b, n) == PairAt(stream, a, n)
      ensures PairAt(stream, b, n).PairRecovered?
      ensures PairAt(stream, b, n).log == b.logs[n] && PairAt(stream, b, n).index == IndexOf(b, n)
    {
      InPlaceAt(stream, a, b, n);
      RecoveredPairAgain(stream, a, b, n);
    }
    PrefixWalk(stream, a, b);
    CleanedLogsBelow(stream, a);
    CleanedLog(stream, a, walk.visited);
    LastVisitedExists(stream, a);
    MaximumIsUnique(b.logs.Keys, Some(walk.visited));
  }

  lemma InPlaceAt(stream: StreamId, a: Disk, b: Disk, n: LogFileNumber)
    requires Discovered(stream, a) && WalkAll(stream, a).Walked? && PrefixInPlace(stream, a, b)
    requires n <= WalkAll(stream, a).visited
    ensures PairInPlace(stream, a, b, WalkAll(stream, a).visited, n)
  {
    hide WalkAll, Discovered;
  }

  /** The same after any number of interrupted attempts; once one finishes, further runs change nothing. */
  lemma {:induction false} RecoveryIsRestartableOften(stream: StreamId, disks: seq<Disk>)
    requires disks != [] && Init(stream, disks[0]).InitOk?
    requires forall i :: 0 <= i < |disks| - 1 ==> CrashState(stream, disks[i], disks[i + 1])
    ensures var r := Init(stream, disks[|disks| - 1]);
            SameRecovery(Init(stream, disks[0]), r) && Init(stream, r.disk) == r
    decreases |disks|
  {
    hide Init, CrashState;
    FinishedRecoveryIsStable(stream, disks[0]);
    if |disks| > 1 {
      var shorter := disks[..|disks| - 1];
      RecoveryIsRestartableOften(stream, shorter);
      RecoveryIsRestartable(stream, disks[|disks| - 2], disks[|disks| - 1]);
      SameTwice(Init(stream, disks[0]), Init(stream, disks[|disks| - 2]), Init(stream, disks[|disks| - 1]));
      FinishedRecoveryIsStable(stream, disks[|disks| - 1]);
    }
  }
}
