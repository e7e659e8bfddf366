/**
 Startup recovery of one stream: load the checkpoint, discover the logs, validate pairs from the checkpoint's file
 on, remove what lies behind the recovered prefix, publish the new checkpoint, and have an active pair ready.

 `Init` is the outcome as a function of the disk. `Initialize` carries it out step by step against operations that
 can fail or be abandoned anywhere, and every state it can stop in is a `CrashState` of the disk it started with.
 */
module StreamInitializer {
  import opened Bytes
  import opened RecordProtocol
  import opened ByteDevice
  import opened Locations
  import opened IndexWriter
  import opened LogFileValidator
  import opened IndexFileValidator
  import opened Storage
  import opened IndexedLogValidator

  /** The pair appends continue in, and its file-local end. */
  datatype Active = Active(number: LogFileNumber, end: Option<RecordEnd>)

  // ---------- The walk over the files ----------

  /** Only the checkpoint's own file is validated from a trusted end. */
  function TrustedIn(checkpoint: Option<RecordEnd>, number: LogFileNumber): Option<RecordEnd> {
    if checkpoint.Some? && FileOf(checkpoint.value.id).number == number then checkpoint else None
  }

  function PairAt(stream: StreamId, disk: Disk, number: LogFileNumber): PairRecovery
    requires number in disk.logs
  {
    RecoverPair(LogFileId(stream, number), TrustedIn(disk.checkpoint, number), disk.logs[number], IndexOf(disk, number))
  }

  /** A recovered end lies in its file; a complete file is never the last representable one. */
  lemma RecoveredPairEnd(stream: StreamId, disk: Disk, number: LogFileNumber)
    requires number in disk.logs && PairAt(stream, disk, number).PairRecovered?
    ensures var end := PairAt(stream, disk, number).end;
            && (end.Some? ==> FileOf(end.value.id) == LogFileId(stream, number))
            && (CompletePair(end) ==> number < MAX_FILE_NUMBER)
            && (end == None ==> TrustedIn(disk.checkpoint, number) == None)
  {
    hide RecoverLog, KeptLog, RepairIndex;
    var file, trusted := LogFileId(stream, number), TrustedIn(disk.checkpoint, number);
    RecoveredEndIsPlausible(file, trusted, disk.logs[number]);
    ScanEndInFile(file, trusted, disk.logs[number]);
  }

  /** `visited` is the last pair that was recovered; the prefix ends there. */
  datatype WalkResult =
    | Walked(recovered: Option<RecordEnd>, active: Option<Active>, visited: int)
    | WalkRejected
    | WalkPanics

  predicate PrecedingComplete(stream: StreamId, recovered: Option<RecordEnd>, visited: int) {
    recovered.Some? ==> CompletePair(recovered) && recovered.value.id.stream == stream
                        && FileOf(recovered.value.id).number == visited < MAX_FILE_NUMBER
  }

  function Walk(stream: StreamId, disk: Disk, number: LogFileNumber, maximum: LogFileNumber, recovered: Option<RecordEnd>)
    : (r: WalkResult)
    requires number <= maximum && PrecedingComplete(stream, recovered, number - 1)
    ensures r.Walked? ==> number - 1 <= r.visited <= maximum
    ensures r.Walked? && r.active == None ==> PrecedingComplete(stream, r.recovered, r.visited)
    ensures r.Walked? && r.active.Some? ==> r.active.value.number == r.visited && !CompletePair(r.active.value.end)
    ensures r.Walked? && r.active == None && r.visited >= number ==> r.recovered.Some?
    ensures r.Walked? && r.active == None && r.visited < number ==> r.recovered == recovered
    decreases maximum - number
  {
    hide PairAt, CompletePair, PrecedingComplete;
    if number !in disk.logs then
      if TrustedIn(disk.checkpoint, number).Some? then WalkRejected else Walked(recovered, None, number - 1)
    else
      match PairAt(stream, disk, number)
      case PairRejected => WalkRejected
      case PairPanics => WalkPanics
      case PairRecovered(end, _, _) =>
        if CompletePair(end) then
          CompletePrecedes(stream, disk, number);
          if number == maximum then Walked(end, None, number)
          else Walk(stream, disk, number + 1, maximum, end)
        else Walked(if end.Some? then end else recovered, Some(Active(number, end)), number)
  }

  lemma CompletePrecedes(stream: StreamId, disk: Disk, number: LogFileNumber)
    requires number in disk.logs && PairAt(stream, disk, number).PairRecovered?
    requires CompletePair(PairAt(stream, disk, number).end)
    ensures PairAt(stream, disk, number).end.Some? && number < MAX_FILE_NUMBER
    ensures PrecedingComplete(stream, PairAt(stream, disk, number).end, number)
  {
    hide RecoverPair;
    RecoveredPairEnd(stream, disk, number);
  }

  /** The walk starts in the checkpoint's file, or in file zero. */
  function StartNumber(disk: Disk): LogFileNumber {
    match disk.checkpoint
    case None => 0
    case Some(end) => FileOf(end.id).number
  }

  /** Discovery agrees with the checkpoint. */
  ghost predicate Discovered(stream: StreamId, disk: Disk) {
    var maximum := Maximum(disk.logs.Keys);
    disk.checkpoint.Some? ==>
      disk.checkpoint.value.id.stream == stream && maximum.Some? && StartNumber(disk) <= maximum.value
  }

  ghost function WalkAll(stream: StreamId, disk: Disk): (r: WalkResult)
    requires Discovered(stream, disk)
    ensures r.Walked? ==> StartNumber(disk) - 1 <= r.visited < MAX_FILE_NUMBER || r.active.Some?
    ensures r.Walked? && r.active.Some? ==> 0 <= r.visited <= MAX_FILE_NUMBER && r.active.value.number == r.visited
    ensures r.Walked? ==> match Maximum(disk.logs.Keys)
                          case None => r.visited == -1
                          case Some(m) => r.visited <= m
    ensures r.Walked? && r.active == None ==> PrecedingComplete(stream, r.recovered, r.visited)
    ensures r.Walked? && r.active == None && r.recovered == None ==> r.visited == StartNumber(disk) - 1
  {
    match Maximum(disk.logs.Keys)
    case None => Walked(None, None, -1)
    case Some(maximum) => Walk(stream, disk, StartNumber(disk), maximum, None)
  }

  // ---------- The disk after each step ----------

  /** Every pair from `first` through `stop` is replaced by what recovery makes of it. */
  function RepairedDisk(stream: StreamId, disk: Disk, first: int, stop: int): Disk {
    disk.(logs := map n | n in disk.logs :: RepairedLog(stream, disk, first, stop, n),
          indexes := map n | n in disk.indexes.Keys + disk.logs.Keys
                             && (n in disk.indexes || (n in disk.logs && first <= n <= stop))
                       :: RepairedIndex(stream, disk, first, stop, n))
  }

  function RepairedLog(stream: StreamId, disk: Disk, first: int, stop: int, number: LogFileNumber): seq<byte>
    requires number in disk.logs
  {
    if first <= number <= stop && PairAt(stream, disk, number).PairRecovered? then PairAt(stream, disk, number).log
    else disk.logs[number]
  }

  function RepairedIndex(stream: StreamId, disk: Disk, first: int, stop: int, number: LogFileNumber): seq<byte> {
    if first <= number <= stop && number in disk.logs && PairAt(stream, disk, number).PairRecovered?
    then PairAt(stream, disk, number).index
    else IndexOf(disk, number)
  }

  /** Exclusive bound of the discovered logs. */
  ghost function Bound(disk: Disk): nat {
    match Maximum(disk.logs.Keys)
    case None => 0
    case Some(m) => m + 1
  }

  /** After validation and removal of everything behind the recovered prefix. */
  ghost function Cleaned(stream: StreamId, disk: Disk): Disk
    requires Discovered(stream, disk) && WalkAll(stream, disk).Walked?
  {
    var visited := WalkAll(stream, disk).visited;
    WithoutPairs(RepairedDisk(stream, disk, StartNumber(disk), visited), visited + 1, Bound(disk))
  }

  /** After publication of the recovered end, if there is one and it is new. */
  ghost function Published(stream: StreamId, disk: Disk): Disk
    requires Discovered(stream, disk) && WalkAll(stream, disk).Walked?
  {
    var recovered := WalkAll(stream, disk).recovered;
    if recovered == None || recovered == disk.checkpoint then Cleaned(stream, disk)
    else Cleaned(stream, disk).(checkpoint := recovered, staging := NoStaging)
  }

  datatype InitResult =
    | InitOk(active: Active, recovered: Option<RecordEnd>, disk: Disk)
    | CheckpointDisagrees
    | InitRejected
    | InitPanics
    | OrphanIndex(number: LogFileNumber)

  /** The outcome of an undisturbed initialization. */
  ghost function Init(stream: StreamId, disk: Disk): InitResult {
    if !Discovered(stream, disk) then CheckpointDisagrees
    else
      match WalkAll(stream, disk)
      case WalkRejected => InitRejected
      case WalkPanics => InitPanics
      case Walked(recovered, active, visited) =>
        var published := Published(stream, disk);
        match active
        case Some(a) => InitOk(a, recovered, published)
        case None =>
          var number: LogFileNumber := visited + 1;
          if number in published.indexes then OrphanIndex(number)
          else InitOk(Active(number, None), recovered, WithEmptyPair(published, number))
  }

  function WithEmptyPair(disk: Disk, number: LogFileNumber): Disk {
    disk.(logs := disk.logs[number := []], indexes := disk.indexes[number := []])
  }

  // ---------- Where an initialization can stop ----------

  ghost predicate Repairing(stream: StreamId, before: Disk, after: Disk) {
    && after.logs.Keys == before.logs.Keys
    && after.checkpoint == before.checkpoint && after.staging == before.staging
    && (forall n: LogFileNumber :: n in before.indexes ==> n in after.indexes)
    && (forall n: LogFileNumber :: n !in before.logs || n < StartNumber(before) ==> SameIndex(before, after, n))
    && (forall n: LogFileNumber :: n in before.logs ==> PairRepairing(stream, before, after, n))
  }

  ghost predicate SameIndex(before: Disk, after: Disk, n: LogFileNumber) {
    (n in after.indexes <==> n in before.indexes) && IndexOf(after, n) == IndexOf(before, n)
  }

  ghost predicate PairRepairing(stream: StreamId, before: Disk, after: Disk, n: LogFileNumber)
    requires n in before.logs && after.logs.Keys == before.logs.Keys
  {
    if n < StartNumber(before) then after.logs[n] == before.logs[n]
    else PairInProgress(LogFileId(stream, n), TrustedIn(before.checkpoint, n),
                        before.logs[n], IndexOf(before, n), after.logs[n], IndexOf(after, n))
  }

  ghost predicate Removing(stream: StreamId, before: Disk, after: Disk)
    requires Discovered(stream, before) && WalkAll(stream, before).Walked?
  {
    var visited := WalkAll(stream, before).visited;
    && visited + 1 < Bound(before)
    && PartlyRemoved(RepairedDisk(stream, before, StartNumber(before), visited), visited + 1, Bound(before) - 1, after)
  }

  ghost predicate Publishing(stream: StreamId, before: Disk, after: Disk)
    requires Discovered(stream, before) && WalkAll(stream, before).Walked?
  {
    && after.logs == Cleaned(stream, before).logs && after.indexes == Cleaned(stream, before).indexes
    && (after.checkpoint == before.checkpoint || after.checkpoint == Published(stream, before).checkpoint)
  }

  ghost predicate Creating(stream: StreamId, before: Disk, after: Disk)
    requires Discovered(stream, before) && WalkAll(stream, before).Walked?
  {
    var published := Published(stream, before);
    && WalkAll(stream, before).active == None
    && var number: LogFileNumber := WalkAll(stream, before).visited + 1;
       && after.checkpoint == published.checkpoint
       && after.logs == published.logs[number := []]
       && (after.indexes == published.indexes
           || (number !in published.indexes && after.indexes == published.indexes[number := []]))
  }

  /** Refused because of an orphan index, which is found only after its log has been created. */
  ghost predicate StoppedAtOrphan(stream: StreamId, before: Disk, after: Disk)
    requires Discovered(stream, before) && WalkAll(stream, before).Walked?
  {
    var walk, published := WalkAll(stream, before), Published(stream, before);
    && walk.active == None && 0 <= walk.visited + 1 <= MAX_FILE_NUMBER
    && after == published.(logs := published.logs[walk.visited + 1 := []])
  }

  /** A disk an initialization of `before` can leave behind when it does not finish. */
  ghost predicate CrashState(stream: StreamId, before: Disk, after: Disk) {
    || Repairing(stream, before, after)
    || (Discovered(stream, before) && WalkAll(stream, before).Walked?
        && (Removing(stream, before, after) || Publishing(stream, before, after) || Creating(stream, before, after)))
  }

  // ---------- The operation ----------

  datatype StepResult = Completed | StepRefused(reason: InitResult) | StepStopped(outcome: Outcome)

  function StepOutcome(r: StepResult): Outcome {
    match r
    case StepStopped(outcome) => outcome
    case _ => Done
  }

  /** Every storage operation succeeded, up to the last one: what it reported stops the step, or a pair's own files did. */
  ghost predicate StepOperations(before: seq<IoStep>, after: seq<IoStep>, r: StepResult) {
    || Operations(before, after, StepOutcome(r))
    || (r.StepStopped? && r.outcome != Done && Operations(before, after, Done))
  }

  lemma ValidationIsStep(before: seq<IoStep>, after: seq<IoStep>, validated: PairValidation, r: StepResult)
    requires ValidationSteps(before, after, validated)
    requires if validated.PairStopped? then r == StepStopped(validated.outcome) && r.outcome != Done else !r.StepStopped?
    ensures StepOperations(before, after, r)
  {
    hide Operations;
  }

  lemma StepAfterSteps(a: seq<IoStep>, b: seq<IoStep>, c: seq<IoStep>, r: StepResult)
    requires Operations(a, b, Done) && StepOperations(b, c, r)
    ensures StepOperations(a, c, r)
  {
    hide Operations;
    if Operations(b, c, StepOutcome(r)) {
      OperationsThen(a, b, c, StepOutcome(r));
    } else {
      OperationsThen(a, b, c, Done);
    }
  }

  datatype InitializedStream = InitializedStream(file: LogFileId, log: Device, index: Device, end: Option<RecordEnd>)

  class InitializationState {
    const storage: StreamStorage
    var checkpoint: Option<RecordEnd>
    var maximumLogFile: Option<LogFileNumber>
    var recoveredEnd: Option<RecordEnd>
    var activePair: Option<InitializedStream>
    var firstFileToRemove: Option<LogFileNumber>

    ghost const original: Disk

    constructor (storage: StreamStorage)
      ensures this.storage == storage && original == storage.disk
      ensures checkpoint == None && maximumLogFile == None && recoveredEnd == None && activePair == None
      ensures firstFileToRemove == None
    {
      this.storage := storage;
      checkpoint, maximumLogFile, recoveredEnd, activePair, firstFileToRemove := None, None, None, None, None;
      original := storage.disk;
    }

    method LoadCheckpoint() returns (r: StepResult)
      requires storage.disk == original
      modifies this`checkpoint, storage`script
      ensures r == Completed ==>
                checkpoint == original.checkpoint && (checkpoint.Some? ==> checkpoint.value.id.stream == storage.stream)
      ensures r.StepRefused? ==> r.reason == Init(storage.stream, original) && r.reason == CheckpointDisagrees
      ensures r.StepStopped? ==> r.outcome != Done
      ensures Operations(old(storage.script), storage.script, StepOutcome(r)) && storage.script == Rest(old(storage.script))
      ensures Smooth(old(storage.script)) ==> Smooth(storage.script) && !r.StepStopped?
    {
      OneCall(storage.script);
      var outcome, loaded := storage.ReadCheckpoint();
      if outcome != Done {
        return StepStopped(outcome);
      }
      if loaded.Some? && loaded.value.id.stream != storage.stream {
        return StepRefused(CheckpointDisagrees);
      }
      checkpoint := loaded;
      r := Completed;
    }

    method DiscoverLogFiles() returns (r: StepResult)
      requires storage.disk == original && checkpoint == original.checkpoint
      requires checkpoint.Some? ==> checkpoint.value.id.stream == storage.stream
      modifies this`maximumLogFile, storage`script
      ensures r == Completed ==> Discovered(storage.stream, original) && maximumLogFile == Maximum(original.logs.Keys)
      ensures r.StepRefused? ==> r.reason == Init(storage.stream, original) && r.reason == CheckpointDisagrees
      ensures r.StepStopped? ==> r.outcome != Done
      ensures Operations(old(storage.script), storage.script, StepOutcome(r))
      ensures Smooth(old(storage.script)) ==> Smooth(storage.script) && !r.StepStopped?
    {
      hide Operations;
      var outcome, maximum := storage.MaximumLogFile();
      if outcome != Done {
        return StepStopped(outcome);
      }
      MaximumIsUnique(original.logs.Keys, maximum);
      if checkpoint.Some? {
        if maximum == None || maximum.value < FileOf(checkpoint.value.id).number {
          return StepRefused(CheckpointDisagrees);
        }
      }
      maximumLogFile := maximum;
      r := Completed;
    }

    ghost predicate DiscoveryDone()
      reads this
    {
      && Discovered(storage.stream, original) && checkpoint == original.checkpoint
      && maximumLogFile == Maximum(original.logs.Keys)
    }

    /** State and disk after a completed walk. */
    ghost predicate ValidationDone()
      reads this
    {
      && DiscoveryDone()
      && var walk := WalkAll(storage.stream, original);
         && walk.Walked?
         && recoveredEnd == walk.recovered
         && (activePair == None <==> walk.active == None)
         && (activePair.Some? ==>
               activePair.value.file == LogFileId(storage.stream, walk.active.value.number)
               && activePair.value.end == walk.active.value.end)
         && firstFileToRemove == if walk.visited + 1 < Bound(original) then Some(walk.visited + 1) else None
    }

    /** The retained pair is positioned for appending and durable, and mirrors the files. */
    ghost predicate PairReady()
      reads this, storage, if activePair.Some? then {activePair.value.log, activePair.value.index} else {}
    {
      activePair.Some? ==>
        var p := activePair.value;
        && p.log != p.index && p.log.Valid() && p.index.Valid() && p.log.AtEnd() && p.index.AtEnd()
        && p.log.synced == |p.log.contents| && p.index.synced == |p.index.contents|
        && p.file.number in storage.disk.logs && p.log.contents == storage.disk.logs[p.file.number]
        && p.file.number in storage.disk.indexes && p.index.contents == storage.disk.indexes[p.file.number]
    }

    method ValidateFiles() returns (r: StepResult)
      requires storage.disk == original && DiscoveryDone()
      requires recoveredEnd == None && activePair == None && firstFileToRemove == None
      modifies this`recoveredEnd, this`activePair, this`firstFileToRemove, storage
      ensures r == Completed ==> ValidationDone() && PairReady()
      ensures r == Completed ==>
                storage.disk == RepairedDisk(storage.stream, original, StartNumber(original), WalkAll(storage.stream, original).visited)
      ensures r == Completed && activePair.Some? ==> fresh(activePair.value.log) && fresh(activePair.value.index)
      ensures r != Completed ==> Repairing(storage.stream, original, storage.disk)
      ensures r.StepRefused? ==> r.reason == Init(storage.stream, original) && (r.reason == InitRejected || r.reason == InitPanics)
      ensures r.StepStopped? ==> r.outcome != Done
      ensures StepOperations(old(storage.script), storage.script, r)
      ensures Smooth(old(storage.script)) ==> Smooth(storage.script) && !r.StepStopped?
    {
      hide Repairing, RepairedDisk, PairAt, OnlyPairChanged, CompletePair, PrecedingComplete, AllRecovered, Operations;
      NothingMet(storage.script);
      ghost var stream, first := storage.stream, StartNumber(original);
      if maximumLogFile == None {
        NothingRepaired(stream, original, first, -1);
        return Completed;
      }
      var maximum := maximumLogFile.value;
      var number := if checkpoint.Some? then FileOf(checkpoint.value.id).number else 0;
      NothingRepaired(stream, original, first, number - 1);
      NoPredecessor(stream, number - 1);
      NothingVisited(stream, original, first);
      while true
        invariant first <= number <= maximum
        invariant activePair == None && firstFileToRemove == None
        invariant PrecedingComplete(stream, recoveredEnd, number - 1)
        invariant AllRecovered(stream, original, first, number - 1)
        invariant Walk(stream, original, first, maximum, None) == Walk(stream, original, number, maximum, recoveredEnd)
        invariant storage.disk == RepairedDisk(stream, original, first, number - 1)
        invariant Smooth(old(storage.script)) ==> Smooth(storage.script)
        invariant Operations(old(storage.script), storage.script, Done)
        decreases maximum - number
      {
        ghost var steps := storage.script;
        var step := ValidateFile(number, maximum);
        StepAfterSteps(old(storage.script), steps, storage.script, step);
        if step != Completed || number == maximum || activePair.Some? || firstFileToRemove.Some? {
          return step;
        }
        number := number + 1;
      }
    }

    /** One iteration of the walk: `Completed` without an active pair or a gap means that the file is complete. */
    method ValidateFile(number: LogFileNumber, maximum: LogFileNumber) returns (r: StepResult)
      requires DiscoveryDone() && maximumLogFile == Some(maximum) && StartNumber(original) <= number <= maximum
      requires activePair == None && firstFileToRemove == None
      requires PrecedingComplete(storage.stream, recoveredEnd, number - 1)
      requires AllRecovered(storage.stream, original, StartNumber(original), number - 1)
      requires WalkAll(storage.stream, original) == Walk(storage.stream, original, number, maximum, recoveredEnd)
      requires storage.disk == RepairedDisk(storage.stream, original, StartNumber(original), number - 1)
      modifies this`recoveredEnd, this`activePair, this`firstFileToRemove, storage
      ensures r != Completed ==> Repairing(storage.stream, original, storage.disk)
      ensures r.StepRefused? ==> r.reason == Init(storage.stream, original) && (r.reason == InitRejected || r.reason == InitPanics)
      ensures r == Completed && (number == maximum || activePair.Some? || firstFileToRemove.Some?) ==>
                && ValidationDone() && PairReady()
                && storage.disk == RepairedDisk(storage.stream, original, StartNumber(original),
                                                WalkAll(storage.stream, original).visited)
                && (activePair.Some? ==> fresh(activePair.value.log) && fresh(activePair.value.index))
      ensures r == Completed && number < maximum && activePair == None && firstFileToRemove == None ==>
                && PrecedingComplete(storage.stream, recoveredEnd, number)
                && AllRecovered(storage.stream, original, StartNumber(original), number)
                && WalkAll(storage.stream, original) == Walk(storage.stream, original, number + 1, maximum, recoveredEnd)
                && storage.disk == RepairedDisk(storage.stream, original, StartNumber(original), number)
      ensures r.StepStopped? ==> r.outcome != Done
      ensures StepOperations(old(storage.script), storage.script, r)
      ensures Smooth(old(storage.script)) ==> Smooth(storage.script) && !r.StepStopped?
    {
      hide Repairing, RepairedDisk, PairAt, OnlyPairChanged, CompletePair, PrecedingComplete, AllRecovered, WalkAll;
      hide Reports, Init, Discovered, IndexOf, StepOperations, ValidationSteps;
      FailedWalk(storage.stream, original);
      ghost var stream, first := storage.stream, StartNumber(original);
      var lastTrusted := TrustedIn(checkpoint, number);
      UnvisitedPair(stream, original, first, number);
      RepairedIsRepairing(stream, original, number - 1);
      var validated := IndexedLogValidator.Validate(storage, number, lastTrusted);
      ghost var reported := if validated.PairStopped? then StepStopped(validated.outcome) else Completed;
      ValidationIsStep(old(storage.script), storage.script, validated, reported);
      forall step: StepResult | !step.StepStopped? && !validated.PairStopped?
        ensures StepOperations(old(storage.script), storage.script, step)
      {
        ValidationIsStep(old(storage.script), storage.script, validated, step);
      }
      if validated.LogNotFound? {
        if lastTrusted == None {
          firstFileToRemove := Some(number);
          return Completed;
        }
        return StepRefused(InitRejected);
      }
      if number in original.logs {
        NextPairInProgress(stream, original, number, storage.disk);
      }
      if validated.PairStopped? {
        return StepStopped(validated.outcome);
      }
      PairReported(stream, original, number, storage.disk, validated);
      match validated {
        case CompleteFile(end) =>
          NextPairFinished(stream, original, first, number, storage.disk);
          OneMoreRecovered(stream, original, first, number);
          CompletePrecedes(stream, original, number);
          recoveredEnd := Some(end);
        case PartialFile(end, log, index) =>
          NextPairFinished(stream, original, first, number, storage.disk);
          recoveredEnd := if end.Some? then end else recoveredEnd;
          activePair := Some(InitializedStream(LogFileId(storage.stream, number), log, index, end));
          firstFileToRemove := if number != maximum then Some(number + 1) else None;
        case ContentRejected => return StepRefused(InitRejected);
        case Panicked => return StepRefused(InitPanics);
      }
      r := Completed;
    }

    ghost function WalkHere(): WalkResult
      requires Discovered(storage.stream, original)
      reads this
    {
      WalkAll(storage.stream, original)
    }

    method RemoveLaterFiles() returns (r: StepResult)
      requires ValidationDone() && PairReady()
      requires storage.disk == RepairedDisk(storage.stream, original, StartNumber(original), WalkHere().visited)
      modifies storage
      ensures r == Completed ==> PairReady() && storage.disk == Cleaned(storage.stream, original)
      ensures !r.StepRefused?
      ensures r != Completed ==> CrashState(storage.stream, original, storage.disk)
      ensures r.StepStopped? ==> r.outcome != Done
      ensures Operations(old(storage.script), storage.script, StepOutcome(r))
      ensures Smooth(old(storage.script)) ==> Smooth(storage.script) && !r.StepStopped?
    {
      hide RepairedDisk, WalkAll, Discovered, CrashState, Published, Operations, RemovedAfter, RemovalStopped;
      NothingMet(storage.script);
      ghost var repaired := storage.disk;
      ghost var visited := WalkHere().visited;
      if firstFileToRemove == None {
        NothingBehind(storage.stream, original, repaired);
        return Completed;
      }
      var first, maximum := firstFileToRemove.value, maximumLogFile.value;
      var outcome := storage.RemoveLogAndIndex(first, maximum);
      RemovalEnds(repaired, first, maximum, old(storage.script), storage.script, outcome, storage.disk);
      if outcome != Done {
        RemovalIsCrashState(storage.stream, original, first, maximum, storage.disk);
        return StepStopped(outcome);
      }
      r := Completed;
    }

    method AdvanceCheckpoint() returns (r: StepResult)
      requires ValidationDone() && PairReady()
      requires storage.disk == Cleaned(storage.stream, original)
      modifies storage
      ensures r == Completed ==> PairReady() && storage.disk == Published(storage.stream, original)
      ensures !r.StepRefused?
      ensures r != Completed ==> CrashState(storage.stream, original, storage.disk)
      ensures r.StepStopped? ==> r.outcome != Done
      ensures Operations(old(storage.script), storage.script, StepOutcome(r))
      ensures Smooth(old(storage.script)) ==> Smooth(storage.script) && !r.StepStopped?
    {
      hide WalkAll, Discovered, Repairing, Creating, Cleaned, Removing, Operations;
      NothingMet(storage.script);
      if recoveredEnd == None {
        return Completed;
      }
      CleanedKeepsCheckpoint(storage.stream, original);
      if checkpoint != recoveredEnd {
        var outcome := storage.WriteCheckpoint(recoveredEnd.value);
        if outcome != Done {
          assert Publishing(storage.stream, original, storage.disk);
          return StepStopped(outcome);
        }
      }
      r := Completed;
    }

    /** Keeps a partial pair, or creates the empty successor of the recovered prefix. */
    method PrepareActivePair() returns (r: StepResult)
      requires ValidationDone() && PairReady()
      requires storage.disk == Published(storage.stream, original)
      modifies this`activePair, storage
      ensures r == Completed ==> activePair.Some? && PairReady()
      ensures r == Completed ==> match Init(storage.stream, original)
                                 case InitOk(active, _, disk) =>
                                   && storage.disk == disk
                                   && activePair.value.file == LogFileId(storage.stream, active.number)
                                   && activePair.value.end == active.end
                                 case _ => false
      ensures r == Completed && activePair != old(activePair) ==> fresh(activePair.value.log) && fresh(activePair.value.index)
      ensures r.StepRefused? ==> r.reason == Init(storage.stream, original) && r.reason.OrphanIndex?
      ensures r.StepRefused? ==> StoppedAtOrphan(storage.stream, original, storage.disk)
      ensures r != Completed ==> CrashState(storage.stream, original, storage.disk)
      ensures r.StepStopped? ==> r.outcome != Done
      ensures Operations(old(storage.script), storage.script, StepOutcome(r))
      ensures Smooth(old(storage.script)) ==> Smooth(storage.script) && !r.StepStopped?
    {
      hide WalkAll, Discovered, Repairing, Removing, Cleaned, Publishing;
      hide Published, CompletePair, PrecedingComplete, Operations, CreationCanStop;
      NothingMet(storage.script);
      InitFollowsWalk(storage.stream, original);
      if activePair.Some? {
        return Completed;
      }
      SuccessorNumber(storage.stream, original);
      var file := match recoveredEnd
                  case None => FirstFile(storage.stream)
                  case Some(end) => NextFile(FileOf(end.id));
      PublishedHasNoSuccessor(storage.stream, original);
      var created := storage.CreateLogAndIndex(file.number);
      match created
      case Created(log, index) =>
        activePair := Some(InitializedStream(file, log, index, None));
        r := Completed;
      case AlreadyExists =>
        CreatingOrPublished(storage.stream, original, storage.disk);
        r := StepRefused(OrphanIndex(file.number));
      case CreateStopped(outcome) =>
        CreationStops(Published(storage.stream, original), file.number, old(storage.script), storage.script, outcome, storage.disk);
        CreatingOrPublished(storage.stream, original, storage.disk);
        r := StepStopped(outcome);
    }

    method Finish() returns (r: InitializedStream)
      requires activePair.Some?
      ensures r == activePair.value
    {
      r := activePair.value;
    }
  }

  datatype InitializeResult =
    | Initialized(pair: InitializedStream)
    | Refused(reason: InitResult)
    | Cut(outcome: Outcome)

  /**
   One initialization. Success carries out exactly `Init`; every other end, wherever it happens, leaves a
   crash state of the disk it started with.
   */
  method Initialize(storage: StreamStorage) returns (r: InitializeResult)
    modifies storage
    ensures r.Initialized? ==> match Init(storage.stream, old(storage.disk))
                               case InitOk(active, _, disk) =>
                                 && storage.disk == disk
                                 && r.pair.file == LogFileId(storage.stream, active.number) && r.pair.end == active.end
                               case _ => false
    ensures r.Initialized? ==>
              && fresh(r.pair.log) && fresh(r.pair.index) && r.pair.log != r.pair.index
              && r.pair.log.Valid() && r.pair.index.Valid() && r.pair.log.AtEnd() && r.pair.index.AtEnd()
              && r.pair.log.synced == |r.pair.log.contents| && r.pair.index.synced == |r.pair.index.contents|
              && r.pair.file.number in storage.disk.logs && r.pair.log.contents == storage.disk.logs[r.pair.file.number]
              && r.pair.file.number in storage.disk.indexes && r.pair.index.contents == storage.disk.indexes[r.pair.file.number]
    ensures r.Refused? ==> r.reason == Init(storage.stream, old(storage.disk)) && !r.reason.InitOk?
    ensures r.Refused? && r.reason.CheckpointDisagrees? ==> storage.disk == old(storage.disk)
    ensures r.Refused? && r.reason.OrphanIndex? ==>
              && Discovered(storage.stream, old(storage.disk)) && WalkAll(storage.stream, old(storage.disk)).Walked?
              && StoppedAtOrphan(storage.stream, old(storage.disk), storage.disk)
    ensures !r.Initialized? ==> CrashState(storage.stream, old(storage.disk), storage.disk)
    ensures !r.Cut? ==> Operations(old(storage.script), storage.script, Done)
    ensures r.Cut? ==> r.outcome != Done
    ensures r.Cut? && !Operations(old(storage.script), storage.script, r.outcome) ==>
              && Operations(old(storage.script), storage.script, Done)
              && Repairing(storage.stream, old(storage.disk), storage.disk)
    ensures Smooth(old(storage.script)) ==> !r.Cut?
  {
    hide Init, CrashState, WalkAll, Discovered, Repairing, RepairedDisk, Cleaned, Published, Operations;
    var state := new InitializationState(storage);
    ghost var stream, original := storage.stream, storage.disk;
    UnchangedIsCrashState(stream, original);
    var step := state.LoadCheckpoint();
    ghost var steps := storage.script;
    if step == Completed {
      step := state.DiscoverLogFiles();
      OperationsThen(old(storage.script), steps, storage.script, StepOutcome(step));
      steps := storage.script;
    }
    if step == Completed {
      step := state.ValidateFiles();
      StepAfterSteps(old(storage.script), steps, storage.script, step);
      steps := storage.script;
      if step != Completed {
        RepairingIsCrashState(stream, original, storage.disk);
      }
    }
    if step == Completed {
      step := state.RemoveLaterFiles();
      OperationsThen(old(storage.script), steps, storage.script, StepOutcome(step));
      steps := storage.script;
    }
    if step == Completed {
      step := state.AdvanceCheckpoint();
      OperationsThen(old(storage.script), steps, storage.script, StepOutcome(step));
      steps := storage.script;
    }
    if step == Completed {
      step := state.PrepareActivePair();
      OperationsThen(old(storage.script), steps, storage.script, StepOutcome(step));
    }
    match step
    case StepRefused(reason) => r := Refused(reason);
    case StepStopped(outcome) => r := Cut(outcome);
    case Completed =>
      var pair := state.Finish();
      r := Initialized(pair);
  }

  /** A removal of everything behind the prefix leaves a crash state wherever it stops. */
  lemma RemovalIsCrashState(stream: StreamId, before: Disk, first: LogFileNumber, last: LogFileNumber, after: Disk)
    requires Discovered(stream, before) && WalkAll(stream, before).Walked?
    requires first == WalkAll(stream, before).visited + 1 && last + 1 == Bound(before) && first <= last
    requires RemovalStopped(RepairedDisk(stream, before, StartNumber(before), first - 1), first, last, after)
    ensures CrashState(stream, before, after)
  {
    hide RepairedDisk, WalkAll, Discovered, Repairing, Creating, Published, PartlyRemoved, WithoutPairs;
    if after == Cleaned(stream, before) {
      CleanedKeepsCheckpoint(stream, before);
      assert Publishing(stream, before, after);
    } else {
      assert Removing(stream, before, after);
    }
  }

  lemma RepairingIsCrashState(stream: StreamId, before: Disk, after: Disk)
    requires Repairing(stream, before, after)
    ensures CrashState(stream, before, after)
  {
    hide Repairing;
  }

  lemma UnchangedIsCrashState(stream: StreamId, disk: Disk)
    ensures CrashState(stream, disk, disk)
  {
    NothingRepaired(stream, disk, 0, -1);
    RepairingIsCrashState(stream, disk, disk);
  }

  lemma NothingBehind(stream: StreamId, disk: Disk, repaired: Disk)
    requires Discovered(stream, disk) && WalkAll(stream, disk).Walked?
    requires WalkAll(stream, disk).visited + 1 >= Bound(disk)
    requires repaired == RepairedDisk(stream, disk, StartNumber(disk), WalkAll(stream, disk).visited)
    ensures Cleaned(stream, disk) == repaired
  {
    hide RepairedDisk, Discovered;
    WalkIsBounded(stream, disk);
    RemoveNone(repaired, WalkAll(stream, disk).visited + 1);
  }

  lemma WalkIsBounded(stream: StreamId, disk: Disk)
    requires Discovered(stream, disk) && WalkAll(stream, disk).Walked?
    ensures -1 <= WalkAll(stream, disk).visited < Bound(disk)
  {
    hide Walk;
  }

  lemma CleanedKeepsCheckpoint(stream: StreamId, disk: Disk)
    requires Discovered(stream, disk) && WalkAll(stream, disk).Walked?
    ensures Cleaned(stream, disk).checkpoint == disk.checkpoint
  {
    hide Discovered, WalkAll, PairAt;
  }

  lemma InitFollowsWalk(stream: StreamId, disk: Disk)
    requires Discovered(stream, disk) && WalkAll(stream, disk).Walked?
    ensures var walk, published := WalkAll(stream, disk), Published(stream, disk);
            && (walk.active.Some? ==> Init(stream, disk) == InitOk(walk.active.value, walk.recovered, published))
            && (walk.active == None ==>
                  var number: LogFileNumber := walk.visited + 1;
                  && (number in published.indexes ==> Init(stream, disk) == OrphanIndex(number))
                  && (number !in published.indexes ==>
                        Init(stream, disk) == InitOk(Active(number, None), walk.recovered, WithEmptyPair(published, number))))
  {
    hide WalkAll, Discovered, Published;
  }

  /** The successor of the recovered end's file is the file behind the last visited one. */
  lemma SuccessorNumber(stream: StreamId, disk: Disk)
    requires Discovered(stream, disk) && WalkAll(stream, disk).Walked? && WalkAll(stream, disk).active == None
    ensures var walk := WalkAll(stream, disk);
            && (walk.recovered == None ==> walk.visited == -1)
            && (walk.recovered.Some? ==>
                  && walk.recovered.value.id.stream == stream
                  && FileOf(walk.recovered.value.id).number == walk.visited < MAX_FILE_NUMBER)
  {
    hide Walk;
    if WalkAll(stream, disk).recovered == None {
      StartedFromZero(stream, disk);
    }
  }

  /** With a checkpoint, a walk always recovers something. */
  lemma StartedFromZero(stream: StreamId, disk: Disk)
    requires Discovered(stream, disk) && WalkAll(stream, disk).Walked? && WalkAll(stream, disk).recovered == None
    ensures disk.checkpoint == None
  {
    hide RecoverPair, CompletePair, PrecedingComplete;
    if disk.checkpoint.Some? {
      var first, maximum := StartNumber(disk), Maximum(disk.logs.Keys).value;
      RecoveredPairEnd(stream, disk, first);
      var end := PairAt(stream, disk, first).end;
      if CompletePair(end) && first < maximum {
        CompletePrecedes(stream, disk, first);
        WalkKeepsRecovered(stream, disk, first + 1, maximum, end);
      }
    }
  }

  lemma {:induction false} WalkKeepsRecovered(stream: StreamId, disk: Disk, number: LogFileNumber, maximum: LogFileNumber, recovered: Option<RecordEnd>)
    requires number <= maximum && PrecedingComplete(stream, recovered, number - 1)
    requires recovered.Some? && Walk(stream, disk, number, maximum, recovered).Walked?
    ensures Walk(stream, disk, number, maximum, recovered).recovered.Some?
    decreases maximum - number
  {
    hide PairAt, CompletePair, PrecedingComplete;
    if number in disk.logs {
      var end := PairAt(stream, disk, number).end;
      if CompletePair(end) {
        CompletePrecedes(stream, disk, number);
        if number < maximum {
          WalkKeepsRecovered(stream, disk, number + 1, maximum, end);
        }
      }
    }
  }

  lemma PublishedHasNoSuccessor(stream: StreamId, disk: Disk)
    requires Discovered(stream, disk) && WalkAll(stream, disk).Walked? && WalkAll(stream, disk).active == None
    ensures WalkAll(stream, disk).visited + 1 !in Published(stream, disk).logs
  {
    hide Walk, PairAt, Discovered;
  }

  lemma CreatingOrPublished(stream: StreamId, before: Disk, after: Disk)
    requires Discovered(stream, before) && WalkAll(stream, before).Walked? && WalkAll(stream, before).active == None
    requires var published := Published(stream, before);
             var number: LogFileNumber := WalkAll(stream, before).visited + 1;
             && after.checkpoint == published.checkpoint
             && (|| (after.logs == published.logs && after.indexes == published.indexes)
                 || (after.logs == published.logs[number := []] && after.indexes == published.indexes)
                 || (number !in published.indexes
                     && after.logs == published.logs[number := []] && after.indexes == published.indexes[number := []]))
    ensures CrashState(stream, before, after)
  {
    hide WalkAll, Discovered, Repairing, Removing, Cleaned;
    if after.logs == Published(stream, before).logs && after.indexes == Published(stream, before).indexes {
      assert Publishing(stream, before, after);
    } else {
      assert Creating(stream, before, after);
    }
  }

  lemma NoPredecessor(stream: StreamId, visited: int)
    ensures PrecedingComplete(stream, None, visited)
  {
  }

  ghost predicate AllRecovered(stream: StreamId, disk: Disk, first: int, stop: int) {
    forall n: LogFileNumber :: first <= n <= stop ==> n in disk.logs && PairAt(stream, disk, n).PairRecovered?
  }

  lemma NothingRepaired(stream: StreamId, disk: Disk, first: int, stop: int)
    requires stop < first || disk.logs == map[]
    ensures RepairedDisk(stream, disk, first, stop) == disk
    ensures Repairing(stream, disk, disk)
  {
    hide PairAt;
    assert RepairedDisk(stream, disk, first, stop).logs == disk.logs;
    assert RepairedDisk(stream, disk, first, stop).indexes == disk.indexes;
  }

  /** One pair of a partly repaired disk. */
  lemma RepairedAt(stream: StreamId, disk: Disk, first: int, stop: int, n: LogFileNumber)
    ensures var d := RepairedDisk(stream, disk, first, stop);
            && d.checkpoint == disk.checkpoint && d.staging == disk.staging
            && (n in d.logs <==> n in disk.logs)
            && (n in disk.logs ==> d.logs[n] == RepairedLog(stream, disk, first, stop, n))
            && (n in d.indexes <==> n in disk.indexes || (n in disk.logs && first <= n <= stop))
            && IndexOf(d, n) == RepairedIndex(stream, disk, first, stop, n)
  {
    hide PairAt;
  }

  lemma RepairedKeys(stream: StreamId, disk: Disk, first: int, stop: int)
    ensures RepairedDisk(stream, disk, first, stop).logs.Keys == disk.logs.Keys
  {
    hide PairAt;
  }

  /** Recovered pairs count as pairs in progress. */
  lemma RepairedIsRepairing(stream: StreamId, disk: Disk, stop: int)
    requires AllRecovered(stream, disk, StartNumber(disk), stop)
    ensures Repairing(stream, disk, RepairedDisk(stream, disk, StartNumber(disk), stop))
  {
    hide RepairedDisk, RecoverPair, PairInProgress;
    var first := StartNumber(disk);
    var d := RepairedDisk(stream, disk, first, stop);
    RepairedKeys(stream, disk, first, stop);
    forall n: LogFileNumber
      ensures n in disk.indexes ==> n in d.indexes
      ensures n !in disk.logs || n < first ==> SameIndex(disk, d, n)
      ensures d.checkpoint == disk.checkpoint && d.staging == disk.staging
      ensures n in disk.logs ==> PairRepairing(stream, disk, d, n)
    {
      RepairedAt(stream, disk, first, stop, n);
      if n in disk.logs && first <= n {
        if n <= stop {
          FinishedPairIsInProgress(LogFileId(stream, n), TrustedIn(disk.checkpoint, n), disk.logs[n], IndexOf(disk, n));
        } else {
          UntouchedPairIsInProgress(LogFileId(stream, n), TrustedIn(disk.checkpoint, n), disk.logs[n], IndexOf(disk, n));
        }
      }
    }
    RepairedAt(stream, disk, first, stop, 0);
  }

  lemma UntouchedPairIsInProgress(file: LogFileId, trusted: Option<RecordEnd>, log: seq<byte>, index: seq<byte>)
    ensures PairInProgress(file, trusted, log, index, log, index)
  {
    hide KeptLog, RecoverLog, PartlyRepaired;
  }

  /** Working on one more pair keeps the disk in the state of a walk in progress. */
  lemma NextPairInProgress(stream: StreamId, disk: Disk, number: LogFileNumber, after: Disk)
    requires StartNumber(disk) <= number && AllRecovered(stream, disk, StartNumber(disk), number - 1)
    requires OnlyPairChanged(stream, number, TrustedIn(disk.checkpoint, number),
                             RepairedDisk(stream, disk, StartNumber(disk), number - 1), after)
    ensures number in disk.logs && number in after.logs && Repairing(stream, disk, after)
  {
    hide RepairedDisk, RecoverPair, PairInProgress, PairAt;
    var first := StartNumber(disk);
    var before := RepairedDisk(stream, disk, first, number - 1);
    RepairedIsRepairing(stream, disk, number - 1);
    RepairedKeys(stream, disk, first, number - 1);
    RepairedAt(stream, disk, first, number - 1, number);
    forall n: LogFileNumber
      ensures n in before.indexes ==> n in after.indexes
      ensures n != number ==> SameIndex(before, after, n) && (n in before.logs ==> after.logs[n] == before.logs[n])
    {
    }
    forall n: LogFileNumber | n in disk.logs
      ensures PairRepairing(stream, disk, after, n)
    {
      assert PairRepairing(stream, disk, before, n);
      if n == number {
        assert before.logs[n] == disk.logs[n] && IndexOf(before, n) == IndexOf(disk, n);
      }
    }
    forall n: LogFileNumber | n !in disk.logs || n < first
      ensures SameIndex(disk, after, n)
    {
      assert SameIndex(disk, before, n);
    }
  }

  /** A pair whose recovery finished makes the walk's disk one pair longer. */
  lemma NextPairFinished(stream: StreamId, disk: Disk, first: nat, number: LogFileNumber, after: Disk)
    requires first <= number && number in disk.logs && number in after.logs && number in after.indexes
    requires OnlyPairChanged(stream, number, TrustedIn(disk.checkpoint, number),
                             RepairedDisk(stream, disk, first, number - 1), after)
    requires PairAt(stream, disk, number).PairRecovered?
    requires PairAt(stream, disk, number).log == after.logs[number] && PairAt(stream, disk, number).index == after.indexes[number]
    ensures after == RepairedDisk(stream, disk, first, number)
  {
    hide RepairedDisk, PairAt, PairInProgress;
    var before, goal := RepairedDisk(stream, disk, first, number - 1), RepairedDisk(stream, disk, first, number);
    RepairedKeys(stream, disk, first, number - 1);
    RepairedKeys(stream, disk, first, number);
    RepairedAt(stream, disk, first, number, number);
    RepairedAt(stream, disk, first, number - 1, number);
    forall n: LogFileNumber
      ensures n in after.logs <==> n in goal.logs
      ensures n in after.logs ==> after.logs[n] == goal.logs[n]
      ensures n in after.indexes <==> n in goal.indexes
      ensures n in after.indexes ==> after.indexes[n] == goal.indexes[n]
    {
      RepairedAt(stream, disk, first, number - 1, n);
      RepairedAt(stream, disk, first, number, n);
    }
    assert after.logs == goal.logs;
    assert after.indexes == goal.indexes;
  }

  /** What the validator sees of an unvisited pair is what is on the original disk. */
  lemma UnvisitedPair(stream: StreamId, disk: Disk, first: int, number: LogFileNumber)
    ensures var d := RepairedDisk(stream, disk, first, number - 1);
            && (number in d.logs <==> number in disk.logs)
            && (number in disk.logs ==> d.logs[number] == disk.logs[number])
            && IndexOf(d, number) == IndexOf(disk, number)
  {
    hide RepairedDisk, PairAt;
    RepairedAt(stream, disk, first, number - 1, number);
  }

  lemma FailedWalk(stream: StreamId, disk: Disk)
    requires Discovered(stream, disk)
    ensures WalkAll(stream, disk) == WalkRejected ==> Init(stream, disk) == InitRejected
    ensures WalkAll(stream, disk) == WalkPanics ==> Init(stream, disk) == InitPanics
  {
    hide WalkAll, Discovered;
  }

  lemma NothingVisited(stream: StreamId, disk: Disk, first: int)
    ensures AllRecovered(stream, disk, first, first - 1)
  {
  }

  lemma OneMoreRecovered(stream: StreamId, disk: Disk, first: int, number: LogFileNumber)
    requires AllRecovered(stream, disk, first, number - 1)
    requires number in disk.logs && PairAt(stream, disk, number).PairRecovered?
    ensures AllRecovered(stream, disk, first, number)
  {
    hide PairAt;
  }

  /** What the validator reports about a pair is what the walk computes for it. */
  lemma PairReported(stream: StreamId, disk: Disk, number: LogFileNumber, after: Disk, r: PairValidation)
    requires number in disk.logs && number in after.logs
    requires number in RepairedDisk(stream, disk, StartNumber(disk), number - 1).logs
    requires Reports(stream, number, TrustedIn(disk.checkpoint, number),
                     RepairedDisk(stream, disk, StartNumber(disk), number - 1), after, r)
    ensures var recovery := PairAt(stream, disk, number);
            && (r.CompleteFile? ==> number in after.indexes && CompletePair(Some(r.lastEnd))
                                    && recovery == PairRecovered(Some(r.lastEnd), after.logs[number], after.indexes[number]))
            && (r.PartialFile? ==> number in after.indexes && !CompletePair(r.end)
                                   && recovery == PairRecovered(r.end, after.logs[number], after.indexes[number]))
            && (r.ContentRejected? ==> recovery == PairRejected)
            && (r.Panicked? ==> recovery == PairPanics)
            && !r.LogNotFound?
  {
    hide RepairedDisk, RecoverPair, CompletePair;
    UnvisitedPair(stream, disk, StartNumber(disk), number);
  }
}
