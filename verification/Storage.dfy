/**
 One stream's files on disk and the storage operations recovery uses: discovery, opening, removal, creation and
 checkpoint publication. Completed effects persist in order; every operation may fail or be abandoned, and an
 abandoned one may have taken effect.
 */
module Storage {
  import opened Bytes
  import opened RecordProtocol
  import opened ByteDevice
  import opened Locations
  import Search = MaximumLogFile

  /** The document that is to replace the checkpoint, and how far it has come. It never counts as a checkpoint. */
  datatype Staging = NoStaging | Incomplete | Staged(end: RecordEnd, flushed: bool, synced: bool)

  datatype Disk = Disk(
    logs: map<LogFileNumber, seq<byte>>,
    indexes: map<LogFileNumber, seq<byte>>,
    checkpoint: Option<RecordEnd>,
    staging: Staging)

  /** Index bytes; a missing index reads as empty, because opening it for repair creates it. */
  function IndexOf(disk: Disk, number: LogFileNumber): seq<byte> {
    if number in disk.indexes then disk.indexes[number] else []
  }

  // ---------- Removal ----------

  /** All pairs from `first` below `stop` are gone. */
  function WithoutPairs(disk: Disk, first: nat, stop: nat): Disk {
    disk.(logs := map n | n in disk.logs && !(first <= n < stop) :: disk.logs[n],
          indexes := map n | n in disk.indexes && !(first <= n < stop) :: disk.indexes[n])
  }

  function WithoutLog(disk: Disk, number: nat): Disk {
    disk.(logs := map n | n in disk.logs && n != number :: disk.logs[n])
  }

  function WithoutIndex(disk: Disk, number: nat): Disk {
    disk.(indexes := map n | n in disk.indexes && n != number :: disk.indexes[n])
  }

  /** Removal in ascending order stopped somewhere: below `k` both files are gone, and perhaps the log of `k`. */
  ghost predicate RemovedThrough(before: Disk, first: nat, k: nat, after: Disk) {
    after == WithoutPairs(before, first, k) || after == WithoutLog(WithoutPairs(before, first, k), k)
  }

  ghost predicate PartlyRemoved(before: Disk, first: LogFileNumber, last: LogFileNumber, after: Disk) {
    exists k: nat :: first <= k <= last && RemovedThrough(before, first, k, after)
  }

  /** The disk after the first `count` operations of a removal; the last one synchronizes. */
  function RemovedAfter(disk: Disk, first: nat, last: nat, count: nat): Disk
    requires first <= last + 1
  {
    var k := first + count / 2;
    if k > last then WithoutPairs(disk, first, last + 1)
    else if count % 2 == 0 then WithoutPairs(disk, first, k)
    else WithoutLog(WithoutPairs(disk, first, k), k)
  }

  /** The disk after the first `count` operations of a creation; the first one concerns only directories. */
  function CreatedAfter(disk: Disk, number: LogFileNumber, count: nat): Disk {
    if count < 2 then disk
    else
      var logs := disk.logs[number := []];
      if count == 2 then disk.(logs := logs) else disk.(logs := logs, indexes := disk.indexes[number := []])
  }

  /** A step in which creation can fail does not find its file present. */
  predicate CreationCanStop(disk: Disk, number: LogFileNumber, count: int) {
    && (count >= 2 ==> number !in disk.logs)
    && (count >= 3 ==> number !in disk.indexes)
  }

  /** The disk after the first `count` operations of a publication: create, write, flush, synchronize, rename, synchronize the directory. */
  function PublishedAfter(disk: Disk, end: RecordEnd, count: nat): Disk {
    if count == 0 then disk
    else if count == 1 then disk.(staging := Incomplete)
    else if count < 5 then disk.(staging := Staged(end, count > 2, count > 3))
    else disk.(checkpoint := Some(end), staging := NoStaging)
  }

  /** Renaming the staging file over the published one, which would be lost with an unsynchronized replacement. */
  function Renamed(disk: Disk): Disk
    requires disk.staging.Staged? && disk.staging.synced
  {
    disk.(checkpoint := Some(disk.staging.end), staging := NoStaging)
  }

  /** How many operations a script has provided. */
  function Performed(before: seq<IoStep>, after: seq<IoStep>): int {
    |before| - |after|
  }

  /**
   What an operation of `total` steps leaves, `states` being the disk after each number of steps. A failing step
   has no effect, an abandoned one may have had its own.
   */
  ghost predicate Stepwise(states: nat -> Disk, total: nat, before: seq<IoStep>, after: seq<IoStep>, r: Outcome, disk: Disk) {
    && Operations(before, after, r)
    && match r
       case Done => after == Behind(before, total) && disk == states(total)
       case Failed => 0 < Performed(before, after) <= total && disk == states(Performed(before, after) - 1)
       case Abandoned =>
         && 0 < Performed(before, after) <= total
         && (disk == states(Performed(before, after) - 1) || disk == states(Performed(before, after)))
  }

  ghost predicate RemovalStopped(before: Disk, first: LogFileNumber, last: LogFileNumber, after: Disk) {
    PartlyRemoved(before, first, last, after) || after == WithoutPairs(before, first, last + 1)
  }

  lemma RemoveNext(disk: Disk, first: nat, k: nat)
    requires first <= k
    ensures var d := WithoutLog(WithoutPairs(disk, first, k), k);
            WithoutIndex(d, k) == WithoutPairs(disk, first, k + 1)
  {
  }

  lemma RemoveNone(disk: Disk, first: nat)
    ensures WithoutPairs(disk, first, first) == disk
  {
    assert WithoutPairs(disk, first, first).logs == disk.logs;
    assert WithoutPairs(disk, first, first).indexes == disk.indexes;
  }

  datatype CreateResult = Created(log: Device, index: Device) | AlreadyExists | CreateStopped(outcome: Outcome)

  class StreamStorage {
    const stream: StreamId
    var disk: Disk
    var script: seq<IoStep>

    constructor (stream: StreamId, disk: Disk, script: seq<IoStep>)
      ensures this.stream == stream && this.disk == disk && this.script == script
    {
      this.stream, this.disk, this.script := stream, disk, script;
    }

    /** One file system operation: whether it reports success, and whether it took effect. */
    method Operate() returns (r: Outcome, effect: bool)
      modifies this`script
      ensures r == CallOutcome(FirstStep(old(script))) && script == Rest(old(script))
      ensures r == Done ==> effect
      ensures r == Failed ==> !effect
      ensures Smooth(old(script)) ==> Smooth(script) && r == Done
    {
      r, effect, script := NextOutcome(script);
    }

    method ReadCheckpoint() returns (r: Outcome, checkpoint: Option<RecordEnd>)
      modifies this`script
      ensures r == Done ==> checkpoint == disk.checkpoint
      ensures r == CallOutcome(FirstStep(old(script))) && script == Rest(old(script))
      ensures Smooth(old(script)) ==> Smooth(script) && r == Done
    {
      var effect;
      r, effect := Operate();
      checkpoint := disk.checkpoint;
    }

    /** The directory search over any tree that holds exactly this disk's logs. */
    method MaximumLogFile() returns (r: Outcome, maximum: Option<LogFileNumber>)
      modifies this`script
      ensures r == Done ==> IsMaximum(disk.logs.Keys, maximum)
      ensures Operations(old(script), script, r)
      ensures Smooth(old(script)) ==> Smooth(script) && r == Done
    {
      Search.AnyLogsHaveATree(disk.logs.Keys);
      var tree: Option<Search.Node> :| Search.Represents(tree, disk.logs.Keys);
      r, maximum, script := Search.MaximumLogFile(tree, script);
    }

    /** Ascending, each log before its index, and a final synchronization; absent files are fine. */
    method RemoveLogAndIndex(first: LogFileNumber, last: LogFileNumber) returns (r: Outcome)
      requires first <= last
      modifies this
      ensures var before := old(disk);
              Stepwise((count: nat) => RemovedAfter(before, first, last, count), 2 * (last - first + 1) + 1, old(script), script, r, disk)
      ensures Smooth(old(script)) ==> Smooth(script) && r == Done
    {
      hide Operations, Smooth, WithoutPairs, WithoutLog, RemovedAfter;
      var effect;
      RemoveNone(disk, first);
      NothingMet(script);
      var number: nat := first;
      while number <= last
        invariant first <= number <= last + 1
        invariant disk == WithoutPairs(old(disk), first, number)
        invariant Smooth(old(script)) ==> Smooth(script)
        invariant Operations(old(script), script, Done) && script == Behind(old(script), 2 * (number - first))
      {
        RemovedSoFar(old(disk), first, last, number);
        OperationNext(old(script), script);
        r, effect := Operate();
        if effect {
          disk := WithoutLog(disk, number);
        }
        if r != Done {
          return;
        }
        OperationNext(old(script), script);
        r, effect := Operate();
        if effect {
          RemoveNext(old(disk), first, number);
          disk := WithoutIndex(disk, number);
        }
        if r != Done {
          return;
        }
        number := number + 1;
      }
      RemovedAll(old(disk), first, last);
      OperationNext(old(script), script);
      r, effect := Operate();
    }

    /** Creates an empty pair, log first; existing files are never touched. */
    method CreateLogAndIndex(number: LogFileNumber) returns (r: CreateResult)
      modifies this
      ensures r.Created? ==>
                && number !in old(disk).logs && number !in old(disk).indexes
                && fresh(r.log) && fresh(r.index) && r.log != r.index && r.log.Valid() && r.index.Valid()
                && r.log.contents == r.index.contents == [] && r.log.AtEnd() && r.index.AtEnd()
      ensures r.AlreadyExists? ==>
                && Operations(old(script), script, Done)
                && if number in old(disk).logs then disk == old(disk) && script == Rest(old(script))
                   else number in old(disk).indexes && disk == CreatedAfter(old(disk), number, 2) && script == Behind(old(script), 2)
      ensures var before := old(disk);
              r.AlreadyExists?
              || Stepwise((count: nat) => CreatedAfter(before, number, count), 3, old(script), script,
                          if r.CreateStopped? then r.outcome else Done, disk)
      ensures r.CreateStopped? ==> r.outcome != Done && CreationCanStop(old(disk), number, Performed(old(script), script))
      ensures Smooth(old(script)) ==> Smooth(script) && !r.CreateStopped?
    {
      hide Operations, Smooth;
      OneCall(script);
      var outcome, effect := Operate();  // create the directories
      if outcome != Done {
        return CreateStopped(outcome);
      }
      if number in disk.logs {
        return AlreadyExists;
      }
      OperationNext(old(script), script);
      outcome, effect := Operate();
      if effect {
        disk := disk.(logs := disk.logs[number := []]);
      }
      if outcome != Done {
        return CreateStopped(outcome);
      }
      if number in disk.indexes {
        return AlreadyExists;
      }
      OperationNext(old(script), script);
      outcome, effect := Operate();
      if effect {
        disk := disk.(indexes := disk.indexes[number := []]);
      }
      if outcome != Done {
        return CreateStopped(outcome);
      }
      var logScript, indexScript: seq<IoStep> := *, *;
      var log := new Device([], logScript);
      var index := new Device([], indexScript);
      r := Created(log, index);
    }

    /** Creates the staging file, writes the document, flushes and synchronizes it. */
    method StageCheckpoint(end: RecordEnd) returns (r: Outcome)
      modifies this
      ensures var before := old(disk);
              Stepwise((count: nat) => PublishedAfter(before, end, count), 4, old(script), script, r, disk)
      ensures Smooth(old(script)) ==> Smooth(script) && r == Done
    {
      hide Operations, Smooth;
      var effect;
      OneCall(script);
      r, effect := Operate();  // create or truncate the staging file
      if effect {
        disk := disk.(staging := Incomplete);
      }
      if r != Done {
        return;
      }
      OperationNext(old(script), script);
      r, effect := Operate();  // write the document
      if effect {
        disk := disk.(staging := Staged(end, false, false));
      }
      if r != Done {
        return;
      }
      OperationNext(old(script), script);
      r, effect := Operate();  // flush
      if effect {
        disk := disk.(staging := disk.staging.(flushed := true));
      }
      if r != Done {
        return;
      }
      OperationNext(old(script), script);
      r, effect := Operate();  // synchronize what has been flushed
      if effect {
        disk := disk.(staging := disk.staging.(synced := disk.staging.flushed));
      }
    }

    /** Stages the document, then renames it over the published one and synchronizes the directory. */
    method WriteCheckpoint(end: RecordEnd) returns (r: Outcome)
      modifies this
      ensures var before := old(disk);
              Stepwise((count: nat) => PublishedAfter(before, end, count), 6, old(script), script, r, disk)
      ensures Smooth(old(script)) ==> Smooth(script) && r == Done
    {
      hide Operations, Smooth;
      r := StageCheckpoint(end);
      if r != Done {
        return;
      }
      var effect;
      OperationNext(old(script), script);
      r, effect := Operate();  // rename
      if effect {
        disk := Renamed(disk);
      }
      if r != Done {
        return;
      }
      OperationNext(old(script), script);
      r, effect := Operate();  // synchronize the directory
    }
  }

  /** Where a removal stops and what it leaves when it completes. */
  lemma RemovalEnds(before: Disk, first: LogFileNumber, last: LogFileNumber,
                    script: seq<IoStep>, left: seq<IoStep>, r: Outcome, after: Disk)
    requires first <= last
    requires Stepwise((count: nat) => RemovedAfter(before, first, last, count), 2 * (last - first + 1) + 1, script, left, r, after)
    ensures r == Done ==> after == WithoutPairs(before, first, last + 1)
    ensures r != Done ==> RemovalStopped(before, first, last, after)
    ensures Operations(script, left, r)
  {
    hide Operations, RemovedAfter, WithoutPairs, RemovalStopped;
    RemovedAll(before, first, last);
    var count := Performed(script, left);
    if r != Done {
      RemovalStops(before, first, last, count - 1);
      RemovalStops(before, first, last, count);
    }
  }

  /** Two operations for each pair that is gone, and one more for the next log. */
  lemma RemovedSoFar(disk: Disk, first: nat, last: nat, number: nat)
    requires first <= number <= last
    ensures RemovedAfter(disk, first, last, 2 * (number - first)) == WithoutPairs(disk, first, number)
    ensures RemovedAfter(disk, first, last, 2 * (number - first) + 1) == WithoutLog(WithoutPairs(disk, first, number), number)
    ensures RemovedAfter(disk, first, last, 2 * (number - first) + 2) == WithoutPairs(disk, first, number + 1)
  {
    hide WithoutPairs, WithoutLog;
  }

  lemma RemovedAll(disk: Disk, first: nat, last: nat)
    requires first <= last
    ensures RemovedAfter(disk, first, last, 2 * (last - first) + 2) == WithoutPairs(disk, first, last + 1)
    ensures RemovedAfter(disk, first, last, 2 * (last - first) + 3) == WithoutPairs(disk, first, last + 1)
  {
    hide WithoutPairs, WithoutLog;
  }

  /** Where a creation stops it has not touched a file that was there. */
  lemma CreationStops(before: Disk, number: LogFileNumber, script: seq<IoStep>, left: seq<IoStep>, r: Outcome, after: Disk)
    requires Stepwise((count: nat) => CreatedAfter(before, number, count), 3, script, left, r, after) && r != Done
    requires CreationCanStop(before, number, Performed(script, left))
    ensures CreationStopped(before, number, after)
  {
    hide Operations;
  }

  ghost predicate CreationStopped(before: Disk, number: LogFileNumber, after: Disk) {
    && after.checkpoint == before.checkpoint && after.staging == before.staging
    && ((after.logs == before.logs && after.indexes == before.indexes)
        || (number !in before.logs && after.logs == before.logs[number := []]
            && (after.indexes == before.indexes
                || (number !in before.indexes && after.indexes == before.indexes[number := []]))))
  }

  /** What the callers of a removal need to know about where it stops. */
  lemma RemovalStops(before: Disk, first: LogFileNumber, last: LogFileNumber, count: nat)
    requires first <= last
    ensures RemovalStopped(before, first, last, RemovedAfter(before, first, last, count))
  {
    hide WithoutPairs, WithoutLog;
    var k := first + count / 2;
    if k <= last {
      assert RemovedThrough(before, first, k, RemovedAfter(before, first, last, count));
    }
  }
}
