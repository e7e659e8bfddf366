/**
 One file or socket as seen through its asynchronous operations. A finite script decides what each
 operation meets: short transfers, interruptions, errors, cancellation. Once the script is used up,
 every operation completes. Cancellation and panic look the same: the operation never reports back,
 and part of its effect may have happened.
 */
module ByteDevice {
  import opened Bytes

  datatype IoStep =
    | Progress(limit: nat)  // transfer at most `limit` bytes, but at least one
    | ZeroWrite             // a write accepts nothing
    | Interrupted           // the operation reports Interrupted without any effect
    | Fail                  // the operation reports another error without any effect
    | Abandon(effect: nat)  // cancelled or panicking after at most `effect` bytes, or after the whole effect

  datatype ReadOutcome = Received(bytes: seq<byte>) | ReadInterrupted | ReadFailed | ReadAbandoned

  datatype WriteOutcome = Accepted(count: nat) | WriteInterrupted | WriteFailed | WriteAbandoned

  datatype Outcome = Done | Failed | Abandoned

  predicate Faultless(script: seq<IoStep>) {
    forall i :: 0 <= i < |script| ==> script[i].Progress? || script[i].Interrupted?
  }

  /** Operations may be cut short and abandoned, but none reports an error. */
  predicate NeverFails(script: seq<IoStep>) {
    forall i :: 0 <= i < |script| ==> !script[i].Fail?
  }

  /** Operations may transfer less than asked for, and otherwise complete. */
  predicate Smooth(script: seq<IoStep>) {
    forall i :: 0 <= i < |script| ==> script[i].Progress?
  }

  // ---------- What a run of operations has met ----------

  /** The step the next operation meets; without one it completes. */
  function FirstStep(script: seq<IoStep>): IoStep {
    if script == [] then Progress(0) else script[0]
  }

  function Rest(script: seq<IoStep>): seq<IoStep> {
    if script == [] then [] else script[1..]
  }

  /** What is left after `count` operations. */
  function Behind(script: seq<IoStep>, count: nat): seq<IoStep> {
    if count <= |script| then script[count..] else []
  }

  /** `after` is the unused end of `before`. */
  predicate LeftOf(before: seq<IoStep>, after: seq<IoStep>) {
    |after| <= |before| && after == before[|before| - |after|..]
  }

  /** The steps that have been met in between. */
  function Met(before: seq<IoStep>, after: seq<IoStep>): seq<IoStep>
    requires |after| <= |before|
  {
    before[..|before| - |after|]
  }

  /** What a single call reports. */
  function CallOutcome(step: IoStep): Outcome {
    match step
    case Progress(_) => Done
    case ZeroWrite => Done
    case Interrupted => Failed
    case Fail => Failed
    case Abandon(_) => Abandoned
  }

  /** No operation goes on after one of these. */
  predicate Fatal(step: IoStep) {
    step.Fail? || step.Abandon?
  }

  /** Repeated reads: interruptions are retried, the first error or abandonment ends them and is what they report. */
  ghost predicate Reads(before: seq<IoStep>, after: seq<IoStep>, r: Outcome) {
    && LeftOf(before, after)
    && var met := Met(before, after);
       && (forall i :: 0 <= i < |met| - 1 ==> !Fatal(met[i]))
       && match r
          case Done => met == [] || !Fatal(met[|met| - 1])
          case Failed => met != [] && met[|met| - 1].Fail?
          case Abandoned => met != [] && met[|met| - 1].Abandon?
  }

  /** Repeated writes: the same, and a write that accepts nothing is an error. */
  ghost predicate Writes(before: seq<IoStep>, after: seq<IoStep>, r: Outcome) {
    && LeftOf(before, after)
    && var met := Met(before, after);
       && (forall i :: 0 <= i < |met| - 1 ==> !Fatal(met[i]) && !met[i].ZeroWrite?)
       && match r
          case Done => met == [] || (!Fatal(met[|met| - 1]) && !met[|met| - 1].ZeroWrite?)
          case Failed => met != [] && (met[|met| - 1].Fail? || met[|met| - 1].ZeroWrite?)
          case Abandoned => met != [] && met[|met| - 1].Abandon?
  }

  /** A mixture of both and of single calls: nothing follows an error or abandonment, and it is what is reported. */
  ghost predicate Calls(before: seq<IoStep>, after: seq<IoStep>, r: Outcome) {
    && LeftOf(before, after)
    && var met := Met(before, after);
       && (forall i :: 0 <= i < |met| - 1 ==> !Fatal(met[i]))
       && match r
          case Done => met == [] || !Fatal(met[|met| - 1])
          case Failed => met != [] && !met[|met| - 1].Progress? && !met[|met| - 1].Abandon?
          case Abandoned => met != [] && met[|met| - 1].Abandon?
  }

  /** Single calls only: each but the last has succeeded, and the last one's report is the outcome. */
  ghost predicate Operations(before: seq<IoStep>, after: seq<IoStep>, r: Outcome) {
    && LeftOf(before, after)
    && var met := Met(before, after);
       && (forall i :: 0 <= i < |met| - 1 ==> CallOutcome(met[i]) == Done)
       && r == if met == [] then Done else CallOutcome(met[|met| - 1])
  }

  lemma MetTwice(a: seq<IoStep>, b: seq<IoStep>, c: seq<IoStep>)
    requires LeftOf(a, b) && LeftOf(b, c)
    ensures LeftOf(a, c) && Met(a, c) == Met(a, b) + Met(b, c)
  {
    assert a == Met(a, b) + b && b == Met(b, c) + c;
  }

  lemma NothingMet(script: seq<IoStep>)
    ensures Reads(script, script, Done) && Writes(script, script, Done) && Calls(script, script, Done)
    ensures Operations(script, script, Done)
  {
  }

  lemma OneCall(script: seq<IoStep>)
    ensures Calls(script, Rest(script), CallOutcome(FirstStep(script)))
    ensures Operations(script, Rest(script), CallOutcome(FirstStep(script)))
  {
  }

  /** What one write reports; an interrupted one goes on. */
  function WriteReport(step: IoStep): Outcome {
    match step
    case Progress(_) => Done
    case Interrupted => Done
    case ZeroWrite => Failed
    case Fail => Failed
    case Abandon(_) => Abandoned
  }

  lemma OneWrite(script: seq<IoStep>)
    ensures Writes(script, Rest(script), WriteReport(FirstStep(script)))
  {
  }

  /** What one read reports; an interrupted one goes on. */
  function ReadReport(step: IoStep): Outcome {
    match step
    case Fail => Failed
    case Abandon(_) => Abandoned
    case _ => Done
  }

  lemma OneRead(script: seq<IoStep>)
    ensures Reads(script, Rest(script), ReadReport(FirstStep(script)))
  {
  }

  lemma ReadsThen(a: seq<IoStep>, b: seq<IoStep>, c: seq<IoStep>, r: Outcome)
    requires Reads(a, b, Done) && Reads(b, c, r)
    ensures Reads(a, c, r)
  {
    MetTwice(a, b, c);
  }

  lemma WritesThen(a: seq<IoStep>, b: seq<IoStep>, c: seq<IoStep>, r: Outcome)
    requires Writes(a, b, Done) && Writes(b, c, r)
    ensures Writes(a, c, r)
  {
    MetTwice(a, b, c);
  }

  lemma CallsThen(a: seq<IoStep>, b: seq<IoStep>, c: seq<IoStep>, r: Outcome)
    requires Calls(a, b, Done) && Calls(b, c, r)
    ensures Calls(a, c, r)
  {
    MetTwice(a, b, c);
  }

  lemma OperationsThen(a: seq<IoStep>, b: seq<IoStep>, c: seq<IoStep>, r: Outcome)
    requires Operations(a, b, Done) && Operations(b, c, r)
    ensures Operations(a, c, r)
  {
    MetTwice(a, b, c);
  }

  lemma ThreeSteps(script: seq<IoStep>)
    ensures Behind(script, 3) == Rest(Rest(Rest(script)))
  {
  }

  /** One more call after successful ones. */
  lemma OperationNext(before: seq<IoStep>, after: seq<IoStep>)
    requires Operations(before, after, Done)
    ensures Operations(before, Rest(after), CallOutcome(FirstStep(after)))
  {
    hide Operations;
    OneCall(after);
    OperationsThen(before, after, Rest(after), CallOutcome(FirstStep(after)));
  }

  lemma TransfersAreCalls(before: seq<IoStep>, after: seq<IoStep>, r: Outcome)
    requires Reads(before, after, r) || Writes(before, after, r)
    ensures Calls(before, after, r)
  {
  }

  lemma OperationsAreCalls(before: seq<IoStep>, after: seq<IoStep>, r: Outcome)
    requires Operations(before, after, r)
    ensures Calls(before, after, r)
  {
    var met := Met(before, after);
    forall i | 0 <= i < |met| - 1
      ensures !Fatal(met[i])
    {
      assert CallOutcome(met[i]) == Done;
    }
  }

  function Zeros(count: nat): (r: seq<byte>)
    ensures |r| == count
  {
    seq(count, i => 0)
  }

  /** Contents after setting the length: the tail is cut off or zeros are added. */
  function Resized(contents: seq<byte>, length: nat): (r: seq<byte>)
    ensures |r| == length
    ensures length <= |contents| ==> r == contents[..length]
  {
    if length <= |contents| then contents[..length] else contents + Zeros(length - |contents|)
  }

  /** Contents after writing `bytes` at `at`. */
  function Overwritten(contents: seq<byte>, at: nat, bytes: seq<byte>): (r: seq<byte>)
    ensures at == |contents| ==> r == contents + bytes
  {
    Resized(contents, at) + bytes + (if at + |bytes| < |contents| then contents[at + |bytes|..] else [])
  }

  function TransferLimit(step: IoStep): (r: nat)
    ensures r > 0
  {
    match step
    case Progress(limit) => Max(limit, 1)
    case _ => 1
  }

  /** One file system operation without partial effect: whether it reports success, and whether it took effect. */
  method NextOutcome(script: seq<IoStep>) returns (r: Outcome, effect: bool, rest: seq<IoStep>)
    ensures r == CallOutcome(FirstStep(script)) && rest == Rest(script)
    ensures r == Done ==> effect
    ensures r == Failed ==> !effect
    ensures Smooth(script) ==> Smooth(rest) && r == Done
  {
    var step := FirstStep(script);
    r, rest := CallOutcome(step), Rest(script);
    effect := r == Done || (step.Abandon? && step.effect > 0);
  }

  class Device {
    var contents: seq<byte>
    var cursor: nat
    var flushed: nat  // this prefix has certainly left the device's own buffering
    var synced: nat   // this prefix is certainly durable
    var script: seq<IoStep>

    ghost predicate Valid()
      reads this
    {
      synced <= flushed <= |contents|
    }

    constructor (contents: seq<byte>, script: seq<IoStep>)
      ensures Valid() && this.contents == contents && cursor == 0 && this.script == script
      ensures flushed == synced == |contents|
    {
      this.contents, this.cursor, this.script := contents, 0, script;
      this.flushed, this.synced := |contents|, |contents|;
    }

    /** Bytes between the cursor and the end. */
    function Unread(): seq<byte>
      reads this
    {
      if cursor <= |contents| then contents[cursor..] else []
    }

    predicate AtEnd()
      reads this
    {
      cursor == |contents|
    }

    method NextStep() returns (step: IoStep)
      modifies this`script
      ensures script == Rest(old(script))
      ensures step == if old(script) == [] then Progress(|contents| + 1) else FirstStep(old(script))
    {
      if script == [] {
        step := Progress(|contents| + 1);
      } else {
        step, script := script[0], script[1..];
      }
    }

    /** Reads into `spare` bytes of room; zero bytes mean the end of input. */
    method Read(spare: nat) returns (r: ReadOutcome)
      requires Valid() && spare > 0
      modifies this`cursor, this`script
      ensures Valid()
      ensures r.Received? ==> |r.bytes| <= spare && old(Unread()) == r.bytes + Unread()
      ensures r.Received? ==> (r.bytes == [] <==> old(Unread()) == [])
      ensures !r.Received? ==> Unread() == old(Unread()) && |script| < |old(script)|
      ensures script == Rest(old(script))
      ensures match FirstStep(old(script))
              case Fail => r == ReadFailed
              case Interrupted => r == ReadInterrupted
              case Abandon(_) => r == ReadAbandoned
              case _ => r.Received?
      ensures Faultless(old(script)) ==> Faultless(script) && (r.Received? || r.ReadInterrupted?)
      ensures NeverFails(old(script)) ==> NeverFails(script) && !r.ReadFailed?
      ensures Smooth(old(script)) ==> Smooth(script) && r.Received?
    {
      var step := NextStep();
      match step
      case Interrupted => r := ReadInterrupted;
      case Fail => r := ReadFailed;
      case Abandon(_) => r := ReadAbandoned;
      case _ =>
        var count := Min(Min(TransferLimit(step), spare), |Unread()|);
        r := Received(Unread()[..count]);
        cursor := cursor + count;
    }

    /** Writes a prefix of `bytes` at the cursor. */
    method Write(bytes: seq<byte>) returns (r: WriteOutcome)
      requires Valid() && bytes != []
      modifies this
      ensures Valid()
      ensures r.Accepted? ==> r.count <= |bytes|
      ensures r.WriteInterrupted? || r.WriteFailed? ==> contents == old(contents) && cursor == old(cursor)
      ensures exists n: nat :: n <= |bytes| && (r.Accepted? ==> n == r.count)
                && cursor == old(cursor) + n
                && (n > 0 ==> contents == Overwritten(old(contents), old(cursor), bytes[..n]))
                && (n == 0 ==> contents == old(contents))
      ensures flushed == Min(old(flushed), if cursor == old(cursor) then old(flushed) else old(cursor))
      ensures synced == Min(old(synced), if cursor == old(cursor) then old(synced) else old(cursor))
      ensures script == Rest(old(script))
      ensures match FirstStep(old(script))
              case Progress(_) => r.Accepted? && r.count > 0
              case ZeroWrite => r == Accepted(0)
              case Interrupted => r == WriteInterrupted
              case Fail => r == WriteFailed
              case Abandon(_) => r == WriteAbandoned
      ensures r.WriteInterrupted? ==> |script| < |old(script)|
      ensures Faultless(old(script)) ==> Faultless(script) && ((r.Accepted? && r.count > 0) || r.WriteInterrupted?)
      ensures Smooth(old(script)) ==> Smooth(script) && r.Accepted? && r.count > 0
    {
      var step := NextStep();
      var count := 0;
      match step {
        case Progress(limit) =>
          count := Min(Max(limit, 1), |bytes|);
          r := Accepted(count);
        case ZeroWrite => r := Accepted(0);
        case Interrupted => r := WriteInterrupted;
        case Fail => r := WriteFailed;
        case Abandon(effect) =>
          count := Min(effect, |bytes|);
          r := WriteAbandoned;
      }
      if count > 0 {
        contents := Overwritten(contents, cursor, bytes[..count]);
        flushed, synced := Min(flushed, cursor), Min(synced, cursor);
        cursor := cursor + count;
      }
    }

    /** The write loop of both buffered writers: all bytes are accepted, or output stops for good. */
    method WriteAll(bytes: seq<byte>) returns (r: Outcome)
      requires Valid() && AtEnd()
      modifies this
      ensures Valid() && AtEnd()
      ensures flushed == old(flushed) && synced == old(synced)
      ensures old(contents) <= contents <= old(contents) + bytes
      ensures r.Done? ==> contents == old(contents) + bytes
      ensures Faultless(old(script)) ==> Faultless(script) && r.Done?
      ensures Writes(old(script), script, r)
      ensures Smooth(old(script)) ==> Smooth(script) && r.Done?
    {
      hide Writes;
      var rest := bytes;
      NothingMet(script);
      while rest != []
        invariant Valid() && AtEnd()
        invariant contents + rest == old(contents) + bytes
        invariant old(contents) <= contents
        invariant flushed == old(flushed) && synced == old(synced)
        invariant Faultless(old(script)) ==> Faultless(script)
        invariant Smooth(old(script)) ==> Smooth(script)
        invariant Writes(old(script), script, Done)
        decreases |script| + |rest|
      {
        ghost var before, steps := contents, script;
        var w := Write(rest);
        OneWrite(steps);
        WritesThen(old(script), steps, script, WriteReport(FirstStep(steps)));
        ghost var n: nat :| n <= |rest| && (w.Accepted? ==> n == w.count)
          && cursor == |before| + n
          && (n > 0 ==> contents == Overwritten(before, |before|, rest[..n]))
          && (n == 0 ==> contents == before);
        assert contents == before + rest[..n];
        assert before + rest == contents + rest[n..];
        match w
        case Accepted(count) =>
          if count == 0 {
            return Failed;
          }
          rest := rest[count..];
        case WriteInterrupted =>
        case WriteFailed => return Failed;
        case WriteAbandoned => return Abandoned;
      }
      r := Done;
    }

    /** Completes the device's own buffering of everything written so far. */
    method Flush() returns (r: Outcome)
      requires Valid()
      modifies this`flushed, this`script
      ensures Valid()
      ensures flushed == if r.Done? then |contents| else old(flushed)
      ensures Smooth(old(script)) ==> Smooth(script) && r.Done?
      ensures r == CallOutcome(FirstStep(old(script))) && script == Rest(old(script))
    {
      r := Complete();
      if r.Done? {
        flushed := |contents|;
      }
    }

    /** Makes everything flushed so far durable. */
    method SyncData() returns (r: Outcome)
      requires Valid()
      modifies this`synced, this`script
      ensures Valid()
      ensures synced == if r.Done? then flushed else old(synced)
      ensures Smooth(old(script)) ==> Smooth(script) && r.Done?
      ensures r == CallOutcome(FirstStep(old(script))) && script == Rest(old(script))
    {
      r := Complete();
      if r.Done? {
        synced := flushed;
      }
    }

    method Seek(position: nat) returns (r: Outcome)
      requires Valid()
      modifies this`cursor, this`script
      ensures Valid()
      ensures r.Done? ==> cursor == position
      ensures r == CallOutcome(FirstStep(old(script))) && script == Rest(old(script))
      ensures Smooth(old(script)) ==> Smooth(script) && r.Done?
    {
      r := Complete();
      if r.Done? {
        cursor := position;
      }
    }

    method Length() returns (r: Outcome, length: nat)
      requires Valid()
      modifies this`script
      ensures Valid()
      ensures r.Done? ==> length == |contents|
      ensures r == CallOutcome(FirstStep(old(script))) && script == Rest(old(script))
      ensures Smooth(old(script)) ==> Smooth(script) && r.Done?
    {
      r := Complete();
      length := |contents|;
    }

    /** Sets the exact length. An abandoned call may or may not have done so. */
    method SetLength(length: nat) returns (r: Outcome)
      requires Valid()
      modifies this
      ensures Valid() && cursor == old(cursor)
      ensures contents == Resized(old(contents), length) || (!r.Done? && contents == old(contents))
      ensures flushed == Min(old(flushed), |contents|) && synced == Min(old(synced), |contents|)
      ensures r == CallOutcome(FirstStep(old(script))) && script == Rest(old(script))
      ensures Smooth(old(script)) ==> Smooth(script) && r.Done?
    {
      var step := NextStep();
      r := CallOutcome(step);
      if r.Done? || (step.Abandon? && step.effect > 0) {
        contents := Resized(contents, length);
        flushed, synced := Min(flushed, length), Min(synced, length);
      }
    }

    /** An operation without partial effect. */
    method Complete() returns (r: Outcome)
      requires Valid()
      modifies this`script
      ensures Valid()
      ensures Smooth(old(script)) ==> Smooth(script) && r.Done?
      ensures r == CallOutcome(FirstStep(old(script))) && script == Rest(old(script))
    {
      var step := NextStep();
      r := CallOutcome(step);
    }
  }
}
