/**
 Repair of one dense index: check the trusted entry, then replace everything behind it by the ends the log
 validation supplied.
 */
module IndexFileValidator {
  import opened Bytes
  import opened ByteDevice
  import opened Locations
  import opened RecordWriter
  import opened IndexWriter
  import opened LogFileValidator

  datatype IndexRepair =
    | TooManyEntries(count: nat)
    | TrustedIndexMismatch(entry: nat, expected: u64, actual: Option<u64>)
    | Repaired(index: seq<byte>)

  function TrustedPrefixLength(trusted: Option<RecordEnd>): nat {
    INDEX_ENTRY_LEN * CountOf(trusted)
  }

  /** The trusted entry is present and holds the trusted position. */
  predicate TrustedEntryMatches(trusted: Option<RecordEnd>, index: seq<byte>) {
    match trusted
    case None => true
    case Some(end) => EntryAt(index, CountOf(trusted) - 1) == Some(end.position)
  }

  /** Repair as a function of the index bytes. */
  function RepairIndex(trusted: Option<RecordEnd>, suffixEnds: seq<u64>, index: seq<byte>): (r: IndexRepair)
    ensures r.Repaired? ==> TrustedPrefixLength(trusted) <= |index|
  {
    var count := CountOf(trusted) + |suffixEnds|;
    if count > RECORDS_PER_FILE then TooManyEntries(count)
    else if !TrustedEntryMatches(trusted, index) then
      TrustedIndexMismatch(CountOf(trusted) - 1, trusted.value.position, EntryAt(index, CountOf(trusted) - 1))
    else Repaired(index[..TrustedPrefixLength(trusted)] + EncodeIndex(suffixEnds))
  }

  /** The index holds the position of the trusted end, in eight bytes of its record's own entry. */
  predicate StoresTrustedEnd(trusted: Option<RecordEnd>, index: seq<byte>) {
    match trusted
    case None => true
    case Some(end) =>
      var n := end.id.sequence % 100_000 + 1;
      8 * n <= |index| && index[8 * (n - 1)..8 * n] == EncodeEntry(end.position)
  }

  /** When an index is repaired, and what is reported otherwise, on its bytes. */
  lemma RepairedExactly(trusted: Option<RecordEnd>, suffixEnds: seq<u64>, index: seq<byte>)
    ensures var r := RepairIndex(trusted, suffixEnds, index);
            var n := if trusted.Some? then trusted.value.id.sequence % 100_000 + 1 else 0;
            && (r.TooManyEntries? <==> n + |suffixEnds| > 100_000)
            && (r.Repaired? <==> n + |suffixEnds| <= 100_000 && StoresTrustedEnd(trusted, index))
            && (r.TooManyEntries? ==> r.count == n + |suffixEnds|)
            && (r.Repaired? ==> 8 * n <= |index| && r.index == index[..8 * n] + EncodeIndex(suffixEnds))
            && (r.TrustedIndexMismatch? ==>
                  && trusted.Some? && r.entry == n - 1 && r.expected == trusted.value.position
                  && (r.actual == None <==> |index| < 8 * n)
                  && (r.actual.Some? ==> index[8 * (n - 1)..8 * n] == EncodeEntry(r.actual.value)))
  {
    hide EncodeIndex, DecodeEntry, EncodeEntry;
    if trusted.Some? {
      var n := CountOf(trusted);
      if INDEX_ENTRY_LEN * n <= |index| {
        var entry := index[INDEX_ENTRY_LEN * (n - 1)..INDEX_ENTRY_LEN * n];
        StoredEntry(entry, trusted.value.position);
      }
    }
  }

  /** An entry holds a position exactly when its bytes are that position's. */
  lemma StoredEntry(entry: seq<byte>, position: u64)
    requires |entry| == INDEX_ENTRY_LEN
    ensures EncodeEntry(DecodeEntry(entry)) == entry
    ensures DecodeEntry(entry) == position <==> entry == EncodeEntry(position)
  {
    FieldWidths();
    EncodeDecode(entry);
    DecodeEncode(position, INDEX_ENTRY_LEN);
  }

  /** A repair may have been interrupted: the trusted prefix is intact, and what follows is old or partly new. */
  ghost predicate PartlyRepaired(trusted: Option<RecordEnd>, suffixEnds: seq<u64>, before: seq<byte>, after: seq<byte>) {
    || after == before
    || (RepairIndex(trusted, suffixEnds, before).Repaired?
        && before[..TrustedPrefixLength(trusted)] <= after <= RepairIndex(trusted, suffixEnds, before).index)
  }

  datatype IndexValidation = ValidatedIndex | IndexRejected(reason: IndexRepair) | IndexIoFailed | IndexAbandoned

  function IndexOutcome(r: IndexValidation): Outcome {
    match r
    case IndexIoFailed => Failed
    case IndexAbandoned => Abandoned
    case _ => Done
  }

  /** The operations up to each result: a trusted entry is read up to `checked`, and the suffix is written up to `written`. */
  ghost predicate IndexSteps(before: seq<IoStep>, checked: seq<IoStep>, written: seq<IoStep>, after: seq<IoStep>,
                             r: IndexValidation) {
    match r
    case IndexRejected(_) => Operations(before, checked, Done) && after == checked
    case _ =>
      || (r != ValidatedIndex && Operations(before, checked, IndexOutcome(r)) && after == checked)
      || (Operations(before, checked, Done) && ReplacementSteps(checked, written, after, IndexOutcome(r)))
  }

  /** The file is cut off, the new entries are written and flushed, and the file is synchronized. */
  ghost predicate ReplacementSteps(before: seq<IoStep>, written: seq<IoStep>, after: seq<IoStep>, r: Outcome) {
    var start, sent := Rest(Rest(before)), Rest(written);
    || (r != Done && Operations(before, after, r))
    || (Positioned(before, start)
        && (|| (r != Done && SuffixSteps(start, written, after, r))
            || (SuffixSteps(start, written, sent, Done) && after == Rest(sent) && r == CallOutcome(FirstStep(sent)))))
  }

  lemma IndexStepsAreCalls(before: seq<IoStep>, checked: seq<IoStep>, written: seq<IoStep>, after: seq<IoStep>, r: IndexValidation)
    requires IndexSteps(before, checked, written, after, r)
    ensures Calls(before, after, IndexOutcome(r))
  {
    hide Operations, ReplacementSteps, Calls;
    if Operations(before, checked, IndexOutcome(r)) && after == checked {
      OperationsAreCalls(before, after, IndexOutcome(r));
    } else {
      OperationsAreCalls(before, checked, Done);
      ReplacementIsCalls(checked, written, after, IndexOutcome(r));
      CallsThen(before, checked, after, IndexOutcome(r));
    }
  }

  lemma ReplacementIsCalls(before: seq<IoStep>, written: seq<IoStep>, after: seq<IoStep>, r: Outcome)
    requires ReplacementSteps(before, written, after, r)
    ensures Calls(before, after, r)
  {
    hide Operations, SuffixSteps, Calls;
    var start, sent := Rest(Rest(before)), Rest(written);
    if Operations(before, after, r) {
      OperationsAreCalls(before, after, r);
    } else {
      OperationsAreCalls(before, start, Done);
      if r != Done && SuffixSteps(start, written, after, r) {
        SuffixIsCalls(start, written, after, r);
      } else {
        SuffixIsCalls(start, written, sent, Done);
        OneCall(sent);
        CallsThen(start, sent, after, r);
      }
      CallsThen(before, start, after, r);
    }
  }

  lemma SuffixIsCalls(before: seq<IoStep>, written: seq<IoStep>, after: seq<IoStep>, r: Outcome)
    requires SuffixSteps(before, written, after, r)
    ensures Calls(before, after, r)
  {
    hide Writes, Calls;
    if r != Done && Writes(before, written, r) && after == written {
      TransfersAreCalls(before, written, r);
    } else {
      TransfersAreCalls(before, written, Done);
      OneCall(written);
      CallsThen(before, written, after, r);
    }
  }

  method Validate(file: Device, lastTrusted: Option<RecordEnd>, suffixEnds: seq<u64>)
    returns (r: IndexValidation, ghost checked: seq<IoStep>, ghost written: seq<IoStep>)
    requires file.Valid() && file.flushed == |file.contents|
    modifies file
    ensures file.Valid()
    ensures PartlyRepaired(lastTrusted, suffixEnds, old(file.contents), file.contents)
    ensures r.ValidatedIndex? ==>
              && RepairIndex(lastTrusted, suffixEnds, old(file.contents)) == Repaired(file.contents)
              && file.flushed == file.synced == |file.contents|
    ensures r.IndexRejected? ==>
              && RepairIndex(lastTrusted, suffixEnds, old(file.contents)) == r.reason && !r.reason.Repaired?
              && file.contents == old(file.contents)
    ensures RepairIndex(lastTrusted, suffixEnds, old(file.contents)).TooManyEntries? ==> r.IndexRejected? && unchanged(file)
    ensures IndexSteps(old(file.script), checked, written, file.script, r)
    ensures lastTrusted == None ==> checked == old(file.script)
    ensures Smooth(old(file.script)) ==> Smooth(file.script) && (r.ValidatedIndex? || r.IndexRejected?)
  {
    hide EncodeIndex, EntryAt, Operations, SuffixSteps, Smooth;
    checked, written := file.script, file.script;
    NothingMet(file.script);
    var trustedCount := CountOf(lastTrusted);
    var count := trustedCount + |suffixEnds|;
    if count > RECORDS_PER_FILE {
      return IndexRejected(TooManyEntries(count)), checked, written;
    }
    if lastTrusted.Some? {
      var read, actual := ReadIndexAt(file, trustedCount - 1);
      checked := file.script;
      if read != Done {
        return Stopped(read), checked, written;
      }
      if actual != Some(lastTrusted.value.position) {
        return IndexRejected(TrustedIndexMismatch(trustedCount - 1, lastTrusted.value.position, actual)), checked, written;
      }
    }
    TrustedEntryCoversPrefix(lastTrusted, file.contents);
    var suffixStart := trustedCount * INDEX_ENTRY_LEN;
    var outcome;
    outcome, written := ReplaceSuffix(file, suffixStart, suffixEnds);
    r := if outcome == Done then ValidatedIndex else Stopped(outcome);
  }

  /** Cuts the file off at `start`, writes the new entries behind it and synchronizes. */
  method ReplaceSuffix(file: Device, start: nat, suffixEnds: seq<u64>) returns (r: Outcome, ghost written: seq<IoStep>)
    requires file.Valid() && file.flushed == |file.contents| && start <= |file.contents|
    modifies file
    ensures file.Valid()
    ensures || file.contents == old(file.contents)
            || old(file.contents)[..start] <= file.contents <= old(file.contents)[..start] + EncodeIndex(suffixEnds)
    ensures r == Done ==> file.contents == old(file.contents)[..start] + EncodeIndex(suffixEnds)
    ensures r == Done ==> file.flushed == file.synced == |file.contents|
    ensures ReplacementSteps(old(file.script), written, file.script, r)
    ensures Smooth(old(file.script)) ==> Smooth(file.script) && r == Done
  {
    hide EncodeIndex, Operations, SuffixSteps, Smooth;
    written := file.script;
    r := file.SetLength(start);
    OneCall(old(file.script));
    if r != Done {
      return;
    }
    ghost var cut := file.script;
    r := file.Seek(start);
    OneCall(cut);
    OperationsThen(old(file.script), cut, file.script, r);
    if r != Done {
      return;
    }
    var sent;
    sent, written := WriteSuffix(file, suffixEnds);
    if sent != Success {
      return Reported(sent), written;
    }
    OneCall(file.script);
    r := file.SyncData();
  }

  function Stopped(outcome: Outcome): IndexValidation {
    if outcome.Abandoned? then IndexAbandoned else IndexIoFailed
  }

  lemma TrustedEntryCoversPrefix(trusted: Option<RecordEnd>, index: seq<byte>)
    requires TrustedEntryMatches(trusted, index)
    ensures TrustedPrefixLength(trusted) <= |index|
  {
  }

  /** Writes the suffix entries through the buffered index writer and flushes them. */
  method WriteSuffix(file: Device, suffixEnds: seq<u64>) returns (r: OutputResult, ghost written: seq<IoStep>)
    requires file.Valid() && file.AtEnd()
    modifies file
    ensures file.Valid()
    ensures old(file.contents) <= file.contents <= old(file.contents) + EncodeIndex(suffixEnds)
    ensures r == Success ==> file.contents == old(file.contents) + EncodeIndex(suffixEnds) && file.flushed == |file.contents|
    ensures SuffixSteps(old(file.script), written, file.script, Reported(r))
    ensures r == Success ==> file.script == Rest(written)
    ensures r != Unusable
    ensures Smooth(old(file.script)) ==> Smooth(file.script) && r == Success
  {
    hide EncodeIndex, Writes;
    var writer := new EntryWriter(file);
    for i := 0 to |suffixEnds|
      invariant fresh(writer) && writer.file == file && writer.Valid() && writer.usable
      invariant writer.ends == suffixEnds[..i] && writer.base == old(file.contents)
      invariant file.script == old(file.script)
    {
      var _ := writer.Write(suffixEnds[i]);
    }
    assert suffixEnds[..|suffixEnds|] == suffixEnds;
    r := writer.FlushBuffer();
    written := file.script;
    if r == Success {
      r := writer.Flush();
    }
  }

  /** The entries are written, and then the file is flushed. */
  ghost predicate SuffixSteps(before: seq<IoStep>, written: seq<IoStep>, after: seq<IoStep>, r: Outcome) {
    || (r != Done && Writes(before, written, r) && after == written)
    || (Writes(before, written, Done) && after == Rest(written) && r == CallOutcome(FirstStep(written)))
  }

  /** One zero-based entry, or None where the file's length does not cover it. Here an interrupted read is an error. */
  method ReadIndexAt(file: Device, entry: nat) returns (r: Outcome, position: Option<u64>)
    requires file.Valid()
    modifies file`cursor, file`script
    ensures file.Valid()
    ensures r == Done ==> position == EntryAt(file.contents, entry)
    ensures r == Done && position == None ==> file.script == Rest(old(file.script))
    ensures Operations(old(file.script), file.script, r)
    ensures Smooth(old(file.script)) ==> Smooth(file.script) && r == Done
  {
    hide Operations, Smooth;
    position := None;
    var length;
    r, length := file.Length();
    OneCall(old(file.script));
    if r != Done || length < INDEX_ENTRY_LEN * (entry + 1) {
      return r, None;
    }
    ghost var steps := file.script;
    r := file.Seek(INDEX_ENTRY_LEN * entry);
    OneCall(steps);
    OperationsThen(old(file.script), steps, file.script, r);
    if r != Done {
      return;
    }
    var bytes := [];
    while |bytes| < INDEX_ENTRY_LEN
      invariant file.Valid() && |bytes| <= INDEX_ENTRY_LEN
      invariant bytes + file.Unread() == file.contents[INDEX_ENTRY_LEN * entry..]
      invariant Smooth(old(file.script)) ==> Smooth(file.script)
      invariant Operations(old(file.script), file.script, Done)
      decreases INDEX_ENTRY_LEN - |bytes|
    {
      steps := file.script;
      var received := file.Read(INDEX_ENTRY_LEN - |bytes|);
      OneCall(steps);
      OperationsThen(old(file.script), steps, file.script, CallOutcome(FirstStep(steps)));
      match received
      case Received(more) =>
        ConcatAssociates(bytes, more, file.Unread());
        bytes := bytes + more;
      case ReadInterrupted => return Failed, None;
      case ReadFailed => return Failed, None;
      case ReadAbandoned => return Abandoned, None;
    }
    assert bytes == file.contents[INDEX_ENTRY_LEN * entry..][..INDEX_ENTRY_LEN];
    assert bytes == file.contents[INDEX_ENTRY_LEN * entry..INDEX_ENTRY_LEN * (entry + 1)];
    position := Some(DecodeEntry(bytes));
  }

  // ---------- Repeating a repair ----------

  lemma EntryInPrefix(a: seq<byte>, b: seq<byte>, n: nat, i: nat)
    requires i < n && INDEX_ENTRY_LEN * n <= |a| && INDEX_ENTRY_LEN * n <= |b|
    requires a[..INDEX_ENTRY_LEN * n] == b[..INDEX_ENTRY_LEN * n]
    ensures EntryAt(a, i) == EntryAt(b, i)
  {
    hide DecodeEntry;
    assert a[INDEX_ENTRY_LEN * i..INDEX_ENTRY_LEN * (i + 1)]
        == a[..INDEX_ENTRY_LEN * n][INDEX_ENTRY_LEN * i..INDEX_ENTRY_LEN * (i + 1)];
    assert b[INDEX_ENTRY_LEN * i..INDEX_ENTRY_LEN * (i + 1)]
        == b[..INDEX_ENTRY_LEN * n][INDEX_ENTRY_LEN * i..INDEX_ENTRY_LEN * (i + 1)];
  }

  /** Wherever a repair stops, repeating it gives what the uninterrupted repair gives. */
  lemma RepairIsRestartable(trusted: Option<RecordEnd>, suffixEnds: seq<u64>, before: seq<byte>, after: seq<byte>)
    requires PartlyRepaired(trusted, suffixEnds, before, after)
    ensures RepairIndex(trusted, suffixEnds, after) == RepairIndex(trusted, suffixEnds, before)
  {
    hide EncodeIndex, EntryAt;
    if after != before {
      var length := TrustedPrefixLength(trusted);
      assert after[..length] == before[..length];
      if trusted.Some? {
        EntryInPrefix(after, before, CountOf(trusted), CountOf(trusted) - 1);
      }
    }
  }

  /** A finished repair repeated, with the same or with no further ends, changes nothing. */
  lemma RepairIsIdempotent(trusted: Option<RecordEnd>, suffixEnds: seq<u64>, index: seq<byte>)
    requires RepairIndex(trusted, suffixEnds, index).Repaired?
    ensures RepairIndex(trusted, suffixEnds, RepairIndex(trusted, suffixEnds, index).index)
         == RepairIndex(trusted, suffixEnds, index)
  {
    hide EncodeIndex, EntryAt;
    var repaired := RepairIndex(trusted, suffixEnds, index).index;
    RepairIsRestartable(trusted, suffixEnds, index, repaired);
  }
}
