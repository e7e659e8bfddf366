/**
 Durability through a crash: whatever a run of the pair writer was interrupted in, and whatever unsynced part
 of both files survived, recovery restores a prefix of the appended records that includes every
 synchronized one, together with its exact index.
 */
module CrashRecovery {
  import opened Bytes
  import opened RecordProtocol
  import opened ByteDevice
  import opened Locations
  import opened DenseIndex
  import opened IndexWriter
  import opened IndexedLogWriter
  import opened LogFileValidator
  import opened IndexFileValidator

  /** A log image that keeps at least the synchronized bytes and nothing that was never written. */
  ghost predicate SurvivingLog(contents: seq<byte>, synced: nat, image: seq<byte>) {
    && synced <= |contents|
    && contents[..synced] <= image <= contents
  }

  /** An index image that keeps at least the synchronized bytes; anything may follow them. */
  ghost predicate SurvivingIndex(contents: seq<byte>, synced: nat, image: seq<byte>) {
    && synced <= |contents|
    && contents[..synced] <= image
  }

  /** What recovery makes of a pair: the first `m` records and their exact index. */
  ghost predicate RecoversTo(file: LogFileId, trusted: Option<RecordEnd>, log: seq<byte>, index: seq<byte>,
                             records: seq<Record>, m: nat)
    requires m <= |records| <= RECORDS_PER_FILE
    requires FirstRecordId(file).sequence + |records| <= U64_MAX + 1
  {
    var r := RecoverLog(file, trusted, log);
    && r.LogRecovered?
    && r.end == EndAfter(file, records, m)
    && KeptLog(file, trusted, log) == Concat(records[..m])
    && RepairIndex(trusted, r.suffixEnds, index) == Repaired(EncodeIndex(Ends(records[..m])))
  }

  /**
   For every state of every run, every surviving pair of images and every trusted end up to the synchronized
   one.
   */
  lemma DurableThroughCrash(w: PairWriter, logImage: seq<byte>, indexImage: seq<byte>, trustedCount: nat)
    returns (m: nat)
    requires w.Valid() && trustedCount <= w.syncedCount
    requires SurvivingLog(w.log.destination.contents, w.log.destination.synced, logImage)
    requires SurvivingIndex(w.index.file.contents, w.index.file.synced, indexImage)
    ensures w.syncedCount <= m <= |w.All()|
    ensures RecoversTo(w.fileId, EndAfter(w.fileId, w.All(), trustedCount), logImage, indexImage, w.All(), m)
  {
    hide Concat, Ends, EncodeIndex, EndAfter, InSequence, RecoversTo, SurvivingIndex;
    w.LogTotal();
    w.IndexTotal();
    m := RecoverImages(w.fileId, w.All(), trustedCount, w.syncedCount, logImage, w.index.file.contents, w.index.file.synced, indexImage);
  }

  lemma RecoverImages(file: LogFileId, records: seq<Record>, j: nat, synced: nat, log: seq<byte>,
                      indexContents: seq<byte>, indexSynced: nat, index: seq<byte>)
    returns (m: nat)
    requires j <= synced <= |records| <= RECORDS_PER_FILE && InSequence(file, records)
    requires log <= Concat(records) && |Concat(records[..synced])| <= |log|
    requires indexContents <= EncodeIndex(Ends(records)) && INDEX_ENTRY_LEN * j <= indexSynced
    requires SurvivingIndex(indexContents, indexSynced, index)
    ensures synced <= m <= |records|
    ensures RecoversTo(file, EndAfter(file, records, j), log, index, records, m)
  {
    hide Concat, Ends, EncodeIndex, EndAfter, RecoverLog, KeptLog, RepairIndex, Parse, IdOf;
    m := RecoverRecords(file, records, j, synced, log);
    var trusted := EndAfter(file, records, j);
    CountOfEndAfter(file, records, j);
    IndexPrefixSurvives(records, j, indexContents, indexSynced, index);
    RepairRestoresIndex(file, records, j, m, index);
  }

  lemma CountOfEndAfter(file: LogFileId, records: seq<Record>, j: nat)
    requires j <= |records| <= RECORDS_PER_FILE && FirstRecordId(file).sequence + |records| <= U64_MAX + 1
    ensures CountOf(EndAfter(file, records, j)) == j
    ensures Plausible(file, EndAfter(file, records, j), j)
    ensures EndPositionOf(EndAfter(file, records, j)) == |Concat(records[..j])|
  {
    hide Concat, ValidFrame;
    ConcatBounds(records[..j]);
    NothingConcatenated(records);
    if j > 0 {
      CountInFile(file, j);
    }
  }

  /** Recovery of the log keeps every complete record of the image. */
  lemma RecoverRecords(file: LogFileId, records: seq<Record>, j: nat, synced: nat, log: seq<byte>)
    returns (m: nat)
    requires j <= synced <= |records| <= RECORDS_PER_FILE && InSequence(file, records)
    requires log <= Concat(records) && |Concat(records[..synced])| <= |log|
    ensures synced <= m <= |records|
    ensures var r := RecoverLog(file, EndAfter(file, records, j), log);
            && r.LogRecovered?
            && r.end == EndAfter(file, records, m)
            && r.suffixEnds == Ends(records)[j..m]
            && KeptLog(file, EndAfter(file, records, j), log) == Concat(records[..m])
  {
    hide Concat, Ends, EndAfter, Parse, ValidFrame, IdOf, Plausible, Scan;
    var trusted := EndAfter(file, records, j);
    CountOfEndAfter(file, records, j);
    var start: nat := EndPositionOf(trusted);
    var tail := TailOfImage(records, j, synced, log);
    var parsed := Parse(tail);
    m := j + |parsed.records|;
    assert parsed.records == records[j..m] by {
      assert parsed.records == records[j..][..|parsed.records|];
    }
    RunInSequence(file, records, j, m);
    ScanPanicsAtExhaustion(file, trusted, j, parsed, |log|);
    ScanKeepsLongestRun(file, trusted, j, parsed, |log|);
    ScanEndInFile(file, trusted, log);
    RecoveredEndIsPlausible(file, trusted, log);
    CountOfEndAfter(file, records, m);
    ConcatOfRange(records, j, m);
    assert parsed.records[..|parsed.records|] == parsed.records;
    var r := RecoverLog(file, trusted, log);
    PlausibleEndIsUnique(file, r.end, EndAfter(file, records, m), m);
    forall i | 0 <= i < m - j
      ensures r.suffixEnds[i] == Ends(records)[j..m][i]
    {
      ScanEnds(file, trusted, j, parsed, |log|, i);
      assert parsed.records[..i + 1] == records[j..j + i + 1];
      ConcatOfRange(records, j, j + i + 1);
    }
    PrefixOfPrefix(log, Concat(records), Concat(records[..m]));
  }

  lemma PrefixOfPrefix(image: seq<byte>, whole: seq<byte>, part: seq<byte>)
    requires image <= whole && part <= whole && |part| <= |image|
    ensures image[..|part|] == part
  {
  }

  /** The bytes behind the trusted end, and which records are complete in them. */
  lemma TailOfImage(records: seq<Record>, j: nat, synced: nat, log: seq<byte>) returns (tail: seq<byte>)
    requires j <= synced <= |records|
    requires log <= Concat(records) && |Concat(records[..synced])| <= |log|
    ensures |Concat(records[..j])| <= |log| && tail == log[|Concat(records[..j])|..]
    ensures Parse(tail).records <= records[j..]
    ensures synced - j <= |Parse(tail).records|
  {
    hide Concat, Parse, ValidFrame;
    var front, back := Concat(records[..j]), Concat(records[j..]);
    ConcatMonotone(records, j, synced);
    ConcatAppend(records[..j], records[j..]);
    assert records[..j] + records[j..] == records;
    PrefixOfConcat(front, back, log);
    tail := log[|front|..];
    ParsePrefix(records[j..], tail);
    assert records[j..][..synced - j] == records[j..synced];
    ConcatOfRange(records, j, synced);
  }

  lemma ConcatOfRange(records: seq<Record>, i: nat, j: nat)
    requires i <= j <= |records|
    ensures |Concat(records[..j])| == |Concat(records[..i])| + |Concat(records[i..j])|
    ensures Concat(records[..j]) <= Concat(records)
  {
    hide Concat, ValidFrame;
    ConcatAppend(records[..i], records[i..j]);
    assert records[..i] + records[i..j] == records[..j];
    ConcatMonotone(records, j, |records|);
  }

  lemma RunInSequence(file: LogFileId, records: seq<Record>, j: nat, m: nat)
    requires j <= m <= |records| <= RECORDS_PER_FILE && InSequence(file, records)
    ensures AcceptedRun(file, j, records[j..m]) == m - j
  {
    hide ValidFrame, IdOf, FirstRecordId, AcceptedRun;
    var run := records[j..m];
    assert Continues(file, j, run);
    AcceptedRunIsLongest(file, j, run);
    var k := AcceptedRun(file, j, run);
    if k < |run| {
      assert run[..|run|] == run;
      ShorterRun(file, j, run, k + 1, |run|);
    }
  }

  lemma PlausibleEndIsUnique(file: LogFileId, a: Option<RecordEnd>, b: Option<RecordEnd>, count: nat)
    requires Plausible(file, a, count) && Plausible(file, b, count)
    requires EndPositionOf(a) == EndPositionOf(b)
    ensures a == b
  {
  }

  lemma IndexPrefixSurvives(records: seq<Record>, count: nat, contents: seq<byte>, mark: nat, index: seq<byte>)
    requires count <= |records| <= RECORDS_PER_FILE
    requires contents <= EncodeIndex(Ends(records)) && INDEX_ENTRY_LEN * count <= mark
    requires SurvivingIndex(contents, mark, index)
    ensures INDEX_ENTRY_LEN * count <= |index|
    ensures index[..INDEX_ENTRY_LEN * count] == EncodeIndex(Ends(records))[..INDEX_ENTRY_LEN * count]
  {
    hide Concat, Ends, EncodeIndex;
    var n := INDEX_ENTRY_LEN * count;
    assert index[..n] == contents[..mark][..n] == contents[..n];
  }

  /** With the trusted entries intact, the repaired index is the exact index of the recovered records. */
  lemma RepairRestoresIndex(file: LogFileId, records: seq<Record>, j: nat, m: nat, index: seq<byte>)
    requires j <= m <= |records| <= RECORDS_PER_FILE && FirstRecordId(file).sequence + |records| <= U64_MAX + 1
    requires INDEX_ENTRY_LEN * j <= |index|
    requires index[..INDEX_ENTRY_LEN * j] == EncodeIndex(Ends(records))[..INDEX_ENTRY_LEN * j]
    ensures RepairIndex(EndAfter(file, records, j), Ends(records)[j..m], index)
         == Repaired(EncodeIndex(Ends(records[..m])))
  {
    hide Concat, Ends, EncodeIndex, EndAfter, EntryAt, ValidFrame;
    CountOfEndAfter(file, records, j);
    EncodeIndexPrefix(Ends(records), j);
    if j > 0 {
      EntryInPrefix(index, EncodeIndex(Ends(records)), j, j - 1);
      EntryOfPrefix(Ends(records), EncodeIndex(Ends(records)), j - 1);
      EndPositionIsEntry(file, records, j);
    }
    EndsPrefix(records, m);
    EncodeIndexAppend(Ends(records)[..j], Ends(records)[j..m]);
    assert Ends(records)[..j] + Ends(records)[j..m] == Ends(records)[..m];
  }

  lemma EndPositionIsEntry(file: LogFileId, records: seq<Record>, j: nat)
    requires 0 < j <= |records| <= RECORDS_PER_FILE && FirstRecordId(file).sequence + |records| <= U64_MAX + 1
    ensures EndAfter(file, records, j).Some? && EndAfter(file, records, j).value.position == Ends(records)[j - 1]
  {
    hide Concat, Ends, ValidFrame;
  }
}
