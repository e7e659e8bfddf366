/**
 What a log file and its dense index have to do with each other: the index holds, for every record, the
 sum of the lengths of all records up to and including it, and record IDs count up from the file's first.
 */
module DenseIndex {
  import opened Bytes
  import opened RecordProtocol
  import opened Locations
  import opened IndexWriter

  /** IDs are the file's assigned IDs in order, from its first one. */
  ghost predicate InSequence(file: LogFileId, records: seq<Record>) {
    && FirstRecordId(file).sequence + |records| <= U64_MAX + 1
    && forall i :: 0 <= i < |records| ==>
         IdOf(records[i]) == RecordId(file.stream, FirstRecordId(file).sequence + i)
  }

  lemma {:induction false} ConcatBounds(records: seq<Record>)
    ensures MIN_RECORD_LEN * |records| <= |Concat(records)| <= MAX_RECORD_LEN * |records|
  {
    hide ValidFrame;
    if records != [] {
      ConcatBounds(records[1..]);
      RecordIsNotEmpty(records[0]);
    }
  }

  /** Exclusive record ends in file order. */
  function Ends(records: seq<Record>): (r: seq<u64>)
    requires |records| <= RECORDS_PER_FILE
    ensures |r| == |records|
    ensures forall i :: 0 <= i < |r| ==> r[i] == |Concat(records[..i + 1])|
  {
    hide Concat, ValidFrame, EndPosition;
    seq(|records|, i requires 0 <= i < |records| => EndPosition(records, i + 1))
  }

  function EndPosition(records: seq<Record>, count: nat): (r: u64)
    requires count <= |records| && count <= RECORDS_PER_FILE
    ensures MIN_RECORD_LEN * count <= r <= MAX_RECORD_LEN * count
    ensures r == |Concat(records[..count])|
  {
    hide Concat, ValidFrame;
    ConcatBounds(records[..count]);
    |Concat(records[..count])|
  }

  lemma EndsPrefix(records: seq<Record>, count: nat)
    requires count <= |records| <= RECORDS_PER_FILE
    ensures Ends(records[..count]) == Ends(records)[..count]
  {
    hide Ends, Concat, ValidFrame;
    forall i | 0 <= i < count
      ensures Ends(records[..count])[i] == Ends(records)[i]
    {
      assert records[..count][..i + 1] == records[..i + 1];
    }
  }

  lemma EndsLast(records: seq<Record>, record: Record)
    requires |records| < RECORDS_PER_FILE
    ensures Ends(records + [record]) == Ends(records) + [|Concat(records)| + |record|]
  {
    hide Ends, Concat, ValidFrame;
    ConcatLast(records, record);
    EndsPrefix(records + [record], |records|);
    assert (records + [record])[..|records|] == records;
    assert (records + [record])[..|records| + 1] == records + [record];
  }

  /** End of the first `count` records of a file, absent when there are none. */
  function EndAfter(file: LogFileId, records: seq<Record>, count: nat): (r: Option<RecordEnd>)
    requires count <= |records| && count <= RECORDS_PER_FILE
    requires FirstRecordId(file).sequence + count <= U64_MAX + 1
    ensures r == None <==> count == 0
    ensures r.Some? ==> r.value.id == RecordId(file.stream, FirstRecordId(file).sequence + count - 1)
    ensures r.Some? ==> r.value.position == |Concat(records[..count])|
  {
    hide Concat, ValidFrame;
    if count == 0 then None
    else Some(RecordEnd(RecordId(file.stream, FirstRecordId(file).sequence + count - 1), EndPosition(records, count)))
  }

  /** The end after a shorter prefix of the records is the same in any longer list. */
  lemma EndAfterPrefix(file: LogFileId, records: seq<Record>, more: seq<Record>, count: nat)
    requires count <= |records| && count <= RECORDS_PER_FILE
    requires FirstRecordId(file).sequence + count <= U64_MAX + 1
    ensures EndAfter(file, records + more, count) == EndAfter(file, records, count)
  {
    hide Concat, ValidFrame;
    assert (records + more)[..count] == records[..count];
  }

  lemma ConcatMonotone(records: seq<Record>, i: nat, j: nat)
    requires i <= j <= |records|
    ensures Concat(records[..i]) <= Concat(records[..j])
    ensures Concat(records[..j]) <= Concat(records)
    ensures i < j ==> |Concat(records[..i])| < |Concat(records[..j])|
  {
    hide Concat, ValidFrame;
    ConcatAppend(records[..i], records[i..j]);
    ConcatBounds(records[i..j]);
    ConcatAppend(records[..j], records[j..]);
    assert records[..i] + records[i..j] == records[..j];
    assert records[..j] + records[j..] == records;
  }

  /** Assigned positions of a file and their counts. */
  lemma CountInFile(file: LogFileId, count: nat)
    requires 0 < count <= RECORDS_PER_FILE
    requires FirstRecordId(file).sequence + count <= U64_MAX + 1
    ensures var id := RecordId(file.stream, FirstRecordId(file).sequence + count - 1);
            FileOf(id) == file && RecordCountThrough(id) == count
  {
  }
}
