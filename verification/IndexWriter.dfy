/**
 The dense index: one little-endian u64 per record, the exclusive end of the record in its log file,
 and the buffered writer that appends such entries.
 */
module IndexWriter {
  import opened Bytes
  import opened ByteDevice
  import opened RecordWriter

  const INDEX_ENTRY_LEN: nat := 8

  function EncodeEntry(end: u64): (r: seq<byte>)
    ensures |r| == INDEX_ENTRY_LEN
  {
    LittleEndian(end, INDEX_ENTRY_LEN)
  }

  /** The eight bytes of an entry, least significant first. */
  lemma EntryBytes(end: u64)
    ensures EncodeEntry(end) == [end % 256, end / 0x100 % 256, end / 0x1_0000 % 256, end / 0x100_0000 % 256,
                                 end / 0x1_0000_0000 % 256, end / 0x100_0000_0000 % 256,
                                 end / 0x1_0000_0000_0000 % 256, end / 0x100_0000_0000_0000]
  {
    hide LittleEndian;
    EightBytes(end);
  }

  function EncodeIndex(ends: seq<u64>): (r: seq<byte>)
    ensures |r| == INDEX_ENTRY_LEN * |ends|
  {
    if ends == [] then [] else EncodeIndex(ends[..|ends| - 1]) + EncodeEntry(ends[|ends| - 1])
  }

  /** The entry stored at a zero-based position, or None where the file does not cover it. */
  function EntryAt(index: seq<byte>, i: nat): Option<u64> {
    if |index| < INDEX_ENTRY_LEN * (i + 1) then None
    else Some(DecodeEntry(index[INDEX_ENTRY_LEN * i..INDEX_ENTRY_LEN * (i + 1)]))
  }

  function DecodeEntry(bytes: seq<byte>): u64
    requires |bytes| == INDEX_ENTRY_LEN
  {
    FieldWidths();
    FromLittleEndian(bytes)
  }

  lemma {:induction false} EncodeIndexAppend(a: seq<u64>, b: seq<u64>)
    ensures EncodeIndex(a + b) == EncodeIndex(a) + EncodeIndex(b)
    decreases |b|
  {
    hide EncodeEntry;
    if b == [] {
      assert a + b == a;
    } else {
      EncodeIndexAppend(a, b[..|b| - 1]);
      assert (a + b)[..|a + b| - 1] == a + b[..|b| - 1];
      ConcatAssociates(EncodeIndex(a), EncodeIndex(b[..|b| - 1]), EncodeEntry(b[|b| - 1]));
    }
  }

  lemma FrontOf(front: seq<byte>, back: seq<byte>)
    ensures (front + back)[..|front|] == front
  {
  }

  lemma EncodeIndexPrefix(ends: seq<u64>, n: nat)
    requires n <= |ends|
    ensures EncodeIndex(ends[..n]) == EncodeIndex(ends)[..INDEX_ENTRY_LEN * n]
  {
    hide EncodeIndex;
    EncodeIndexAppend(ends[..n], ends[n..]);
    assert ends == ends[..n] + ends[n..];
    FrontOf(EncodeIndex(ends[..n]), EncodeIndex(ends[n..]));
  }

  /** Every complete entry of any prefix of an index reads back as the end that was written. */
  lemma EntryOfPrefix(ends: seq<u64>, index: seq<byte>, i: nat)
    requires index <= EncodeIndex(ends)
    ensures EntryAt(index, i) == if |index| < INDEX_ENTRY_LEN * (i + 1) then None else Some(ends[i])
  {
    hide EncodeIndex;
    if |index| >= INDEX_ENTRY_LEN * (i + 1) {
      var entry := index[INDEX_ENTRY_LEN * i..INDEX_ENTRY_LEN * (i + 1)];
      assert entry == EncodeIndex(ends)[..INDEX_ENTRY_LEN * (i + 1)][INDEX_ENTRY_LEN * i..];
      EncodeIndexPrefix(ends, i + 1);
      EncodeIndexAppend(ends[..i], [ends[i]]);
      assert ends[..i + 1] == ends[..i] + [ends[i]];
      EncodeSingle(ends[i]);
      assert entry == EncodeEntry(ends[i]);
      FieldWidths();
      DecodeEncode(ends[i], INDEX_ENTRY_LEN);
    }
  }

  lemma EncodeSingle(end: u64)
    ensures EncodeIndex([end]) == EncodeEntry(end)
  {
    hide EncodeEntry;
    assert [end][..0] == [];
  }

  class EntryWriter {
    const file: Device
    var buffer: seq<byte>
    var usable: bool

    ghost const base: seq<byte>
    ghost var ends: seq<u64>

    ghost function Total(): seq<byte>
      reads this
    {
      base + EncodeIndex(ends)
    }

    ghost predicate Valid()
      reads this, file
    {
      && file.Valid() && file.AtEnd()
      && base <= file.contents <= Total()
      && |buffer| <= |Total()|
      && Sent() <= |file.contents|
      && Total()[Sent()..] == buffer
      && (usable ==> Sent() == |file.contents|)
    }

    ghost function Sent(): nat
      requires |buffer| <= |Total()|
      reads this
    {
      |Total()| - |buffer|
    }

    twostate predicate Untouched()
      reads this, file
    {
      unchanged(file) && unchanged(this)
    }

    constructor (file: Device)
      requires file.Valid() && file.AtEnd()
      ensures Valid() && fresh(this) && this.file == file
      ensures usable && ends == [] && base == file.contents && buffer == []
    {
      this.file := file;
      buffer, usable := [], true;
      base, ends := file.contents, [];
    }

    method Write(end: u64) returns (r: OutputResult)
      requires Valid()
      modifies this`buffer, this`ends
      ensures Valid()
      ensures r == if usable then Success else Unusable
      ensures !usable ==> Untouched()
      ensures usable ==> ends == old(ends) + [end] && buffer == old(buffer) + EncodeEntry(end)
    {
      hide EncodeIndex, EncodeEntry;
      if !usable {
        return Unusable;
      }
      EncodeIndexAppend(ends, [end]);
      EncodeSingle(end);
      ConcatAssociates(base, EncodeIndex(ends), EncodeEntry(end));
      ends := ends + [end];
      buffer := buffer + EncodeEntry(end);
      assert Total() == old(Total()) + EncodeEntry(end);
      r := Success;
    }

    method FlushBuffer() returns (r: OutputResult)
      requires Valid()
      modifies this`usable, this`buffer, file
      ensures Valid()
      ensures !old(usable) ==> r == Unusable && Untouched()
      ensures old(usable) ==> usable == (r == Success) && r != Unusable
      ensures old(usable) && old(buffer) == [] ==> r == Success && Untouched()
      ensures r == Success ==> buffer == [] && file.contents == Total()
      ensures r != Success ==> buffer == old(buffer)
      ensures old(file.contents) <= file.contents
      ensures file.flushed == old(file.flushed) && file.synced == old(file.synced)
      ensures Faultless(old(file.script)) ==> Faultless(file.script) && (old(usable) ==> r == Success)
      ensures Smooth(old(file.script)) ==> Smooth(file.script) && (old(usable) ==> r == Success)
      ensures Writes(old(file.script), file.script, Reported(r))
    {
      hide EncodeIndex, Writes;
      NothingMet(file.script);
      if !usable {
        return Unusable;
      }
      if buffer == [] {
        return Success;
      }
      usable := false;
      ghost var sent := file.contents;
      assert Total() == sent + buffer by {
        assert Total()[..Sent()] == sent;
        assert Total() == Total()[..Sent()] + Total()[Sent()..];
      }
      var outcome := file.WriteAll(buffer);
      if outcome != Done {
        return ToOutput(outcome);
      }
      buffer := [];
      usable := true;
      r := Success;
    }

    method Flush() returns (r: OutputResult)
      requires Valid()
      modifies this`usable, file`flushed, file`script
      ensures Valid()
      ensures !old(usable) ==> r == Unusable && Untouched()
      ensures old(usable) ==> usable == (r == Success) && r != Unusable
      ensures file.flushed == if r == Success then |file.contents| else old(file.flushed)
      ensures file.flushed >= old(file.flushed)
      ensures Smooth(old(file.script)) ==> Smooth(file.script) && (old(usable) ==> r == Success)
      ensures old(usable) ==> r == ToOutput(CallOutcome(FirstStep(old(file.script))))
      ensures old(usable) ==> file.script == Rest(old(file.script))
    {
      if !usable {
        return Unusable;
      }
      usable := false;
      var outcome := file.Flush();
      usable := outcome.Done?;
      r := ToOutput(outcome);
    }

    method SyncData() returns (r: OutputResult)
      requires Valid()
      modifies this`usable, file`synced, file`script
      ensures Valid()
      ensures !old(usable) ==> r == Unusable && Untouched()
      ensures old(usable) ==> usable == (r == Success) && r != Unusable
      ensures file.synced == if r == Success then file.flushed else old(file.synced)
      ensures file.synced >= old(file.synced)
      ensures Smooth(old(file.script)) ==> Smooth(file.script) && (old(usable) ==> r == Success)
      ensures old(usable) ==> r == ToOutput(CallOutcome(FirstStep(old(file.script))))
      ensures old(usable) ==> file.script == Rest(old(file.script))
    {
      if !usable {
        return Unusable;
      }
      usable := false;
      var outcome := file.SyncData();
      usable := outcome.Done?;
      r := ToOutput(outcome);
    }
  }
}
