/**
 The writer and the reader undo each other over any wire: short writes, short reads, interruptions and
 any division into batches.
 */
module RecordTransfer {
  import opened Bytes
  import opened RecordProtocol
  import opened ByteDevice
  import opened RecordBuilder
  import opened RecordWriter
  import opened RecordReader

  /** One record to send: its body arrives in pieces, and the batch may be sent afterwards. */
  datatype AnyItem = Item(id: RecordId, pieces: seq<seq<byte>>, sendNow: bool)

  type Item = item: AnyItem | |Flatten(item.pieces)| <= MAX_PAYLOAD_LEN witness Item(RecordId(0, 0), [], false)

  function Seal(item: Item): (r: Record)
    ensures FrameId(r) == item.id && ReadBody(r) == Flatten(item.pieces)
  {
    Encode(item.id, Flatten(item.pieces))
  }

  function EncodeItems(items: seq<Item>): (r: seq<Record>)
    ensures |r| == |items|
    ensures forall i :: 0 <= i < |r| ==> r[i] == Seal(items[i])
  {
    hide ValidFrame, Seal;
    seq(|items|, i requires 0 <= i < |items| => Seal(items[i]))
  }

  /** Sends every item through a destination that only delays, never fails. */
  method Send(items: seq<Item>, destination: Device)
    requires destination.Valid() && destination.contents == [] && destination.AtEnd()
    requires Faultless(destination.script)
    modifies destination
    ensures destination.contents == Concat(EncodeItems(items))
  {
    hide ValidFrame, Encode, Concat, EncodeItems, Faultless;
    var writer := new Writer(destination);
    NoItems();
    for i := 0 to |items|
      invariant fresh(writer) && fresh(writer.buffer) && writer.destination == destination
      invariant writer.Valid() && writer.usable && writer.base == [] && Faultless(destination.script)
      invariant writer.records == EncodeItems(items[..i])
    {
      OneMoreItem(items, i);
      var written := writer.Write(items[i].id, BodyCallback(items[i].pieces, ReturnsOk));
      assert written == Appended;
      if items[i].sendNow {
        var sent := writer.FlushBuffer();
      }
    }
    var sent := writer.FlushBuffer();
    assert items[..|items|] == items;
  }

  lemma NoItems()
    ensures EncodeItems([]) == []
  {
  }

  lemma OneMoreItem(items: seq<Item>, i: nat)
    requires i < |items|
    ensures EncodeItems(items[..i + 1]) == EncodeItems(items[..i]) + [Seal(items[i])]
  {
    hide Seal, ValidFrame;
    assert items[..i + 1][..i] == items[..i];
  }

  /** Everything sent arrives, in order, unchanged, followed by a clean end; nothing else arrives. */
  method Transfer(items: seq<Item>, sending: seq<IoStep>, receiving: seq<IoStep>)
    returns (received: seq<Record>, end: RunEnd)
    requires Faultless(sending) && NeverFails(receiving)
    ensures end == Ended(CleanEnd)
    ensures |received| == |items|
    ensures forall i :: 0 <= i < |items| ==>
              FrameId(received[i]) == items[i].id && ReadBody(received[i]) == Flatten(items[i].pieces)
  {
    hide ValidFrame, Concat, Parse, EncodeItems, Seal;
    var wire := new Device([], sending);
    Send(items, wire);
    var arrival := new Device(wire.contents, receiving);
    ghost var sent := EncodeItems(items);
    received, end := ReadAll(arrival);
    ParseRecords(sent, []);
    ParseNothing();
    assert Concat(sent) + [] == wire.contents;
    assert received == sent + [];
  }
}
