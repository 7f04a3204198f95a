/** The mock cFE command header and its setters. */
module CommandHeader {

  datatype HeaderFields = HeaderFields(streamId: bv16, sequence: bv16, length: bv16, spare: bv16)

  const ZEROED := HeaderFields(0, 0, 0, 0)
  const MM_CMD_MID: bv32 := 0x1888
  const COMPLETE_PACKET: bv16 := 0x3

  // The sequence word with its two top bits replaced by a segmentation flag.
  function InsertFlag(sequence: bv16, flag: bv16): bv16 {
    (sequence & 0x3FFF) | ((flag & 0x3) << 14)
  }

  // The stream id that stores a message id.
  function StreamIdOf(msgId: bv32): bv16 {
    (msgId & 0xFFFF) as bv16
  }

  // The flag and the count share one word: setting the flag keeps the 14 count bits, whatever the
  // old word and the flag argument are.
  lemma FlagFields(sequence: bv16, flag: bv16)
    ensures InsertFlag(sequence, flag) >> 14 == flag & 0x3
    ensures InsertFlag(sequence, flag) & 0x3FFF == sequence & 0x3FFF
    ensures InsertFlag(0, COMPLETE_PACKET) == 0xC000
  {
    assert ((sequence & 0x3FFF) | ((flag & 0x3) << 14)) >> 14 == flag & 0x3;
    assert ((sequence & 0x3FFF) | ((flag & 0x3) << 14)) & 0x3FFF == sequence & 0x3FFF;
  }

  // A message id survives the trip through the header exactly when it fits in 16 bits.
  lemma MsgIdRoundTrip(msgId: bv32)
    ensures StreamIdOf(msgId) as bv32 == msgId <==> msgId <= 0xFFFF
  {
  }

  // A stream id is stored by exactly one message id of 16 bits.
  lemma MsgIdUnique(a: bv32, b: bv32)
    requires a <= 0xFFFF && b <= 0xFFFF
    ensures StreamIdOf(a) == StreamIdOf(b) <==> a == b
  {
  }

  class Header {
    var streamId: bv16
    var sequence: bv16
    var length: bv16
    var spare: bv16

    function Fields(): HeaderFields
      reads this
    {
      HeaderFields(streamId, sequence, length, spare)
    }

    constructor Zeroed()
      ensures Fields() == ZEROED
    {
      streamId, sequence, length, spare := 0, 0, 0, 0;
    }
  }

  // ----- the setters, which do nothing to a null message

  method SetMsgId(msg: Header?, msgId: bv32)
    modifies if msg == null then {} else {msg}
    ensures msg != null ==> msg.Fields() == old(msg.Fields()).(streamId := StreamIdOf(msgId))
  {
    if msg != null {
      msg.streamId := StreamIdOf(msgId);
    }
  }

  // The id read is the one 16-bit id that would store the header's stream id; a null message or a
  // null destination leaves the destination as it was.
  method GetMsgId(msgId: array?<bv32>, msg: Header?)
    requires msgId != null ==> msgId.Length == 1
    modifies if msgId == null then {} else {msgId}
    ensures msgId != null && msg != null ==> StreamIdOf(msgId[0]) == msg.streamId && msgId[0] <= 0xFFFF
    ensures msgId != null && msg == null ==> msgId[0] == old(msgId[0])
  {
    if msgId != null && msg != null {
      msgId[0] := msg.streamId as bv32;
    }
  }

  method SetSequenceCount(msg: Header?, count: bv16)
    modifies if msg == null then {} else {msg}
    ensures msg != null ==> msg.Fields() == old(msg.Fields()).(sequence := count)
  {
    if msg != null {
      msg.sequence := count;
    }
  }

  method SetSegmentationFlag(msg: Header?, flag: bv16)
    modifies if msg == null then {} else {msg}
    ensures msg != null ==> msg.Fields() == old(msg.Fields()).(sequence := InsertFlag(old(msg.sequence), flag))
  {
    if msg != null {
      msg.sequence := InsertFlag(msg.sequence, flag);
    }
  }

  method SetSize(msg: Header?, size: bv16)
    modifies if msg == null then {} else {msg}
    ensures msg != null ==> msg.Fields() == old(msg.Fields()).(length := size)
  {
    if msg != null {
      msg.length := size;
    }
  }

  // CFS_InitPacketHeader; the mock ignores the function code.
  method InitPacketHeader(msg: Header?, msgId: bv32, size: bv16, fcnCode: int)
    modifies if msg == null then {} else {msg}
    ensures msg != null ==> msg.Fields() == HeaderFields(StreamIdOf(msgId), 0xC000, size, 0)
  {
    if msg == null {
      return;
    }
    msg.streamId, msg.sequence, msg.length, msg.spare := 0, 0, 0, 0;
    SetMsgId(msg, msgId);
    SetSize(msg, size);
    SetSequenceCount(msg, 0);
    SetSegmentationFlag(msg, COMPLETE_PACKET);
    FlagFields(0, COMPLETE_PACKET);
  }
}
