/** The wire codec: message frames written into and read from byte buffers
    (src/serialization/serialization.c). */
module Serialization {
  import opened Bytes
  import opened Types
  import opened Checksum

  const SERIALIZATION_VERSION: U32 := 1
  const MAX_MESSAGE_SIZE: U32 := 8192

  const SERIAL_SUCCESS := 0
  const SERIAL_ERROR_BUFFER_OVERFLOW := -1
  const SERIAL_ERROR_INVALID_VERSION := -2
  const SERIAL_ERROR_INVALID_TYPE := -3
  const SERIAL_ERROR_CHECKSUM := -4
  const SERIAL_ERROR_INCOMPLETE := -5
  const SERIAL_ERROR_INVALID_MESSAGE := -6

  /** sizeof(MessageHeader), and the size of the payload union inside a Message. */
  const HEADER_SIZE: nat := 20
  const UNION_SIZE: nat := 264

  datatype MessageHeader = MessageHeader(
    version: U32, messageSize: U32, msgType: U32, payloadSize: U32, checksum: U32)

  function HeaderBytes(h: MessageHeader): (b: seq<Byte>)
    ensures |b| == HEADER_SIZE
  {
    LE32(h.version) + LE32(h.messageSize) + LE32(h.msgType) + LE32(h.payloadSize) + LE32(h.checksum)
  }

  function HeaderAt(b: seq<Byte>): MessageHeader
    requires |b| >= HEADER_SIZE
  {
    MessageHeader(U32At(b[0..4]), U32At(b[4..8]), U32At(b[8..12]), U32At(b[12..16]), U32At(b[16..20]))
  }

  lemma HeaderRoundTrip(h: MessageHeader, rest: seq<Byte>)
    ensures HeaderAt(HeaderBytes(h) + rest) == h
  {
    var b := HeaderBytes(h) + rest;
    assert b[0..4] == LE32(h.version);
    assert b[4..8] == LE32(h.messageSize);
    assert b[8..12] == LE32(h.msgType);
    assert b[12..16] == LE32(h.payloadSize);
    assert b[16..20] == LE32(h.checksum);
  }

  lemma HeaderImage(b: seq<Byte>)
    requires |b| >= HEADER_SIZE
    ensures HeaderBytes(HeaderAt(b)) == b[..HEADER_SIZE]
  {
    assert b[..HEADER_SIZE] == b[0..4] + b[4..8] + b[8..12] + b[12..16] + b[16..20];
  }

  /** sizeof the payload each type carries; types without one cannot be encoded. */
  function PayloadSize(t: U32): nat {
    if t == MSG_ORDER_NEW || t == MSG_ORDER_MODIFY || t == MSG_ORDER_CANCEL then ORDER_SIZE
    else if t == MSG_MARKET_DATA then MARKET_DATA_SIZE
    else if t == MSG_TRADE_EXEC then TRADE_SIZE
    else 0
  }

  predicate Encodable(t: U32) {
    MSG_ORDER_NEW <= t <= MSG_ORDER_MODIFY || t == MSG_MARKET_DATA || t == MSG_TRADE_EXEC
  }

  /** A frame whose message_size field holds `size`, whatever its true length. */
  function FrameSized(size: U32, t: U32, payload: seq<Byte>): (b: seq<Byte>)
    requires |payload| <= UNION_SIZE
    ensures |b| == HEADER_SIZE + |payload|
  {
    HeaderBytes(MessageHeader(SERIALIZATION_VERSION, size, t, |payload|, ChecksumOf(payload))) + payload
  }

  /** The frame of a message: what belongs on the wire. */
  function Frame(t: U32, payload: seq<Byte>): (b: seq<Byte>)
    requires |payload| <= UNION_SIZE
    ensures |b| == HEADER_SIZE + |payload|
  {
    FrameSized(HEADER_SIZE + |payload|, t, payload)
  }

  /** A message as a value; `data` is the payload union, byte for byte. */
  datatype MessageValue = MessageValue(msgType: U32, sequenceNum: U64, timestamp: I64, data: seq<Byte>) {
    predicate Valid() {
      |data| == UNION_SIZE
    }

    function Payload(): (p: seq<Byte>)
      requires Valid()
    {
      data[..PayloadSize(msgType)]
    }
  }

  /** The payload written over the front of the union; what lies behind it stays. */
  function Overwrite(data: seq<Byte>, payload: seq<Byte>): (r: seq<Byte>)
    requires |payload| <= |data|
    ensures |r| == |data|
  {
    payload + data[|payload|..]
  }

  class Message {
    var msgType: U32
    var sequenceNum: U64
    var timestamp: I64
    const data: array<Byte>

    ghost predicate Valid() {
      data.Length == UNION_SIZE
    }

    ghost function Value(): MessageValue
      reads this, data
    {
      MessageValue(msgType, sequenceNum, timestamp, data[..])
    }

    /** A designated initializer: the payload, and zeros behind it. */
    constructor (msgType: U32, sequenceNum: U64, timestamp: I64, payload: seq<Byte>)
      requires |payload| <= UNION_SIZE
      ensures Valid() && fresh(data)
      ensures Value() == MessageValue(msgType, sequenceNum, timestamp,
                                      Overwrite(seq(UNION_SIZE, _ => 0), payload))
    {
      this.msgType, this.sequenceNum, this.timestamp := msgType, sequenceNum, timestamp;
      data := new Byte[UNION_SIZE](i => if 0 <= i < |payload| then payload[i] else 0);
      new;
      assert data[..] == Overwrite(seq(UNION_SIZE, _ => 0), payload);
    }
  }

  /** memcpy of `bytes` to dst + at. */
  method Store(dst: array<Byte>, at: nat, bytes: seq<Byte>)
    requires at + |bytes| <= dst.Length
    modifies dst
    ensures dst[..] == old(dst[..at]) + bytes + old(dst[at + |bytes|..])
    ensures dst[at..at + |bytes|] == bytes
    ensures dst[at + |bytes|..] == old(dst[at + |bytes|..])
  {
    forall i | 0 <= i < |bytes| {
      dst[at + i] := bytes[i];
    }
  }

  /** Succeeds exactly when the type is encodable and its frame fits; then the frame is all
      that changes in the buffer.  On every error the buffer is as it was. */
  method SerializeMessage(msg: Message?, buffer: array?<Byte>, bufferSize: nat) returns (r: int)
    requires msg != null ==> msg.Valid() && msg.data != buffer
    requires buffer != null ==> bufferSize <= buffer.Length
    modifies if buffer == null then {} else {buffer}
    ensures msg == null || buffer == null || bufferSize < HEADER_SIZE ==> r == SERIAL_ERROR_BUFFER_OVERFLOW
    ensures msg != null && buffer != null && bufferSize >= HEADER_SIZE ==>
              if !Encodable(msg.msgType) then r == SERIAL_ERROR_INVALID_TYPE
              else if bufferSize < HEADER_SIZE + PayloadSize(msg.msgType) then r == SERIAL_ERROR_BUFFER_OVERFLOW
              else
                && r == HEADER_SIZE + PayloadSize(msg.msgType)
                && buffer[..] == Frame(msg.msgType, msg.Value().Payload()) + old(buffer[r..])
    ensures r < 0 && buffer != null ==> buffer[..] == old(buffer[..])
  {
    hide Frame;
    if msg == null || buffer == null || bufferSize < HEADER_SIZE {
      return SERIAL_ERROR_BUFFER_OVERFLOW;
    }
    var header := MessageHeader(SERIALIZATION_VERSION, 0, msg.msgType, 0, 0);
    if msg.msgType == MSG_ORDER_NEW || msg.msgType == MSG_ORDER_MODIFY || msg.msgType == MSG_ORDER_CANCEL {
      header := header.(payloadSize := ORDER_SIZE);
      if HEADER_SIZE + header.payloadSize > bufferSize {
        return SERIAL_ERROR_BUFFER_OVERFLOW;
      }
      Store(buffer, HEADER_SIZE, msg.data[..ORDER_SIZE]);
    } else if msg.msgType == MSG_MARKET_DATA {
      header := header.(payloadSize := MARKET_DATA_SIZE);
      if HEADER_SIZE + header.payloadSize > bufferSize {
        return SERIAL_ERROR_BUFFER_OVERFLOW;
      }
      Store(buffer, HEADER_SIZE, msg.data[..MARKET_DATA_SIZE]);
    } else if msg.msgType == MSG_TRADE_EXEC {
      header := header.(payloadSize := TRADE_SIZE);
      if HEADER_SIZE + header.payloadSize > bufferSize {
        return SERIAL_ERROR_BUFFER_OVERFLOW;
      }
      Store(buffer, HEADER_SIZE, msg.data[..TRADE_SIZE]);
    } else {
      return SERIAL_ERROR_INVALID_TYPE;
    }
    r := CompleteFrame(buffer, header);
  }

  /** The common tail of the encoder: size and checksum for the payload already in place,
      then the header in front of it. */
  method CompleteFrame(buffer: array<Byte>, partial: MessageHeader) returns (r: int)
    requires partial.version == SERIALIZATION_VERSION
    requires partial.payloadSize <= UNION_SIZE && HEADER_SIZE + partial.payloadSize <= buffer.Length
    modifies buffer
    ensures r == HEADER_SIZE + partial.payloadSize
    ensures buffer[..] == Frame(partial.msgType, old(buffer[HEADER_SIZE..r])) + old(buffer[r..])
  {
    hide HeaderBytes, ChecksumOf;
    var header := partial.(messageSize := HEADER_SIZE + partial.payloadSize);
    var checksum := CalculateChecksum(buffer, HEADER_SIZE, header.payloadSize);
    header := header.(checksum := checksum);
    Store(buffer, 0, HeaderBytes(header));
    r := header.messageSize;
    assert old(buffer[HEADER_SIZE..]) == old(buffer[HEADER_SIZE..r]) + old(buffer[r..]);
  }

  /** A header the decoder goes on with. */
  predicate ValidHeader(h: MessageHeader) {
    h.version == SERIALIZATION_VERSION && HEADER_SIZE <= h.messageSize <= MAX_MESSAGE_SIZE
  }

  /** validate_message_header: success exactly on valid headers; a wrong version is reported
      before a wrong size. */
  method ValidateMessageHeader(header: MessageHeader) returns (r: int)
    ensures r == SERIAL_SUCCESS <==> ValidHeader(header)
    ensures r == SERIAL_ERROR_INVALID_VERSION <==> header.version != SERIALIZATION_VERSION
    ensures r in {SERIAL_SUCCESS, SERIAL_ERROR_INVALID_VERSION,
                  SERIAL_ERROR_INVALID_MESSAGE, SERIAL_ERROR_BUFFER_OVERFLOW}
    ensures r == SERIAL_ERROR_INVALID_MESSAGE ==> header.messageSize < HEADER_SIZE
    ensures r == SERIAL_ERROR_BUFFER_OVERFLOW ==> header.messageSize > MAX_MESSAGE_SIZE
  {
    if header.version != SERIALIZATION_VERSION {
      return SERIAL_ERROR_INVALID_VERSION;
    }
    if header.messageSize < HEADER_SIZE {
      return SERIAL_ERROR_INVALID_MESSAGE;
    }
    if header.messageSize > MAX_MESSAGE_SIZE {
      return SERIAL_ERROR_BUFFER_OVERFLOW;
    }
    return SERIAL_SUCCESS;
  }

  /** The decoder sums payload_size bytes without comparing that field with message_size;
      a caller must make sure the memory is there whenever the sum is reached. */
  predicate ChecksumInBounds(memory: seq<Byte>, received: nat) {
    received >= HEADER_SIZE && |memory| >= HEADER_SIZE
    && ValidHeader(HeaderAt(memory))
    && HeaderAt(memory).messageSize <= received
    ==> HEADER_SIZE + HeaderAt(memory).payloadSize <= |memory|
  }

  datatype Outcome = Outcome(code: int, message: MessageValue)

  /** Return code and message after decoding `received` bytes at the front of `memory` into m. */
  function Decode(memory: seq<Byte>, received: nat, m: MessageValue): Outcome
    requires received <= |memory|
    requires ChecksumInBounds(memory, received)
    requires m.Valid()
  {
    if received < HEADER_SIZE then Outcome(SERIAL_ERROR_INCOMPLETE, m)
    else
      var h := HeaderAt(memory);
      if !ValidHeader(h) then Outcome(SERIAL_ERROR_INVALID_MESSAGE, m)
      else if received < h.messageSize then Outcome(SERIAL_ERROR_INCOMPLETE, m)
      else
        var body := memory[HEADER_SIZE..HEADER_SIZE + h.payloadSize];
        if ChecksumOf(body) != h.checksum then Outcome(SERIAL_ERROR_CHECKSUM, m)
        else Deliver(h.msgType, body, m)
  }

  /** The last stage: the type is written before the size is found wrong for it. */
  function Deliver(t: U32, body: seq<Byte>, m: MessageValue): Outcome
    requires m.Valid()
  {
    if !Encodable(t) then Outcome(SERIAL_ERROR_INVALID_TYPE, m.(msgType := t))
    else if |body| != PayloadSize(t) then Outcome(SERIAL_ERROR_INVALID_MESSAGE, m.(msgType := t))
    else Outcome(SERIAL_SUCCESS, m.(msgType := t, data := Overwrite(m.data, body)))
  }

  method DeserializeMessage(buffer: array?<Byte>, bufferSize: nat, msg: Message?) returns (r: int)
    requires buffer != null ==> bufferSize <= buffer.Length && ChecksumInBounds(buffer[..], bufferSize)
    requires msg != null ==> msg.Valid() && msg.data != buffer
    modifies if msg == null then {} else {msg, msg.data}
    ensures buffer == null || msg == null ==> r == SERIAL_ERROR_INCOMPLETE
    ensures buffer == null && msg != null ==> msg.Value() == old(msg.Value())
    ensures buffer != null && msg != null ==>
              Outcome(r, msg.Value()) == old(Decode(buffer[..], bufferSize, msg.Value()))
  {
    if buffer == null || msg == null || bufferSize < HEADER_SIZE {
      return SERIAL_ERROR_INCOMPLETE;
    }
    var header := HeaderAt(buffer[..HEADER_SIZE]);
    assert header == HeaderAt(buffer[..]) by { SameHeader(buffer[..]); }
    var valid := ValidateMessageHeader(header);
    if valid != SERIAL_SUCCESS {
      return SERIAL_ERROR_INVALID_MESSAGE;
    }
    if bufferSize < header.messageSize {
      return SERIAL_ERROR_INCOMPLETE;
    }
    var checksum := CalculateChecksum(buffer, HEADER_SIZE, header.payloadSize);
    assert buffer[..][HEADER_SIZE..HEADER_SIZE + header.payloadSize]
           == buffer[HEADER_SIZE..HEADER_SIZE + header.payloadSize];
    if checksum != header.checksum {
      return SERIAL_ERROR_CHECKSUM;
    }
    r := DeliverPayload(buffer, header, msg);
  }

  method DeliverPayload(buffer: array<Byte>, header: MessageHeader, msg: Message) returns (r: int)
    requires HEADER_SIZE + header.payloadSize <= buffer.Length
    requires msg.Valid() && msg.data != buffer
    modifies msg, msg.data
    ensures Outcome(r, msg.Value())
            == old(Deliver(header.msgType, buffer[HEADER_SIZE..HEADER_SIZE + header.payloadSize], msg.Value()))
  {
    msg.msgType := header.msgType;
    if msg.msgType == MSG_ORDER_NEW || msg.msgType == MSG_ORDER_MODIFY || msg.msgType == MSG_ORDER_CANCEL {
      if header.payloadSize != ORDER_SIZE {
        return SERIAL_ERROR_INVALID_MESSAGE;
      }
      Store(msg.data, 0, buffer[HEADER_SIZE..HEADER_SIZE + ORDER_SIZE]);
    } else if msg.msgType == MSG_MARKET_DATA {
      if header.payloadSize != MARKET_DATA_SIZE {
        return SERIAL_ERROR_INVALID_MESSAGE;
      }
      Store(msg.data, 0, buffer[HEADER_SIZE..HEADER_SIZE + MARKET_DATA_SIZE]);
    } else if msg.msgType == MSG_TRADE_EXEC {
      if header.payloadSize != TRADE_SIZE {
        return SERIAL_ERROR_INVALID_MESSAGE;
      }
      Store(msg.data, 0, buffer[HEADER_SIZE..HEADER_SIZE + TRADE_SIZE]);
    } else {
      return SERIAL_ERROR_INVALID_TYPE;
    }
    assert msg.data[..]
           == Overwrite(old(msg.data[..]), old(buffer[HEADER_SIZE..HEADER_SIZE + header.payloadSize]));
    return SERIAL_SUCCESS;
  }

  lemma SameHeader(b: seq<Byte>)
    requires |b| >= HEADER_SIZE
    ensures HeaderAt(b[..HEADER_SIZE]) == HeaderAt(b)
  {
    HeaderImage(b);
    HeaderRoundTrip(HeaderAt(b), []);
    assert HeaderBytes(HeaderAt(b)) + [] == b[..HEADER_SIZE];
  }
}
