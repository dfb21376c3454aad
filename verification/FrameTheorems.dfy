/** What the wire format guarantees: round trips both ways, unique parsing, and which
    corruptions of a frame the decoder notices. */
module FrameTheorems {
  import opened Base33
  import opened Bytes
  import opened Types
  import opened Checksum
  import opened Serialization

  /** Decoding any header followed by any bytes, stage by stage. */
  lemma DecodeHeader(h: MessageHeader, rest: seq<Byte>, received: nat, m: MessageValue)
    requires HEADER_SIZE <= received <= HEADER_SIZE + |rest|
    requires m.Valid()
    requires h.payloadSize <= |rest|
    ensures ChecksumInBounds(HeaderBytes(h) + rest, received)
    ensures Decode(HeaderBytes(h) + rest, received, m) ==
            if !ValidHeader(h) then Outcome(SERIAL_ERROR_INVALID_MESSAGE, m)
            else if received < h.messageSize then Outcome(SERIAL_ERROR_INCOMPLETE, m)
            else if ChecksumOf(rest[..h.payloadSize]) != h.checksum then Outcome(SERIAL_ERROR_CHECKSUM, m)
            else Deliver(h.msgType, rest[..h.payloadSize], m)
  {
    HeaderRoundTrip(h, rest);
    var memory := HeaderBytes(h) + rest;
    assert memory[HEADER_SIZE..HEADER_SIZE + h.payloadSize] == rest[..h.payloadSize];
  }

  /** The same when the first bytes of `rest` are a payload of the announced size. */
  lemma DecodePayload(h: MessageHeader, p: seq<Byte>, tail: seq<Byte>, received: nat, m: MessageValue)
    requires HEADER_SIZE <= received <= HEADER_SIZE + |p| + |tail|
    requires m.Valid()
    requires h.payloadSize == |p|
    ensures ChecksumInBounds(HeaderBytes(h) + p + tail, received)
    ensures Decode(HeaderBytes(h) + p + tail, received, m) ==
            if !ValidHeader(h) then Outcome(SERIAL_ERROR_INVALID_MESSAGE, m)
            else if received < h.messageSize then Outcome(SERIAL_ERROR_INCOMPLETE, m)
            else if ChecksumOf(p) != h.checksum then Outcome(SERIAL_ERROR_CHECKSUM, m)
            else Deliver(h.msgType, p, m)
  {
    DecodeHeader(h, p + tail, received, m);
    assert HeaderBytes(h) + p + tail == HeaderBytes(h) + (p + tail);
    assert (p + tail)[..|p|] == p;
  }

  /** The header of the frame of (t, p). */
  function FrameHeader(t: U32, p: seq<Byte>): MessageHeader
    requires |p| <= UNION_SIZE
  {
    MessageHeader(SERIALIZATION_VERSION, HEADER_SIZE + |p|, t, |p|, ChecksumOf(p))
  }

  ghost predicate WellFormed(t: U32, p: seq<Byte>) {
    Encodable(t) && |p| == PayloadSize(t)
  }

  /** Encode, then decode: the type and payload arrive, whatever bytes follow the frame;
      sequence number, timestamp and the rest of the receiving union stay as they were. */
  lemma EncodeDecode(t: U32, p: seq<Byte>, tail: seq<Byte>, received: nat, m: MessageValue)
    requires WellFormed(t, p)
    requires m.Valid()
    requires |Frame(t, p)| <= received <= |Frame(t, p) + tail|
    ensures ChecksumInBounds(Frame(t, p) + tail, received)
    ensures var o := Decode(Frame(t, p) + tail, received, m);
            && o.code == SERIAL_SUCCESS
            && o.message.msgType == t && o.message.Payload() == p
            && o.message.data[|p|..] == m.data[|p|..]
            && o.message.sequenceNum == m.sequenceNum && o.message.timestamp == m.timestamp
  {
    var h := FrameHeader(t, p);
    DecodePayload(h, p, tail, received, m);
  }

  /** A frame cut short anywhere is reported incomplete and changes nothing, whatever stale
      bytes lie behind what was received. */
  lemma TruncatedFrame(t: U32, p: seq<Byte>, memory: seq<Byte>, received: nat, m: MessageValue)
    requires WellFormed(t, p) && m.Valid()
    requires received < |Frame(t, p)| && received <= |memory|
    requires memory[..received] == Frame(t, p)[..received]
    ensures ChecksumInBounds(memory, received)
    ensures Decode(memory, received, m) == Outcome(SERIAL_ERROR_INCOMPLETE, m)
  {
    if received >= HEADER_SIZE {
      HeaderRoundTrip(FrameHeader(t, p), p);
      SameHeader(memory);
      SameHeader(Frame(t, p));
      assert memory[..HEADER_SIZE] == memory[..received][..HEADER_SIZE] == Frame(t, p)[..HEADER_SIZE];
    }
  }

  lemma AcceptedIsFrame(memory: seq<Byte>, received: nat, m: MessageValue)
    requires received <= |memory| && ChecksumInBounds(memory, received) && m.Valid()
    requires Decode(memory, received, m).code == SERIAL_SUCCESS
    ensures var o := Decode(memory, received, m).message;
            var size := HEADER_SIZE + PayloadSize(o.msgType);
            var announced := HeaderAt(memory).messageSize;
            && o.Valid() && WellFormed(o.msgType, o.Payload())
            && o.msgType == HeaderAt(memory).msgType
            && size <= |memory|
            && memory[..size] == FrameSized(announced, o.msgType, o.Payload())
            && HEADER_SIZE <= announced <= received && announced <= MAX_MESSAGE_SIZE
  {
    var h := HeaderAt(memory);
    var p := memory[HEADER_SIZE..HEADER_SIZE + h.payloadSize];
    var o := Decode(memory, received, m).message;
    assert o.Payload() == p;
    HeaderImage(memory);
    assert memory[..HEADER_SIZE + |p|] == memory[..HEADER_SIZE] + p;
  }

  lemma DeliveredIsWellFormed(memory: seq<Byte>, received: nat, m: MessageValue)
    requires received <= |memory| && ChecksumInBounds(memory, received) && m.Valid()
    requires Decode(memory, received, m).code == SERIAL_SUCCESS
    ensures var o := Decode(memory, received, m).message;
            o.Valid() && WellFormed(o.msgType, o.Payload())
  {
    AcceptedIsFrame(memory, received, m);
  }

  lemma OnlyTheSizeField(size: U32, t: U32, p: seq<Byte>)
    requires |p| <= UNION_SIZE
    ensures FrameSized(size, t, p)[..4] == Frame(t, p)[..4]
    ensures FrameSized(size, t, p)[8..] == Frame(t, p)[8..]
    ensures FrameSized(size, t, p) == Frame(t, p) <==> size == HEADER_SIZE + |p|
  {
    var f, f' := FrameSized(size, t, p), Frame(t, p);
    SplitFrame(size, t, p);
    SplitFrame(HEADER_SIZE + |p|, t, p);
    if f == f' {
      assert FromLE(f[4..8]) == FromLE(f'[4..8]);
    }
  }

  lemma SplitFrame(size: U32, t: U32, p: seq<Byte>)
    requires |p| <= UNION_SIZE
    ensures var f := FrameSized(size, t, p);
            && f[..4] == LE32(SERIALIZATION_VERSION)
            && f[4..8] == LE32(size)
            && f[8..] == LE32(t) + LE32(|p|) + LE32(ChecksumOf(p)) + p
  {
    hide LE32, ChecksumOf;
    var version, rest := LE32(SERIALIZATION_VERSION), LE32(t) + LE32(|p|) + LE32(ChecksumOf(p)) + p;
    assert FrameSized(size, t, p) == version + LE32(size) + rest;
    ThreeParts(version, LE32(size), rest);
  }

  lemma ThreeParts(a: seq<Byte>, b: seq<Byte>, c: seq<Byte>)
    ensures (a + b + c)[..|a|] == a
    ensures (a + b + c)[|a|..|a| + |b|] == b
    ensures (a + b + c)[|a| + |b|..] == c
  {
  }

  /** Decode, then encode: what the decoder accepts begins with the frame of what it
      delivered, except perhaps in the four bytes of message_size; and with exactly that
      frame when message_size is the true size. */
  lemma DecodeEncode(memory: seq<Byte>, received: nat, m: MessageValue)
    requires received <= |memory| && ChecksumInBounds(memory, received) && m.Valid()
    requires Decode(memory, received, m).code == SERIAL_SUCCESS
    ensures var o := Decode(memory, received, m).message;
            && o.Valid() && WellFormed(o.msgType, o.Payload())
            && o.msgType == HeaderAt(memory).msgType
            && var frame := Frame(o.msgType, o.Payload());
               && |frame| <= |memory|
               && memory[..4] == frame[..4]
               && memory[8..|frame|] == frame[8..]
               && (frame <= memory <==> HeaderAt(memory).messageSize == |frame|)
  {
    AcceptedIsFrame(memory, received, m);
    var o := Decode(memory, received, m).message;
    var p := o.Payload();
    var accepted := FrameSized(HeaderAt(memory).messageSize, o.msgType, p);
    OnlyTheSizeField(HeaderAt(memory).messageSize, o.msgType, p);
    assert memory[..4] == accepted[..4];
    assert memory[8..|accepted|] == accepted[8..];
  }

  /** So the decoder accepts exactly the encoder's frames, give or take message_size:
      memory is accepted if and only if it begins with the frame of some message whose
      message_size field holds anything from the header size up to what was received. */
  lemma AcceptedLanguage(memory: seq<Byte>, received: nat, m: MessageValue)
    requires received <= |memory| && ChecksumInBounds(memory, received) && m.Valid()
    ensures Decode(memory, received, m).code == SERIAL_SUCCESS
       <==> exists size: U32, t: U32, p: seq<Byte> {:trigger FrameSized(size, t, p)} ::
              WellFormed(t, p) && HEADER_SIZE <= size <= received && size <= MAX_MESSAGE_SIZE
              && FrameSized(size, t, p) <= memory
  {
    if Decode(memory, received, m).code == SERIAL_SUCCESS {
      AcceptedIsFrame(memory, received, m);
      var o := Decode(memory, received, m).message;
      assert FrameSized(HeaderAt(memory).messageSize, o.msgType, o.Payload()) <= memory;
    }
    if size: U32, t: U32, p: seq<Byte> {:trigger FrameSized(size, t, p)} :|
      WellFormed(t, p) && HEADER_SIZE <= size <= received && size <= MAX_MESSAGE_SIZE
      && FrameSized(size, t, p) <= memory
    {
      SizedFrameAccepted(memory, received, m, size, t, p);
    }
  }

  lemma SizedFrameAccepted(memory: seq<Byte>, received: nat, m: MessageValue, size: U32, t: U32, p: seq<Byte>)
    requires received <= |memory| && ChecksumInBounds(memory, received) && m.Valid()
    requires WellFormed(t, p) && HEADER_SIZE <= size <= received && size <= MAX_MESSAGE_SIZE
    requires FrameSized(size, t, p) <= memory
    ensures Decode(memory, received, m) == Deliver(t, p, m)
  {
    var h := FrameHeader(t, p).(messageSize := size);
    var tail := memory[HEADER_SIZE + |p|..];
    assert memory == FrameSized(size, t, p) + tail == HeaderBytes(h) + p + tail;
    DecodePayload(h, p, tail, received, m);
  }

  /** No frame is a proper prefix of another, and a frame names its message. */
  lemma FramesAreAPrefixCode(t: U32, p: seq<Byte>, t': U32, p': seq<Byte>)
    requires WellFormed(t, p) && WellFormed(t', p')
    requires Frame(t, p) <= Frame(t', p')
    ensures t == t' && p == p'
  {
    hide Decode, Frame, FrameSized, ChecksumInBounds;
    var m := MessageValue(0, 0, 0, seq(UNION_SIZE, _ => 0));
    var f, f' := Frame(t, p), Frame(t', p');
    EncodeDecode(t, p, f'[|f|..], |f'|, m);
    EncodeDecode(t', p', [], |f'|, m);
    assert f' == f + f'[|f|..] == f' + [];
  }

  /** The wire bytes of a frame, field by field. */
  lemma FrameBytes(t: U32, p: seq<Byte>)
    requires WellFormed(t, p)
    ensures var f := Frame(t, p);
            && f[0..4] == [1, 0, 0, 0]
            && f[4..8] == LE32(HEADER_SIZE + |p|)
            && f[8..12] == LE32(t) == [t, 0, 0, 0]
            && f[12..16] == LE32(|p|) == [|p|, 0, 0, 0]
            && f[16..20] == LE32(ChecksumOf(p))
            && f[20..] == p
  {
    var h := FrameHeader(t, p);
    var v, s, y, n, c := LE32(h.version), LE32(h.messageSize), LE32(h.msgType), LE32(h.payloadSize), LE32(h.checksum);
    SmallBytes(1);
    SmallBytes(t);
    SmallBytes(|p|);
    hide LE32, ChecksumOf, WellFormed;
    var f := Frame(t, p);
    assert f == v + s + y + n + c + p;
    assert f[0..4] == v && f[4..8] == s && f[8..12] == y && f[12..16] == n && f[16..20] == c && f[20..] == p;
  }

  lemma SmallBytes(x: Byte)
    ensures LE32(x) == [x, 0, 0, 0]
  {
    assert ToLE(0, 1) == [0];
    assert ToLE(0, 2) == [0, 0];
    assert ToLE(0, 3) == [0, 0, 0];
  }

  /** Which types can be encoded, and how long their frames are: orders, their changes and trades
      148 bytes, market data 124, and nothing else at all. */
  lemma FrameLengths(t: U32, p: seq<Byte>)
    ensures WellFormed(t, p) <==>
              || (t in {MSG_ORDER_NEW, MSG_ORDER_MODIFY, MSG_ORDER_CANCEL, MSG_TRADE_EXEC} && |p| == 128)
              || (t == MSG_MARKET_DATA && |p| == 104)
    ensures WellFormed(t, p) ==> |Frame(t, p)| == if t == MSG_MARKET_DATA then 124 else 148
  {
  }

  /** The frame of (t, p) with q standing where the payload was. */
  function WithPayload(t: U32, p: seq<Byte>, q: seq<Byte>): seq<Byte>
    requires WellFormed(t, p) && |q| == |p|
  {
    Frame(t, p)[..HEADER_SIZE] + q
  }

  /** A payload damaged in transit: refused as a checksum error unless its checksum is that
      of the original, in which case the damaged payload is delivered. */
  lemma PayloadCorruption(t: U32, p: seq<Byte>, q: seq<Byte>, tail: seq<Byte>, received: nat, m: MessageValue)
    requires WellFormed(t, p) && |q| == |p| && m.Valid()
    requires |Frame(t, p)| <= received <= |Frame(t, p)| + |tail|
    ensures ChecksumInBounds(WithPayload(t, p, q) + tail, received)
    ensures Decode(WithPayload(t, p, q) + tail, received, m) ==
            if ChecksumOf(q) == ChecksumOf(p) then Deliver(t, q, m)
            else Outcome(SERIAL_ERROR_CHECKSUM, m)
  {
    var h := FrameHeader(t, p);
    assert Frame(t, p)[..HEADER_SIZE] == HeaderBytes(h);
    DecodePayload(h, q, tail, received, m);
  }

  /** Whatever one payload byte is changed to, and whichever two unequal payload bytes are
      exchanged, the decoder answers with the checksum error and leaves the message alone. */
  lemma SmallCorruptionsDetected(t: U32, p: seq<Byte>, tail: seq<Byte>, received: nat, m: MessageValue,
                                 i: nat, b: Byte, j: nat)
    requires WellFormed(t, p) && m.Valid()
    requires |Frame(t, p)| <= received <= |Frame(t, p)| + |tail|
    requires i < j < |p|
    ensures b != p[i] ==>
              && ChecksumInBounds(WithPayload(t, p, p[i := b]) + tail, received)
              && Decode(WithPayload(t, p, p[i := b]) + tail, received, m) == Outcome(SERIAL_ERROR_CHECKSUM, m)
    ensures b != p[j] ==>
              && ChecksumInBounds(WithPayload(t, p, p[j := b]) + tail, received)
              && Decode(WithPayload(t, p, p[j := b]) + tail, received, m) == Outcome(SERIAL_ERROR_CHECKSUM, m)
    ensures p[i] != p[j] ==>
              && ChecksumInBounds(WithPayload(t, p, Swapped(p, i, j)) + tail, received)
              && Decode(WithPayload(t, p, Swapped(p, i, j)) + tail, received, m)
                 == Outcome(SERIAL_ERROR_CHECKSUM, m)
  {
    if b != p[i] {
      OneByteDetected(p, i, b);
      PayloadCorruption(t, p, p[i := b], tail, received, m);
    }
    if b != p[j] {
      OneByteDetected(p, j, b);
      PayloadCorruption(t, p, p[j := b], tail, received, m);
    }
    if p[i] != p[j] {
      SwapDetected(p, i, j);
      PayloadCorruption(t, p, Swapped(p, i, j), tail, received, m);
    }
  }

  /** A burst over at most five payload bytes passes exactly when it keeps the base-33 value
      of the stretch it hit. */
  lemma BurstCorruption(t: U32, pre: seq<Byte>, w: seq<Byte>, w': seq<Byte>, suf: seq<Byte>,
                        tail: seq<Byte>, received: nat, m: MessageValue)
    requires |w| == |w'| <= 5
    requires WellFormed(t, pre + w + suf) && m.Valid()
    requires |Frame(t, pre + w + suf)| <= received <= |Frame(t, pre + w + suf)| + |tail|
    ensures var damaged := WithPayload(t, pre + w + suf, pre + w' + suf) + tail;
            && ChecksumInBounds(damaged, received)
            && (Decode(damaged, received, m).code == SERIAL_SUCCESS <==> Polynomial(w) == Polynomial(w'))
  {
    WindowDetection(pre, w, w', suf);
    PayloadCorruption(t, pre + w + suf, pre + w' + suf, tail, received, m);
  }

  /** The frame with x in place of the four-byte header field at the given offset. */
  function WithField(frame: seq<Byte>, at: nat, x: U32): (r: seq<Byte>)
    requires at + 4 <= |frame|
    ensures |r| == |frame|
  {
    frame[..at] + LE32(x) + frame[at + 4..]
  }

  const VERSION_AT: nat := 0
  const MESSAGE_SIZE_AT: nat := 4
  const TYPE_AT: nat := 8
  const PAYLOAD_SIZE_AT: nat := 12
  const CHECKSUM_AT: nat := 16

  /** Damaging a header field in the frame is changing that field of its header. */
  lemma FieldDamage(t: U32, p: seq<Byte>, tail: seq<Byte>, x: U32)
    requires WellFormed(t, p)
    ensures var h, f := FrameHeader(t, p), Frame(t, p);
            && WithField(f, VERSION_AT, x) + tail == HeaderBytes(h.(version := x)) + (p + tail)
            && WithField(f, MESSAGE_SIZE_AT, x) + tail == HeaderBytes(h.(messageSize := x)) + (p + tail)
            && WithField(f, TYPE_AT, x) + tail == HeaderBytes(h.(msgType := x)) + (p + tail)
            && WithField(f, PAYLOAD_SIZE_AT, x) + tail == HeaderBytes(h.(payloadSize := x)) + (p + tail)
            && WithField(f, CHECKSUM_AT, x) + tail == HeaderBytes(h.(checksum := x)) + (p + tail)
  {
    hide LE32, ChecksumOf;
    var h, f := FrameHeader(t, p), Frame(t, p);
    assert f[..4] == LE32(h.version);
    assert f[4..] == LE32(h.messageSize) + LE32(h.msgType) + LE32(h.payloadSize) + LE32(h.checksum) + p;
    assert f[..8] == LE32(h.version) + LE32(h.messageSize);
    assert f[..12] == LE32(h.version) + LE32(h.messageSize) + LE32(h.msgType);
    assert f[..16] == LE32(h.version) + LE32(h.messageSize) + LE32(h.msgType) + LE32(h.payloadSize);
    assert f[8..] == LE32(h.msgType) + LE32(h.payloadSize) + LE32(h.checksum) + p;
    assert f[12..] == LE32(h.payloadSize) + LE32(h.checksum) + p;
    assert f[16..] == LE32(h.checksum) + p;
  }

  /** A damaged version field, or a damaged checksum field, is always noticed. */
  lemma VersionOrChecksumCorruption(t: U32, p: seq<Byte>, tail: seq<Byte>, received: nat, m: MessageValue, x: U32)
    requires WellFormed(t, p) && m.Valid()
    requires |Frame(t, p)| <= received <= |Frame(t, p)| + |tail|
    ensures x != SERIALIZATION_VERSION ==>
              && ChecksumInBounds(WithField(Frame(t, p), VERSION_AT, x) + tail, received)
              && Decode(WithField(Frame(t, p), VERSION_AT, x) + tail, received, m)
                 == Outcome(SERIAL_ERROR_INVALID_MESSAGE, m)
    ensures x != ChecksumOf(p) ==>
              && ChecksumInBounds(WithField(Frame(t, p), CHECKSUM_AT, x) + tail, received)
              && Decode(WithField(Frame(t, p), CHECKSUM_AT, x) + tail, received, m)
                 == Outcome(SERIAL_ERROR_CHECKSUM, m)
  {
    assert (p + tail)[..|p|] == p;
    FieldDamage(t, p, tail, x);
    DecodeHeader(FrameHeader(t, p).(version := x), p + tail, received, m);
    DecodeHeader(FrameHeader(t, p).(checksum := x), p + tail, received, m);
  }

  /** The checksum does not cover the header: a damaged type passes exactly when it is
      encodable with the same payload size, and the payload is then delivered under it. */
  lemma TypeCorruption(t: U32, p: seq<Byte>, tail: seq<Byte>, received: nat, m: MessageValue, x: U32)
    requires WellFormed(t, p) && m.Valid()
    requires |Frame(t, p)| <= received <= |Frame(t, p)| + |tail|
    ensures ChecksumInBounds(WithField(Frame(t, p), TYPE_AT, x) + tail, received)
    ensures Decode(WithField(Frame(t, p), TYPE_AT, x) + tail, received, m).code ==
            if !Encodable(x) then SERIAL_ERROR_INVALID_TYPE
            else if PayloadSize(x) != PayloadSize(t) then SERIAL_ERROR_INVALID_MESSAGE
            else SERIAL_SUCCESS
    ensures Decode(WithField(Frame(t, p), TYPE_AT, x) + tail, received, m).message
            == if WellFormed(x, p) then m.(msgType := x, data := p + m.data[|p|..]) else m.(msgType := x)
  {
    assert (p + tail)[..|p|] == p;
    FieldDamage(t, p, tail, x);
    DecodeHeader(FrameHeader(t, p).(msgType := x), p + tail, received, m);
  }

  /** A damaged message_size passes exactly when it lies between the header size and what
      was received, and within the protocol maximum; a damaged payload_size (as far as
      there is memory behind the header) never passes. */
  lemma SizeCorruption(t: U32, p: seq<Byte>, tail: seq<Byte>, received: nat, m: MessageValue, x: U32)
    requires WellFormed(t, p) && m.Valid()
    requires |Frame(t, p)| <= received <= |Frame(t, p)| + |tail|
    ensures ChecksumInBounds(WithField(Frame(t, p), MESSAGE_SIZE_AT, x) + tail, received)
    ensures Decode(WithField(Frame(t, p), MESSAGE_SIZE_AT, x) + tail, received, m)
            == if x < HEADER_SIZE || x > MAX_MESSAGE_SIZE then Outcome(SERIAL_ERROR_INVALID_MESSAGE, m)
               else if x > received then Outcome(SERIAL_ERROR_INCOMPLETE, m)
               else Outcome(SERIAL_SUCCESS, m.(msgType := t, data := p + m.data[|p|..]))
    ensures x != |p| && x <= |p| + |tail| ==>
              && ChecksumInBounds(WithField(Frame(t, p), PAYLOAD_SIZE_AT, x) + tail, received)
              && Decode(WithField(Frame(t, p), PAYLOAD_SIZE_AT, x) + tail, received, m).code != SERIAL_SUCCESS
  {
    assert (p + tail)[..|p|] == p;
    FieldDamage(t, p, tail, x);
    DecodeHeader(FrameHeader(t, p).(messageSize := x), p + tail, received, m);
    if x <= |p| + |tail| {
      DecodeHeader(FrameHeader(t, p).(payloadSize := x), p + tail, received, m);
    }
  }

  /** Header validation is tight: a version and message_size pass it if and only if some
      buffer carrying them is accepted. */
  lemma ValidationIsTight(h: MessageHeader)
    ensures ValidHeader(h) <==> exists memory, received, m {:trigger Accepts(memory, received, m)} ::
              Accepts(memory, received, m)
              && HeaderAt(memory).version == h.version && HeaderAt(memory).messageSize == h.messageSize
  {
    if ValidHeader(h) {
      var p: seq<Byte> := seq(ORDER_SIZE, _ => 0);
      var rest: seq<Byte> := seq(h.messageSize, _ => 0);
      var m := MessageValue(0, 0, 0, seq(UNION_SIZE, _ => 0));
      var header := FrameHeader(MSG_ORDER_NEW, p).(messageSize := h.messageSize);
      DecodePayload(header, p, rest, h.messageSize, m);
      HeaderRoundTrip(header, p + rest);
      assert HeaderBytes(header) + p + rest == HeaderBytes(header) + (p + rest);
      assert Accepts(HeaderBytes(header) + p + rest, h.messageSize, m);
    }
  }

  ghost predicate Accepts(memory: seq<Byte>, received: nat, m: MessageValue) {
    && HEADER_SIZE <= received <= |memory| && ChecksumInBounds(memory, received) && m.Valid()
    && Decode(memory, received, m).code == SERIAL_SUCCESS
  }

  /** Another memory of the same size that agrees on what was received. */
  ghost predicate SameReceived(memory: seq<Byte>, other: seq<Byte>, received: nat)
    requires received <= |memory|
  {
    |other| == |memory| && other[..received] == memory[..received]
  }

  /** Are the received bytes all that matters?  message_size may announce less than the
      payload, and then stale bytes behind what was received are summed and delivered: an
      accepted result is settled by the received bytes if and only if they cover the payload. */
  lemma ReceivedBytesDecide(memory: seq<Byte>, received: nat, m: MessageValue)
    requires received <= |memory| && ChecksumInBounds(memory, received) && m.Valid()
    requires Decode(memory, received, m).code == SERIAL_SUCCESS
    ensures received >= HEADER_SIZE + HeaderAt(memory).payloadSize
       <==> forall other {:trigger SameReceived(memory, other, received)} ::
              SameReceived(memory, other, received) ==>
                ChecksumInBounds(other, received) && Decode(other, received, m) == Decode(memory, received, m)
  {
    if received >= HEADER_SIZE + HeaderAt(memory).payloadSize {
      forall other | SameReceived(memory, other, received)
        ensures ChecksumInBounds(other, received) && Decode(other, received, m) == Decode(memory, received, m)
      {
        CoveredPayload(memory, other, received, m);
      }
    } else {
      var other := StaleByteFlipped(memory, received, m);
    }
  }

  lemma CoveredPayload(memory: seq<Byte>, other: seq<Byte>, received: nat, m: MessageValue)
    requires received <= |memory| && ChecksumInBounds(memory, received) && m.Valid()
    requires Decode(memory, received, m).code == SERIAL_SUCCESS
    requires received >= HEADER_SIZE + HeaderAt(memory).payloadSize
    requires SameReceived(memory, other, received)
    ensures ChecksumInBounds(other, received) && Decode(other, received, m) == Decode(memory, received, m)
  {
    var end := HEADER_SIZE + HeaderAt(memory).payloadSize;
    SameHeaderFront(memory, other, received);
    assert other[HEADER_SIZE..end] == other[..received][HEADER_SIZE..end];
    assert memory[HEADER_SIZE..end] == memory[..received][HEADER_SIZE..end];
  }

  lemma StaleByteFlipped(memory: seq<Byte>, received: nat, m: MessageValue) returns (other: seq<Byte>)
    requires received <= |memory| && ChecksumInBounds(memory, received) && m.Valid()
    requires Decode(memory, received, m).code == SERIAL_SUCCESS
    requires received < HEADER_SIZE + HeaderAt(memory).payloadSize
    ensures SameReceived(memory, other, received)
    ensures ChecksumInBounds(other, received)
    ensures Decode(other, received, m).code == SERIAL_ERROR_CHECKSUM
  {
    var n := HeaderAt(memory).payloadSize;
    var body := memory[HEADER_SIZE..HEADER_SIZE + n];
    var b: Byte := (body[n - 1] as int + 1) % 256;
    other := memory[HEADER_SIZE + n - 1 := b];
    SameHeaderFront(memory, other, received);
    OneByteDetected(body, n - 1, b);
    assert other[HEADER_SIZE..HEADER_SIZE + n] == body[n - 1 := b];
  }

  lemma SameHeaderFront(memory: seq<Byte>, other: seq<Byte>, received: nat)
    requires HEADER_SIZE <= received <= |memory|
    requires SameReceived(memory, other, received)
    ensures HeaderAt(other) == HeaderAt(memory)
  {
    SameHeader(memory);
    SameHeader(other);
    assert other[..HEADER_SIZE] == other[..received][..HEADER_SIZE] == memory[..HEADER_SIZE];
  }

  /** The stale-bytes case is real: a bare header of 20 bytes is accepted for every message
      whose payload happens to lie behind it in the buffer. */
  lemma BareHeaderAccepted(t: U32, p: seq<Byte>, m: MessageValue)
    requires WellFormed(t, p) && m.Valid()
    ensures ChecksumInBounds(FrameSized(HEADER_SIZE, t, p), HEADER_SIZE)
    ensures Decode(FrameSized(HEADER_SIZE, t, p), HEADER_SIZE, m) == Deliver(t, p, m)
  {
    var h := FrameHeader(t, p).(messageSize := HEADER_SIZE);
    DecodeHeader(h, p, HEADER_SIZE, m);
    assert p[..|p|] == p;
  }

  /** An order sent is the order received, field for field; likewise the other records. */
  lemma RecordsArrive(o: Order, md: MarketData, tr: TradeExecution, tail: seq<Byte>, received: nat, m: MessageValue)
    requires m.Valid()
    requires HEADER_SIZE + ORDER_SIZE <= received <= HEADER_SIZE + MARKET_DATA_SIZE + |tail|
    ensures DecodedPayload(MSG_ORDER_NEW, EncodeOrder(o), tail, received, m) == EncodeOrder(o)
    ensures DecodeOrder(DecodedPayload(MSG_ORDER_NEW, EncodeOrder(o), tail, received, m)) == o
    ensures DecodeMarketData(DecodedPayload(MSG_MARKET_DATA, EncodeMarketData(md), tail, received, m)) == md
    ensures DecodeTrade(DecodedPayload(MSG_TRADE_EXEC, EncodeTrade(tr), tail, received, m)) == tr
  {
    OrderRoundTrip(o);
    MarketDataRoundTrip(md);
    TradeRoundTrip(tr);
  }

  /** The payload the decoder delivers for the frame of (t, p). */
  function DecodedPayload(t: U32, p: seq<Byte>, tail: seq<Byte>, received: nat, m: MessageValue): (q: seq<Byte>)
    requires WellFormed(t, p) && m.Valid()
    requires |Frame(t, p)| <= received <= |Frame(t, p)| + |tail|
    ensures q == p
  {
    EncodeDecode(t, p, tail, received, m);
    Decode(Frame(t, p) + tail, received, m).message.Payload()
  }
}
