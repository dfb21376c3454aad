/** Frames back to back on a connection, and what the receive loop makes of the pieces recv
    happens to return: each piece is decoded as one message (src/server/server_network.c). */
module Streams {
  import opened Bytes
  import opened Types
  import opened Serialization
  import opened FrameTheorems

  datatype Sent = Sent(msgType: U32, payload: seq<Byte>)

  ghost predicate AllWellFormed(ms: seq<Sent>) {
    forall i :: 0 <= i < |ms| ==> WellFormed(ms[i].msgType, ms[i].payload)
  }

  ghost function Stream(ms: seq<Sent>): seq<Byte>
    requires AllWellFormed(ms)
  {
    if |ms| == 0 then [] else Frame(ms[0].msgType, ms[0].payload) + Stream(ms[1..])
  }

  /** A byte stream of frames back to back can have come from one message sequence only. */
  lemma {:induction false} StreamsAreUnique(ms: seq<Sent>, ns: seq<Sent>)
    requires AllWellFormed(ms) && AllWellFormed(ns)
    requires Stream(ms) == Stream(ns)
    ensures ms == ns
    decreases |ms|
  {
    hide Frame;
    if |ms| > 0 && |ns| > 0 {
      FirstFrameIsUnique(ms[0], Stream(ms[1..]), ns[0], Stream(ns[1..]));
      StreamsAreUnique(ms[1..], ns[1..]);
      assert ms == [ms[0]] + ms[1..] && ns == [ns[0]] + ns[1..];
    }
  }

  lemma FirstFrameIsUnique(m: Sent, rest: seq<Byte>, n: Sent, rest': seq<Byte>)
    requires WellFormed(m.msgType, m.payload) && WellFormed(n.msgType, n.payload)
    requires Frame(m.msgType, m.payload) + rest == Frame(n.msgType, n.payload) + rest'
    ensures m == n && rest == rest'
  {
    var f, g := Frame(m.msgType, m.payload), Frame(n.msgType, n.payload);
    assert (f + rest)[..|f|] == f && (g + rest')[..|g|] == g;
    if |f| <= |g| {
      assert f == g[..|f|];
      FramesAreAPrefixCode(m.msgType, m.payload, n.msgType, n.payload);
    } else {
      assert g == f[..|g|];
      FramesAreAPrefixCode(n.msgType, n.payload, m.msgType, m.payload);
    }
    assert (f + rest)[|f|..] == rest && (g + rest')[|g|..] == rest';
  }

  // ---------------------------------------------------------------------------
  // Receiving a stream in pieces
  // ---------------------------------------------------------------------------

  /** What one turn of the receive loop processes: the buffer holds `received` fresh bytes
      and, behind them, whatever it held before. */
  function Delivered(memory: seq<Byte>, received: nat, m: MessageValue): seq<Sent>
    requires received <= |memory| && m.Valid()
  {
    if !ChecksumInBounds(memory, received) || Decode(memory, received, m).code != SERIAL_SUCCESS then []
    else
      DeliveredIsWellFormed(memory, received, m);
      var o := Decode(memory, received, m).message;
      [Sent(o.msgType, o.Payload())]
  }

  lemma FrontOfBuffer(t: U32, p: seq<Byte>, memory: seq<Byte>, size: nat, m: MessageValue)
    requires WellFormed(t, p) && m.Valid() && size <= |memory|
    requires size >= |Frame(t, p)| ==> Frame(t, p) <= memory
    requires size < |Frame(t, p)| ==> memory[..size] == Frame(t, p)[..size]
    ensures Delivered(memory, size, m) == if size >= |Frame(t, p)| then [Sent(t, p)] else []
  {
    hide Decode, ChecksumInBounds, Frame;
    if size >= |Frame(t, p)| {
      var tail := memory[|Frame(t, p)|..];
      assert memory == Frame(t, p) + tail;
      EncodeDecode(t, p, tail, size, m);
    } else {
      TruncatedFrame(t, p, memory, size, m);
    }
  }

  /** A piece that starts with a frame: that frame's message is processed exactly when the
      piece holds all of it, and whatever else the piece holds is dropped. */
  lemma FirstFrameOnly(ms: seq<Sent>, size: nat, stale: seq<Byte>, m: MessageValue)
    requires |ms| > 0 && AllWellFormed(ms) && m.Valid()
    requires size <= |Stream(ms)|
    ensures Delivered(Stream(ms)[..size] + stale, size, m)
            == if size >= |Frame(ms[0].msgType, ms[0].payload)| then [ms[0]] else []
  {
    hide Frame, Delivered;
    FrontOfPiece(Frame(ms[0].msgType, ms[0].payload), Stream(ms[1..]), size, stale);
    FrontOfBuffer(ms[0].msgType, ms[0].payload, Stream(ms)[..size] + stale, size, m);
  }

  lemma FrontOfPiece(f: seq<Byte>, rest: seq<Byte>, size: nat, stale: seq<Byte>)
    requires size <= |f + rest|
    ensures size >= |f| ==> f <= (f + rest)[..size] + stale
    ensures size < |f| ==> ((f + rest)[..size] + stale)[..size] == f[..size]
  {
    if size >= |f| {
      assert ((f + rest)[..size] + stale)[..|f|] == f;
    }
  }

  /** Where message i begins in the stream. */
  ghost function Offset(ms: seq<Sent>, i: nat): nat
    requires AllWellFormed(ms) && i <= |ms|
  {
    if i == 0 then 0 else |Frame(ms[0].msgType, ms[0].payload)| + Offset(ms[1..], i - 1)
  }

  lemma {:induction false} StreamFrom(ms: seq<Sent>, i: nat)
    requires AllWellFormed(ms) && i <= |ms|
    ensures Offset(ms, i) <= |Stream(ms)|
    ensures Stream(ms)[Offset(ms, i)..] == Stream(ms[i..])
    decreases i
  {
    hide Frame;
    if i == 0 {
      assert ms[0..] == ms;
    } else {
      StreamFrom(ms[1..], i - 1);
      assert ms[1..][i - 1..] == ms[i..];
      DropPast(Frame(ms[0].msgType, ms[0].payload), Stream(ms[1..]), Offset(ms[1..], i - 1));
    }
  }

  lemma DropPast(f: seq<Byte>, rest: seq<Byte>, n: nat)
    requires n <= |rest|
    ensures (f + rest)[|f| + n..] == rest[n..]
  {
  }

  lemma SuffixWellFormed(ms: seq<Sent>, i: nat)
    requires AllWellFormed(ms) && i <= |ms|
    ensures AllWellFormed(ms[i..])
    ensures i < |ms| ==> WellFormed(ms[i].msgType, ms[i].payload)
  {
    hide WellFormed;
  }

  lemma SliceFrom(s: seq<Byte>, at: nat, size: nat)
    requires at <= |s| && size <= |s[at..]|
    ensures s[at..at + size] == s[at..][..size]
  {
  }

  /** The same for a piece anywhere in the stream that starts at the boundary before
      message i. */
  lemma PieceAtBoundary(ms: seq<Sent>, i: nat, size: nat, stale: seq<Byte>, m: MessageValue)
    requires i < |ms| && AllWellFormed(ms) && m.Valid()
    requires size <= |Stream(ms[i..])|
    ensures Offset(ms, i) + size <= |Stream(ms)|
    ensures Delivered(Stream(ms)[Offset(ms, i)..Offset(ms, i) + size] + stale, size, m)
            == if size >= |Frame(ms[i].msgType, ms[i].payload)| then [ms[i]] else []
  {
    hide Frame, Delivered, Stream, Offset;
    hide AllWellFormed;
    SuffixWellFormed(ms, i);
    StreamFrom(ms, i);
    SliceFrom(Stream(ms), Offset(ms, i), size);
    FirstFrameOnly(ms[i..], size, stale, m);
  }

  // ---------------------------------------------------------------------------
  // Pieces that start inside a frame
  // ---------------------------------------------------------------------------

  /** Such a piece can pass for a message nobody sent: any market data at all, inside the payload
      of an order that is received in two pieces. */
  lemma CutInsideAFrame(q: seq<Byte>, stale: seq<Byte>, stale': seq<Byte>, m: MessageValue)
    requires WellFormed(MSG_MARKET_DATA, q) && m.Valid()
    ensures var p := Frame(MSG_MARKET_DATA, q) + [0, 0, 0, 0];
            var stream := Frame(MSG_ORDER_NEW, p);
            && WellFormed(MSG_ORDER_NEW, p)
            && stream == Stream([Sent(MSG_ORDER_NEW, p)])
            && Delivered(stream[..HEADER_SIZE] + stale, HEADER_SIZE, m) == []
            && Delivered(stream[HEADER_SIZE..] + stale', ORDER_SIZE, m) == [Sent(MSG_MARKET_DATA, q)]
  {
    var p := Frame(MSG_MARKET_DATA, q) + [0, 0, 0, 0];
    var ms := [Sent(MSG_ORDER_NEW, p)];
    var stream := Frame(MSG_ORDER_NEW, p);
    hide Frame, Delivered;
    assert Stream(ms) == stream by {
      assert ms[1..] == [];
      assert Stream([]) == [];
    }
    FirstFrameOnly(ms, HEADER_SIZE, stale, m);
    assert stream[HEADER_SIZE..] == p;
    FrontOfBuffer(MSG_MARKET_DATA, q, p + stale', ORDER_SIZE, m);
  }

  /** The bytes from offset a on look like the message's frame as far as they are needed: up to
      what message_size announces, which some piece can hold; behind that, stale bytes may
      stand in. */
  ghost predicate LooksLike(stream: seq<Byte>, a: nat, size: U32, t: U32, p: seq<Byte>) {
    && WellFormed(t, p) && HEADER_SIZE <= size <= BUFFER_SIZE && a + size <= |stream|
    && var f := FrameSized(size, t, p);
       var n := if size < |f| then size else |f|;
       stream[a..a + n] == f[..n]
  }

  /** A piece in the receive buffer, with stale bytes up to its end. */
  ghost predicate Piece(stream: seq<Byte>, a: nat, n: nat, buffer: seq<Byte>) {
    && |buffer| == BUFFER_SIZE && n <= BUFFER_SIZE
    && a + n <= |stream| && buffer[..n] == stream[a..a + n]
  }

  lemma ProcessedLooksLike(stream: seq<Byte>, a: nat, n: nat, buffer: seq<Byte>, m: MessageValue)
    requires Piece(stream, a, n, buffer) && m.Valid()
    ensures forall x :: x in Delivered(buffer, n, m) ==>
              exists size: U32 :: LooksLike(stream, a, size, x.msgType, x.payload)
  {
    if ChecksumInBounds(buffer, n) && Decode(buffer, n, m).code == SERIAL_SUCCESS {
      AcceptedIsFrame(buffer, n, m);
      var o := Decode(buffer, n, m).message;
      FrontLooksLike(stream, a, n, buffer, HeaderAt(buffer).messageSize, o.msgType, o.Payload());
    }
  }

  lemma FrontLooksLike(stream: seq<Byte>, a: nat, n: nat, buffer: seq<Byte>, size: U32, t: U32, p: seq<Byte>)
    requires Piece(stream, a, n, buffer) && WellFormed(t, p)
    requires HEADER_SIZE <= size <= n && FrameSized(size, t, p) <= buffer
    ensures LooksLike(stream, a, size, t, p)
  {
    assert |p| <= UNION_SIZE;
    hide FrameSized, WellFormed;
    var f := FrameSized(size, t, p);
    var k := if size < |f| then size else |f|;
    assert f[..k] == buffer[..n][..k] == stream[a..a + n][..k] == stream[a..a + k];
  }

  /** Conversely, where the bytes look like a message, some piece and some stale bytes make the
      receive loop process it. */
  lemma LooksLikeProcessed(stream: seq<Byte>, a: nat, size: U32, t: U32, p: seq<Byte>, m: MessageValue)
    returns (buffer: seq<Byte>)
    requires LooksLike(stream, a, size, t, p) && m.Valid()
    ensures Piece(stream, a, size, buffer)
    ensures ChecksumInBounds(buffer, size) && Decode(buffer, size, m) == Deliver(t, p, m)
    ensures Delivered(buffer, size, m) == [Sent(t, p)]
  {
    assert |p| <= UNION_SIZE;
    hide FrameSized, Decode, ChecksumInBounds, WellFormed, Deliver;
    buffer := Completed(stream, a, size, FrameSized(size, t, p));
    SizedInBounds(buffer, size, size, t, p);
    SizedFrameAccepted(buffer, size, m, size, t, p);
    DeliveredPayload(t, p, m);
  }

  /** The received bytes, completed to the frame, and zeros up to the end of the buffer. */
  lemma Completed(stream: seq<Byte>, a: nat, size: nat, f: seq<Byte>) returns (buffer: seq<Byte>)
    requires size <= BUFFER_SIZE && |f| <= BUFFER_SIZE && a + size <= |stream|
    requires var n := if size < |f| then size else |f|; stream[a..a + n] == f[..n]
    ensures Piece(stream, a, size, buffer) && f <= buffer
  {
    var n := if size < |f| then size else |f|;
    assert stream[a..a + size][..n] == f[..n];
    buffer := stream[a..a + size] + f[n..];
    assert f <= buffer;
    buffer := buffer + seq(BUFFER_SIZE - |buffer|, _ => 0);
  }

  lemma DeliveredPayload(t: U32, p: seq<Byte>, m: MessageValue)
    requires WellFormed(t, p) && m.Valid()
    ensures var o := Deliver(t, p, m);
            o.code == SERIAL_SUCCESS && o.message.msgType == t && o.message.Payload() == p
  {
  }

  lemma SizedInBounds(memory: seq<Byte>, received: nat, size: U32, t: U32, p: seq<Byte>)
    requires WellFormed(t, p) && HEADER_SIZE <= received <= |memory| && FrameSized(size, t, p) <= memory
    ensures ChecksumInBounds(memory, received)
  {
    var h := FrameHeader(t, p).(messageSize := size);
    var tail := memory[HEADER_SIZE + |p|..];
    assert memory == HeaderBytes(h) + p + tail;
    DecodePayload(h, p, tail, received, MessageValue(0, 0, 0, seq(UNION_SIZE, _ => 0)));
  }

  /** However recv cuts an honest stream and whatever stale bytes lie behind the pieces, only sent
      messages are processed, if and only if, at each offset strictly inside a frame, the
      bytes look like no message or like one that was sent. */
  lemma OnlySentIff(ms: seq<Sent>)
    requires AllWellFormed(ms)
    ensures OnlySentProcessed(ms) <==> NothingForged(ms)
  {
    hide *;
    if OnlySentProcessed(ms) {
      ForgeriesAreProcessed(ms);
    }
    if NothingForged(ms) {
      WithoutForgeries(ms);
    }
  }

  lemma ForgeriesAreProcessed(ms: seq<Sent>)
    requires AllWellFormed(ms) && OnlySentProcessed(ms)
    ensures NothingForged(ms)
  {
    hide Stream, Inside, LooksLike, Delivered, Piece;
    var m := MessageValue(0, 0, 0, seq(UNION_SIZE, _ => 0));
    forall a: nat, size: U32, t: U32, p: seq<Byte> | Inside(ms, a) && LooksLike(Stream(ms), a, size, t, p)
      ensures Sent(t, p) in ms
    {
      var buffer := LooksLikeProcessed(Stream(ms), a, size, t, p, m);
      BufferSize(Stream(ms), a, size, buffer);
      assert Sent(t, p) in Delivered(buffer, size, m);
    }
  }

  lemma BufferSize(stream: seq<Byte>, a: nat, n: nat, buffer: seq<Byte>)
    requires Piece(stream, a, n, buffer)
    ensures n <= |buffer| == BUFFER_SIZE
  {
  }

  lemma WithoutForgeries(ms: seq<Sent>)
    requires AllWellFormed(ms) && NothingForged(ms)
    ensures OnlySentProcessed(ms)
  {
    hide Stream, Inside, LooksLike, Delivered, AllWellFormed;
    forall a: nat, n: nat, buffer: seq<Byte>, m: MessageValue, x |
      Piece(Stream(ms), a, n, buffer) && m.Valid() && x in Delivered(buffer, n, m)
      ensures x in ms
    {
      if Inside(ms, a) {
        ProcessedLooksLike(Stream(ms), a, n, buffer, m);
      } else {
        AtBoundary(ms, a, n, buffer, m);
      }
    }
  }

  ghost predicate OnlySentProcessed(ms: seq<Sent>)
    requires AllWellFormed(ms)
  {
    forall a: nat, n: nat, buffer: seq<Byte>, m: MessageValue, x ::
      Piece(Stream(ms), a, n, buffer) && m.Valid() && x in Delivered(buffer, n, m) ==> x in ms
  }

  ghost predicate NothingForged(ms: seq<Sent>)
    requires AllWellFormed(ms)
  {
    forall a: nat, size: U32, t: U32, p: seq<Byte> ::
      Inside(ms, a) && LooksLike(Stream(ms), a, size, t, p) ==> Sent(t, p) in ms
  }

  /** The offset is not a frame boundary. */
  ghost predicate Inside(ms: seq<Sent>, a: nat)
    requires AllWellFormed(ms)
  {
    forall i :: 0 <= i <= |ms| ==> Offset(ms, i) != a
  }

  lemma AtBoundary(ms: seq<Sent>, a: nat, n: nat, buffer: seq<Byte>, m: MessageValue)
    requires AllWellFormed(ms) && !Inside(ms, a) && Piece(Stream(ms), a, n, buffer) && m.Valid()
    ensures forall x :: x in Delivered(buffer, n, m) ==> x in ms
  {
    hide Frame, Delivered, Stream, Offset, AllWellFormed, WellFormed;
    var i :| 0 <= i <= |ms| && Offset(ms, i) == a;
    StreamFrom(ms, i);
    if i < |ms| {
      PieceSplits(Stream(ms), a, n, buffer);
      SuffixWellFormed(ms, i);
      PieceAtBoundary(ms, i, n, buffer[n..], m);
    } else {
      StreamEnds(ms);
      NothingFromNothing(buffer, m);
    }
  }

  lemma StreamEnds(ms: seq<Sent>)
    requires AllWellFormed(ms)
    ensures AllWellFormed(ms[|ms|..]) && Stream(ms[|ms|..]) == []
  {
  }

  lemma PieceSplits(stream: seq<Byte>, a: nat, n: nat, buffer: seq<Byte>)
    requires Piece(stream, a, n, buffer)
    ensures n <= |stream[a..]| && n <= |buffer| && buffer == stream[a..a + n] + buffer[n..]
  {
  }

  lemma NothingFromNothing(buffer: seq<Byte>, m: MessageValue)
    requires m.Valid()
    ensures Delivered(buffer, 0, m) == []
  {
  }

  /** What the loop processes over pieces that each hold whole frames, with any stale bytes
      behind each. */
  ghost function Received(groups: seq<seq<Sent>>, stale: seq<seq<Byte>>, m: MessageValue): seq<Sent>
    requires |stale| == |groups| && m.Valid()
    requires forall g :: 0 <= g < |groups| ==> AllWellFormed(groups[g])
  {
    if |groups| == 0 then []
    else
      var piece := Stream(groups[0]);
      Delivered(piece + stale[0], |piece|, m) + Received(groups[1..], stale[1..], m)
  }

  function Firsts(groups: seq<seq<Sent>>): (r: seq<Sent>)
    requires forall g :: 0 <= g < |groups| ==> |groups[g]| > 0
    ensures |r| == |groups|
    ensures forall g :: 0 <= g < |groups| ==> r[g] == groups[g][0]
  {
    seq(|groups|, g requires 0 <= g < |groups| => groups[g][0])
  }

  function Flatten(groups: seq<seq<Sent>>): seq<Sent> {
    if |groups| == 0 then [] else groups[0] + Flatten(groups[1..])
  }

  /** However a stream is cut at frame boundaries, the first frame of each piece is processed
      and nothing else; so everything sent is processed if and only if no piece holds two. */
  lemma {:induction false} OneMessagePerPiece(groups: seq<seq<Sent>>, stale: seq<seq<Byte>>, m: MessageValue)
    requires |stale| == |groups| && m.Valid()
    requires forall g :: 0 <= g < |groups| ==> |groups[g]| > 0 && AllWellFormed(groups[g])
    ensures Received(groups, stale, m) == Firsts(groups)
    ensures Received(groups, stale, m) == Flatten(groups)
       <==> forall g :: 0 <= g < |groups| ==> |groups[g]| == 1
    decreases |groups|
  {
    hide Delivered, Stream, Flatten;
    if |groups| > 0 {
      OneMessagePerPiece(groups[1..], stale[1..], m);
      WholePiece(groups[0], stale[0], m);
      hide AllWellFormed;
      assert Firsts(groups) == [groups[0][0]] + Firsts(groups[1..]);
    }
    FirstsFlatten(groups);
  }

  lemma WholePiece(ms: seq<Sent>, stale: seq<Byte>, m: MessageValue)
    requires |ms| > 0 && AllWellFormed(ms) && m.Valid()
    ensures Delivered(Stream(ms) + stale, |Stream(ms)|, m) == [ms[0]]
  {
    FirstFrameOnly(ms, |Stream(ms)|, stale, m);
    hide Frame, Delivered;
    assert Stream(ms)[..|Stream(ms)|] == Stream(ms);
  }

  lemma {:induction false} FirstsFlatten(groups: seq<seq<Sent>>)
    requires forall g :: 0 <= g < |groups| ==> |groups[g]| > 0
    ensures Firsts(groups) == Flatten(groups) <==> forall g :: 0 <= g < |groups| ==> |groups[g]| == 1
  {
    FlattenSize(groups);
    if |groups| > 0 && forall g :: 0 <= g < |groups| ==> |groups[g]| == 1 {
      FirstsFlatten(groups[1..]);
      assert Firsts(groups) == [groups[0][0]] + Firsts(groups[1..]);
      assert groups[0] == [groups[0][0]];
    }
  }

  lemma {:induction false} FlattenSize(groups: seq<seq<Sent>>)
    requires forall g :: 0 <= g < |groups| ==> |groups[g]| > 0
    ensures |Flatten(groups)| >= |groups|
    ensures |Flatten(groups)| == |groups| ==> forall g :: 0 <= g < |groups| ==> |groups[g]| == 1
  {
    if |groups| > 0 {
      FlattenSize(groups[1..]);
      assert forall g :: 1 <= g < |groups| ==> groups[g] == groups[1..][g - 1];
    }
  }
}
