/** What honest clients can make the server send: their frames arrive back to back on each
    connection, but recv cuts the stream where it likes. */
module Honest {
  import opened Bytes
  import opened Types
  import opened Serialization
  import opened FrameTheorems
  import opened Streams
  import Registry
  import opened Server
  import opened ServerThreads
  import opened Solo

  ghost predicate AllHonest(streams: seq<seq<Sent>>) {
    forall c :: 0 <= c < |streams| ==> AllWellFormed(streams[c])
  }

  /** What came in is a piece of one of the streams. */
  ghost predicate CutFrom(r: Reception, streams: seq<seq<Sent>>)
    requires AllHonest(streams)
  {
    exists c, a: nat :: 0 <= c < |streams| && Piece(Stream(streams[c]), a, r.size, r.memory)
  }

  ghost predicate AllCutFrom(received: seq<Reception>, streams: seq<seq<Sent>>)
    requires AllHonest(streams)
  {
    forall k :: 0 <= k < |received| ==> CutFrom(received[k], streams)
  }

  ghost predicate WasSent(streams: seq<seq<Sent>>, x: Sent) {
    exists c :: 0 <= c < |streams| && x in streams[c]
  }

  /** Somebody sent a message with this frame. */
  ghost predicate FrameSent(streams: seq<seq<Sent>>, frame: seq<Byte>) {
    exists x :: WasSent(streams, x) && WellFormed(x.msgType, x.payload) && frame == Frame(x.msgType, x.payload)
  }

  /** The server relays market data, and trades with an unnamed party. */
  ghost predicate Relayable(t: U32, p: seq<Byte>) {
    || t == MSG_MARKET_DATA
    || (t == MSG_TRADE_EXEC && (CString(BuyerOf(p)) == [] || CString(SellerOf(p)) == []))
  }

  ghost predicate RelaysOnlySent(streams: seq<seq<Sent>>)
    requires AllHonest(streams)
  {
    forall steps: seq<Step>, i: nat :: AllCutFrom(Run(steps).received, streams) && i < |Run(steps).outbox| ==>
      FrameSent(streams, Run(steps).outbox[i].packet.bytes)
  }

  ghost predicate NothingRelayableForged(streams: seq<seq<Sent>>)
    requires AllHonest(streams)
  {
    forall c, a: nat, size: U32, t: U32, p: seq<Byte> ::
      0 <= c < |streams| && Inside(streams[c], a) && LooksLike(Stream(streams[c]), a, size, t, p) && Relayable(t, p)
      ==> WasSent(streams, Sent(t, p))
  }

  /** Relayed byte for byte?  However threads interleave and however recv cuts the streams of
      honest clients, every frame the server sends is one some client sent, if and only if,
      at each offset strictly inside a frame, the bytes look like no relayable message or
      like one that was sent. */
  lemma HonestRelayIff(streams: seq<seq<Sent>>)
    requires AllHonest(streams)
    ensures RelaysOnlySent(streams) <==> NothingRelayableForged(streams)
  {
    hide *;
    if NothingRelayableForged(streams) {
      WithoutForgeryHonest(streams);
    }
    if RelaysOnlySent(streams) {
      ForgeryIsRelayed(streams);
    }
  }

  // ---------------------------------------------------------------------------
  // No forgery, no foreign frame
  // ---------------------------------------------------------------------------

  lemma BoundaryLooksLike(ms: seq<Sent>, a: nat, size: U32, t: U32, p: seq<Byte>)
    requires AllWellFormed(ms) && !Inside(ms, a) && LooksLike(Stream(ms), a, size, t, p)
    ensures Sent(t, p) in ms
  {
    hide Stream, Inside, LooksLike, Piece, Delivered;
    var m := MessageValue(0, 0, 0, seq(UNION_SIZE, _ => 0));
    var buffer := LooksLikeProcessed(Stream(ms), a, size, t, p, m);
    BufferSize(Stream(ms), a, size, buffer);
    AtBoundary(ms, a, size, buffer, m);
    assert Sent(t, p) in Delivered(buffer, size, m);
  }

  lemma CutMessageWasSent(r: Reception, streams: seq<seq<Sent>>)
    requires AllHonest(streams) && NothingRelayableForged(streams)
    requires ReceptionOk(r) && CutFrom(r, streams) && Relayable(r.msgType, r.payload)
    ensures WasSent(streams, Sent(r.msgType, r.payload))
  {
    hide Stream, Inside, LooksLike, Piece, Frame, FrameSized, Relayable;
    var c, a: nat :| 0 <= c < |streams| && Piece(Stream(streams[c]), a, r.size, r.memory);
    var size := HeaderAt(r.memory).messageSize;
    FrontLooksLike(Stream(streams[c]), a, r.size, r.memory, size, r.msgType, r.payload);
    if !Inside(streams[c], a) {
      BoundaryLooksLike(streams[c], a, size, r.msgType, r.payload);
    }
  }

  lemma WithoutForgeryHonest(streams: seq<seq<Sent>>)
    requires AllHonest(streams) && NothingRelayableForged(streams)
    ensures RelaysOnlySent(streams)
  {
    hide NothingRelayableForged, Run, CutFrom, Frame;
    forall steps: seq<Step>, i: nat | AllCutFrom(Run(steps).received, streams) && i < |Run(steps).outbox|
      ensures FrameSent(streams, Run(steps).outbox[i].packet.bytes)
    {
      RunInvariant(steps);
      var t, p, j := Origin(Run(steps), i);
      CutMessageWasSent(Run(steps).received[j], streams);
      assert WasSent(streams, Sent(t, p));
    }
  }

  // ---------------------------------------------------------------------------
  // Every forgery can be relayed
  // ---------------------------------------------------------------------------

  lemma {:induction false} AloneIsARun(s: System, t: nat, position: U32, n: nat)
    requires s.registry.Valid()
    ensures RunFrom(s, seq(n, _ => Advance(t, position))) == Alone(s, t, position, n)
    ensures Alone(s, t, position, n).received == s.received
  {
    var steps := seq(n, _ => Advance(t, position));
    if n > 0 {
      AloneIsARun(s, t, position, n - 1);
      assert steps[..n - 1] == seq(n - 1, _ => Advance(t, position));
      AdvanceReceivesNothing(Alone(s, t, position, n - 1), t, position);
      hide AdvanceThread;
    }
  }

  lemma AdvanceReceivesNothing(s: System, t: nat, position: U32)
    requires s.registry.Valid()
    ensures AdvanceThread(s, t, position).received == s.received
  {
    hide Rejected, DecodeOrder, Registry.Lookup, BuyerOf, SellerOf, Frame;
  }

  lemma RunLast(s: System, steps: seq<Step>, last: Step)
    requires s.registry.Valid()
    ensures RunFrom(s, steps + [last]) == Next(RunFrom(s, steps), last)
  {
    assert (steps + [last])[..|steps|] == steps;
    hide Next;
  }

  lemma {:induction false} RunOn(s: System, a: seq<Step>, b: seq<Step>)
    requires s.registry.Valid()
    ensures RunFrom(s, a + b) == RunFrom(RunFrom(s, a), b)
  {
    hide Next;
    if |b| == 0 {
      assert a + b == a;
    } else {
      hide RunFrom;
      var most, last := b[..|b| - 1], b[|b| - 1];
      RunOn(s, a, most);
      assert b == most + [last] && a + b == (a + most) + [last];
      RunLast(s, a + most, last);
      RunLast(RunFrom(s, a), most, last);
    }
  }

  const FIRST_CLIENT := Registry.Accept(1, 0, 0, 0)

  /** One client connects, and its handler decodes the buffer. */
  lemma OneClientReceives(buffer: seq<Byte>, size: nat, m: MessageValue, t: U32, p: seq<Byte>)
    returns (steps: seq<Step>)
    requires size <= |buffer| == BUFFER_SIZE && ChecksumInBounds(buffer, size) && m.Valid()
    requires WellFormed(t, p) && Decode(buffer, size, m) == Deliver(t, p, m)
    ensures var s := Run(steps);
            && s.registry == Registry.Run([FIRST_CLIENT, Registry.Hear(0, 0)])
            && ThreadAt(s, 0) == Decoded(t, p) && s.outbox == []
            && s.received == [Reception(buffer, size, t, p)]
  {
    DeliveredPayload(t, p, m);
    var connect, hear := ClientEvent(FIRST_CLIENT), Receive(0, 0, buffer, size, m, 0);
    steps := [connect, hear];
    assert steps[..1] == [connect] && [connect][..0] == [];
    assert Run([]) == Initial();
    OneClient();
    hide Decode, Deliver, Registry.Next, Registry.Run, ChecksumInBounds;
    assert Run([connect]) == Initial().(registry := Registry.Run([FIRST_CLIENT]));
    assert Receives(Run([connect]), 0, 0, buffer, size, m);
  }

  lemma OneClient()
    ensures Registry.Next(Registry.Start(), FIRST_CLIENT) == Registry.Run([FIRST_CLIENT])
    ensures Registry.Next(Registry.Run([FIRST_CLIENT]), Registry.Hear(0, 0))
            == Registry.Run([FIRST_CLIENT, Registry.Hear(0, 0)])
    ensures Registry.Run([FIRST_CLIENT]).high == 1
    ensures Registry.Run([FIRST_CLIENT, Registry.Hear(0, 0)]).high == 1
  {
    var es := [FIRST_CLIENT, Registry.Hear(0, 0)];
    assert es[..1] == [FIRST_CLIENT] && [FIRST_CLIENT][..0] == [];
    assert Registry.Run([]) == Registry.Start();
  }

  /** With one client, a relayable message is sent to it. */
  lemma RelayedToOne(t: U32, p: seq<Byte>)
    requires WellFormed(t, p) && Relayable(t, p)
    ensures var to := Relayed(Registry.Run([FIRST_CLIENT, Registry.Hear(0, 0)]).clients.slots, t, p);
            |to| > 0 && to[0].bytes == Frame(t, p)
  {
    hide Frame, Registry.Run, Registry.Recipients, Registry.Lookup, DecodeTrade;
    var es := [FIRST_CLIENT, Registry.Hear(0, 0)];
    OneClient();
    Registry.BroadcastReach(es);
    Registry.RunInvariant(es);
    if t == MSG_TRADE_EXEC {
      Registry.NonemptyIdNeverFound(es, BuyerOf(p));
      Registry.NonemptyIdNeverFound(es, SellerOf(p));
    }
  }

  lemma ForgeryIsRelayed(streams: seq<seq<Sent>>)
    requires AllHonest(streams) && RelaysOnlySent(streams)
    ensures NothingRelayableForged(streams)
  {
    hide RelaysOnlySent, Inside, LooksLike, Stream, Relayable, WasSent;
    forall c, a: nat, size: U32, t: U32, p: seq<Byte> |
      0 <= c < |streams| && Inside(streams[c], a) && LooksLike(Stream(streams[c]), a, size, t, p) && Relayable(t, p)
      ensures WasSent(streams, Sent(t, p))
    {
      var steps := ForgingRun(streams, c, a, size, t, p);
      SentFrameIsSent(streams, steps, t, p);
    }
  }

  lemma ForgingRun(streams: seq<seq<Sent>>, c: nat, a: nat, size: U32, t: U32, p: seq<Byte>)
    returns (steps: seq<Step>)
    requires AllHonest(streams) && c < |streams| && Relayable(t, p) && LooksLike(Stream(streams[c]), a, size, t, p)
    ensures WellFormed(t, p)
    ensures AllCutFrom(Run(steps).received, streams)
    ensures |Run(steps).outbox| > 0 && Run(steps).outbox[0].packet.bytes == Frame(t, p)
  {
    assert WellFormed(t, p);
    hide LooksLike, Stream, Relayable, Piece, Delivered, Decode, Deliver, WellFormed, Frame, Relayed, Alone, Run,
         ChecksumInBounds, Registry.Run;
    var m := MessageValue(0, 0, 0, seq(UNION_SIZE, _ => 0));
    var buffer := LooksLikeProcessed(Stream(streams[c]), a, size, t, p, m);
    BufferSize(Stream(streams[c]), a, size, buffer);
    var begin := OneClientReceives(buffer, size, m, t, p);
    assert CutFrom(Run(begin).received[0], streams);
    AloneIsSequential(Run(begin), 0, 0, t, p);
    RelayedToOne(t, p);
    AloneIsARun(Run(begin), 0, 0, MAX_CLIENTS + 2);
    steps := begin + seq(MAX_CLIENTS + 2, _ => Advance(0, 0));
    RunExtended(begin, seq(MAX_CLIENTS + 2, _ => Advance(0, 0)));
    var out := Run(steps).outbox;
    assert Packets(out)[0] == out[0].packet;
  }

  lemma RunExtended(a: seq<Step>, b: seq<Step>)
    ensures Run(a + b) == RunFrom(Run(a), b)
  {
    RunOn(Initial(), a, b);
  }

  lemma SentFrameIsSent(streams: seq<seq<Sent>>, steps: seq<Step>, t: U32, p: seq<Byte>)
    requires AllHonest(streams) && RelaysOnlySent(streams) && WellFormed(t, p)
    requires AllCutFrom(Run(steps).received, streams)
    requires |Run(steps).outbox| > 0 && Run(steps).outbox[0].packet.bytes == Frame(t, p)
    ensures WasSent(streams, Sent(t, p))
  {
    hide AllCutFrom, Run, Frame, WasSent;
    var x :| WasSent(streams, x) && WellFormed(x.msgType, x.payload) && Frame(t, p) == Frame(x.msgType, x.payload);
    FramesAreAPrefixCode(t, p, x.msgType, x.payload);
  }
}
