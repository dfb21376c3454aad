/** A handler thread left to itself does what the handler does in one call. */
module Solo {
  import opened Bytes
  import opened Types
  import opened Serialization
  import opened FrameTheorems
  import Registry
  import opened Server
  import opened ServerThreads

  function Packets(out: seq<Emission>): (ps: seq<Packet>)
    ensures |ps| == |out|
    ensures forall i :: 0 <= i < |out| ==> ps[i] == out[i].packet
  {
    seq(|out|, i requires 0 <= i < |out| => out[i].packet)
  }

  /** Thread t advanced n times with nothing in between. */
  function Alone(s: System, t: nat, position: U32, n: nat): (s': System)
    requires s.registry.Valid()
    ensures s'.registry == s.registry
  {
    if n == 0 then s else AdvanceThread(Alone(s, t, position, n - 1), t, position)
  }

  lemma {:induction false} IdleStays(s: System, t: nat, position: U32, n: nat, more: nat)
    requires s.registry.Valid()
    requires ThreadAt(Alone(s, t, position, n), t) == Idle
    ensures Alone(s, t, position, n + more) == Alone(s, t, position, n)
  {
    if more > 0 {
      IdleStays(s, t, position, n, more - 1);
    }
  }

  /** One slot of the scan. */
  lemma ScanOneSlot(s: System, t: nat, position: U32, job: nat, number: U64, payload: seq<Byte>, i: nat)
    requires s.registry.Valid() && |payload| <= UNION_SIZE && i < MAX_CLIENTS
    requires ThreadAt(s, t) == Scanning(job, number, payload, i)
    ensures var s' := AdvanceThread(s, t, position);
            && ThreadAt(s', t) == Scanning(job, number, payload, i + 1)
            && s'.sequenceNum == s.sequenceNum
            && Packets(s'.outbox) == Packets(s.outbox)
               + ToOne(s.registry.clients.slots[i].socket, Frame(MSG_MARKET_DATA, payload))
  {
    hide Frame, Begin;
  }

  lemma RecipientsStep(slots: seq<Registry.ClientSlot>, k: nat, i: nat, bytes: seq<Byte>)
    requires k <= i < |slots|
    ensures Copies(Registry.Recipients(slots[k..i + 1]), bytes)
            == Copies(Registry.Recipients(slots[k..i]), bytes) + ToOne(slots[i].socket, bytes)
  {
    assert slots[k..i + 1][..i - k] == slots[k..i];
  }

  /** The rest of a scan from slot k on, the next i slots of it. */
  lemma {:induction false} ScanOn(s: System, t: nat, position: U32, n: nat,
                                  job: nat, number: U64, payload: seq<Byte>, k: nat, i: nat)
    requires s.registry.Valid() && |payload| <= UNION_SIZE && k + i <= MAX_CLIENTS
    requires ThreadAt(Alone(s, t, position, n), t) == Scanning(job, number, payload, k)
    ensures var before, after := Alone(s, t, position, n), Alone(s, t, position, n + i);
            && ThreadAt(after, t) == Scanning(job, number, payload, k + i)
            && after.sequenceNum == before.sequenceNum
            && Packets(after.outbox) == Packets(before.outbox)
               + Copies(Registry.Recipients(s.registry.clients.slots[k..k + i]), Frame(MSG_MARKET_DATA, payload))
  {
    hide Frame, AdvanceThread, Copies, Registry.Recipients;
    if i == 0 {
      assert s.registry.clients.slots[k..k] == [];
      NoCopies(Frame(MSG_MARKET_DATA, payload));
    } else {
      hide Alone;
      AloneStep(s, t, position, n + i - 1);
      ScanOn(s, t, position, n, job, number, payload, k, i - 1);
      ScanOneSlot(Alone(s, t, position, n + i - 1), t, position, job, number, payload, k + i - 1);
      RecipientsStep(s.registry.clients.slots, k, k + i - 1, Frame(MSG_MARKET_DATA, payload));
    }
  }

  lemma NoCopies(bytes: seq<Byte>)
    ensures Copies(Registry.Recipients([]), bytes) == []
  {
  }

  lemma RestAlone(s: System, t: nat, position: U32, n: nat, job: nat, number: U64, payload: seq<Byte>, k: nat)
    requires s.registry.Valid() && |payload| <= UNION_SIZE && k <= MAX_CLIENTS
    requires ThreadAt(Alone(s, t, position, n), t) == Scanning(job, number, payload, k)
    ensures var before, after := Alone(s, t, position, n), Alone(s, t, position, n + MAX_CLIENTS + 1 - k);
            && ThreadAt(after, t) == Idle
            && after.sequenceNum == before.sequenceNum
            && Packets(after.outbox) == Packets(before.outbox)
               + Copies(Registry.Recipients(s.registry.clients.slots[k..]), Frame(MSG_MARKET_DATA, payload))
  {
    hide Frame, Copies, Registry.Recipients, Alone, AdvanceThread;
    ScanOn(s, t, position, n, job, number, payload, k, MAX_CLIENTS - k);
    AloneStep(s, t, position, n + MAX_CLIENTS - k);
    ScanEnds(Alone(s, t, position, n + MAX_CLIENTS - k), t, position);
    assert s.registry.clients.slots[k..MAX_CLIENTS] == s.registry.clients.slots[k..];
  }

  lemma AloneStep(s: System, t: nat, position: U32, n: nat)
    requires s.registry.Valid()
    ensures Alone(s, t, position, n + 1) == AdvanceThread(Alone(s, t, position, n), t, position)
  {
  }

  lemma ScanEnds(s: System, t: nat, position: U32)
    requires s.registry.Valid() && ThreadAt(s, t).Scanning? && ThreadAt(s, t).slot >= MAX_CLIENTS
    ensures AdvanceThread(s, t, position) == Put(s, t, Idle)
  {
  }

  /** Broadcasts, trades and orders alike: run without interference, the steps of a thread
      send exactly what the handler sends in one call, and take a number exactly when it does. */
  lemma AloneIsSequential(s: System, t: nat, position: U32, msgType: U32, payload: seq<Byte>)
    requires s.registry.Valid() && WellFormed(msgType, payload)
    requires ThreadAt(s, t) == Decoded(msgType, payload)
    ensures var s' := Alone(s, t, position, MAX_CLIENTS + 2);
            && ThreadAt(s', t) == Idle
            && Packets(s'.outbox) == Packets(s.outbox) + Relayed(s.registry.clients.slots, msgType, payload)
            && s'.sequenceNum == if TakesNumber(msgType, payload, position) then Bump(s.sequenceNum) else s.sequenceNum
  {
    hide Frame, Registry.Recipients, Copies, Registry.Lookup, Rejected, DecodeOrder, BuyerOf, SellerOf,
         AdvanceThread;
    if msgType == MSG_MARKET_DATA {
      BeginsAlone(s, t, position);
      hide Alone;
      RestAlone(s, t, position, 1, |s.issued|, s.sequenceNum, payload, 0);
      assert s.registry.clients.slots[0..] == s.registry.clients.slots;
    } else if msgType == MSG_TRADE_EXEC {
      hide Alone;
      TradeAlone(s, t, position, payload);
      IdleStays(s, t, position, 5, MAX_CLIENTS - 3);
    } else {
      BeginsAlone(s, t, position);
      hide Alone;
      IdleStays(s, t, position, 1, MAX_CLIENTS + 1);
    }
  }

  lemma BeginsAlone(s: System, t: nat, position: U32)
    requires s.registry.Valid() && ThreadAt(s, t).Decoded?
    ensures var Decoded(msgType, payload) := ThreadAt(s, t);
            Alone(s, t, position, 1) == Begin(s, t, msgType, payload, position)
  {
    hide Begin;
    assert Alone(s, t, position, 0) == s;
  }

  /** One whole turn of the receive loop, run without interference: input that does not decode
      leaves no trace; a message that does is counted in the handler's slot, and then handled
      exactly as in one call. */
  lemma TurnAlone(s: System, t: nat, slot: nat, memory: seq<Byte>, size: nat, msg: MessageValue, now: int,
                  position: U32)
    requires s.registry.Valid() && ThreadAt(s, t) == Idle && slot < s.registry.high
    requires size <= |memory| == BUFFER_SIZE && ChecksumInBounds(memory, size) && msg.Valid()
    ensures var received := Next(s, Receive(t, slot, memory, size, msg, now));
            var o := Decode(memory, size, msg);
            if o.code != SERIAL_SUCCESS then received == s
            else
              && |o.message.data| == UNION_SIZE && WellFormed(o.message.msgType, o.message.Payload())
              && slot < MAX_CLIENTS
              && var s', p := Alone(received, t, position, MAX_CLIENTS + 2), o.message.Payload();
                 && ThreadAt(s', t) == Idle
                 && s'.registry == s.registry.(clients := Registry.Heard(s.registry.clients, slot, now))
                 && Packets(s'.outbox) == Packets(s.outbox)
                                          + Relayed(s.registry.clients.slots, o.message.msgType, p)
                 && s'.sequenceNum == if TakesNumber(o.message.msgType, p, position) then Bump(s.sequenceNum)
                                      else s.sequenceNum
  {
    hide Decode, ChecksumInBounds, Relayed, TakesNumber, WellFormed, Registry.Heard;
    var o := Decode(memory, size, msg);
    if o.code == SERIAL_SUCCESS {
      DeliveredIsWellFormed(memory, size, msg);
      var received := Next(s, Receive(t, slot, memory, size, msg, now));
      AloneIsSequential(received, t, position, o.message.msgType, o.message.Payload());
      SameRelays(s.registry.clients, slot, now, o.message.msgType, o.message.Payload());
      HeardKeepsCount(s.registry.clients, slot, now);
    }
  }

  lemma HeardKeepsCount(c: Registry.Clients, slot: nat, now: int)
    requires c.Valid() && slot < MAX_CLIENTS
    ensures Registry.Heard(c, slot, now).count == c.count
  {
  }

  lemma TradeAlone(s: System, t: nat, position: U32, payload: seq<Byte>)
    requires s.registry.Valid() && WellFormed(MSG_TRADE_EXEC, payload)
    requires ThreadAt(s, t) == Decoded(MSG_TRADE_EXEC, payload)
    ensures var s' := Alone(s, t, position, 5);
            && ThreadAt(s', t) == Idle
            && Packets(s'.outbox) == Packets(s.outbox) + Relayed(s.registry.clients.slots, MSG_TRADE_EXEC, payload)
            && s'.sequenceNum == Bump(s.sequenceNum)
  {
    hide Frame, Registry.Lookup, Rejected, DecodeTrade;
    var job, number := |s.issued|, s.sequenceNum;
    var buyer := Registry.Lookup(s.registry.clients.slots, BuyerOf(payload));
    var seller := Registry.Lookup(s.registry.clients.slots, SellerOf(payload));
    assert Alone(s, t, position, 0) == s;
    assert ThreadAt(Alone(s, t, position, 1), t) == FindBuyer(job, number, payload);
    assert ThreadAt(Alone(s, t, position, 2), t) == FindSeller(job, number, payload, buyer);
    assert ThreadAt(Alone(s, t, position, 3), t) == SendBuyer(job, number, payload, buyer, seller);
    assert Alone(s, t, position, 3).outbox == s.outbox;
    assert ThreadAt(Alone(s, t, position, 4), t) == SendSeller(job, number, payload, seller);
    assert Packets(Alone(s, t, position, 4).outbox)
           == Packets(s.outbox) + ToOne(buyer, Frame(MSG_TRADE_EXEC, payload));
  }
}
