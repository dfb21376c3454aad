/** What the message counts and heartbeats in the client array record, over whole runs
    (src/server/server_network.c). */
module Counting {
  import opened Bytes
  import opened Types
  import opened Registry
  import opened Arrivals

  const TWO_TO_64: int := 0x1_0000_0000_0000_0000

  /** A disconnect shifts the live successor's record into slot k. */
  ghost predicate Shifts(es: seq<Event>, e: Event, k: nat) {
    e.Disconnect? && Drops(es, e) && k + 1 < Run(es).clients.count
  }

  ghost predicate ShiftedAt(es: seq<Event>, k: nat, i: nat)
    requires i < |es|
  {
    Shifts(es[..i], es[i], k)
  }

  ghost predicate ShiftedSince(es: seq<Event>, n: nat, k: nat) {
    exists i :: n <= i < |es| && ShiftedAt(es, k, i)
  }

  /** The record in slot k after the events. */
  function Record(es: seq<Event>, k: nat): ClientSlot
    requires k < MAX_CLIENTS
  {
    Run(es).clients.slots[k]
  }

  /** How many messages were handled for slot k from event n on. */
  function HeardIn(es: seq<Event>, n: nat, k: nat): nat
    requires n <= |es|
  {
    if |es| == n then 0
    else
      var last := es[|es| - 1];
      HeardIn(es[..|es| - 1], n, k) + if last.Hear? && last.k == k then 1 else 0
  }

  /** One event, and the count and heartbeat of any slot: a message adds one to its handler's slot
      and sets its heartbeat; a shift brings the successor's record; an arrival sets the
      heartbeat and leaves the count as it was; nothing else touches either. */
  lemma RecordStep(s: State, e: Event, k: nat)
    requires Invariant(s) && NoIds(s) && k < MAX_CLIENTS
    ensures var c, slot := s.clients, Next(s, e).clients.slots[k];
            && (e.Hear? && e.k == k && k < s.high ==>
                  && slot.messagesReceived == (c.slots[k].messagesReceived + 1) % TWO_TO_64
                  && slot == c.slots[k].(messagesReceived := slot.messagesReceived, lastHeartbeat := e.now))
            && (e.Disconnect? && e.k < s.high && k + 1 < c.count ==> slot == c.slots[k + 1])
            && (e.Accept? && e.socket > 0 && k == c.count ==>
                  && slot.socket == e.socket && slot.address == e.address && slot.connectTime == e.connectTime
                  && slot.lastHeartbeat == e.heartbeat && slot.messagesReceived == c.slots[k].messagesReceived)
            && (!(e.Hear? && e.k == k && k < s.high) && !(e.Disconnect? && e.k < s.high && k + 1 < c.count)
                && !(e.Accept? && e.socket > 0 && k == c.count) ==>
                  slot == c.slots[k].(active := slot.active))
  {
    hide Disconnected, Stopped;
    match e
    case Disconnect(h) =>
      if h < s.high {
        if s.clients.count > 0 {
          OldestLeaves(s, h);
          Arrivals.ShiftedAt(s.clients.slots, s.clients.count, k);
        } else {
          NothingToRemove(s.clients, h);
        }
      }
    case Stop => StoppedSlot(s.clients, k);
    case _ =>
  }

  lemma StoppedSlot(c: Clients, k: nat)
    requires c.Valid() && k < MAX_CLIENTS
    ensures Stopped(c).slots[k] == if k < c.count then c.slots[k].(active := false) else c.slots[k]
  {
  }

  lemma ShiftedSinceStep(es: seq<Event>, e: Event, n: nat, k: nat)
    requires n <= |es| && !ShiftedSince(es + [e], n, k)
    ensures !ShiftedSince(es, n, k) && !Shifts(es, e, k)
  {
    hide Shifts;
    var all := es + [e];
    assert all[..|es|] == es && !ShiftedAt(all, k, |es|);
    forall i | n <= i < |es| ensures !ShiftedAt(es, k, i) {
      assert all[..i] == es[..i] && !ShiftedAt(all, k, i);
    }
  }

  /** In every run, as long as no shift brings another record into the slot, its count grows by
      exactly the messages handled for it, modulo 2^64: across disconnects of its client and
      newcomers in its place, who go on counting where the last one stopped. */
  lemma {:induction false} MessagesCounted(es: seq<Event>, n: nat, k: nat)
    requires n <= |es| && k < Run(es[..n]).high && !ShiftedSince(es, n, k)
    ensures k < Run(es).high <= MAX_CLIENTS
    ensures Record(es, k).messagesReceived == (Record(es[..n], k).messagesReceived + HeardIn(es, n, k)) % TWO_TO_64
    decreases |es|
  {
    hide Run, Record, Shifts, ShiftedSince, HeardIn, Holders, Arrived, Dropped;
    HolderNeverReverts(es, n, k);
    if n == |es| {
      assert es[..n] == es;
      StoredCount(es, k);
    } else {
      var es', e := es[..|es| - 1], es[|es| - 1];
      assert es'[..n] == es[..n] && es' + [e] == es;
      ShiftedSinceStep(es', e, n, k);
      MessagesCounted(es', n, k);
      CountedStep(es', e, k);
      HeardStep(es', e, n, k);
      AddModulo(Record(es[..n], k).messagesReceived, HeardIn(es', n, k),
                if e.Hear? && e.k == k then 1 else 0);
    }
  }

  lemma HeardStep(es: seq<Event>, e: Event, n: nat, k: nat)
    requires n <= |es|
    ensures HeardIn(es + [e], n, k) == HeardIn(es, n, k) + if e.Hear? && e.k == k then 1 else 0
  {
    assert (es + [e])[..|es|] == es;
  }

  lemma StoredCount(es: seq<Event>, k: nat)
    requires k < MAX_CLIENTS
    ensures var m := Record(es, k).messagesReceived; (m + HeardIn(es, |es|, k)) % TWO_TO_64 == m
  {
    hide Run;
  }

  lemma AddModulo(a: nat, b: nat, c: nat)
    ensures ((a + b) % TWO_TO_64 + c) % TWO_TO_64 == (a + (b + c)) % TWO_TO_64
  {
  }

  lemma CountedStep(es: seq<Event>, e: Event, k: nat)
    requires k < Run(es).high && !Shifts(es, e, k)
    ensures k < MAX_CLIENTS
    ensures Record(es + [e], k).messagesReceived
            == (Record(es, k).messagesReceived + if e.Hear? && e.k == k then 1 else 0) % TWO_TO_64
  {
    hide Run, Next, Invariant, NoIds, Disconnected;
    RunInvariant(es);
    RunStep(es, e);
    HighInBounds(Run(es));
    RecordStep(Run(es), e, k);
    SmallCount(Record(es, k).messagesReceived);
  }

  lemma HighInBounds(s: State)
    requires Invariant(s)
    ensures s.clients.count <= s.high <= MAX_CLIENTS
  {
  }

  lemma SmallCount(m: U64)
    ensures (m + 0) % TWO_TO_64 == m
  {
  }

  /** For instance, a client that takes the place of one who sent a message starts at 1. */
  lemma NewcomerInheritsCount(now: int)
    ensures var es := [Accept(5, 0, 0, 0), Hear(0, now), Disconnect(0), Accept(9, 0, 0, 0)];
            var slot := Record(es, 0);
            slot.socket == 9 && slot.messagesReceived == 1
  {
    NoneYet();
    hide Run, Record;
    var a, b, c, d := Accept(5, 0, 0, 0), Hear(0, now), Disconnect(0), Accept(9, 0, 0, 0);
    var none: seq<Event> := [];
    FirstSlotStep(none, a, 0, 0, 0, 0);
    FirstSlotStep(none + [a], b, 1, 1, 5, 0);
    FirstSlotStep(none + [a] + [b], c, 1, 1, 5, 1);
    FirstSlotStep(none + [a] + [b] + [c], d, 0, 1, 5, 1);
    assert none + [a] + [b] + [c] + [d] == [a, b, c, d];
  }

  lemma NoneYet()
    ensures FirstSlot([], 0, 0, 0, 0)
  {
    assert Run([]) == Start();
  }

  /** Slot 0 while at most one client is connected. */
  ghost predicate FirstSlot(es: seq<Event>, count: nat, high: nat, socket: int, messages: nat) {
    && Run(es).clients.count == count && Run(es).high == high
    && Record(es, 0).socket == socket && Record(es, 0).messagesReceived == messages
  }

  lemma FirstSlotStep(es: seq<Event>, e: Event, count: nat, high: nat, socket: int, messages: nat)
    requires FirstSlot(es, count, high, socket, messages) && count <= high <= 1 && messages <= 1
    ensures e.Accept? && e.socket > 0 && count == 0 ==> FirstSlot(es + [e], 1, 1, e.socket, messages)
    ensures e.Hear? && e.k == 0 && high == 1 ==> FirstSlot(es + [e], count, high, socket, messages + 1)
    ensures e.Disconnect? && e.k == 0 && high == count == 1 ==> FirstSlot(es + [e], 0, 1, socket, messages)
  {
    hide Run, Next, Invariant, NoIds;
    RunInvariant(es);
    RunStep(es, e);
    CountStep(es, e);
    RecordStep(Run(es), e, 0);
  }
}
