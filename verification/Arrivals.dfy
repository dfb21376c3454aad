/** Who sits in which slot over a run: clients are numbered by arrival, and a handler keeps
    the slot it was started for while the clients move (src/server/server_network.c). */
module Arrivals {
  import opened Types
  import opened Registry

  /** The sockets of all clients ever taken in, in order; a client's number is its index. */
  function Arrived(es: seq<Event>): seq<int> {
    if |es| == 0 then []
    else
      var before := Arrived(es[..|es| - 1]);
      var e := es[|es| - 1];
      if e.Accept? && TakesIn(es[..|es| - 1], e) then before + [e.socket] else before
  }

  /** There is room for the client. */
  predicate TakesIn(es: seq<Event>, e: Event)
    requires e.Accept?
  {
    e.socket > 0 && Run(es).clients.count < MAX_CLIENTS
  }

  /** The disconnect is some handler's and removes a client. */
  predicate Drops(es: seq<Event>, e: Event)
    requires e.Disconnect?
  {
    e.k < Run(es).high && Run(es).clients.count > 0
  }

  /** How many clients have been dropped from the live ones. */
  function Dropped(es: seq<Event>): nat {
    if |es| == 0 then 0
    else
      var es', e := es[..|es| - 1], es[|es| - 1];
      if e.Disconnect? && Drops(es', e) then Dropped(es') + 1
      else if e.Stop? then Dropped(es') + Run(es').clients.count
      else Dropped(es')
  }

  /** The number of the client each slot speaks of. */
  function Holders(es: seq<Event>): (h: seq<nat>)
    ensures |h| == MAX_CLIENTS
  {
    if |es| == 0 then seq(MAX_CLIENTS, _ => 0)
    else
      var es', e := es[..|es| - 1], es[|es| - 1];
      var h, count := Holders(es'), Run(es').clients.count;
      if e.Accept? && TakesIn(es', e) then h[count := |Arrived(es')|]
      else if e.Disconnect? && Drops(es', e) then h[1..count] + h[count - 1..]
      else h
  }

  /** Slot k was filled before. */
  ghost predicate HolderOk(es: seq<Event>, k: nat)
    requires k < MAX_CLIENTS
  {
    Holders(es)[k] < |Arrived(es)| && Run(es).clients.slots[k].socket == Arrived(es)[Holders(es)[k]]
  }

  ghost predicate Consistent(es: seq<Event>) {
    var s := Run(es);
    && Dropped(es) + s.clients.count == |Arrived(es)|
    && (forall k :: 0 <= k < s.high ==> HolderOk(es, k))
    && (forall k :: 0 <= k < s.clients.count ==> Holders(es)[k] == Dropped(es) + k)
  }

  /** Every slot ever filled speaks of the client its holder says; the live ones are the last
      arrivals not yet dropped, in order. */
  lemma {:induction false} SlotsHoldArrivals(es: seq<Event>)
    ensures Consistent(es)
  {
    if |es| > 0 {
      hide Arrived, Dropped, Holders, Run, Consistent, Invariant, NoIds, HolderOk;
      var es', e := es[..|es| - 1], es[|es| - 1];
      SlotsHoldArrivals(es');
      RunInvariant(es');
      assert es' + [e] == es;
      RunStep(es', e);
      if e.Disconnect? && Drops(es', e) {
        DropKeepsConsistent(es', e);
      } else if e.Accept? && TakesIn(es', e) {
        ArrivalKeepsConsistent(es', e);
      } else {
        OthersMoveNoSocket(Run(es'), e);
        StillKeepsConsistent(es', e);
      }
    }
  }

  /** One more event, spelled out. */
  lemma History(es: seq<Event>, e: Event)
    ensures Run(es + [e]) == Next(Run(es), e)
    ensures Arrived(es + [e]) == if e.Accept? && TakesIn(es, e) then Arrived(es) + [e.socket] else Arrived(es)
    ensures Dropped(es + [e]) ==
            if e.Disconnect? && Drops(es, e) then Dropped(es) + 1
            else if e.Stop? then Dropped(es) + Run(es).clients.count
            else Dropped(es)
    ensures var h, count := Holders(es), Run(es).clients.count;
            Holders(es + [e]) ==
            if e.Accept? && TakesIn(es, e) then h[count := |Arrived(es)|]
            else if e.Disconnect? && Drops(es, e) then h[1..count] + h[count - 1..]
            else h
  {
    assert (es + [e])[..|es|] == es;
    hide Next, TakesIn, Drops;
  }

  lemma ShiftedAt<T>(s: seq<T>, count: nat, k: nat)
    requires 0 < count <= |s| && k < |s|
    ensures |s[1..count] + s[count - 1..]| == |s|
    ensures (s[1..count] + s[count - 1..])[k] == if k < count - 1 then s[k + 1] else s[k]
  {
  }

  lemma DropMovesHolders(es: seq<Event>, e: Event, k: nat)
    requires Consistent(es) && Invariant(Run(es)) && NoIds(Run(es)) && e.Disconnect? && Drops(es, e)
    requires k < Run(es).high
    ensures HolderOk(es + [e], k)
    ensures k < Run(es).clients.count - 1 ==> Holders(es + [e])[k] == Dropped(es) + 1 + k
    ensures Run(es + [e]) == State(Run(es + [e]).clients, Run(es).high)
    ensures Run(es + [e]).clients.count == Run(es).clients.count - 1
    ensures Dropped(es + [e]) == Dropped(es) + 1 && Arrived(es + [e]) == Arrived(es)
  {
    var c := Run(es).clients;
    History(es, e);
    OldestLeaves(Run(es), e.k);
    assert HolderOk(es, k) && (k < c.count - 1 ==> HolderOk(es, k + 1));
    hide Arrived, Dropped, Holders, Run, Next, Disconnected, Invariant, NoIds, Consistent;
    ShiftedAt(c.slots, c.count, k);
    ShiftedAt(Holders(es), c.count, k);
  }

  lemma DropKeepsConsistent(es: seq<Event>, e: Event)
    requires Consistent(es) && Invariant(Run(es)) && NoIds(Run(es)) && e.Disconnect? && Drops(es, e)
    ensures Consistent(es + [e])
  {
    assert Run(es).high > 0 && Dropped(es) + Run(es).clients.count == |Arrived(es)|;
    hide Arrived, Dropped, Holders, Run, Invariant, NoIds, HolderOk, Drops, Consistent;
    DropMovesHolders(es, e, 0);
    forall k | 0 <= k < Run(es + [e]).high ensures HolderOk(es + [e], k) {
      DropMovesHolders(es, e, k);
    }
    forall k | 0 <= k < Run(es + [e]).clients.count ensures Holders(es + [e])[k] == Dropped(es + [e]) + k {
      DropMovesHolders(es, e, k);
    }
    ConsistentParts(es + [e]);
  }

  lemma ConsistentParts(es: seq<Event>)
    requires Dropped(es) + Run(es).clients.count == |Arrived(es)|
    requires forall k :: 0 <= k < Run(es).high ==> HolderOk(es, k)
    requires forall k :: 0 <= k < Run(es).clients.count ==> Holders(es)[k] == Dropped(es) + k
    ensures Consistent(es)
  {
    hide HolderOk, Run, Holders, Dropped, Arrived;
  }

  lemma ArrivalKeepsConsistent(es: seq<Event>, e: Event)
    requires Consistent(es) && e.Accept? && TakesIn(es, e)
    ensures Consistent(es + [e])
  {
    History(es, e);
    hide Arrived, Dropped, Holders, Run;
    forall k | 0 <= k < Run(es + [e]).high ensures HolderOk(es + [e], k) {
      if k != Run(es).clients.count {
        assert HolderOk(es, k);
      }
    }
  }

  /** An event that moves no socket, though it may end the live sequence. */
  lemma StillKeepsConsistent(es: seq<Event>, e: Event)
    requires Consistent(es) && !(e.Accept? && TakesIn(es, e)) && !(e.Disconnect? && Drops(es, e))
    requires Sockets(Run(es + [e]).clients.slots) == Sockets(Run(es).clients.slots)
    requires Run(es + [e]).clients.count == if e.Stop? then 0 else Run(es).clients.count
    requires Run(es + [e]).high == Run(es).high
    ensures Consistent(es + [e])
  {
    History(es, e);
    hide Arrived, Dropped, Holders, Run, Next;
    forall k | 0 <= k < Run(es).high ensures HolderOk(es + [e], k) {
      assert HolderOk(es, k);
      assert Sockets(Run(es + [e]).clients.slots)[k] == Sockets(Run(es).clients.slots)[k];
    }
  }

  lemma OthersMoveNoSocket(s: State, e: Event)
    requires Invariant(s)
    requires e.Stop? || e.Hear? || e.Close? || !Enabled(s, e) || s.clients.count == if e.Accept? then MAX_CLIENTS else 0
    ensures Sockets(Next(s, e).clients.slots) == Sockets(s.clients.slots)
    ensures Next(s, e).clients.count == if e.Stop? then 0 else s.clients.count
    ensures Next(s, e).high == s.high
  {
    if e.Disconnect? && Enabled(s, e) {
      NothingToRemove(s.clients, e.k);
    }
    hide Disconnected;
  }

  /** A slot never goes back to an earlier client. */
  lemma HolderStep(es: seq<Event>, e: Event, k: nat)
    requires k < Run(es).high
    ensures k < Run(es + [e]).high <= MAX_CLIENTS
    ensures Holders(es + [e])[k] >= Holders(es)[k]
    ensures Arrived(es) <= Arrived(es + [e])
    ensures Dropped(es) <= Dropped(es + [e])
  {
    hide Arrived, Dropped, Holders, Run, Effect;
    History(es, e);
    FilledSlot(es, k);
    if e.Disconnect? && Drops(es, e) {
      ShiftedAt(Holders(es), Run(es).clients.count, k);
      if k < Run(es).clients.count - 1 {
        FilledSlot(es, k + 1);
      }
    }
  }

  lemma FilledSlot(es: seq<Event>, k: nat)
    requires k < Run(es).high
    ensures Holders(es)[k] < |Arrived(es)|
    ensures k < Run(es).clients.count ==> Holders(es)[k] == Dropped(es) + k
  {
    hide Arrived, Dropped, Holders, Run;
    SlotsHoldArrivals(es);
    assert HolderOk(es, k);
  }

  lemma {:induction false} HolderNeverReverts(es: seq<Event>, n: nat, k: nat)
    requires n <= |es| && k < Run(es[..n]).high
    ensures k < Run(es).high <= MAX_CLIENTS
    ensures Holders(es)[k] >= Holders(es[..n])[k]
    ensures Arrived(es[..n]) <= Arrived(es)
    ensures Dropped(es[..n]) <= Dropped(es)
    decreases |es|
  {
    hide Arrived, Dropped, Holders, Run;
    if n == |es| {
      assert es[..n] == es;
    } else {
      var es', e := es[..|es| - 1], es[|es| - 1];
      assert es'[..n] == es[..n];
      HolderNeverReverts(es', n, k);
      HolderStep(es', e, k);
      assert es' + [e] == es;
    }
  }

  // ---------------------------------------------------------------------------
  // Whose socket a handler reads and closes
  // ---------------------------------------------------------------------------

  /** The event gives slot k another client: a disconnect shifts its live successor into it, or
      an arrival fills it. */
  ghost predicate Moves(es: seq<Event>, e: Event, k: nat) {
    || (e.Disconnect? && Drops(es, e) && k + 1 < Run(es).clients.count)
    || (e.Accept? && TakesIn(es, e) && Run(es).clients.count == k)
  }

  ghost predicate MovedAt(es: seq<Event>, k: nat, i: nat)
    requires i < |es|
  {
    Moves(es[..i], es[i], k)
  }

  ghost predicate MovedSince(es: seq<Event>, n: nat, k: nat) {
    exists i :: n <= i < |es| && MovedAt(es, k, i)
  }

  lemma MoverStep(es: seq<Event>, e: Event, k: nat)
    requires k < Run(es).high
    ensures k < MAX_CLIENTS
    ensures if Moves(es, e, k) then Holders(es + [e])[k] > Holders(es)[k]
            else Holders(es + [e])[k] == Holders(es)[k]
  {
    hide Arrived, Dropped, Holders, Run, Effect;
    History(es, e);
    FilledSlot(es, k);
    if e.Disconnect? && Drops(es, e) {
      ShiftedAt(Holders(es), Run(es).clients.count, k);
      if k + 1 < Run(es).clients.count {
        FilledSlot(es, k + 1);
      }
    }
  }

  lemma MovedSinceStep(es: seq<Event>, e: Event, n: nat, k: nat)
    requires n <= |es|
    ensures MovedSince(es + [e], n, k) <==> MovedSince(es, n, k) || Moves(es, e, k)
  {
    hide Moves;
    var all := es + [e];
    forall i | 0 <= i < |es| ensures MovedAt(all, k, i) <==> MovedAt(es, k, i) {
      assert all[..i] == es[..i];
    }
    assert all[..|es|] == es && (MovedAt(all, k, |es|) <==> Moves(es, e, k));
    if MovedSince(es, n, k) {
      var i :| n <= i < |es| && MovedAt(es, k, i);
      assert MovedAt(all, k, i);
    }
  }

  /** From any point on where slot k has been filled: it still speaks of the same client if and
      only if no later event moved another one in. */
  lemma {:induction false} SlotStaysIff(es: seq<Event>, n: nat, k: nat)
    requires n <= |es| && k < Run(es[..n]).high
    ensures k < Run(es).high <= MAX_CLIENTS
    ensures Holders(es)[k] == Holders(es[..n])[k] <==> !MovedSince(es, n, k)
    decreases |es|
  {
    RunInvariant(es);
    if n == |es| {
      assert es[..n] == es;
    } else {
      hide Holders, Run, Moves, MovedSince, Arrived, Dropped;
      var es', e := es[..|es| - 1], es[|es| - 1];
      assert es'[..n] == es[..n] && es' + [e] == es;
      SlotStaysIff(es', n, k);
      HolderNeverReverts(es', n, k);
      MoverStep(es', e, k);
      MovedSinceStep(es', e, n, k);
    }
  }

  /** The handler started for the client that arrived at step n goes on reading the slot that
      client was put in.  Later it reads, there, the socket of a client that arrived no
      earlier; its own client's if and only if nothing has moved another one into the slot;
      and while the slot is live, of the one that arrived later by exactly the number of
      clients dropped since. */
  lemma WhoseSocketTheHandlerReads(es: seq<Event>, n: nat)
    requires n < |es| && es[n].Accept? && TakesIn(es[..n], es[n])
    ensures var k, own := Run(es[..n]).clients.count, |Arrived(es[..n])|;
            var dropped := Dropped(es) - Dropped(es[..n]);
            && k < Run(es).high && own < |Arrived(es)| && Arrived(es)[own] == es[n].socket
            && own <= Holders(es)[k] < |Arrived(es)|
            && Run(es).clients.slots[k].socket == Arrived(es)[Holders(es)[k]]
            && (Holders(es)[k] == own <==> !MovedSince(es, n + 1, k))
            && dropped >= 0
            && (k < Run(es).clients.count ==> Holders(es)[k] == own + dropped)
  {
    hide Arrived, Dropped, Holders, Run, TakesIn, MovedSince;
    var before, k := es[..n], Run(es[..n]).clients.count;
    assert es[..n + 1] == before + [es[n]];
    TakenIn(before, es[n]);
    HolderNeverReverts(es, n + 1, k);
    SlotStaysIff(es, n + 1, k);
    SlotsHoldArrivals(es);
    assert HolderOk(es, k);
  }

  lemma TakenIn(es: seq<Event>, e: Event)
    requires e.Accept? && TakesIn(es, e)
    ensures var k := Run(es).clients.count;
            && k < MAX_CLIENTS && k < Run(es + [e]).high
            && Arrived(es + [e]) == Arrived(es) + [e.socket]
            && Holders(es + [e])[k] == |Arrived(es)|
            && Dropped(es + [e]) == Dropped(es) && Dropped(es) + k == |Arrived(es)|
  {
    History(es, e);
    SlotsHoldArrivals(es);
    hide Arrived, Dropped, Holders, Run;
  }

  /** The descriptors closed so far by disconnecting handlers... */
  function Closed(es: seq<Event>): seq<int> {
    if |es| == 0 then []
    else
      var es', e := es[..|es| - 1], es[|es| - 1];
      if e.Close? && e.k < Run(es').high then Closed(es') + [Run(es').clients.slots[e.k].socket]
      else Closed(es')
  }

  /** ... and the numbers of the clients they belonged to. */
  function ClosedNumbers(es: seq<Event>): seq<nat> {
    if |es| == 0 then []
    else
      var es', e := es[..|es| - 1], es[|es| - 1];
      if e.Close? && e.k < Run(es').high then ClosedNumbers(es') + [Holders(es')[e.k]]
      else ClosedNumbers(es')
  }

  /** Over whole runs, with anything between a handler's shift and its close: which arrivals the
      closed descriptors belonged to, and which arrivals are the live clients. */
  lemma {:induction false} WhoseDescriptorsAreClosed(es: seq<Event>)
    ensures |Closed(es)| == |ClosedNumbers(es)|
    ensures forall i :: 0 <= i < |Closed(es)| ==>
              ClosedNumbers(es)[i] < |Arrived(es)| && Closed(es)[i] == Arrived(es)[ClosedNumbers(es)[i]]
    ensures Dropped(es) + Run(es).clients.count == |Arrived(es)|
    ensures Sockets(Run(es).clients.Live()) == Arrived(es)[Dropped(es)..]
  {
    LiveAreTheLastArrivals(es);
    if |es| > 0 {
      WhoseDescriptorsAreClosed(es[..|es| - 1]);
      ClosedStep(es[..|es| - 1], es[|es| - 1]);
      assert es[..|es| - 1] + [es[|es| - 1]] == es;
      hide Arrived, Holders, Run;
    }
  }

  lemma LiveAreTheLastArrivals(es: seq<Event>)
    ensures Dropped(es) + Run(es).clients.count == |Arrived(es)|
    ensures Sockets(Run(es).clients.Live()) == Arrived(es)[Dropped(es)..]
  {
    SlotsHoldArrivals(es);
    hide Arrived, Dropped, Holders, Run;
    forall k | 0 <= k < Run(es).clients.count
      ensures Run(es).clients.slots[k].socket == Arrived(es)[Dropped(es) + k]
    {
      assert HolderOk(es, k);
    }
  }

  lemma ClosedStep(es: seq<Event>, e: Event)
    ensures Arrived(es) <= Arrived(es + [e])
    ensures if e.Close? && e.k < Run(es).high then
              && e.k < MAX_CLIENTS && Holders(es)[e.k] < |Arrived(es)|
              && Closed(es + [e]) == Closed(es) + [Arrived(es)[Holders(es)[e.k]]]
              && ClosedNumbers(es + [e]) == ClosedNumbers(es) + [Holders(es)[e.k]]
            else Closed(es + [e]) == Closed(es) && ClosedNumbers(es + [e]) == ClosedNumbers(es)
  {
    assert (es + [e])[..|es|] == es;
    hide Arrived, Holders, Run, Dropped;
    History(es, e);
    if e.Close? && e.k < Run(es).high {
      SlotsHoldArrivals(es);
      assert HolderOk(es, e.k);
    }
  }

  /** Some live slot speaks of the client with the number. */
  ghost predicate Connected(es: seq<Event>, number: nat) {
    exists j :: 0 <= j < Run(es).clients.count && j < MAX_CLIENTS && Holders(es)[j] == number
  }

  lemma ConnectedIff(es: seq<Event>, number: nat)
    ensures Connected(es, number) <==> Dropped(es) <= number < |Arrived(es)|
  {
    SlotsHoldArrivals(es);
    hide Arrived, Dropped, Holders, Run;
    if Dropped(es) <= number < |Arrived(es)| {
      assert Holders(es)[number - Dropped(es)] == number;
    }
  }

  /** Whose descriptor a handler closes.  The handler started for the arrival at step n reaches
      its close, with its shift and anything else behind it: it closes the descriptor of the
      client its slot speaks of by then; of its own if and only if nothing has moved another
      one in; and of one that is still connected if and only if that one has not been
      dropped, as for every live slot. */
  lemma WhoseDescriptorTheHandlerCloses(es: seq<Event>, n: nat)
    requires n < |es| && es[n].Accept? && TakesIn(es[..n], es[n])
    ensures var k, own := Run(es[..n]).clients.count, |Arrived(es[..n])|;
            var number := Holders(es)[k];
            && k < Run(es).high && number < |Arrived(es)|
            && Closed(es + [Close(k)]) == Closed(es) + [Arrived(es)[number]]
            && (number == own <==> !MovedSince(es, n + 1, k))
            && (Connected(es, number) <==> number >= Dropped(es))
            && (k < Run(es).clients.count ==> Connected(es, number))
  {
    hide Arrived, Dropped, Holders, Run, TakesIn, MovedSince, Connected;
    var k := Run(es[..n]).clients.count;
    WhoseSocketTheHandlerReads(es, n);
    assert (es + [Close(k)])[..|es|] == es;
    ConnectedIff(es, Holders(es)[k]);
    FilledSlot(es, k);
    LiveAreTheLastArrivals(es);
  }

  /** A close right behind its shift hits a client that stays connected if and only if the slot
      had a live successor, or spoke of a client that arrived after the oldest live one. */
  lemma ClosesAStayingClientIff(es: seq<Event>, k: nat)
    requires k < Run(es).high
    ensures var es' := es + [Disconnect(k)];
            && k < MAX_CLIENTS && Closed(es' + [Close(k)]) == Closed(es) + [ClosedSocket(Run(es).clients, k)]
            && ClosedSocket(Run(es).clients, k) == Run(es').clients.slots[k].socket
            && (Connected(es', Holders(es')[k]) <==>
                  k + 1 < Run(es).clients.count || Holders(es)[k] > Dropped(es))
  {
    var e := Disconnect(k);
    var es' := es + [e];
    RunStep(es, e);
    assert Run(es').clients == Disconnected(Run(es).clients, k);
    hide Arrived, Dropped, Holders, Run, Next, Disconnected, Effect, Connected, Closed;
    ConnectedIff(es', Holders(es')[k]);
    ClosedAfterShift(es, k);
    History(es, e);
    MoverStep(es, e, k);
    FilledSlot(es, k);
    FilledSlot(es', k);
    LiveAreTheLastArrivals(es);
    LiveAreTheLastArrivals(es');
  }

  lemma ClosedAfterShift(es: seq<Event>, k: nat)
    requires k < Run(es).high && k < Run(es + [Disconnect(k)]).high
    ensures k < MAX_CLIENTS
    ensures var es' := es + [Disconnect(k)];
            Closed(es' + [Close(k)]) == Closed(es) + [Run(es').clients.slots[k].socket]
  {
    var es' := es + [Disconnect(k)];
    assert es'[..|es|] == es && (es' + [Close(k)])[..|es'|] == es';
    hide Run;
  }

  /** Whom a broadcast taken at one instant addresses, client by client: slot k's frame goes to
      the client it speaks of; and somebody who has been dropped is addressed if and only if
      some leftover slot still speaks of one. */
  lemma BroadcastAddressesDeparted(es: seq<Event>)
    ensures var s, to := Run(es), Recipients(Run(es).clients.slots);
            && |to| == s.high <= MAX_CLIENTS
            && (forall k :: 0 <= k < s.high ==>
                  Holders(es)[k] < |Arrived(es)| && to[k] == Arrived(es)[Holders(es)[k]])
            && ((exists k :: 0 <= k < s.high && !Connected(es, Holders(es)[k])) <==>
                (exists k :: s.clients.count <= k < s.high && Holders(es)[k] < Dropped(es)))
  {
    BroadcastReach(es);
    SlotsHoldArrivals(es);
    RunInvariant(es);
    hide Arrived, Dropped, Holders, Run, Connected, Recipients;
    var s, to := Run(es), Recipients(Run(es).clients.slots);
    forall k | 0 <= k < s.high
      ensures Holders(es)[k] < |Arrived(es)| && to[k] == Arrived(es)[Holders(es)[k]]
      ensures Connected(es, Holders(es)[k]) <==> Holders(es)[k] >= Dropped(es)
    {
      assert HolderOk(es, k);
      ConnectedIff(es, Holders(es)[k]);
    }
  }

  /** What one event does to the counts. */
  lemma CountStep(es: seq<Event>, e: Event)
    ensures var count := if e.Accept? && TakesIn(es, e) then Run(es).clients.count + 1
                         else if e.Disconnect? && Drops(es, e) then Run(es).clients.count - 1
                         else if e.Stop? then 0 else Run(es).clients.count;
            && Run(es + [e]).clients.count == count
            && Run(es + [e]).high == if count > Run(es).high then count else Run(es).high
  {
    RunStep(es, e);
    RunInvariant(es);
    hide Run, Arrived, Holders, Dropped;
    if e.Disconnect? && e.k < Run(es).high {
      if Run(es).clients.count > 0 {
        OldestLeaves(Run(es), e.k);
      } else {
        NothingToRemove(Run(es).clients, e.k);
      }
      hide Disconnected;
    }
  }

  /** A run in numbers, as far as slot k is concerned. */
  datatype Tally = Tally(count: nat, high: nat, dropped: nat, arrived: seq<int>, holder: nat, closed: seq<int>)

  function TallyOf(es: seq<Event>, k: nat): Tally
    requires k < MAX_CLIENTS
  {
    Tally(Run(es).clients.count, Run(es).high, Dropped(es), Arrived(es),
          if k < Run(es).high then Holders(es)[k] else 0, Closed(es))
  }

  /** The tally after one more event that closes slot k if any. */
  function After(y: Tally, e: Event, k: nat): Tally {
    match e
    case Accept(socket, _, _, _) =>
      if socket <= 0 || y.count >= MAX_CLIENTS then y
      else y.(count := y.count + 1, high := if y.count < y.high then y.high else y.count + 1,
              arrived := y.arrived + [socket], holder := if y.count == k then |y.arrived| else y.holder)
    case Disconnect(i) =>
      if i >= y.high || y.count == 0 then y
      else y.(count := y.count - 1, dropped := y.dropped + 1,
              holder := if k + 1 < y.count then y.dropped + k + 1 else y.holder)
    case Close(i) => if i < y.high && y.holder < |y.arrived| then y.(closed := y.closed + [y.arrived[y.holder]]) else y
    case Hear(_, _) => y
    case Stop => y.(count := 0, dropped := y.dropped + y.count)
  }

  lemma TallyStep(es: seq<Event>, e: Event, k: nat, y: Tally)
    requires k < MAX_CLIENTS && TallyOf(es, k) == y && (e.Close? ==> e.k == k)
    ensures TallyOf(es + [e], k) == After(y, e, k)
  {
    hide Run, Arrived, Holders, Dropped, Closed;
    CountStep(es, e);
    History(es, e);
    ClosedStep(es, e);
    if k < Run(es).high {
      FilledSlot(es, k);
      MoverStep(es, e, k);
      if k + 1 < Run(es).clients.count {
        FilledSlot(es, k + 1);
      }
    } else if e.Accept? && TakesIn(es, e) {
      TakenIn(es, e);
    }
  }

  lemma TallyAtStart(k: nat)
    requires k < MAX_CLIENTS
    ensures TallyOf([], k) == Tally(0, 0, 0, [], 0, [])
  {
  }

  /** Both answers are real.  First, a newcomer accepted between shift and close: its descriptor
      is the one closed. */
  lemma NewcomerClosed()
    ensures Closed([Accept(5, 0, 0, 0), Disconnect(0), Accept(9, 0, 0, 0), Close(0)]) == [9]
  {
    hide TallyOf, Closed;
    var es0: seq<Event> := [];
    TallyAtStart(0);
    TallyStep(es0, Accept(5, 0, 0, 0), 0, Tally(0, 0, 0, [], 0, []));
    var es1 := es0 + [Accept(5, 0, 0, 0)];
    TallyStep(es1, Disconnect(0), 0, Tally(1, 1, 0, [5], 0, []));
    var es2 := es1 + [Disconnect(0)];
    TallyStep(es2, Accept(9, 0, 0, 0), 0, Tally(0, 1, 1, [5], 0, []));
    var es3 := es2 + [Accept(9, 0, 0, 0)];
    TallyStep(es3, Close(0), 0, Tally(1, 1, 1, [5, 9], 1, []));
    var es4 := es3 + [Close(0)];
    assert es4 == [Accept(5, 0, 0, 0), Disconnect(0), Accept(9, 0, 0, 0), Close(0)];
    ClosedOfTally(es4, 0);
  }

  lemma ClosedOfTally(es: seq<Event>, k: nat)
    requires k < MAX_CLIENTS
    ensures Closed(es) == TallyOf(es, k).closed
  {
  }

  lemma ThreeConnected()
    ensures TallyOf([Accept(5, 0, 0, 0), Accept(6, 0, 0, 0), Accept(7, 0, 0, 0)], 2)
            == Tally(3, 3, 0, [5, 6, 7], 2, [])
  {
    hide TallyOf;
    var es0: seq<Event> := [];
    TallyAtStart(2);
    TallyStep(es0, Accept(5, 0, 0, 0), 2, Tally(0, 0, 0, [], 0, []));
    var es1 := es0 + [Accept(5, 0, 0, 0)];
    TallyStep(es1, Accept(6, 0, 0, 0), 2, Tally(1, 1, 0, [5], 0, []));
    var es2 := es1 + [Accept(6, 0, 0, 0)];
    TallyStep(es2, Accept(7, 0, 0, 0), 2, Tally(2, 2, 0, [5, 6], 0, []));
    assert es2 + [Accept(7, 0, 0, 0)] == [Accept(5, 0, 0, 0), Accept(6, 0, 0, 0), Accept(7, 0, 0, 0)];
  }

  lemma TwoNewcomers(es3: seq<Event>)
    requires TallyOf(es3, 2) == Tally(3, 3, 0, [5, 6, 7], 2, [])
    ensures TallyOf(es3 + [Disconnect(0)] + [Disconnect(1)] + [Accept(8, 0, 0, 0)] + [Disconnect(1)]
                    + [Accept(9, 0, 0, 0)], 2)
            == Tally(2, 3, 3, [5, 6, 7, 8, 9], 2, [])
  {
    hide TallyOf;
    TallyStep(es3, Disconnect(0), 2, Tally(3, 3, 0, [5, 6, 7], 2, []));
    var es4 := es3 + [Disconnect(0)];
    TallyStep(es4, Disconnect(1), 2, Tally(2, 3, 1, [5, 6, 7], 2, []));
    var es5 := es4 + [Disconnect(1)];
    TallyStep(es5, Accept(8, 0, 0, 0), 2, Tally(1, 3, 2, [5, 6, 7], 2, []));
    var es6 := es5 + [Accept(8, 0, 0, 0)];
    TallyStep(es6, Disconnect(1), 2, Tally(2, 3, 2, [5, 6, 7, 8], 2, []));
    var es7 := es6 + [Disconnect(1)];
    TallyStep(es7, Accept(9, 0, 0, 0), 2, Tally(1, 3, 3, [5, 6, 7, 8], 2, []));
  }

  /** Second, a handler left behind on a slot that is no longer live: with two clients connected
      it closes the descriptor of one dropped long before. */
  lemma DepartedClosed()
    ensures var es := [Accept(5, 0, 0, 0), Accept(6, 0, 0, 0), Accept(7, 0, 0, 0), Disconnect(0), Disconnect(1),
                       Accept(8, 0, 0, 0), Disconnect(1), Accept(9, 0, 0, 0)];
            && TallyOf(es, 2) == Tally(2, 3, 3, [5, 6, 7, 8, 9], 2, [])
            && Closed(es + [Disconnect(2)] + [Close(2)]) == [7]
  {
    hide TallyOf, Closed;
    ThreeConnected();
    var es3 := [Accept(5, 0, 0, 0), Accept(6, 0, 0, 0), Accept(7, 0, 0, 0)];
    TwoNewcomers(es3);
    var es := [Accept(5, 0, 0, 0), Accept(6, 0, 0, 0), Accept(7, 0, 0, 0), Disconnect(0), Disconnect(1),
               Accept(8, 0, 0, 0), Disconnect(1), Accept(9, 0, 0, 0)];
    assert es == es3 + [Disconnect(0)] + [Disconnect(1)] + [Accept(8, 0, 0, 0)] + [Disconnect(1)]
                 + [Accept(9, 0, 0, 0)];
    TallyStep(es, Disconnect(2), 2, Tally(2, 3, 3, [5, 6, 7, 8, 9], 2, []));
    TallyStep(es + [Disconnect(2)], Close(2), 2, Tally(1, 3, 4, [5, 6, 7, 8, 9], 2, []));
    ClosedOfTally(es + [Disconnect(2)] + [Close(2)], 2);
  }
}
