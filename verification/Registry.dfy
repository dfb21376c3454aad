/** The client array as a value: what each server operation makes of it, and what holds
    of it in every run (src/server/server_network.c, server_handlers.c, server_core.c). */
module Registry {
  import opened Bytes
  import opened Types

  /** The id of a slot fresh from calloc. */
  function NoId(): ClientId {
    seq(MAX_CLIENT_ID_LENGTH, _ => 0)
  }

  /** One ClientConnection; removing a client copies these over one another. */
  datatype ClientSlot = ClientSlot(
    socket: int, address: int, id: ClientId, active: bool,
    connectTime: int, lastHeartbeat: int, messagesReceived: U64)

  function EmptySlot(): ClientSlot {
    ClientSlot(0, 0, NoId(), false, 0, 0, 0)
  }

  /** strcmp(a, b) == 0 */
  predicate SameId(a: ClientId, b: ClientId) {
    CString(a) == CString(b)
  }

  /** The array and client_count: the first `count` slots are the live clients, the others
      are leftovers or were never used. */
  datatype Clients = Clients(slots: seq<ClientSlot>, count: nat) {
    predicate Valid() {
      |slots| == MAX_CLIENTS && count <= MAX_CLIENTS
    }

    function Live(): seq<ClientSlot>
      requires count <= |slots|
    {
      slots[..count]
    }
  }

  /** The live sequence without its first entry carrying the id. */
  function Remove(live: seq<ClientSlot>, id: ClientId): (r: seq<ClientSlot>)
    ensures |r| == |live| - (if HasId(live, id) then 1 else 0)
  {
    if |live| == 0 then []
    else if SameId(live[0].id, id) then live[1..]
    else [live[0]] + Remove(live[1..], id)
  }

  predicate HasId(s: seq<ClientSlot>, id: ClientId) {
    exists i :: 0 <= i < |s| && SameId(s[i].id, id)
  }

  /** Removing by hand: close the gap at the first match. */
  lemma {:induction false} RemoveAt(live: seq<ClientSlot>, id: ClientId, i: nat)
    requires i < |live| && SameId(live[i].id, id)
    requires forall j :: 0 <= j < i ==> !SameId(live[j].id, id)
    ensures Remove(live, id) == live[..i] + live[i + 1..]
  {
    if i > 0 {
      RemoveAt(live[1..], id, i - 1);
    }
  }

  lemma {:induction false} RemoveAbsent(live: seq<ClientSlot>, id: ClientId)
    requires !HasId(live, id)
    ensures Remove(live, id) == live
  {
    if |live| > 0 {
      assert !SameId(live[0].id, id);
      RemoveAbsent(live[1..], id);
    }
  }

  function Accepted(c: Clients, socket: int, address: int, connectTime: int, heartbeat: int): (r: Clients)
    requires c.Valid()
    ensures r.Valid()
  {
    if c.count >= MAX_CLIENTS then c
    else
      var slot := c.slots[c.count].(socket := socket, address := address,
                                    connectTime := connectTime, lastHeartbeat := heartbeat);
      Clients(c.slots[c.count := slot], c.count + 1)
  }

  /** The live clients lose the first one with slot k's id; every slot behind the new live
      sequence keeps what it held. */
  function Disconnected(c: Clients, k: nat): (r: Clients)
    requires c.Valid() && k < MAX_CLIENTS
    ensures r.Valid()
  {
    var live := Remove(c.Live(), c.slots[k].id);
    Clients(live + c.slots[|live|..], |live|)
  }

  /** A message arrived at the handler of slot k. */
  function Heard(c: Clients, k: nat, now: int): (r: Clients)
    requires c.Valid() && k < MAX_CLIENTS
    ensures r.Valid()
  {
    var slot := c.slots[k];
    c.(slots := c.slots[k := slot.(messagesReceived := Bump(slot.messagesReceived),
                                   lastHeartbeat := now)])
  }

  function Deactivated(s: seq<ClientSlot>): (r: seq<ClientSlot>)
    ensures |r| == |s|
    ensures forall i :: 0 <= i < |s| ==> r[i] == s[i].(active := false)
  {
    if |s| == 0 then [] else [s[0].(active := false)] + Deactivated(s[1..])
  }

  function Stopped(c: Clients): (r: Clients)
    requires c.Valid()
    ensures r.Valid()
  {
    Clients(Deactivated(c.Live()) + c.slots[c.count..], 0)
  }

  function Sockets(s: seq<ClientSlot>): (r: seq<int>)
    ensures |r| == |s|
    ensures forall i :: 0 <= i < |s| ==> r[i] == s[i].socket
  {
    seq(|s|, i requires 0 <= i < |s| => s[i].socket)
  }

  /** Where a broadcast goes: every slot with a positive socket, in slot order. */
  function Recipients(s: seq<ClientSlot>): seq<int> {
    if |s| == 0 then []
    else Recipients(s[..|s| - 1]) + if s[|s| - 1].socket > 0 then [s[|s| - 1].socket] else []
  }

  /** find_client_socket: the first occupied slot with the id, or -1. */
  function Lookup(s: seq<ClientSlot>, id: ClientId): int {
    if |s| == 0 then -1
    else if s[0].socket > 0 && SameId(s[0].id, id) then s[0].socket
    else Lookup(s[1..], id)
  }

  // ---------------------------------------------------------------------------
  // Runs
  // ---------------------------------------------------------------------------

  /** What one thread does to the array at a time.  disconnect_client is two of these: the shift,
      under the mutex, and after it the close, which reads the slot again; anything may come
      between them. */
  datatype Event =
    | Accept(socket: int, address: int, connectTime: int, heartbeat: int)
    | Disconnect(k: nat)
    | Close(k: nat)
    | Hear(k: nat, now: int)
    | Stop

  /** `high` is the high-water mark of client_count. */
  datatype State = State(clients: Clients, high: nat) {
    predicate Valid() {
      clients.Valid() && clients.count <= high <= MAX_CLIENTS
    }
  }

  function Start(): State {
    State(Clients(seq(MAX_CLIENTS, _ => EmptySlot()), 0), 0)
  }

  /** Descriptors from accept are positive; a handler works on a slot that was filled. */
  predicate Enabled(s: State, e: Event) {
    match e
    case Accept(socket, _, _, _) => socket > 0
    case Disconnect(k) => k < s.high
    case Close(k) => k < s.high
    case Hear(k, _) => k < s.high
    case Stop => true
  }

  function Effect(c: Clients, e: Event): (r: Clients)
    requires c.Valid()
    requires e.Disconnect? || e.Hear? ==> e.k < MAX_CLIENTS
    ensures r.Valid()
  {
    match e
    case Accept(socket, address, connectTime, heartbeat) => Accepted(c, socket, address, connectTime, heartbeat)
    case Disconnect(k) => Disconnected(c, k)
    case Close(_) => c
    case Hear(k, now) => Heard(c, k, now)
    case Stop => Stopped(c)
  }

  /** One step; what is not enabled does not happen. */
  function Next(s: State, e: Event): (s': State)
    requires s.Valid()
    ensures s'.Valid()
  {
    if !Enabled(s, e) then s
    else
      var c := Effect(s.clients, e);
      State(c, if c.count > s.high then c.count else s.high)
  }

  function Run(es: seq<Event>): (s: State)
    ensures s.Valid()
  {
    if |es| == 0 then Start() else Next(Run(es[..|es| - 1]), es[|es| - 1])
  }

  lemma RunStep(es: seq<Event>, e: Event)
    ensures Run(es + [e]) == Next(Run(es), e)
  {
    assert (es + [e])[..|es|] == es;
  }

  ghost predicate Invariant(s: State) {
    && s.Valid()
    && (forall i :: 0 <= i < s.high ==> s.clients.slots[i].socket > 0)
    && (forall i :: s.high <= i < MAX_CLIENTS ==> s.clients.slots[i] == EmptySlot())
  }

  ghost predicate NoIds(s: State) {
    forall i :: 0 <= i < |s.clients.slots| ==> s.clients.slots[i].id == NoId()
  }

  lemma {:induction false} RemoveEntries(live: seq<ClientSlot>, id: ClientId, i: nat)
    requires i < |Remove(live, id)|
    ensures Remove(live, id)[i] == live[i] || (i + 1 < |live| && Remove(live, id)[i] == live[i + 1])
  {
    if i > 0 && !SameId(live[0].id, id) {
      RemoveEntries(live[1..], id, i - 1);
    }
  }

  /** Each slot keeps its content or takes its live successor's. */
  lemma DisconnectMoves(c: Clients, k: nat)
    requires c.Valid() && k < MAX_CLIENTS
    ensures var after := Disconnected(c, k);
            && after.count <= c.count
            && forall i :: 0 <= i < MAX_CLIENTS ==>
                 after.slots[i] == c.slots[i] || (i + 1 < c.count && after.slots[i] == c.slots[i + 1])
  {
    var live := Remove(c.Live(), c.slots[k].id);
    forall i | 0 <= i < MAX_CLIENTS
      ensures Disconnected(c, k).slots[i] == c.slots[i]
              || (i + 1 < c.count && Disconnected(c, k).slots[i] == c.slots[i + 1])
    {
      if i < |live| {
        RemoveEntries(c.Live(), c.slots[k].id, i);
      }
    }
  }

  lemma DisconnectInvariant(s: State, k: nat)
    requires Invariant(s) && k < s.high
    ensures Invariant(Next(s, Disconnect(k)))
    ensures NoIds(s) ==> NoIds(Next(s, Disconnect(k)))
  {
    var before, after := s.clients.slots, Disconnected(s.clients, k).slots;
    DisconnectMoves(s.clients, k);
    assert Next(s, Disconnect(k)) == State(Disconnected(s.clients, k), s.high);
    hide Next, Disconnected;
    forall i | 0 <= i < s.high ensures after[i].socket > 0 {
      assert before[i].socket > 0 && (i + 1 < s.high ==> before[i + 1].socket > 0);
    }
  }

  /** Every operation, from every state: slots below the high-water mark keep a positive
      socket, slots above it stay untouched, and the count stays within bounds. */
  lemma StepInvariant(s: State, e: Event)
    requires Invariant(s)
    ensures Invariant(Next(s, e))
    ensures NoIds(s) ==> NoIds(Next(s, e))
  {
    hide Disconnected, Stopped;
    match e
    case Disconnect(k) =>
      if k < s.high {
        DisconnectInvariant(s, k);
      }
    case Stop => StopInvariant(s);
    case _ =>
  }

  lemma StopInvariant(s: State)
    requires Invariant(s)
    ensures Invariant(Next(s, Stop))
    ensures NoIds(s) ==> NoIds(Next(s, Stop))
  {
    var slots := Next(s, Stop).clients.slots;
    hide Deactivated;
    assert forall i :: 0 <= i < MAX_CLIENTS ==>
        slots[i] == if i < s.clients.count then s.clients.slots[i].(active := false) else s.clients.slots[i];
  }

  lemma {:induction false} RunInvariant(es: seq<Event>)
    ensures Invariant(Run(es)) && NoIds(Run(es))
  {
    if |es| > 0 {
      RunInvariant(es[..|es| - 1]);
      StepInvariant(Run(es[..|es| - 1]), es[|es| - 1]);
    }
  }

  // ---------------------------------------------------------------------------
  // Broadcasts
  // ---------------------------------------------------------------------------

  lemma {:induction false} RecipientsAllOccupied(s: seq<ClientSlot>)
    requires forall i :: 0 <= i < |s| ==> s[i].socket > 0
    ensures Recipients(s) == Sockets(s)
  {
    if |s| > 0 {
      RecipientsAllOccupied(s[..|s| - 1]);
    }
  }

  lemma {:induction false} RecipientsNoneOccupied(s: seq<ClientSlot>, n: nat)
    requires n <= |s|
    requires forall i :: n <= i < |s| ==> s[i].socket <= 0
    ensures Recipients(s) == Recipients(s[..n])
  {
    if n < |s| {
      RecipientsNoneOccupied(s[..|s| - 1], n);
      assert s[..|s| - 1][..n] == s[..n];
    } else {
      assert s[..n] == s;
    }
  }

  /** In every run a broadcast attempts exactly as many sends as the client count has ever
      reached, one per slot ever filled: first every live client in order, then the
      leftovers.  It addresses the live clients and nobody else if and only if the count
      stands at its high-water mark. */
  lemma BroadcastReach(es: seq<Event>)
    ensures var s := Run(es);
            var to := Recipients(s.clients.slots);
            && to == Sockets(s.clients.slots[..s.high])
            && Sockets(s.clients.Live()) <= to
            && (to == Sockets(s.clients.Live()) <==> s.clients.count == s.high)
  {
    RunInvariant(es);
    var s := Run(es);
    RecipientsNoneOccupied(s.clients.slots, s.high);
    RecipientsAllOccupied(s.clients.slots[..s.high]);
  }

  /** The sockets accepted so far, as long as there was room. */
  function AcceptedSockets(es: seq<Event>): seq<int> {
    if |es| == 0 then []
    else
      var before := AcceptedSockets(es[..|es| - 1]);
      var e := es[|es| - 1];
      if e.Accept? && e.socket > 0 && |before| < MAX_CLIENTS then before + [e.socket] else before
  }

  /** What any event but a disconnect or stop does to the live sockets. */
  lemma SocketsWithoutDepartures(s: State, e: Event)
    requires s.Valid() && !e.Disconnect? && !e.Stop?
    ensures Sockets(Next(s, e).clients.Live())
            == Sockets(s.clients.Live())
               + if e.Accept? && e.socket > 0 && s.clients.count < MAX_CLIENTS then [e.socket] else []
    ensures s.high == s.clients.count ==> Next(s, e).high == Next(s, e).clients.count
  {
  }

  /** While nobody has disconnected and the server has not stopped, a broadcast reaches every
      accepted client exactly once, in the order of acceptance. */
  lemma {:induction false} BroadcastBeforeAnyDisconnect(es: seq<Event>)
    requires forall i :: 0 <= i < |es| ==> !es[i].Disconnect? && !es[i].Stop?
    ensures var s := Run(es);
            && Recipients(s.clients.slots) == AcceptedSockets(es)
            && Sockets(s.clients.Live()) == AcceptedSockets(es)
            && s.high == s.clients.count
  {
    if |es| > 0 {
      BroadcastBeforeAnyDisconnect(es[..|es| - 1]);
      SocketsWithoutDepartures(Run(es[..|es| - 1]), es[|es| - 1]);
    }
    BroadcastReach(es);
    hide Recipients, Next, Sockets;
  }

  /** No operation ever shrinks a broadcast: departed and stopped clients are still sent to. */
  lemma BroadcastNeverShrinks(es: seq<Event>, e: Event)
    ensures |Recipients(Run(es + [e]).clients.slots)| >= |Recipients(Run(es).clients.slots)|
  {
    BroadcastReach(es);
    BroadcastReach(es + [e]);
    RunStep(es, e);
  }

  // ---------------------------------------------------------------------------
  // Disconnects
  // ---------------------------------------------------------------------------

  /** The shift in the array: closing the gap at the first match, with the old last entry
      left standing behind the live clients. */
  lemma ShiftRemovesFirstMatch(c: Clients, k: nat, i: nat)
    requires c.Valid() && k < MAX_CLIENTS
    requires i < c.count && SameId(c.slots[i].id, c.slots[k].id)
    requires forall j :: 0 <= j < i ==> !SameId(c.slots[j].id, c.slots[k].id)
    ensures Disconnected(c, k)
            == Clients(c.slots[..i] + c.slots[i + 1..c.count] + c.slots[c.count - 1..], c.count - 1)
  {
    RemoveAt(c.Live(), c.slots[k].id, i);
    assert c.Live()[..i] + c.Live()[i + 1..] == c.slots[..i] + c.slots[i + 1..c.count];
  }

  lemma NothingToRemove(c: Clients, k: nat)
    requires c.Valid() && k < MAX_CLIENTS
    requires forall j :: 0 <= j < c.count ==> !SameId(c.slots[j].id, c.slots[k].id)
    ensures Disconnected(c, k) == c
  {
    RemoveAbsent(c.Live(), c.slots[k].id);
    assert c.Live() + c.slots[c.count..] == c.slots;
  }

  /** Without ids the first match is slot 0. */
  lemma OldestLeaves(s: State, k: nat)
    requires Invariant(s) && NoIds(s) && k < s.high && s.clients.count > 0
    ensures var c := s.clients;
            && Disconnected(c, k) == Clients(c.slots[1..c.count] + c.slots[c.count - 1..], c.count - 1)
            && Next(s, Disconnect(k)) == State(Disconnected(c, k), s.high)
            && Disconnected(c, k).Live() == c.Live()[1..]
  {
    ShiftRemovesFirstMatch(s.clients, k, 0);
  }

  /** The sockets of the live clients, were each disconnect to drop the oldest client. */
  function Queue(es: seq<Event>): seq<int> {
    if |es| == 0 then []
    else
      var q := Queue(es[..|es| - 1]);
      match es[|es| - 1]
      case Accept(socket, _, _, _) => if socket > 0 && |q| < MAX_CLIENTS then q + [socket] else q
      case Disconnect(k) => if k < Run(es[..|es| - 1]).high && |q| > 0 then q[1..] else q
      case Close(_) => q
      case Hear(_, _) => q
      case Stop => []
  }

  lemma QueueStep(s: State, e: Event)
    requires Invariant(s) && NoIds(s)
    ensures Sockets(Next(s, e).clients.Live()) ==
            var q := Sockets(s.clients.Live());
            match e
            case Accept(socket, _, _, _) => if socket > 0 && |q| < MAX_CLIENTS then q + [socket] else q
            case Disconnect(k) => if k < s.high && |q| > 0 then q[1..] else q
            case Close(_) => q
            case Hear(_, _) => q
            case Stop => []
  {
    if e.Disconnect? && e.k < s.high {
      if s.clients.count > 0 {
        OldestLeaves(s, e.k);
      } else {
        NothingToRemove(s.clients, e.k);
      }
      hide Disconnected;
    }
  }

  /** In every run, whichever handler disconnects, it is the longest-connected client that is
      dropped: no operation ever assigns an id, all ids compare equal, and the first match is
      slot 0.  The live clients form a queue. */
  lemma {:induction false} LiveClientsAreAQueue(es: seq<Event>)
    ensures Sockets(Run(es).clients.Live()) == Queue(es)
  {
    if |es| > 0 {
      LiveClientsAreAQueue(es[..|es| - 1]);
      RunInvariant(es[..|es| - 1]);
      QueueStep(Run(es[..|es| - 1]), es[|es| - 1]);
      hide Next, Sockets;
    }
  }

  /** The descriptor disconnect_client closes for the handler of slot k, if nothing comes between
      its two steps: it is read from the slot after the shift. */
  function ClosedSocket(c: Clients, k: nat): int
    requires c.Valid() && k < MAX_CLIENTS
  {
    Disconnected(c, k).slots[k].socket
  }

  /** From any state, with any ids: if the first live match is at i, the shift moves slot k's
      successor into slot k whenever i <= k and k is not the last live slot. */
  lemma WhatIsClosed(c: Clients, k: nat, i: nat)
    requires c.Valid() && k < MAX_CLIENTS
    requires i < c.count && SameId(c.slots[i].id, c.slots[k].id)
    requires forall j :: 0 <= j < i ==> !SameId(c.slots[j].id, c.slots[k].id)
    ensures Disconnected(c, k).Live() == c.slots[..i] + c.slots[i + 1..c.count]
    ensures ClosedSocket(c, k) == if i <= k < c.count - 1 then c.slots[k + 1].socket else c.slots[k].socket
  {
    ShiftRemovesFirstMatch(c, k, i);
  }

  /** In every run, if nothing comes between shift and close: the handler of slot k closes the
      descriptor the slot held before the shift if and only if slot k has no live successor,
      or one with the same descriptor; otherwise it closes the successor's. */
  lemma OwnSocketClosedIff(es: seq<Event>, k: nat)
    requires k < Run(es).high
    ensures var c := Run(es).clients;
            && ClosedSocket(c, k) == (if k + 1 < c.count then c.slots[k + 1].socket else c.slots[k].socket)
            && (ClosedSocket(c, k) == c.slots[k].socket
                <==> (k + 1 < c.count ==> c.slots[k + 1].socket == c.slots[k].socket))
  {
    RunInvariant(es);
    var c := Run(es).clients;
    if c.count > 0 {
      WhatIsClosed(c, k, 0);
    } else {
      NothingToRemove(c, k);
    }
  }

  /** Right after any disconnect among two or more clients, each broadcast goes to the newest
      client twice: through its slot and through the copy the shift left behind. */
  lemma NewestClientDuplicated(es: seq<Event>, k: nat)
    requires k < Run(es).high && Run(es).clients.count >= 2
    ensures var c, to := Run(es).clients, Recipients(Run(es + [Disconnect(k)]).clients.slots);
            && |to| >= c.count
            && to[c.count - 2] == to[c.count - 1] == c.slots[c.count - 1].socket
            && Run(es + [Disconnect(k)]).clients.count == c.count - 1
  {
    hide Run, Disconnected, Recipients;
    var c := Run(es).clients;
    RunInvariant(es);
    OldestLeaves(Run(es), k);
    RunStep(es, Disconnect(k));
    BroadcastReach(es + [Disconnect(k)]);
  }

  // ---------------------------------------------------------------------------
  // Lookups
  // ---------------------------------------------------------------------------

  /** -1 means that no occupied slot, live or left over, carries the id. */
  lemma {:induction false} LookupMissing(s: seq<ClientSlot>, id: ClientId)
    ensures Lookup(s, id) == -1 || Lookup(s, id) > 0
    ensures Lookup(s, id) == -1 <==> forall i :: 0 <= i < |s| ==> !(s[i].socket > 0 && SameId(s[i].id, id))
  {
    if |s| > 0 {
      LookupMissing(s[1..], id);
      assert forall i :: 1 <= i < |s| ==> s[i] == s[1..][i - 1];
    }
  }

  lemma {:induction false} LookupFirstPart(a: seq<ClientSlot>, b: seq<ClientSlot>, id: ClientId)
    ensures Lookup(a + b, id) == if Lookup(a, id) != -1 then Lookup(a, id) else Lookup(b, id)
  {
    if |a| == 0 {
      assert a + b == b;
    } else {
      LookupFirstPart(a[1..], b, id);
      assert (a + b)[1..] == a[1..] + b;
      LookupMissing(a, id);
    }
  }

  /** Scanning the whole array finds, for the id of a live client, the first live client with
      it, in spite of leftovers: its socket, from any state a run can be in and any ids. */
  lemma LookupOfLiveClient(s: State, id: ClientId, i: nat)
    requires Invariant(s)
    requires i < s.clients.count && SameId(s.clients.slots[i].id, id)
    requires forall j :: 0 <= j < i ==> !SameId(s.clients.slots[j].id, id)
    ensures Lookup(s.clients.slots, id) == s.clients.slots[i].socket
  {
    var slots := s.clients.slots;
    assert slots == slots[..i] + slots[i..];
    LookupFirstPart(slots[..i], slots[i..], id);
    LookupMissing(slots[..i], id);
  }

  /** In every run a nonempty id is never found, since every id is still the empty one; and
      the empty id finds slot 0, once it has been filled. */
  lemma NonemptyIdNeverFound(es: seq<Event>, id: ClientId)
    ensures var s := Run(es);
            Lookup(s.clients.slots, id) ==
            if CString(id) == [] && s.high > 0 then s.clients.slots[0].socket else -1
  {
    RunInvariant(es);
    LookupMissing(Run(es).clients.slots, id);
    assert CString(NoId()) == [];
  }
}
