/** Any number of handler threads over one server context, interleaved step by step.  A step
    is one access to shared state: an atomic fetch-and-add, the read-and-send of one array
    slot during a broadcast, one scan of find_client_socket, one send, or one operation under
    the clients mutex. */
module ServerThreads {
  import opened Bytes
  import opened Types
  import opened Serialization
  import opened FrameTheorems
  import opened Streams
  import Registry
  import opened Server

  /** What a sequence number was taken for. */
  datatype Job =
    | AcceptedOrder
    | Broadcast(payload: seq<Byte>)
    | Trade(payload: seq<Byte>)
    | GeneratedId

  /** A sequence number taken: what for, by which handler thread (none for a generated id), and
      where the high-water mark of client_count stood. */
  datatype Issued = Issued(job: Job, number: U64, taker: Maybe<nat>, high: nat)

  /** Where a handler thread stands; `number` and `payload` are in its own Message, `job` is
      the position of its number among all numbers issued. */
  datatype Thread =
    | Idle
    | Decoded(msgType: U32, payload: seq<Byte>)
    | Scanning(job: nat, number: U64, payload: seq<Byte>, slot: nat)
    | FindBuyer(job: nat, number: U64, payload: seq<Byte>)
    | FindSeller(job: nat, number: U64, payload: seq<Byte>, buyer: int)
    | SendBuyer(job: nat, number: U64, payload: seq<Byte>, buyer: int, seller: int)
    | SendSeller(job: nat, number: U64, payload: seq<Byte>, seller: int)

  /** A decoded message, and the receive buffer it came in with the number of fresh bytes. */
  datatype Reception = Reception(memory: seq<Byte>, size: nat, msgType: U32, payload: seq<Byte>)

  /** Where in its operation a frame was sent: at which slot of a broadcast, or to which side
      of a trade. */
  const TO_BUYER := -2
  const TO_SELLER := -1

  /** A frame handed to send, with the message's sequence number, which is not in the frame. */
  datatype Emission = Emission(packet: Packet, job: nat, number: U64, place: int)

  datatype System = System(
    registry: Registry.State, sequenceNum: U64, threads: map<nat, Thread>,
    issued: seq<Issued>, received: seq<Reception>, outbox: seq<Emission>)

  datatype Step =
    | ClientEvent(event: Registry.Event)
    | Receive(thread: nat, slot: nat, memory: seq<Byte>, size: nat, msg: MessageValue, now: int)
    | Advance(thread: nat, position: U32)
    | GenerateId

  function Initial(): System {
    System(Registry.Start(), 1, map[], [], [], [])
  }

  function ThreadAt(s: System, t: nat): Thread {
    if t in s.threads then s.threads[t] else Idle
  }

  predicate Receives(s: System, t: nat, slot: nat, memory: seq<Byte>, size: nat, msg: MessageValue) {
    && ThreadAt(s, t) == Idle && slot < s.registry.high
    && size <= |memory| == BUFFER_SIZE && ChecksumInBounds(memory, size) && msg.Valid()
    && Decode(memory, size, msg).code == SERIAL_SUCCESS
  }

  /** atomic_fetch_add on the counter. */
  function Issue(s: System, job: Job, taker: Maybe<nat>): System {
    s.(sequenceNum := Bump(s.sequenceNum),
       issued := s.issued + [Issued(job, s.sequenceNum, taker, s.registry.high)])
  }

  function Put(s: System, t: nat, thread: Thread): System {
    s.(threads := s.threads[t := thread])
  }

  function Emit(s: System, socket: int, msgType: U32, payload: seq<Byte>,
                job: nat, number: U64, place: int): System
    requires |payload| <= UNION_SIZE
  {
    if socket > 0
    then s.(outbox := s.outbox + [Emission(Packet(socket, Frame(msgType, payload)), job, number, place)])
    else s
  }

  /** Thread t starts on the message it decoded. */
  function Begin(s: System, t: nat, msgType: U32, payload: seq<Byte>, position: U32): System {
    var job, number := |s.issued|, s.sequenceNum;
    if msgType == MSG_MARKET_DATA then
      Put(Issue(s, Broadcast(payload), Some(t)), t, Scanning(job, number, payload, 0))
    else if msgType == MSG_TRADE_EXEC then
      Put(Issue(s, Trade(payload), Some(t)), t, FindBuyer(job, number, payload))
    else if |payload| == ORDER_SIZE && !Rejected(DecodeOrder(payload), position) then
      Put(Issue(s, AcceptedOrder, Some(t)), t, Idle)
    else Put(s, t, Idle)
  }

  function BuyerOf(payload: seq<Byte>): ClientId {
    if |payload| == TRADE_SIZE then DecodeTrade(payload).buyerId else Registry.NoId()
  }

  function SellerOf(payload: seq<Byte>): ClientId {
    if |payload| == TRADE_SIZE then DecodeTrade(payload).sellerId else Registry.NoId()
  }

  /** The next step of thread t.  (Payloads in flight always fit the union; the other branches
      only make the function total.) */
  function AdvanceThread(s: System, t: nat, position: U32): System
    requires s.registry.Valid()
  {
    var slots := s.registry.clients.slots;
    match ThreadAt(s, t)
    case Idle => s
    case Decoded(msgType, payload) => Begin(s, t, msgType, payload, position)
    case Scanning(job, number, payload, slot) => ScanSlot(s, t, job, number, payload, slot)
    case FindBuyer(job, number, payload) =>
      Put(s, t, FindSeller(job, number, payload, Registry.Lookup(slots, BuyerOf(payload))))
    case FindSeller(job, number, payload, buyer) =>
      Put(s, t, SendBuyer(job, number, payload, buyer, Registry.Lookup(slots, SellerOf(payload))))
    case SendBuyer(job, number, payload, buyer, seller) =>
      Send(s, t, buyer, MSG_TRADE_EXEC, payload, job, number, TO_BUYER, SendSeller(job, number, payload, seller))
    case SendSeller(job, number, payload, seller) =>
      Send(s, t, seller, MSG_TRADE_EXEC, payload, job, number, TO_SELLER, Idle)
  }

  function ScanSlot(s: System, t: nat, job: nat, number: U64, payload: seq<Byte>, slot: nat): System
    requires s.registry.Valid()
  {
    if slot >= MAX_CLIENTS then Put(s, t, Idle)
    else
      Send(s, t, s.registry.clients.slots[slot].socket, MSG_MARKET_DATA, payload, job, number, slot,
           Scanning(job, number, payload, slot + 1))
  }

  /** One send, and on to the thread's next position. */
  function Send(s: System, t: nat, socket: int, msgType: U32, payload: seq<Byte>,
                job: nat, number: U64, place: int, after: Thread): System
  {
    if |payload| > UNION_SIZE then Put(s, t, Idle)
    else Put(Emit(s, socket, msgType, payload, job, number, place), t, after)
  }

  function Next(s: System, step: Step): (s': System)
    requires s.registry.Valid()
    ensures s'.registry.Valid()
  {
    match step
    case ClientEvent(event) => s.(registry := Registry.Next(s.registry, event))
    case Receive(t, slot, memory, size, msg, now) =>
      if !Receives(s, t, slot, memory, size, msg) then s
      else
        var m := Decode(memory, size, msg).message;
        DeliveredIsWellFormed(memory, size, msg);
        Put(s.(registry := Registry.Next(s.registry, Registry.Hear(slot, now)),
               received := s.received + [Reception(memory, size, m.msgType, m.Payload())]),
            t, Decoded(m.msgType, m.Payload()))
    case Advance(t, position) => AdvanceThread(s, t, position)
    case GenerateId => Issue(s, GeneratedId, None)
  }

  /** Every sequence of steps is a run; a step that cannot happen changes nothing. */
  function RunFrom(s: System, steps: seq<Step>): (s': System)
    requires s.registry.Valid()
    ensures s'.registry.Valid()
  {
    if |steps| == 0 then s else Next(RunFrom(s, steps[..|steps| - 1]), steps[|steps| - 1])
  }

  function Run(steps: seq<Step>): (s: System)
    ensures s.registry.Valid()
  {
    RunFrom(Initial(), steps)
  }

  // ---------------------------------------------------------------------------
  // What every step keeps
  // ---------------------------------------------------------------------------

  const TWO_TO_64: int := 0x1_0000_0000_0000_0000

  /** The number issued for the job at the given position. */
  function NumberOf(job: nat): U64 {
    (job + 1) % TWO_TO_64
  }

  /** The message came in from some client. */
  ghost predicate Known(received: seq<Reception>, msgType: U32, payload: seq<Byte>) {
    exists i :: 0 <= i < |received| && received[i].msgType == msgType && received[i].payload == payload
  }

  ghost predicate ReceptionOk(r: Reception) {
    && WellFormed(r.msgType, r.payload)
    && HEADER_SIZE + |r.payload| <= |r.memory| == BUFFER_SIZE
    && HEADER_SIZE <= HeaderAt(r.memory).messageSize <= r.size <= |r.memory|
    && FrameSized(HeaderAt(r.memory).messageSize, r.msgType, r.payload) <= r.memory
    && r.memory[..4] == Frame(r.msgType, r.payload)[..4]
    && r.memory[8..HEADER_SIZE + |r.payload|] == Frame(r.msgType, r.payload)[8..]
    && r.msgType == HeaderAt(r.memory).msgType
    && (Frame(r.msgType, r.payload) <= r.memory
        <==> HeaderAt(r.memory).messageSize == HEADER_SIZE + |r.payload|)
  }

  ghost predicate JobOk(received: seq<Reception>, job: Job) {
    && (job.Broadcast? ==> Known(received, MSG_MARKET_DATA, job.payload))
    && (job.Trade? ==> Known(received, MSG_TRADE_EXEC, job.payload))
  }

  ghost predicate Holds(issued: seq<Issued>, job: nat, number: U64, work: Job) {
    job < |issued| && issued[job].number == number && issued[job].job == work
  }

  /** A socket found for an id: only the empty id is ever found. */
  ghost predicate FoundOk(socket: int, id: ClientId) {
    socket > 0 ==> CString(id) == []
  }

  ghost predicate ThreadOk(issued: seq<Issued>, received: seq<Reception>, thread: Thread) {
    match thread
    case Idle => true
    case Decoded(msgType, payload) => Known(received, msgType, payload)
    case Scanning(job, number, payload, _) => Holds(issued, job, number, Broadcast(payload))
    case FindBuyer(job, number, payload) => Holds(issued, job, number, Trade(payload))
    case FindSeller(job, number, payload, buyer) =>
      Holds(issued, job, number, Trade(payload)) && FoundOk(buyer, BuyerOf(payload))
    case SendBuyer(job, number, payload, buyer, seller) =>
      && Holds(issued, job, number, Trade(payload))
      && FoundOk(buyer, BuyerOf(payload)) && FoundOk(seller, SellerOf(payload))
    case SendSeller(job, number, payload, seller) =>
      Holds(issued, job, number, Trade(payload)) && FoundOk(seller, SellerOf(payload))
  }

  ghost predicate EmissionOk(issued: seq<Issued>, e: Emission) {
    && e.job < |issued| && e.number == issued[e.job].number
    && match issued[e.job].job
       case Broadcast(payload) =>
         && |payload| <= UNION_SIZE && e.packet.bytes == Frame(MSG_MARKET_DATA, payload)
         && 0 <= e.place < MAX_CLIENTS
       case Trade(payload) =>
         && |payload| <= UNION_SIZE && e.packet.bytes == Frame(MSG_TRADE_EXEC, payload)
         && (e.place == TO_BUYER || e.place == TO_SELLER)
         && CString(if e.place == TO_BUYER then BuyerOf(payload) else SellerOf(payload)) == []
       case _ => false
  }

  ghost predicate NumbersOk(issued: seq<Issued>, next: U64) {
    next == NumberOf(|issued|) && forall i :: 0 <= i < |issued| ==> issued[i].number == NumberOf(i)
  }

  ghost predicate ReceptionsOk(received: seq<Reception>) {
    forall i :: 0 <= i < |received| ==> ReceptionOk(received[i])
  }

  ghost predicate JobsOk(received: seq<Reception>, issued: seq<Issued>) {
    forall i :: 0 <= i < |issued| ==> JobOk(received, issued[i].job)
  }

  ghost predicate ThreadsOk(issued: seq<Issued>, received: seq<Reception>, threads: map<nat, Thread>) {
    forall t :: t in threads ==> ThreadOk(issued, received, threads[t])
  }

  ghost predicate EmissionsOk(issued: seq<Issued>, outbox: seq<Emission>) {
    forall i :: 0 <= i < |outbox| ==> EmissionOk(issued, outbox[i])
  }

  ghost predicate Invariant(s: System) {
    && Registry.Invariant(s.registry) && Registry.NoIds(s.registry)
    && NumbersOk(s.issued, s.sequenceNum)
    && ReceptionsOk(s.received)
    && JobsOk(s.received, s.issued)
    && ThreadsOk(s.issued, s.received, s.threads)
    && EmissionsOk(s.issued, s.outbox)
  }

  lemma OnlyEmptyIdFound(r: Registry.State, id: ClientId)
    requires Registry.NoIds(r)
    ensures FoundOk(Registry.Lookup(r.clients.slots, id), id)
  {
    Registry.LookupMissing(r.clients.slots, id);
    assert CString(Registry.NoId()) == [];
  }

  lemma GrowThread(issued: seq<Issued>, received: seq<Reception>, more: seq<Issued>, news: seq<Reception>,
                   thread: Thread)
    requires ThreadOk(issued, received, thread)
    ensures ThreadOk(issued + more, received + news, thread)
  {
    hide Known, FoundOk, BuyerOf, SellerOf;
    if thread.Decoded? {
      GrowKnown(received, news, thread.msgType, thread.payload);
    }
  }

  lemma GrowKnown(received: seq<Reception>, news: seq<Reception>, msgType: U32, payload: seq<Byte>)
    ensures Known(received, msgType, payload) ==> Known(received + news, msgType, payload)
  {
    if Known(received, msgType, payload) {
      var i :| 0 <= i < |received| && received[i].msgType == msgType && received[i].payload == payload;
      assert (received + news)[i] == received[i];
    }
  }

  lemma GrowThreads(issued: seq<Issued>, received: seq<Reception>, more: seq<Issued>, news: seq<Reception>,
                    threads: map<nat, Thread>)
    requires ThreadsOk(issued, received, threads)
    ensures ThreadsOk(issued + more, received + news, threads)
  {
    hide ThreadOk;
    forall t | t in threads ensures ThreadOk(issued + more, received + news, threads[t]) {
      GrowThread(issued, received, more, news, threads[t]);
    }
  }

  lemma GrowJobs(received: seq<Reception>, news: seq<Reception>, issued: seq<Issued>)
    requires JobsOk(received, issued)
    ensures JobsOk(received + news, issued)
  {
    hide Known;
    forall i | 0 <= i < |issued| ensures JobOk(received + news, issued[i].job) {
      var job := issued[i].job;
      assert JobOk(received, job);
      if job.Broadcast? { GrowKnown(received, news, MSG_MARKET_DATA, job.payload); }
      if job.Trade? { GrowKnown(received, news, MSG_TRADE_EXEC, job.payload); }
    }
  }

  lemma GrowNumbers(issued: seq<Issued>, next: U64, i: Issued)
    requires NumbersOk(issued, next) && i.number == next
    ensures NumbersOk(issued + [i], Bump(next))
  {
  }

  lemma IssueKeepsInvariant(s: System, job: Job, taker: Maybe<nat>)
    requires Invariant(s) && JobOk(s.received, job)
    ensures Invariant(Issue(s, job, taker))
  {
    var i := Issued(job, s.sequenceNum, taker, s.registry.high);
    GrowNumbers(s.issued, s.sequenceNum, i);
    GrowThreads(s.issued, s.received, [i], [], s.threads);
    assert s.received + [] == s.received;
    hide Registry.Invariant, Registry.NoIds, NumbersOk, ReceptionsOk, ThreadsOk, JobOk,
         Frame, BuyerOf, SellerOf, CString;
  }

  lemma PutKeepsInvariant(s: System, t: nat, thread: Thread)
    requires Invariant(s) && ThreadOk(s.issued, s.received, thread)
    ensures Invariant(Put(s, t, thread))
  {
    hide Registry.Invariant, Registry.NoIds, NumbersOk, ReceptionsOk, JobsOk, EmissionsOk, ThreadOk;
  }

  lemma ReceptionIsOk(memory: seq<Byte>, size: nat, msg: MessageValue)
    requires size <= |memory| == BUFFER_SIZE && ChecksumInBounds(memory, size) && msg.Valid()
    requires Decode(memory, size, msg).code == SERIAL_SUCCESS
    ensures var m := Decode(memory, size, msg).message;
            && |m.data| == UNION_SIZE && WellFormed(m.msgType, m.Payload())
            && ReceptionOk(Reception(memory, size, m.msgType, m.Payload()))
  {
    DecodeEncode(memory, size, msg);
    AcceptedIsFrame(memory, size, msg);
    hide Decode, Frame, FrameSized;
  }

  lemma ReceiveKeepsInvariant(s: System, step: Step)
    requires Invariant(s) && step.Receive?
    ensures Invariant(Next(s, step))
  {
    var Receive(t, slot, memory, size, msg, now) := step;
    if Receives(s, t, slot, memory, size, msg) {
      hide Decode, ChecksumInBounds, ReceptionOk, Invariant;
      ReceptionIsOk(memory, size, msg);
      var m := Decode(memory, size, msg).message;
      var r := Reception(memory, size, m.msgType, m.Payload());
      RecordKeepsInvariant(s, Registry.Hear(slot, now), r);
      var s' := s.(registry := Registry.Next(s.registry, Registry.Hear(slot, now)), received := s.received + [r]);
      assert s'.received[|s.received|] == r;
      PutKeepsInvariant(s', t, Decoded(m.msgType, m.Payload()));
    }
  }

  lemma RecordKeepsInvariant(s: System, hear: Registry.Event, r: Reception)
    requires Invariant(s) && ReceptionOk(r)
    ensures s.registry.Valid()
    ensures Invariant(s.(registry := Registry.Next(s.registry, hear), received := s.received + [r]))
  {
    Registry.StepInvariant(s.registry, hear);
    hide Registry.Invariant, Registry.NoIds, Registry.Next, ReceptionOk, NumbersOk, ThreadsOk, JobsOk, EmissionsOk;
    GrowJobs(s.received, [r], s.issued);
    GrowThreads(s.issued, s.received, [], [r], s.threads);
    assert s.issued + [] == s.issued;
  }

  lemma BeginKeepsInvariant(s: System, t: nat, msgType: U32, payload: seq<Byte>, position: U32)
    requires Invariant(s) && Known(s.received, msgType, payload)
    ensures Invariant(Begin(s, t, msgType, payload, position))
  {
    hide Rejected, DecodeOrder, Invariant;
    var job, number := |s.issued|, s.sequenceNum;
    PutKeepsInvariant(s, t, Idle);
    if msgType == MSG_MARKET_DATA {
      IssueKeepsInvariant(s, Broadcast(payload), Some(t));
      PutKeepsInvariant(Issue(s, Broadcast(payload), Some(t)), t, Scanning(job, number, payload, 0));
    } else if msgType == MSG_TRADE_EXEC {
      IssueKeepsInvariant(s, Trade(payload), Some(t));
      PutKeepsInvariant(Issue(s, Trade(payload), Some(t)), t, FindBuyer(job, number, payload));
    } else {
      IssueKeepsInvariant(s, AcceptedOrder, Some(t));
      PutKeepsInvariant(Issue(s, AcceptedOrder, Some(t)), t, Idle);
    }
  }

  lemma EmitKeepsInvariant(s: System, socket: int, msgType: U32, payload: seq<Byte>,
                           job: nat, number: U64, place: int)
    requires Invariant(s) && |payload| <= UNION_SIZE
    requires socket > 0 ==> EmissionOk(s.issued, Emission(Packet(socket, Frame(msgType, payload)), job, number, place))
    ensures Invariant(Emit(s, socket, msgType, payload, job, number, place))
  {
    hide Registry.Invariant, Registry.NoIds, NumbersOk, ReceptionsOk, JobsOk, ThreadsOk, EmissionOk, Frame;
  }

  lemma SendKeepsInvariant(s: System, t: nat, socket: int, msgType: U32, payload: seq<Byte>,
                           job: nat, number: U64, place: int, after: Thread)
    requires Invariant(s)
    requires |payload| <= UNION_SIZE && socket > 0 ==>
               EmissionOk(s.issued, Emission(Packet(socket, Frame(msgType, payload)), job, number, place))
    requires ThreadOk(s.issued, s.received, after)
    ensures Invariant(Send(s, t, socket, msgType, payload, job, number, place, after))
  {
    assert ThreadOk(s.issued, s.received, Idle);
    hide Invariant, EmissionOk, Frame, ThreadOk, Emit;
    if |payload| > UNION_SIZE {
      PutKeepsInvariant(s, t, Idle);
    } else {
      EmitKeepsInvariant(s, socket, msgType, payload, job, number, place);
      PutKeepsInvariant(Emit(s, socket, msgType, payload, job, number, place), t, after);
    }
  }

  lemma CurrentThreadOk(s: System, t: nat)
    requires Invariant(s)
    ensures s.registry.Valid() && ThreadOk(s.issued, s.received, ThreadAt(s, t))
  {
  }

  lemma AdvanceKeepsInvariant(s: System, t: nat, position: U32)
    requires Invariant(s)
    ensures Invariant(AdvanceThread(s, t, position))
  {
    hide Invariant, Registry.Invariant, Registry.NoIds, Begin, Send, ScanSlot, Holds, FoundOk, BuyerOf,
         SellerOf, Registry.Lookup;
    CurrentThreadOk(s, t);
    var slots := s.registry.clients.slots;
    match ThreadAt(s, t)
    case Idle =>
    case Decoded(msgType, payload) => BeginKeepsInvariant(s, t, msgType, payload, position);
    case Scanning(job, number, payload, slot) => ScanKeepsInvariant(s, t, job, number, payload, slot);
    case FindBuyer(job, number, payload) =>
      LookupFinds(s, BuyerOf(payload));
      PutKeepsInvariant(s, t, FindSeller(job, number, payload, Registry.Lookup(slots, BuyerOf(payload))));
    case FindSeller(job, number, payload, buyer) =>
      LookupFinds(s, SellerOf(payload));
      PutKeepsInvariant(s, t, SendBuyer(job, number, payload, buyer, Registry.Lookup(slots, SellerOf(payload))));
    case SendBuyer(job, number, payload, buyer, seller) =>
      var after := SendSeller(job, number, payload, seller);
      TradeSendKeepsInvariant(s, t, buyer, payload, job, number, TO_BUYER, after);
    case SendSeller(job, number, payload, seller) =>
      TradeSendKeepsInvariant(s, t, seller, payload, job, number, TO_SELLER, Idle);
  }

  lemma ScanKeepsInvariant(s: System, t: nat, job: nat, number: U64, payload: seq<Byte>, slot: nat)
    requires Invariant(s) && Holds(s.issued, job, number, Broadcast(payload))
    ensures Invariant(ScanSlot(s, t, job, number, payload, slot))
  {
    assert s.registry.Valid();
    hide Invariant, Frame, Send;
    PutKeepsInvariant(s, t, Idle);
    if slot < MAX_CLIENTS {
      SendKeepsInvariant(s, t, s.registry.clients.slots[slot].socket, MSG_MARKET_DATA, payload, job, number, slot,
                         Scanning(job, number, payload, slot + 1));
    }
  }

  lemma TradeSendKeepsInvariant(s: System, t: nat, socket: int, payload: seq<Byte>,
                                job: nat, number: U64, place: int, after: Thread)
    requires Invariant(s) && Holds(s.issued, job, number, Trade(payload)) && ThreadOk(s.issued, s.received, after)
    requires place == TO_BUYER || place == TO_SELLER
    requires FoundOk(socket, if place == TO_BUYER then BuyerOf(payload) else SellerOf(payload))
    ensures Invariant(Send(s, t, socket, MSG_TRADE_EXEC, payload, job, number, place, after))
  {
    hide Invariant, Frame, Send, ThreadOk, BuyerOf, SellerOf, CString;
    SendKeepsInvariant(s, t, socket, MSG_TRADE_EXEC, payload, job, number, place, after);
  }

  lemma LookupFinds(s: System, id: ClientId)
    requires Invariant(s)
    ensures FoundOk(Registry.Lookup(s.registry.clients.slots, id), id)
  {
    OnlyEmptyIdFound(s.registry, id);
  }

  lemma StepInvariant(s: System, step: Step)
    requires Invariant(s)
    ensures Invariant(Next(s, step))
  {
    match step
    case ClientEvent(event) => Registry.StepInvariant(s.registry, event);
    case Receive(_, _, _, _, _, _) => ReceiveKeepsInvariant(s, step);
    case Advance(t, position) => AdvanceKeepsInvariant(s, t, position);
    case GenerateId => IssueKeepsInvariant(s, GeneratedId, None);
  }

  lemma {:induction false} RunFromInvariant(s: System, steps: seq<Step>)
    requires Invariant(s)
    ensures Invariant(RunFrom(s, steps))
  {
    if |steps| > 0 {
      RunFromInvariant(s, steps[..|steps| - 1]);
      StepInvariant(RunFrom(s, steps[..|steps| - 1]), steps[|steps| - 1]);
    }
  }

  lemma RunInvariant(steps: seq<Step>)
    ensures Invariant(Run(steps))
  {
    Registry.RunInvariant([]);
    RunFromInvariant(Initial(), steps);
  }

  // ---------------------------------------------------------------------------
  // Theorems over every interleaving
  // ---------------------------------------------------------------------------

  /** The numbers taken are 1, 2, 3, ... modulo 2^64, in the order in which orders are accepted,
      broadcasts and trades begin and ids are generated; and they are pairwise distinct if and
      only if at most 2^64 were taken. */
  lemma NumbersIssued(steps: seq<Step>)
    ensures var issued := Run(steps).issued;
            && (forall i :: 0 <= i < |issued| ==> issued[i].number == (i + 1) % TWO_TO_64)
            && Run(steps).sequenceNum == (|issued| + 1) % TWO_TO_64
            && (|issued| <= TWO_TO_64
                <==> forall i, j :: 0 <= i < j < |issued| ==> issued[i].number != issued[j].number)
  {
    RunInvariant(steps);
    var issued := Run(steps).issued;
    if |issued| > TWO_TO_64 {
      assert issued[0].number == issued[TWO_TO_64].number;
    }
    forall i, j | 0 <= i < j < |issued| && |issued| <= TWO_TO_64 ensures issued[i].number != issued[j].number {
      DistinctNumbers(i, j);
    }
  }

  lemma DistinctNumbers(i: nat, j: nat)
    requires i != j && i < TWO_TO_64 && j < TWO_TO_64
    ensures NumberOf(i) != NumberOf(j)
  {
  }

  /** Which steps take a number, and for what: exactly a generated id, and the start on a decoded
      message, except for a rejected order. */
  lemma WhoTakesANumber(s: System, step: Step)
    requires Invariant(s)
    ensures Next(s, step).issued == s.issued + Taken(s, step)
  {
    assert s.registry.Valid();
    hide Invariant, WellFormed, TakesNumber, Receives, Decode, ChecksumInBounds, AdvanceThread;
    if step.Advance? {
      if ThreadAt(s, step.thread).Decoded? {
        DecodedIsWellFormed(s, step.thread);
        DecodedTakes(s, step.thread, step.position);
      } else {
        OnlyBeginIssues(s, step.thread, step.position);
      }
    }
  }

  lemma DecodedTakes(s: System, t: nat, position: U32)
    requires s.registry.Valid() && ThreadAt(s, t).Decoded?
    requires WellFormed(ThreadAt(s, t).msgType, ThreadAt(s, t).payload)
    ensures var Decoded(msgType, payload) := ThreadAt(s, t);
            AdvanceThread(s, t, position).issued == s.issued +
            if TakesNumber(msgType, payload, position)
            then [Issued(JobFor(msgType, payload), s.sequenceNum, Some(t), s.registry.high)] else []
  {
    hide Emit, Registry.Lookup, BuyerOf, SellerOf, Rejected, DecodeOrder;
  }

  lemma OnlyBeginIssues(s: System, t: nat, position: U32)
    requires s.registry.Valid() && !ThreadAt(s, t).Decoded?
    ensures AdvanceThread(s, t, position).issued == s.issued
  {
    hide Begin, Registry.Lookup, BuyerOf, SellerOf, Frame;
  }

  lemma DecodedIsWellFormed(s: System, t: nat)
    requires Invariant(s) && ThreadAt(s, t).Decoded?
    ensures WellFormed(ThreadAt(s, t).msgType, ThreadAt(s, t).payload)
  {
    hide Frame;
    var Decoded(msgType, payload) := ThreadAt(s, t);
    assert ThreadOk(s.issued, s.received, ThreadAt(s, t));
    var i :| 0 <= i < |s.received| && s.received[i].msgType == msgType && s.received[i].payload == payload;
    assert ReceptionOk(s.received[i]);
  }

  /** What a step takes. */
  ghost function Taken(s: System, step: Step): seq<Issued> {
    var thread := if step.Advance? then ThreadAt(s, step.thread) else Idle;
    if step.GenerateId? then [Issued(GeneratedId, s.sequenceNum, None, s.registry.high)]
    else if thread.Decoded? && WellFormed(thread.msgType, thread.payload)
            && TakesNumber(thread.msgType, thread.payload, step.position)
    then [Issued(JobFor(thread.msgType, thread.payload), s.sequenceNum, Some(step.thread), s.registry.high)]
    else []
  }

  ghost function TakenInRun(steps: seq<Step>): seq<Issued> {
    if |steps| == 0 then []
    else TakenInRun(steps[..|steps| - 1]) + Taken(Run(steps[..|steps| - 1]), steps[|steps| - 1])
  }

  /** Over whole runs: the numbers on record are exactly those taken by generated ids and by the
      starts on decoded messages other than rejected orders, in the order of those steps. */
  lemma {:induction false} NumbersTakenInRun(steps: seq<Step>)
    ensures Run(steps).issued == TakenInRun(steps)
  {
    if |steps| > 0 {
      var before := steps[..|steps| - 1];
      NumbersTakenInRun(before);
      RunInvariant(before);
      WhoTakesANumber(Run(before), steps[|steps| - 1]);
      hide Next, Invariant, Taken;
    }
  }

  function JobFor(msgType: U32, payload: seq<Byte>): Job {
    if msgType == MSG_MARKET_DATA then Broadcast(payload)
    else if msgType == MSG_TRADE_EXEC then Trade(payload)
    else AcceptedOrder
  }

  /** Relay: every frame the server ever hands to send decodes at a client, as market data or a
      trade execution; and it is, byte for byte apart from the message_size field, the front
      of some buffer a client filled. */
  lemma Relay(steps: seq<Step>, i: nat, tail: seq<Byte>, m: MessageValue)
    requires i < |Run(steps).outbox| && m.Valid()
    ensures var frame := Run(steps).outbox[i].packet.bytes;
            && ChecksumInBounds(frame + tail, |frame|)
            && Decode(frame + tail, |frame|, m).code == SERIAL_SUCCESS
            && Decode(frame + tail, |frame|, m).message.msgType in {MSG_MARKET_DATA, MSG_TRADE_EXEC}
            && Decode(frame + tail, |frame|, m).message.Payload() == frame[HEADER_SIZE..]
    ensures exists j :: 0 <= j < |Run(steps).received|
                        && ReceivedAs(Run(steps).received[j].memory, Run(steps).outbox[i].packet.bytes)
  {
    RunInvariant(steps);
    var s := Run(steps);
    var t, payload, j := Origin(s, i);
    EncodeDecode(t, payload, tail, |Frame(t, payload)|, m);
    assert ReceivedAs(s.received[j].memory, s.outbox[i].packet.bytes);
  }

  /** The message behind a frame in the outbox, and the reception it came with. */
  lemma Origin(s: System, i: nat) returns (t: U32, payload: seq<Byte>, j: nat)
    requires Invariant(s) && i < |s.outbox|
    ensures t == MSG_MARKET_DATA || t == MSG_TRADE_EXEC
    ensures WellFormed(t, payload) && s.outbox[i].packet.bytes == Frame(t, payload)
    ensures j < |s.received| && ReceptionOk(s.received[j])
    ensures s.received[j].msgType == t && s.received[j].payload == payload
    ensures t == MSG_TRADE_EXEC ==>
              var place := s.outbox[i].place;
              && (place == TO_BUYER || place == TO_SELLER)
              && CString(if place == TO_BUYER then BuyerOf(payload) else SellerOf(payload)) == []
  {
    assert EmissionOk(s.issued, s.outbox[i]);
    var job := s.issued[s.outbox[i].job].job;
    assert JobOk(s.received, job);
    t, payload := if job.Broadcast? then MSG_MARKET_DATA else MSG_TRADE_EXEC, job.payload;
    j :| 0 <= j < |s.received| && s.received[j].msgType == t && s.received[j].payload == payload;
    assert ReceptionOk(s.received[j]);
  }

  /** The buffer begins with the frame, give or take its message_size field. */
  ghost predicate ReceivedAs(memory: seq<Byte>, frame: seq<Byte>) {
    8 <= |frame| <= |memory| && memory[..4] == frame[..4] && memory[8..|frame|] == frame[8..]
  }

  /** Relayed byte for byte: if every buffer a client filled began with a frame some client
      encoded, then every frame the server sends is one of those frames. */
  lemma HonestRelay(steps: seq<Step>, i: nat, sent: seq<Sent>) returns (j: nat)
    requires i < |Run(steps).outbox|
    requires |sent| == |Run(steps).received| && AllWellFormed(sent)
    requires forall k :: 0 <= k < |sent| ==> Frame(sent[k].msgType, sent[k].payload) <= Run(steps).received[k].memory
    ensures j < |sent| && WellFormed(sent[j].msgType, sent[j].payload)
    ensures Run(steps).outbox[i].packet.bytes == Frame(sent[j].msgType, sent[j].payload)
  {
    RunInvariant(steps);
    var t, payload;
    t, payload, j := Origin(Run(steps), i);
    SameFrame(Run(steps).received[j], sent[j]);
  }

  lemma SameFrame(r: Reception, m: Sent)
    requires ReceptionOk(r) && WellFormed(m.msgType, m.payload)
    requires Frame(m.msgType, m.payload) <= r.memory
    ensures Frame(r.msgType, r.payload) == Frame(m.msgType, m.payload)
  {
    var rest := r.memory[HEADER_SIZE..];
    HeaderRoundTrip(FrameHeader(m.msgType, m.payload), rest);
    assert r.memory[..HEADER_SIZE] == Frame(m.msgType, m.payload)[..HEADER_SIZE]
        == HeaderBytes(FrameHeader(m.msgType, m.payload));
    assert r.memory == HeaderBytes(FrameHeader(m.msgType, m.payload)) + rest;
  }

  /** One operation, one number: all frames of one operation carry the number taken for it and
      are the same frame; and as long as at most 2^64 numbers were taken, frames that carry
      one number belong to one operation. */
  lemma OneNumberPerOperation(steps: seq<Step>, i: nat, j: nat)
    requires i < |Run(steps).outbox| && j < |Run(steps).outbox|
    ensures var s := Run(steps);
            var e, f := s.outbox[i], s.outbox[j];
            && e.job < |s.issued| && e.number == s.issued[e.job].number
            && (e.job == f.job ==> e.number == f.number && e.packet.bytes == f.packet.bytes)
            && (|s.issued| <= TWO_TO_64 ==> (e.number == f.number <==> e.job == f.job))
  {
    RunInvariant(steps);
    var s := Run(steps);
    assert EmissionOk(s.issued, s.outbox[i]) && EmissionOk(s.issued, s.outbox[j]);
    if s.outbox[i].job != s.outbox[j].job && |s.issued| <= TWO_TO_64 {
      DistinctNumbers(s.outbox[i].job, s.outbox[j].job);
    }
  }

  /** Trades never reach a named party: a trade frame goes to the buyer's side only if its buyer
      id is empty, and to the seller's side only if its seller id is. */
  lemma NamedTradesGoNowhere(steps: seq<Step>, i: nat)
    requires i < |Run(steps).outbox|
    ensures var e := Run(steps).outbox[i];
            var frame := e.packet.bytes;
            |frame| >= HEADER_SIZE
            && (HeaderAt(frame).msgType == MSG_TRADE_EXEC ==>
                  && |frame| == HEADER_SIZE + TRADE_SIZE
                  && (e.place == TO_BUYER || e.place == TO_SELLER)
                  && (e.place == TO_BUYER ==> CString(DecodeTrade(frame[HEADER_SIZE..]).buyerId) == [])
                  && (e.place == TO_SELLER ==> CString(DecodeTrade(frame[HEADER_SIZE..]).sellerId) == []))
  {
    RunInvariant(steps);
    var t, payload, _ := Origin(Run(steps), i);
    HeaderRoundTrip(FrameHeader(t, payload), payload);
    assert Frame(t, payload)[HEADER_SIZE..] == payload;
  }
}
