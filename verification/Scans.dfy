/** Within one operation, under every interleaving: no two frames at one place, none missing at
    the slots in use when it began, and which clients a scan passes over. */
module Scans {
  import opened Bytes
  import opened Types
  import opened Serialization
  import opened FrameTheorems
  import Registry
  import opened Server
  import opened ServerThreads

  function JobOf(thread: Thread): Maybe<nat> {
    match thread
    case Idle => None
    case Decoded(_, _) => None
    case Scanning(job, _, _, _) => Some(job)
    case FindBuyer(job, _, _) => Some(job)
    case FindSeller(job, _, _, _) => Some(job)
    case SendBuyer(job, _, _, _, _) => Some(job)
    case SendSeller(job, _, _, _) => Some(job)
  }

  /** The next place at which the thread may send. */
  function PlaceOf(thread: Thread): int {
    if thread.Scanning? then thread.slot else if thread.SendSeller? then TO_SELLER else TO_BUYER
  }

  ghost predicate SentBefore(outbox: seq<Emission>, job: nat, place: int) {
    forall i :: 0 <= i < |outbox| && outbox[i].job == job ==> outbox[i].place < place
  }

  ghost predicate ThreadInOrder(numbers: nat, outbox: seq<Emission>, thread: Thread) {
    JobOf(thread).Some? ==>
      JobOf(thread).value < numbers && SentBefore(outbox, JobOf(thread).value, PlaceOf(thread))
  }

  ghost predicate OneThreadPerJob(threads: map<nat, Thread>) {
    forall t, u :: t in threads && u in threads && t != u && JobOf(threads[t]).Some? ==>
      JobOf(threads[t]) != JobOf(threads[u])
  }

  ghost predicate OutboxInOrder(numbers: nat, outbox: seq<Emission>) {
    && (forall i :: 0 <= i < |outbox| ==> outbox[i].job < numbers)
    && (forall i, k :: 0 <= i < k < |outbox| && outbox[i].job == outbox[k].job ==> outbox[i].place < outbox[k].place)
  }

  /** No two threads work on one job, and each job's frames so far lie before the place its
      thread has reached, in rising order. */
  ghost predicate InOrder(s: System) {
    && (forall t :: t in s.threads ==> ThreadInOrder(|s.issued|, s.outbox, s.threads[t]))
    && OneThreadPerJob(s.threads)
    && OutboxInOrder(|s.issued|, s.outbox)
  }

  lemma MoveInOrder(s: System, t: nat, after: Thread)
    requires InOrder(s)
    requires JobOf(after).Some? ==> JobOf(after) == JobOf(ThreadAt(s, t)) && PlaceOf(ThreadAt(s, t)) <= PlaceOf(after)
    ensures InOrder(Put(s, t, after))
  {
    hide OutboxInOrder;
  }

  lemma IssueInOrder(s: System, t: nat, job: Job, after: Thread)
    requires InOrder(s) && JobOf(after) == Some(|s.issued|)
    ensures InOrder(Put(Issue(s, job, Some(t)), t, after))
  {
  }

  lemma EmitInOrder(s: System, t: nat, e: Emission)
    requires InOrder(s) && JobOf(ThreadAt(s, t)) == Some(e.job) && PlaceOf(ThreadAt(s, t)) == e.place
    ensures OutboxInOrder(|s.issued|, s.outbox + [e])
    ensures SentBefore(s.outbox, e.job, e.place)
    ensures forall u :: u in s.threads && u != t ==> ThreadInOrder(|s.issued|, s.outbox + [e], s.threads[u])
  {
    assert ThreadInOrder(|s.issued|, s.outbox, s.threads[t]);
    forall u | u in s.threads && u != t ensures ThreadInOrder(|s.issued|, s.outbox + [e], s.threads[u]) {
      assert ThreadInOrder(|s.issued|, s.outbox, s.threads[u]);
      assert JobOf(s.threads[u]) != JobOf(s.threads[t]);
    }
  }

  lemma SendInOrder(s: System, t: nat, socket: int, msgType: U32, payload: seq<Byte>, number: U64, after: Thread)
    requires InOrder(s) && JobOf(ThreadAt(s, t)).Some?
    requires JobOf(after).Some? ==>
               JobOf(after) == JobOf(ThreadAt(s, t)) && PlaceOf(ThreadAt(s, t)) < PlaceOf(after)
    ensures var thread := ThreadAt(s, t);
            InOrder(Send(s, t, socket, msgType, payload, JobOf(thread).value, number, PlaceOf(thread), after))
  {
    var thread := ThreadAt(s, t);
    MoveInOrder(s, t, Idle);
    MoveInOrder(s, t, after);
    if |payload| <= UNION_SIZE && socket > 0 {
      var e := Emission(Packet(socket, Frame(msgType, payload)), JobOf(thread).value, number, PlaceOf(thread));
      EmitInOrder(s, t, e);
      assert ThreadInOrder(|s.issued|, s.outbox + [e], after);
      hide ThreadInOrder, OneThreadPerJob, OutboxInOrder, JobOf, PlaceOf, Frame;
      var s' := Put(s, t, after).(outbox := s.outbox + [e]);
      assert InOrder(s');
    }
    hide InOrder, JobOf, PlaceOf, Frame;
  }

  lemma AdvanceInOrder(s: System, t: nat, position: U32)
    requires InOrder(s) && s.registry.Valid()
    ensures InOrder(AdvanceThread(s, t, position))
  {
    hide InOrder, Send, Issue, Registry.Lookup, Rejected, DecodeOrder, BuyerOf, SellerOf;
    MoveInOrder(s, t, Idle);
    var slots := s.registry.clients.slots;
    match ThreadAt(s, t)
    case Idle =>
    case Decoded(_, payload) =>
      var job, number := |s.issued|, s.sequenceNum;
      IssueInOrder(s, t, Broadcast(payload), Scanning(job, number, payload, 0));
      IssueInOrder(s, t, Trade(payload), FindBuyer(job, number, payload));
      AcceptInOrder(s, t);
    case Scanning(job, number, payload, slot) =>
      if slot < MAX_CLIENTS {
        SendInOrder(s, t, slots[slot].socket, MSG_MARKET_DATA, payload, number,
                    Scanning(job, number, payload, slot + 1));
      }
    case FindBuyer(job, number, payload) =>
      MoveInOrder(s, t, FindSeller(job, number, payload, Registry.Lookup(slots, BuyerOf(payload))));
    case FindSeller(job, number, payload, buyer) =>
      MoveInOrder(s, t, SendBuyer(job, number, payload, buyer, Registry.Lookup(slots, SellerOf(payload))));
    case SendBuyer(job, number, payload, buyer, seller) =>
      SendInOrder(s, t, buyer, MSG_TRADE_EXEC, payload, number, SendSeller(job, number, payload, seller));
    case SendSeller(job, number, payload, seller) =>
      SendInOrder(s, t, seller, MSG_TRADE_EXEC, payload, number, Idle);
  }

  lemma AcceptInOrder(s: System, t: nat)
    requires InOrder(s)
    ensures InOrder(Put(Issue(s, AcceptedOrder, Some(t)), t, Idle))
    ensures InOrder(Issue(s, GeneratedId, None))
  {
  }

  lemma StepInOrder(s: System, step: Step)
    requires InOrder(s) && s.registry.Valid()
    ensures InOrder(Next(s, step))
  {
    match step
    case ClientEvent(_) =>
    case Receive(t, slot, memory, size, msg, _) =>
      if Receives(s, t, slot, memory, size, msg) {
        DeliveredIsWellFormed(memory, size, msg);
        var m := Decode(memory, size, msg).message;
        hide Decode;
        MoveInOrder(s, t, Decoded(m.msgType, m.Payload()));
      }
    case Advance(t, position) => AdvanceInOrder(s, t, position);
    case GenerateId => AcceptInOrder(s, 0);
  }

  lemma {:induction false} RunInOrder(s: System, steps: seq<Step>)
    requires InOrder(s) && s.registry.Valid()
    ensures InOrder(RunFrom(s, steps))
  {
    if |steps| > 0 {
      RunInOrder(s, steps[..|steps| - 1]);
      StepInOrder(RunFrom(s, steps[..|steps| - 1]), steps[|steps| - 1]);
    }
  }

  /** However the threads interleave with each other, with arrivals and with departures, one
      operation sends at most one frame at each place: a broadcast at most one per slot, in
      slot order; a trade at most one to the buyer's socket and then one to the seller's. */
  lemma OncePerPlace(steps: seq<Step>, i: nat, k: nat)
    requires i < k < |Run(steps).outbox|
    requires Run(steps).outbox[i].job == Run(steps).outbox[k].job
    ensures Run(steps).outbox[i].place < Run(steps).outbox[k].place
  {
    RunInOrder(Initial(), steps);
  }

  // ---------------------------------------------------------------------------
  // Nothing is left out
  // ---------------------------------------------------------------------------

  ghost predicate SentAt(outbox: seq<Emission>, job: nat, place: nat) {
    exists e :: 0 <= e < |outbox| && outbox[e].job == job && outbox[e].place == place
  }

  ghost predicate StillScanning(thread: Thread, job: nat) {
    thread.Scanning? && thread.job == job
  }

  /** The thread that took the job's number is no longer scanning for it. */
  ghost predicate ScanOver(s: System, job: nat)
    requires job < |s.issued|
  {
    s.issued[job].taker.Some? ==> !StillScanning(ThreadAt(s, s.issued[job].taker.value), job)
  }

  /** The broadcast has sent at the place, or its thread has yet to come there. */
  ghost predicate Served(s: System, job: nat, place: nat)
    requires job < |s.issued|
  {
    || SentAt(s.outbox, job, place)
    || (s.issued[job].taker.Some?
        && var thread := ThreadAt(s, s.issued[job].taker.value);
           StillScanning(thread, job) && thread.slot <= place)
  }

  ghost predicate PlaceOk(s: System, job: nat, place: nat) {
    job < |s.issued| && s.issued[job].job.Broadcast? && place < s.issued[job].high ==>
      place < s.registry.high && Served(s, job, place)
  }

  ghost predicate Complete(s: System) {
    forall job: nat, place: nat :: PlaceOk(s, job, place)
  }

  lemma PayloadFits(s: System, t: nat)
    requires Invariant(s) && ThreadAt(s, t).Scanning?
    ensures ThreadAt(s, t).job < |s.issued| && |ThreadAt(s, t).payload| <= UNION_SIZE
  {
    hide Frame;
    var Scanning(job, number, payload, _) := ThreadAt(s, t);
    assert ThreadOk(s.issued, s.received, ThreadAt(s, t));
    assert JobOk(s.received, s.issued[job].job);
    var i :| 0 <= i < |s.received| && s.received[i].msgType == MSG_MARKET_DATA && s.received[i].payload == payload;
    assert ReceptionOk(s.received[i]);
  }

  /** A thread at work changes only by its own steps. */
  lemma OthersStay(s: System, step: Step, t: nat)
    requires s.registry.Valid() && ThreadAt(s, t) != Idle
    requires !(step.Advance? && step.thread == t)
    ensures ThreadAt(Next(s, step), t) == ThreadAt(s, t)
  {
    hide Decode, Rejected, DecodeOrder, Registry.Lookup, BuyerOf, SellerOf, Frame;
  }

  lemma AdvanceGrows(s: System, t: nat, position: U32)
    requires s.registry.Valid()
    ensures s.outbox <= AdvanceThread(s, t, position).outbox
    ensures s.issued <= AdvanceThread(s, t, position).issued
    ensures AdvanceThread(s, t, position).registry == s.registry
  {
    hide Rejected, DecodeOrder, Registry.Lookup, BuyerOf, SellerOf, Frame;
  }

  lemma Grows(s: System, step: Step)
    requires s.registry.Valid()
    ensures s.outbox <= Next(s, step).outbox && s.issued <= Next(s, step).issued
    ensures s.registry.high <= Next(s, step).registry.high
  {
    hide AdvanceThread, Decode;
    if step.Advance? {
      AdvanceGrows(s, step.thread, step.position);
    }
  }

  /** One step of a scan below the high-water mark sends. */
  lemma ScanSends(s: System, t: nat, position: U32)
    requires Invariant(s) && ThreadAt(s, t).Scanning? && ThreadAt(s, t).slot < s.registry.high
    ensures var Scanning(job, number, payload, slot) := ThreadAt(s, t);
            var s' := AdvanceThread(s, t, position);
            && |payload| <= UNION_SIZE
            && ThreadAt(s', t) == Scanning(job, number, payload, slot + 1)
            && s'.outbox == s.outbox + [Emission(Packet(s.registry.clients.slots[slot].socket,
                                                        Frame(MSG_MARKET_DATA, payload)), job, number, slot)]
  {
    PayloadFits(s, t);
    assert s.registry.clients.slots[ThreadAt(s, t).slot].socket > 0;
    hide Invariant, Frame, Begin;
  }

  lemma ServedStays(s: System, step: Step, job: nat, place: nat)
    requires Invariant(s) && job < |s.issued| && place < s.registry.high && Served(s, job, place)
    ensures job < |Next(s, step).issued| && Next(s, step).issued[job] == s.issued[job]
    ensures place < Next(s, step).registry.high && Served(Next(s, step), job, place)
  {
    assert s.registry.Valid();
    hide Invariant, AdvanceThread, Frame, Decode;
    Grows(s, step);
    var s' := Next(s, step);
    if SentAt(s.outbox, job, place) {
      var e :| 0 <= e < |s.outbox| && s.outbox[e].job == job && s.outbox[e].place == place;
      assert s'.outbox[e] == s.outbox[e];
    } else {
      var t := s.issued[job].taker.value;
      if step.Advance? && step.thread == t {
        ScanSends(s, t, step.position);
        assert s'.outbox[|s.outbox|].place == ThreadAt(s, t).slot;
      } else {
        OthersStay(s, step, t);
      }
    }
  }

  /** A broadcast begins in front of slot 0. */
  lemma BroadcastStarts(s: System, step: Step)
    requires s.registry.Valid()
    ensures |Next(s, step).issued| <= |s.issued| + 1
    ensures var s' := Next(s, step);
            |s.issued| < |s'.issued| && s'.issued[|s.issued|].job.Broadcast? ==>
              var begun := s'.issued[|s.issued|];
              && begun.taker.Some? && begun.high == s'.registry.high
              && StillScanning(ThreadAt(s', begun.taker.value), |s.issued|)
              && ThreadAt(s', begun.taker.value).slot == 0
  {
    hide Decode, Rejected, DecodeOrder, Registry.Next;
    if step.Advance? && !ThreadAt(s, step.thread).Decoded? {
      OnlyBeginIssues(s, step.thread, step.position);
      hide AdvanceThread;
    }
  }

  lemma StepComplete(s: System, step: Step, job: nat, place: nat)
    requires Invariant(s) && PlaceOk(s, job, place)
    ensures PlaceOk(Next(s, step), job, place)
  {
    assert s.registry.Valid();
    hide Invariant, Registry.Invariant, Registry.NoIds, Next, SentAt, Served;
    if job >= |s.issued| {
      NewPlace(s, step, job, place);
    } else if s.issued[job].job.Broadcast? && place < s.issued[job].high {
      ServedStays(s, step, job, place);
    } else {
      Grows(s, step);
    }
  }

  lemma NewPlace(s: System, step: Step, job: nat, place: nat)
    requires s.registry.Valid() && job >= |s.issued|
    ensures PlaceOk(Next(s, step), job, place)
  {
    hide Next, SentAt, Served, ThreadAt;
    BroadcastStarts(s, step);
    var s' := Next(s, step);
    if job < |s'.issued| && s'.issued[job].job.Broadcast? && place < s'.issued[job].high {
      ServedFromTheStart(s', job, place);
    }
  }

  lemma ServedFromTheStart(s: System, job: nat, place: nat)
    requires job < |s.issued| && s.issued[job].taker.Some?
    requires StillScanning(ThreadAt(s, s.issued[job].taker.value), job)
    requires ThreadAt(s, s.issued[job].taker.value).slot == 0
    ensures Served(s, job, place)
  {
  }

  lemma {:induction false} RunComplete(steps: seq<Step>)
    ensures Complete(Run(steps))
  {
    if |steps| > 0 {
      var before := steps[..|steps| - 1];
      RunComplete(before);
      RunInvariant(before);
      hide PlaceOk;
      forall job: nat, place: nat ensures PlaceOk(Run(steps), job, place) {
        StepComplete(Run(before), steps[|steps| - 1], job, place);
      }
    }
  }

  /** However the threads interleave, a broadcast whose thread has left its scan has sent exactly
      one frame at each slot below the mark where client_count had ever stood when the
      broadcast took its number. */
  lemma FinishedBroadcast(steps: seq<Step>, job: nat, place: nat) returns (e: nat)
    requires job < |Run(steps).issued| && Run(steps).issued[job].job.Broadcast?
    requires place < Run(steps).issued[job].high
    requires ScanOver(Run(steps), job)
    ensures var outbox := Run(steps).outbox;
            && e < |outbox| && outbox[e].job == job && outbox[e].place == place
            && forall f :: 0 <= f < |outbox| && outbox[f].job == job && outbox[f].place == place ==> f == e
  {
    RunComplete(steps);
    RunInOrder(Initial(), steps);
    assert PlaceOk(Run(steps), job, place);
    var outbox := Run(steps).outbox;
    e :| 0 <= e < |outbox| && outbox[e].job == job && outbox[e].place == place;
  }
}
