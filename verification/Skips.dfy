/** Broadcasts take no lock: a disconnect during the scan moves the live clients one slot down,
    and one of them may pass the scan unseen. */
module Skips {
  import opened Bytes
  import opened Types
  import opened Serialization
  import Registry
  import opened Server
  import opened ServerThreads
  import opened Scans
  import opened Solo

  /** One live client, followed from step to step: its slot, or -1 once it has left; whether
      the scan has sent from that slot; whether a disconnect has moved it past the scan. */
  datatype Watch = Watch(position: int, sent: bool, skipped: bool) {
    predicate Live() {
      position >= 0
    }
  }

  /** The scan of thread t for the job stands right before the watched client. */
  predicate AtClient(s: System, t: nat, job: nat, w: Watch) {
    var thread := ThreadAt(s, t);
    thread.Scanning? && thread.job == job && w.Live() && thread.slot == w.position
  }

  /** What one step, taken from s, means for the watched client. */
  function Watched(s: System, step: Step, t: nat, job: nat, w: Watch): Watch {
    if !w.Live() then w
    else if step.Advance? && step.thread == t then w.(sent := w.sent || AtClient(s, t, job, w))
    else if step.ClientEvent? && step.event.Stop? then w.(position := -1)
    else if step.ClientEvent? && step.event.Disconnect? && step.event.k < s.registry.high then
      w.(position := w.position - 1, skipped := w.skipped || AtClient(s, t, job, w))
    else w
  }

  /** The client at slot q of s, after the steps. */
  function Follow(s: System, steps: seq<Step>, t: nat, job: nat, q: nat): Watch
    requires s.registry.Valid()
  {
    if |steps| == 0 then Watch(q, false, false)
    else
      var before := steps[..|steps| - 1];
      Watched(RunFrom(s, before), steps[|steps| - 1], t, job, Follow(s, before, t, job, q))
  }

  /** How many disconnects have taken effect on some client or other. */
  function Departures(s: System, steps: seq<Step>): nat
    requires s.registry.Valid()
  {
    if |steps| == 0 then 0
    else
      var before, last := steps[..|steps| - 1], steps[|steps| - 1];
      Departures(s, before)
      + if last.ClientEvent? && last.event.Disconnect? && last.event.k < RunFrom(s, before).registry.high then 1 else 0
  }

  ghost predicate NoStop(steps: seq<Step>) {
    forall i :: 0 <= i < |steps| ==> !(steps[i].ClientEvent? && steps[i].event.Stop?)
  }

  /** How long the client stays: it moves down one slot with each disconnect, and is live until it
      has been the oldest at one, or the server stops. */
  lemma {:induction false} FollowedPosition(s: System, steps: seq<Step>, t: nat, job: nat, q: nat)
    requires s.registry.Valid()
    ensures Follow(s, steps, t, job, q).position
            == if NoStop(steps) && Departures(s, steps) <= q then q - Departures(s, steps) else -1
  {
    if |steps| > 0 {
      var before, last := steps[..|steps| - 1], steps[|steps| - 1];
      hide RunFrom, AtClient, NoStop, Follow, Departures;
      FollowedPosition(s, before, t, job, q);
      FollowedStep(s, steps, t, job, q);
    }
  }

  lemma FollowedStep(s: System, steps: seq<Step>, t: nat, job: nat, q: nat)
    requires s.registry.Valid() && |steps| > 0
    ensures var before, last := steps[..|steps| - 1], steps[|steps| - 1];
            var stops := last.ClientEvent? && last.event.Stop?;
            var leaves := last.ClientEvent? && last.event.Disconnect?
                          && last.event.k < RunFrom(s, before).registry.high;
            && (NoStop(steps) <==> NoStop(before) && !stops)
            && Departures(s, steps) == Departures(s, before) + (if leaves then 1 else 0)
            && var p := Follow(s, before, t, job, q).position;
               Follow(s, steps, t, job, q).position
               == if p < 0 then p else if stops then -1 else if leaves then p - 1 else p
  {
    hide RunFrom, AtClient;
  }

  ghost predicate SentTo(outbox: seq<Emission>, job: nat, socket: int) {
    exists e :: 0 <= e < |outbox| && outbox[e].job == job && outbox[e].packet.socket == socket
  }

  /** The watched client is still in its slot, with its socket. */
  ghost predicate InItsSlot(registry: Registry.State, position: int, socket: int) {
    && Registry.Invariant(registry) && Registry.NoIds(registry)
    && 0 <= position < registry.clients.count <= registry.high
    && registry.clients.slots[position].socket == socket
  }

  /** A scan has dealt with the client, in one way or the other, exactly if it is past its slot. */
  ghost predicate Settled(thread: Thread, job: nat, w: Watch) {
    && !(w.sent && w.skipped)
    && ((w.sent || w.skipped) <==> (StillScanning(thread, job) ==> w.position < thread.slot))
  }

  ghost predicate WatchOk(s: System, t: nat, job: nat, socket: int, w: Watch) {
    && job < |s.issued|
    && (w.Live() ==> InItsSlot(s.registry, w.position, socket) && Settled(ThreadAt(s, t), job, w))
    && (w.sent ==> SentTo(s.outbox, job, socket))
  }

  lemma RegistryKeepsClient(r: Registry.State, e: Registry.Event, position: int, socket: int)
    requires InItsSlot(r, position, socket) && !e.Stop?
    ensures var there := if e.Disconnect? && e.k < r.high then position - 1 else position;
            there >= 0 ==> InItsSlot(Registry.Next(r, e), there, socket)
  {
    Registry.StepInvariant(r, e);
    hide Registry.Invariant, Registry.NoIds, Registry.Disconnected;
    if e.Disconnect? && e.k < r.high {
      Registry.OldestLeaves(r, e.k);
    }
  }

  /** A thread that has left a job's scan never takes it up again. */
  lemma NeverBack(s: System, step: Step, t: nat, job: nat)
    requires s.registry.Valid() && job < |s.issued| && !StillScanning(ThreadAt(s, t), job)
    ensures !StillScanning(ThreadAt(Next(s, step), t), job)
  {
    hide Decode, Rejected, DecodeOrder, Registry.Lookup, BuyerOf, SellerOf, Frame, Registry.Next;
  }

  lemma ScanComes(s: System, t: nat, position: U32, job: nat, socket: int, w: Watch)
    requires Invariant(s) && StillScanning(ThreadAt(s, t), job) && ThreadAt(s, t).slot <= w.position
    requires InItsSlot(s.registry, w.position, socket) && (w.sent ==> SentTo(s.outbox, job, socket))
    ensures var s', w' := AdvanceThread(s, t, position), Watched(s, Advance(t, position), t, job, w);
            && (w'.sent ==> SentTo(s'.outbox, job, socket))
            && StillScanning(ThreadAt(s', t), job) && ThreadAt(s', t).slot == ThreadAt(s, t).slot + 1
  {
    assert w.position < s.registry.high && s.registry.clients.slots[w.position].socket == socket;
    hide Invariant, InItsSlot, AdvanceThread, Frame, SentTo;
    ScanSends(s, t, position);
    var s' := AdvanceThread(s, t, position);
    SentGrows(s.outbox, s'.outbox, job, socket);
    if ThreadAt(s, t).slot == w.position {
      LastSent(s'.outbox, job, socket);
    }
  }

  /** One step of the scan settles the client in front of it and no other. */
  lemma ScanSettles(s: System, t: nat, position: U32, job: nat, socket: int, w: Watch)
    requires Invariant(s) && WatchOk(s, t, job, socket, w) && w.Live() && StillScanning(ThreadAt(s, t), job)
    ensures WatchOk(AdvanceThread(s, t, position), t, job, socket, Watched(s, Advance(t, position), t, job, w))
  {
    assert s.registry.Valid();
    hide Invariant, AdvanceThread, SentTo;
    AdvanceGrows(s, t, position);
    if ThreadAt(s, t).slot <= w.position {
      ScanComes(s, t, position, job, socket, w);
    } else {
      ScanGoesOn(s, t, position, w.position);
      SentGrows(s.outbox, AdvanceThread(s, t, position).outbox, job, socket);
    }
    hide InItsSlot;
  }

  lemma ScanGoesOn(s: System, t: nat, position: U32, place: int)
    requires s.registry.Valid() && ThreadAt(s, t).Scanning? && place < ThreadAt(s, t).slot
    ensures var thread := ThreadAt(AdvanceThread(s, t, position), t);
            StillScanning(thread, ThreadAt(s, t).job) ==> place < thread.slot
  {
    hide Emit, Begin;
  }

  lemma SentGrows(outbox: seq<Emission>, more: seq<Emission>, job: nat, socket: int)
    requires outbox <= more
    ensures SentTo(outbox, job, socket) ==> SentTo(more, job, socket)
  {
    if SentTo(outbox, job, socket) {
      var e :| 0 <= e < |outbox| && outbox[e].job == job && outbox[e].packet.socket == socket;
      assert more[e] == outbox[e];
    }
  }

  lemma LastSent(outbox: seq<Emission>, job: nat, socket: int)
    requires |outbox| > 0 && outbox[|outbox| - 1].job == job && outbox[|outbox| - 1].packet.socket == socket
    ensures SentTo(outbox, job, socket)
  {
  }

  lemma StepWatched(s: System, step: Step, t: nat, job: nat, socket: int, w: Watch)
    requires Invariant(s) && WatchOk(s, t, job, socket, w)
    ensures WatchOk(Next(s, step), t, job, socket, Watched(s, step, t, job, w))
  {
    assert s.registry.Valid();
    Grows(s, step);
    SentGrows(s.outbox, Next(s, step).outbox, job, socket);
    if w.Live() {
      if step.ClientEvent? {
        EventWatched(s, step.event, t, job, socket, w);
      } else if step.Advance? && step.thread == t && StillScanning(ThreadAt(s, t), job) {
        ScanSettles(s, t, step.position, job, socket, w);
      } else {
        OthersWatched(s, step, t, job, socket, w);
      }
    }
    hide Next, Invariant, SentTo, InItsSlot, Settled;
  }

  lemma EventWatched(s: System, e: Registry.Event, t: nat, job: nat, socket: int, w: Watch)
    requires s.registry.Valid() && WatchOk(s, t, job, socket, w) && w.Live()
    ensures WatchOk(Next(s, ClientEvent(e)), t, job, socket, Watched(s, ClientEvent(e), t, job, w))
  {
    if !e.Stop? {
      RegistryKeepsClient(s.registry, e, w.position, socket);
    }
    hide Registry.Next, InItsSlot, SentTo;
  }

  lemma OthersWatched(s: System, step: Step, t: nat, job: nat, socket: int, w: Watch)
    requires Invariant(s) && WatchOk(s, t, job, socket, w) && w.Live() && !step.ClientEvent?
    requires !(step.Advance? && step.thread == t && StillScanning(ThreadAt(s, t), job))
    ensures WatchOk(Next(s, step), t, job, socket, Watched(s, step, t, job, w))
  {
    assert s.registry.Valid();
    Grows(s, step);
    SentGrows(s.outbox, Next(s, step).outbox, job, socket);
    if StillScanning(ThreadAt(s, t), job) {
      OthersStay(s, step, t);
    } else {
      NeverBack(s, step, t, job);
    }
    OtherRegistry(s, step, w.position, socket);
    hide Invariant, InItsSlot, SentTo, Next;
  }

  lemma OtherRegistry(s: System, step: Step, position: int, socket: int)
    requires s.registry.Valid() && InItsSlot(s.registry, position, socket) && !step.ClientEvent?
    ensures InItsSlot(Next(s, step).registry, position, socket)
  {
    assert position >= 0;
    hide Decode, InItsSlot, AdvanceThread, Registry.Next;
    if step.Receive? {
      RegistryKeepsClient(s.registry, Registry.Hear(step.slot, step.now), position, socket);
    } else if step.Advance? {
      AdvanceGrows(s, step.thread, step.position);
    }
  }

  lemma {:induction false} FollowOk(s: System, steps: seq<Step>, t: nat, q: nat)
    requires Invariant(s) && ThreadAt(s, t).Scanning? && ThreadAt(s, t).slot == 0
    requires q < s.registry.clients.count
    ensures var job := ThreadAt(s, t).job;
            WatchOk(RunFrom(s, steps), t, job, s.registry.clients.slots[q].socket, Follow(s, steps, t, job, q))
  {
    var job, socket := ThreadAt(s, t).job, s.registry.clients.slots[q].socket;
    if |steps| == 0 {
      PayloadFits(s, t);
      hide ThreadsOk, JobsOk, EmissionsOk, ReceptionsOk, NumbersOk;
    } else {
      var before := steps[..|steps| - 1];
      FollowOk(s, before, t, q);
      RunFromInvariant(s, before);
      hide WatchOk, Watched, Invariant;
      StepWatched(RunFrom(s, before), steps[|steps| - 1], t, job, socket, Follow(s, before, t, job, q));
    }
  }

  /** The i-th of the steps is a disconnect that moves the live client past the scan. */
  ghost predicate MovedPast(s: System, steps: seq<Step>, t: nat, job: nat, q: nat, i: nat)
    requires s.registry.Valid() && i < |steps|
  {
    var at, step := RunFrom(s, steps[..i]), steps[i];
    && step.ClientEvent? && step.event.Disconnect? && step.event.k < at.registry.high
    && AtClient(at, t, job, Follow(s, steps[..i], t, job, q))
  }

  lemma MovedPastBefore(s: System, steps: seq<Step>, n: nat, t: nat, job: nat, q: nat, i: nat)
    requires s.registry.Valid() && i < n <= |steps|
    ensures MovedPast(s, steps, t, job, q, i) <==> MovedPast(s, steps[..n], t, job, q, i)
  {
    hide RunFrom, AtClient, Follow;
    assert steps[..n][..i] == steps[..i];
  }

  lemma MovedPastLast(s: System, steps: seq<Step>, t: nat, job: nat, q: nat)
    requires s.registry.Valid() && |steps| > 0
    ensures Follow(s, steps, t, job, q).skipped <==>
              || Follow(s, steps[..|steps| - 1], t, job, q).skipped
              || MovedPast(s, steps, t, job, q, |steps| - 1)
  {
    hide RunFrom;
  }

  /** Some disconnect does that. */
  ghost predicate PassedOver(s: System, steps: seq<Step>, t: nat, job: nat, q: nat)
    requires s.registry.Valid()
  {
    exists i :: 0 <= i < |steps| && MovedPast(s, steps, t, job, q, i)
  }

  lemma PassedOverStep(s: System, steps: seq<Step>, t: nat, job: nat, q: nat)
    requires s.registry.Valid() && |steps| > 0
    ensures var n := |steps| - 1;
            (PassedOver(s, steps, t, job, q)
             <==> PassedOver(s, steps[..n], t, job, q) || MovedPast(s, steps, t, job, q, n))
  {
    hide MovedPast;
    var n := |steps| - 1;
    var before := steps[..n];
    if PassedOver(s, before, t, job, q) {
      var i :| 0 <= i < n && MovedPast(s, before, t, job, q, i);
      MovedPastBefore(s, steps, n, t, job, q, i);
    }
    if PassedOver(s, steps, t, job, q) {
      var i :| 0 <= i < |steps| && MovedPast(s, steps, t, job, q, i);
      if i < n {
        MovedPastBefore(s, steps, n, t, job, q, i);
      }
    }
  }

  lemma {:induction false} SkippedWhen(s: System, steps: seq<Step>, t: nat, job: nat, q: nat)
    requires s.registry.Valid()
    ensures Follow(s, steps, t, job, q).skipped <==> PassedOver(s, steps, t, job, q)
  {
    if |steps| > 0 {
      SkippedWhen(s, steps[..|steps| - 1], t, job, q);
      MovedPastLast(s, steps, t, job, q);
      PassedOverStep(s, steps, t, job, q);
      hide MovedPast, Follow, PassedOver;
    }
  }

  /** Whom a broadcast misses.  Take any client that is live when a broadcast stands before slot 0
      and follow it, whatever else happens.  As long as it stays connected it keeps its socket
      and stands among the live clients; once the scan is over, it was sent the frame from its
      own slot, or some disconnect took effect just when the scan stood before its slot,
      and never both. */
  lemma WhoIsSkipped(s: System, steps: seq<Step>, t: nat, q: nat)
    requires Invariant(s) && ThreadAt(s, t).Scanning? && ThreadAt(s, t).slot == 0
    requires q < s.registry.clients.count
    ensures var job, socket := ThreadAt(s, t).job, s.registry.clients.slots[q].socket;
            var s', w := RunFrom(s, steps), Follow(s, steps, t, job, q);
            && (w.Live() ==>
                  && w.position < s'.registry.clients.count
                  && s'.registry.clients.slots[w.position].socket == socket
                  && (!StillScanning(ThreadAt(s', t), job) ==>
                        (w.sent <==> !PassedOver(s, steps, t, job, q))))
            && (w.sent ==> SentTo(s'.outbox, job, socket))
  {
    FollowOk(s, steps, t, q);
    SkippedWhen(s, steps, t, ThreadAt(s, t).job, q);
    hide Follow, RunFrom, Invariant, SentTo, PassedOver;
  }

  lemma RestRecipients(slots: seq<Registry.ClientSlot>, count: nat, k: nat)
    requires k < count <= |slots|
    requires forall i :: 0 <= i < count ==> slots[i].socket > 0
    requires forall i :: count <= i < |slots| ==> slots[i].socket <= 0
    ensures Registry.Recipients(slots[k + 1..count] + slots[count - 1..])
            == Registry.Sockets(slots[k + 1..count]) + [slots[count - 1].socket]
  {
    hide Registry.Recipients;
    var rest := slots[k + 1..count] + slots[count - 1..];
    Registry.RecipientsNoneOccupied(rest, count - k);
    assert rest[..count - k] == slots[k + 1..count] + [slots[count - 1]];
    Registry.RecipientsAllOccupied(rest[..count - k]);
  }

  lemma ShiftedRest(slots: seq<Registry.ClientSlot>, count: nat, k: nat)
    requires k < count <= |slots|
    ensures (slots[1..count] + slots[count - 1..])[k..] == slots[k + 1..count] + slots[count - 1..]
  {
  }

  /** The slots behind the scan after the shift. */
  lemma RestOfScan(r: Registry.State, h: nat, k: nat)
    requires Registry.Invariant(r) && Registry.NoIds(r)
    requires h < r.high && k < r.clients.count == r.high
    ensures var c := r.clients;
            Registry.Recipients(Registry.Next(r, Registry.Disconnect(h)).clients.slots[k..])
            == Registry.Sockets(c.slots[k + 1..c.count]) + [c.slots[c.count - 1].socket]
  {
    var c := r.clients;
    assert forall i :: c.count <= i < |c.slots| ==> c.slots[i] == Registry.EmptySlot();
    Registry.OldestLeaves(r, h);
    hide Registry.Next, Registry.Disconnected, Registry.NoIds, Registry.Recipients;
    ShiftedRest(c.slots, c.count, k);
    RestRecipients(c.slots, c.count, k);
  }

  /** What the scan still sends after a disconnect, if nothing else happens: it stood before live
      slot k, no slot held leftovers, and the frame goes to the clients behind k and to the
      newest one again. */
  lemma AfterADisconnect(s: System, t: nat, h: nat, position: U32,
                         job: nat, number: U64, payload: seq<Byte>, k: nat)
    requires Invariant(s) && ThreadAt(s, t) == Scanning(job, number, payload, k)
    requires h < s.registry.high && k < s.registry.clients.count == s.registry.high
    ensures |payload| <= UNION_SIZE
    ensures var c := s.registry.clients;
            var shifted := Next(s, ClientEvent(Registry.Disconnect(h)));
            var s' := Alone(shifted, t, position, MAX_CLIENTS + 1 - k);
            && ThreadAt(s', t) == Idle
            && Packets(s'.outbox) == Packets(s.outbox)
               + Copies(Registry.Sockets(c.slots[k + 1..c.count]) + [c.slots[c.count - 1].socket],
                        Frame(MSG_MARKET_DATA, payload))
  {
    hide Invariant, Frame, Copies, Registry.Sockets, Registry.Recipients, Registry.Next, Registry.Invariant,
         Registry.NoIds, Alone, AdvanceThread;
    PayloadFits(s, t);
    RegistryOk(s);
    RestOfScan(s.registry, h, k);
    var shifted := s.(registry := Registry.Next(s.registry, Registry.Disconnect(h)));
    AloneStart(shifted, t, position);
    RestAlone(shifted, t, position, 0, job, number, payload, k);
  }

  lemma RegistryOk(s: System)
    requires Invariant(s)
    ensures Registry.Invariant(s.registry) && Registry.NoIds(s.registry) && s.registry.Valid()
  {
  }

  lemma AloneStart(s: System, t: nat, position: U32)
    requires s.registry.Valid()
    ensures Alone(s, t, position, 0) == s
  {
  }

  /** So the client the scan stood before, unless it is the oldest or the newest, stays connected
      and is sent nothing more, if the descriptors differ. */
  lemma SkippedClientGetsNothing(s: System, t: nat, h: nat, position: U32, k: nat, n: nat)
    requires Invariant(s) && ThreadAt(s, t).Scanning? && ThreadAt(s, t).slot == k
    requires h < s.registry.high == s.registry.clients.count && 1 <= k < s.registry.high - 1
    requires forall i :: 0 <= i < s.registry.high && i != k ==>
               s.registry.clients.slots[i].socket != s.registry.clients.slots[k].socket
    ensures var shifted := Next(s, ClientEvent(Registry.Disconnect(h)));
            var out := Alone(shifted, t, position, MAX_CLIENTS + 1 - k).outbox;
            && shifted.registry.clients.Live()[k - 1] == s.registry.clients.slots[k]
            && (|s.outbox| <= n < |out| ==> out[n].packet.socket != s.registry.clients.slots[k].socket)
  {
    hide Invariant, Registry.Invariant, Registry.NoIds, Registry.Next, Registry.Disconnected, Frame, Alone,
         AdvanceThread;
    var Scanning(job, number, payload, _) := ThreadAt(s, t);
    AfterADisconnect(s, t, h, position, job, number, payload, k);
    RegistryOk(s);
    Registry.OldestLeaves(s.registry, h);
    var c := s.registry.clients;
    var to := Registry.Sockets(c.slots[k + 1..c.count]) + [c.slots[c.count - 1].socket];
    var out := Alone(Next(s, ClientEvent(Registry.Disconnect(h))), t, position, MAX_CLIENTS + 1 - k).outbox;
    if |s.outbox| <= n < |out| {
      assert Packets(out)[n] == Copies(to, Frame(MSG_MARKET_DATA, payload))[n - |s.outbox|];
    }
  }
}
