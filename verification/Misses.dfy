/** Exactly which connected clients a finished broadcast sends no frame at all, when no two
    clients share a descriptor. */
module Misses {
  import opened Bytes
  import opened Types
  import opened Serialization
  import Registry
  import opened Server
  import opened ServerThreads
  import opened Scans
  import opened Skips

  /** No other live client has the descriptor. */
  ghost predicate Distinct(c: Registry.Clients, position: int, socket: int)
    requires c.count <= |c.slots|
  {
    forall i :: 0 <= i < c.count && i != position ==> c.slots[i].socket != socket
  }

  predicate Reuses(step: Step, socket: int) {
    step.ClientEvent? && step.event.Accept? && step.event.socket == socket
  }

  /** The client at slot q has its descriptor to itself, now and during the steps. */
  ghost predicate OwnDescriptor(s: System, steps: seq<Step>, q: nat)
    requires s.registry.Valid() && q < s.registry.clients.count
  {
    && Distinct(s.registry.clients, q, s.registry.clients.slots[q].socket)
    && forall i :: 0 <= i < |steps| ==> !Reuses(steps[i], s.registry.clients.slots[q].socket)
  }

  /** The scan reads a slot behind the live ones that still holds the descriptor. */
  predicate ReadsLeftover(s: System, step: Step, t: nat, job: nat, socket: int)
    requires s.registry.Valid()
  {
    step.Advance? && step.thread == t
    && var thread := ThreadAt(s, t);
       && thread.Scanning? && thread.job == job
       && s.registry.clients.count <= thread.slot < MAX_CLIENTS
       && s.registry.clients.slots[thread.slot].socket == socket
  }

  ghost predicate LeftoverReadAt(s: System, steps: seq<Step>, t: nat, job: nat, socket: int, i: nat)
    requires s.registry.Valid() && i < |steps|
  {
    ReadsLeftover(RunFrom(s, steps[..i]), steps[i], t, job, socket)
  }

  ghost predicate LeftoverRead(s: System, steps: seq<Step>, t: nat, job: nat, socket: int)
    requires s.registry.Valid()
  {
    exists i :: 0 <= i < |steps| && LeftoverReadAt(s, steps, t, job, socket, i)
  }

  /** Nobody but thread t works on the job, and it does so by scanning. */
  ghost predicate OnlyScanner(s: System, t: nat, job: nat) {
    && job < |s.issued|
    && forall u: nat :: JobOf(ThreadAt(s, u)) == Some(job) ==> u == t && ThreadAt(s, u).Scanning?
  }

  // ---------------------------------------------------------------------------
  // One step
  // ---------------------------------------------------------------------------

  lemma JobKept(s: System, step: Step, u: nat, job: nat)
    requires s.registry.Valid() && job < |s.issued| && JobOf(ThreadAt(Next(s, step), u)) == Some(job)
    ensures JobOf(ThreadAt(s, u)) == Some(job)
    ensures ThreadAt(s, u).Scanning? ==> ThreadAt(Next(s, step), u).Scanning?
  {
    hide Decode, Rejected, DecodeOrder, Registry.Lookup, BuyerOf, SellerOf, Frame, Registry.Next;
  }

  lemma OnlyScannerStays(s: System, step: Step, t: nat, job: nat)
    requires s.registry.Valid() && OnlyScanner(s, t, job)
    ensures OnlyScanner(Next(s, step), t, job)
  {
    hide Next, JobOf;
    Grows(s, step);
    forall u: nat | JobOf(ThreadAt(Next(s, step), u)) == Some(job)
      ensures u == t && ThreadAt(Next(s, step), u).Scanning?
    {
      JobKept(s, step, u, job);
    }
  }

  /** Threads at other work send nothing for the job. */
  lemma OtherJobs(s: System, u: nat, position: U32, job: nat, socket: int)
    requires s.registry.Valid() && JobOf(ThreadAt(s, u)) != Some(job)
    ensures SentTo(AdvanceThread(s, u, position).outbox, job, socket) <==> SentTo(s.outbox, job, socket)
  {
    hide Rejected, DecodeOrder, Registry.Lookup, BuyerOf, SellerOf, Frame, SentTo;
    var after := AdvanceThread(s, u, position).outbox;
    AdvanceGrows(s, u, position);
    SentGrows(s.outbox, after, job, socket);
    assert |after| <= |s.outbox| + 1;
    assert |after| == |s.outbox| + 1 ==> after[|s.outbox|].job != job;
    OneMore(s.outbox, after, job, socket);
  }

  lemma OneMore(outbox: seq<Emission>, after: seq<Emission>, job: nat, socket: int)
    requires outbox <= after && |after| <= |outbox| + 1
    ensures SentTo(after, job, socket) <==>
              || SentTo(outbox, job, socket)
              || (|after| > |outbox| && after[|outbox|].job == job && after[|outbox|].packet.socket == socket)
  {
    SentGrows(outbox, after, job, socket);
    if SentTo(after, job, socket) {
      var e :| 0 <= e < |after| && after[e].job == job && after[e].packet.socket == socket;
      assert e < |outbox| ==> outbox[e] == after[e];
    }
  }

  /** One step of the scan sends to the descriptor exactly if it reads it. */
  lemma ScanReads(s: System, t: nat, position: U32, job: nat, socket: int)
    requires Invariant(s) && StillScanning(ThreadAt(s, t), job) && socket > 0
    ensures SentTo(AdvanceThread(s, t, position).outbox, job, socket) <==>
              || SentTo(s.outbox, job, socket)
              || (ThreadAt(s, t).slot < MAX_CLIENTS
                  && s.registry.clients.slots[ThreadAt(s, t).slot].socket == socket)
  {
    PayloadFits(s, t);
    assert s.registry.Valid();
    hide Invariant, Begin, Frame, SentTo;
    AdvanceGrows(s, t, position);
    OneMore(s.outbox, AdvanceThread(s, t, position).outbox, job, socket);
  }

  lemma StepSends(s: System, step: Step, t: nat, job: nat, socket: int)
    requires Invariant(s) && OnlyScanner(s, t, job) && socket > 0
    ensures s.registry.Valid()
    ensures SentTo(Next(s, step).outbox, job, socket) <==>
              || SentTo(s.outbox, job, socket)
              || (step.Advance? && step.thread == t && StillScanning(ThreadAt(s, t), job)
                  && ThreadAt(s, t).slot < MAX_CLIENTS
                  && s.registry.clients.slots[ThreadAt(s, t).slot].socket == socket)
  {
    assert s.registry.Valid();
    hide Invariant, AdvanceThread, SentTo, Decode;
    if step.Advance? {
      if JobOf(ThreadAt(s, step.thread)) == Some(job) {
        ScanReads(s, t, step.position, job, socket);
      } else {
        OtherJobs(s, step.thread, step.position, job, socket);
      }
    }
  }

  lemma DistinctStays(r: Registry.State, e: Registry.Event, position: int, socket: int)
    requires InItsSlot(r, position, socket) && Distinct(r.clients, position, socket)
    requires !e.Stop? && !(e.Accept? && e.socket == socket)
    ensures Registry.Next(r, e).Valid()
    ensures var there := if e.Disconnect? && e.k < r.high then position - 1 else position;
            there >= 0 ==> Distinct(Registry.Next(r, e).clients, there, socket)
  {
    hide Registry.Disconnected;
    if e.Disconnect? && e.k < r.high {
      Registry.OldestLeaves(r, e.k);
    }
  }

  lemma StepDistinct(s: System, step: Step, t: nat, job: nat, socket: int, w: Watch)
    requires s.registry.Valid() && w.Live() && InItsSlot(s.registry, w.position, socket)
    requires Distinct(s.registry.clients, w.position, socket) && !Reuses(step, socket)
    ensures var w' := Watched(s, step, t, job, w);
            w'.Live() ==> Distinct(Next(s, step).registry.clients, w'.position, socket)
  {
    hide InItsSlot, Distinct, AdvanceThread, Registry.Next, Decode;
    if step.ClientEvent? && !step.event.Stop? {
      DistinctStays(s.registry, step.event, w.position, socket);
    } else if step.Receive? {
      DistinctStays(s.registry, Registry.Hear(step.slot, step.now), w.position, socket);
    } else if step.Advance? {
      AdvanceGrows(s, step.thread, step.position);
    }
  }

  /** Everything sent to the client: from its own slot, or from a leftover. */
  ghost predicate Accounted(s: System, t: nat, job: nat, socket: int, w: Watch, leftover: bool) {
    && OnlyScanner(s, t, job)
    && (w.Live() ==>
          && InItsSlot(s.registry, w.position, socket)
          && Distinct(s.registry.clients, w.position, socket)
          && (SentTo(s.outbox, job, socket) <==> w.sent || leftover))
  }

  lemma StepAccounted(s: System, step: Step, t: nat, job: nat, socket: int, w: Watch, leftover: bool)
    requires Invariant(s) && WatchOk(s, t, job, socket, w) && Accounted(s, t, job, socket, w, leftover)
    requires socket > 0 && !Reuses(step, socket)
    ensures s.registry.Valid()
    ensures Accounted(Next(s, step), t, job, socket, Watched(s, step, t, job, w),
                      leftover || ReadsLeftover(s, step, t, job, socket))
  {
    assert s.registry.Valid();
    StepWatched(s, step, t, job, socket, w);
    hide Invariant, Next, SentTo, InItsSlot, OnlyScanner, Settled;
    OnlyScannerStays(s, step, t, job);
    StepSends(s, step, t, job, socket);
    if w.Live() {
      StepDistinct(s, step, t, job, socket, w);
      OwnOrLeftover(s, t, job, socket, w);
    }
  }

  /** A slot with the descriptor is the client's own or a leftover. */
  lemma OwnOrLeftover(s: System, t: nat, job: nat, socket: int, w: Watch)
    requires s.registry.Valid() && w.Live() && InItsSlot(s.registry, w.position, socket)
    requires Distinct(s.registry.clients, w.position, socket)
    ensures StillScanning(ThreadAt(s, t), job) && ThreadAt(s, t).slot < MAX_CLIENTS ==>
              (s.registry.clients.slots[ThreadAt(s, t).slot].socket == socket <==>
                 || AtClient(s, t, job, w)
                 || ReadsLeftover(s, Advance(t, 0), t, job, socket))
  {
  }

  // ---------------------------------------------------------------------------
  // Whole broadcasts
  // ---------------------------------------------------------------------------

  lemma LeftoverReadBefore(s: System, steps: seq<Step>, n: nat, t: nat, job: nat, socket: int, i: nat)
    requires s.registry.Valid() && i < n <= |steps|
    ensures LeftoverReadAt(s, steps, t, job, socket, i) <==> LeftoverReadAt(s, steps[..n], t, job, socket, i)
  {
    hide RunFrom, ReadsLeftover;
    assert steps[..n][..i] == steps[..i];
  }

  lemma LeftoverReadStep(s: System, steps: seq<Step>, t: nat, job: nat, socket: int)
    requires s.registry.Valid() && |steps| > 0
    ensures var n := |steps| - 1;
            (LeftoverRead(s, steps, t, job, socket)
             <==> LeftoverRead(s, steps[..n], t, job, socket) || LeftoverReadAt(s, steps, t, job, socket, n))
  {
    hide LeftoverReadAt;
    var n := |steps| - 1;
    var before := steps[..n];
    if LeftoverRead(s, before, t, job, socket) {
      var i :| 0 <= i < n && LeftoverReadAt(s, before, t, job, socket, i);
      LeftoverReadBefore(s, steps, n, t, job, socket, i);
    }
    if LeftoverRead(s, steps, t, job, socket) {
      var i :| 0 <= i < |steps| && LeftoverReadAt(s, steps, t, job, socket, i);
      if i < n {
        LeftoverReadBefore(s, steps, n, t, job, socket, i);
      }
    }
  }

  lemma NothingSentYet(s: System, t: nat, socket: int)
    requires Invariant(s) && InOrder(s) && ThreadAt(s, t).Scanning? && ThreadAt(s, t).slot == 0
    ensures !SentTo(s.outbox, ThreadAt(s, t).job, socket)
  {
    var thread := ThreadAt(s, t);
    assert ThreadOk(s.issued, s.received, thread);
    assert ThreadInOrder(|s.issued|, s.outbox, thread);
    assert EmissionsOk(s.issued, s.outbox);
    hide Invariant, InOrder, Frame;
    forall e | 0 <= e < |s.outbox| ensures s.outbox[e].job != thread.job {
      assert EmissionOk(s.issued, s.outbox[e]);
    }
  }

  lemma OneScannerAtStart(s: System, t: nat)
    requires Invariant(s) && InOrder(s) && ThreadAt(s, t).Scanning?
    ensures OnlyScanner(s, t, ThreadAt(s, t).job)
  {
    PayloadFits(s, t);
    hide Invariant, OutboxInOrder, ThreadInOrder;
  }

  lemma AccountedAtStart(s: System, t: nat, q: nat)
    requires Invariant(s) && InOrder(s) && ThreadAt(s, t).Scanning? && ThreadAt(s, t).slot == 0
    requires q < s.registry.clients.count && OwnDescriptor(s, [], q)
    ensures s.registry.clients.slots[q].socket > 0
    ensures Accounted(s, t, ThreadAt(s, t).job, s.registry.clients.slots[q].socket, Watch(q, false, false), false)
  {
    RegistryOk(s);
    NothingSentYet(s, t, s.registry.clients.slots[q].socket);
    OneScannerAtStart(s, t);
    hide Invariant, InOrder, SentTo, OnlyScanner;
  }

  lemma {:induction false} RunAccounted(s: System, steps: seq<Step>, t: nat, q: nat)
    requires Invariant(s) && InOrder(s) && ThreadAt(s, t).Scanning? && ThreadAt(s, t).slot == 0
    requires q < s.registry.clients.count && OwnDescriptor(s, steps, q)
    ensures var job, socket := ThreadAt(s, t).job, s.registry.clients.slots[q].socket;
            Accounted(RunFrom(s, steps), t, job, socket, Follow(s, steps, t, job, q),
                      LeftoverRead(s, steps, t, job, socket))
  {
    var job, socket := ThreadAt(s, t).job, s.registry.clients.slots[q].socket;
    AccountedAtStart(s, t, q);
    if |steps| > 0 {
      var before := steps[..|steps| - 1];
      RunAccounted(s, before, t, q);
      RunFromInvariant(s, before);
      FollowOk(s, before, t, q);
      hide Invariant, Accounted, WatchOk, Watched, LeftoverRead, ReadsLeftover, InOrder;
      StepAccounted(RunFrom(s, before), steps[|steps| - 1], t, job, socket, Follow(s, before, t, job, q),
                    LeftoverRead(s, before, t, job, socket));
      LeftoverReadStep(s, steps, t, job, socket);
    }
  }

  /** Who gets nothing.  Take any client that is live when a scan begins and has its descriptor to
      itself, and follow it through any steps that leave it connected.  What the broadcast
      has sent to its descriptor came from its own slot or from a leftover copy of it; so, once
      the scan is over, it was sent no frame at all if and only if some disconnect took effect
      just when the scan stood before its slot, and the scan read no leftover copy. */
  lemma WhoGetsNothing(s: System, steps: seq<Step>, t: nat, q: nat)
    requires Invariant(s) && InOrder(s) && ThreadAt(s, t).Scanning? && ThreadAt(s, t).slot == 0
    requires q < s.registry.clients.count && OwnDescriptor(s, steps, q)
    requires Follow(s, steps, t, ThreadAt(s, t).job, q).Live()
    ensures var job, socket := ThreadAt(s, t).job, s.registry.clients.slots[q].socket;
            var s', w := RunFrom(s, steps), Follow(s, steps, t, job, q);
            && (SentTo(s'.outbox, job, socket) <==> w.sent || LeftoverRead(s, steps, t, job, socket))
            && (!StillScanning(ThreadAt(s', t), job) ==>
                  (!SentTo(s'.outbox, job, socket) <==>
                     PassedOver(s, steps, t, job, q) && !LeftoverRead(s, steps, t, job, socket)))
  {
    RunAccounted(s, steps, t, q);
    WhoIsSkipped(s, steps, t, q);
    hide Follow, RunFrom, Invariant, InOrder, SentTo, PassedOver, LeftoverRead, OnlyScanner, OwnDescriptor;
  }

  // ---------------------------------------------------------------------------
  // Without leftover copies
  // ---------------------------------------------------------------------------

  /** No slot behind the live ones holds the descriptor. */
  ghost predicate NoCopy(c: Registry.Clients, socket: int)
    requires c.Valid()
  {
    forall k :: c.count <= k < MAX_CLIENTS ==> c.slots[k].socket != socket
  }

  /** Only a disconnect that finds the client the newest leaves a copy of it. */
  predicate CopiesClient(s: System, step: Step, position: int) {
    step.ClientEvent? && step.event.Disconnect? && step.event.k < s.registry.high
    && position + 1 == s.registry.clients.count
  }

  ghost predicate NeverCopied(s: System, steps: seq<Step>, t: nat, job: nat, q: nat)
    requires s.registry.Valid()
  {
    forall i :: 0 <= i < |steps| ==>
      !CopiesClient(RunFrom(s, steps[..i]), steps[i], Follow(s, steps[..i], t, job, q).position)
  }

  lemma NoCopyStays(r: Registry.State, e: Registry.Event, position: int, socket: int)
    requires InItsSlot(r, position, socket) && Distinct(r.clients, position, socket) && NoCopy(r.clients, socket)
    requires !e.Stop? && !(e.Disconnect? && e.k < r.high && position + 1 == r.clients.count)
    ensures Registry.Next(r, e).Valid() && NoCopy(Registry.Next(r, e).clients, socket)
  {
    hide Registry.Disconnected;
    if e.Disconnect? && e.k < r.high {
      Registry.OldestLeaves(r, e.k);
    }
  }

  lemma StepNoCopy(s: System, step: Step, position: int, socket: int)
    requires s.registry.Valid() && InItsSlot(s.registry, position, socket)
    requires Distinct(s.registry.clients, position, socket) && NoCopy(s.registry.clients, socket)
    requires !(step.ClientEvent? && step.event.Stop?) && !CopiesClient(s, step, position)
    ensures NoCopy(Next(s, step).registry.clients, socket)
  {
    hide InItsSlot, Distinct, NoCopy, AdvanceThread, Registry.Next, Decode;
    if step.ClientEvent? {
      NoCopyStays(s.registry, step.event, position, socket);
    } else if step.Receive? {
      NoCopyStays(s.registry, Registry.Hear(step.slot, step.now), position, socket);
    } else if step.Advance? {
      AdvanceGrows(s, step.thread, step.position);
    }
  }

  lemma NoCopyNoRead(s: System, step: Step, t: nat, job: nat, socket: int)
    requires s.registry.Valid() && NoCopy(s.registry.clients, socket)
    ensures !ReadsLeftover(s, step, t, job, socket)
  {
  }

  lemma NeverCopiedBefore(s: System, steps: seq<Step>, t: nat, job: nat, q: nat)
    requires s.registry.Valid() && |steps| > 0 && NeverCopied(s, steps, t, job, q)
    ensures var n := |steps| - 1;
            && NeverCopied(s, steps[..n], t, job, q)
            && !CopiesClient(RunFrom(s, steps[..n]), steps[n], Follow(s, steps[..n], t, job, q).position)
  {
    hide RunFrom, Follow, CopiesClient;
    var n := |steps| - 1;
    forall i | 0 <= i < n
      ensures !CopiesClient(RunFrom(s, steps[..n][..i]), steps[..n][i], Follow(s, steps[..n][..i], t, job, q).position)
    {
      assert steps[..n][..i] == steps[..i];
    }
  }

  lemma {:induction false} RunWithoutCopies(s: System, steps: seq<Step>, t: nat, q: nat)
    requires Invariant(s) && InOrder(s) && ThreadAt(s, t).Scanning? && ThreadAt(s, t).slot == 0
    requires q < s.registry.clients.count && OwnDescriptor(s, steps, q)
    requires NoCopy(s.registry.clients, s.registry.clients.slots[q].socket)
    requires NeverCopied(s, steps, t, ThreadAt(s, t).job, q)
    requires Follow(s, steps, t, ThreadAt(s, t).job, q).Live()
    ensures NoCopy(RunFrom(s, steps).registry.clients, s.registry.clients.slots[q].socket)
    ensures !LeftoverRead(s, steps, t, ThreadAt(s, t).job, s.registry.clients.slots[q].socket)
  {
    var job, socket := ThreadAt(s, t).job, s.registry.clients.slots[q].socket;
    if |steps| > 0 {
      var before, last := steps[..|steps| - 1], steps[|steps| - 1];
      NeverCopiedBefore(s, steps, t, job, q);
      LiveBefore(s, steps, t, job, q);
      RunAccounted(s, before, t, q);
      hide Invariant, InOrder, NoCopy, NeverCopied, LeftoverRead, CopiesClient, InItsSlot, Distinct, OnlyScanner,
           SentTo;
      RunWithoutCopies(s, before, t, q);
      StepNoCopy(RunFrom(s, before), last, Follow(s, before, t, job, q).position, socket);
      NoCopyNoRead(RunFrom(s, before), last, t, job, socket);
      LeftoverReadStep(s, steps, t, job, socket);
    }
  }

  lemma LiveBefore(s: System, steps: seq<Step>, t: nat, job: nat, q: nat)
    requires s.registry.Valid() && |steps| > 0 && Follow(s, steps, t, job, q).Live()
    ensures Follow(s, steps[..|steps| - 1], t, job, q).Live()
    ensures !(steps[|steps| - 1].ClientEvent? && steps[|steps| - 1].event.Stop?)
  {
    hide RunFrom, AtClient;
  }

  /** In particular, a client without leftover copies, and never the newest when a disconnect takes
      effect, gets no frame if and only if a disconnect moves it past the scan. */
  lemma PassedOverGetsNothing(s: System, steps: seq<Step>, t: nat, q: nat)
    requires Invariant(s) && InOrder(s) && ThreadAt(s, t).Scanning? && ThreadAt(s, t).slot == 0
    requires q < s.registry.clients.count && OwnDescriptor(s, steps, q)
    requires NoCopy(s.registry.clients, s.registry.clients.slots[q].socket)
    requires NeverCopied(s, steps, t, ThreadAt(s, t).job, q)
    requires Follow(s, steps, t, ThreadAt(s, t).job, q).Live()
    requires !StillScanning(ThreadAt(RunFrom(s, steps), t), ThreadAt(s, t).job)
    ensures !SentTo(RunFrom(s, steps).outbox, ThreadAt(s, t).job, s.registry.clients.slots[q].socket)
       <==> PassedOver(s, steps, t, ThreadAt(s, t).job, q)
  {
    hide Follow, RunFrom, Invariant, InOrder, SentTo, PassedOver, LeftoverRead, OwnDescriptor, NoCopy, NeverCopied;
    RunWithoutCopies(s, steps, t, q);
    WhoGetsNothing(s, steps, t, q);
  }
}
