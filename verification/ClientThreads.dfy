/** One client context under its threads: one controlling thread that connects and
    disconnects, the receiver threads those connects start, and any number of threads that
    send.  A step is one access to the shared context or one system call
    (src/client/client.c). */
module ClientThreads {
  import opened Bytes
  import opened Types
  import opened Serialization
  import opened FrameTheorems

  /** message_receiver_thread, by position. */
  datatype Receiver =
    | AtLoop                        // about to test `running`
    | AtRecv                        // about to call recv
    | Received(msgType: U32)        // decoded, not yet counted
    | Counted(msgType: U32)         // counted, callback and trade counter still to come
    | Leaving                       // out of the loop
    | Notifying                     // state set to disconnected, callback still to come
    | Done

  /** A receiver thread and how often it has called on_disconnect. */
  datatype ReceiverThread = ReceiverThread(at: Receiver, notified: nat)

  datatype Control =
    | Free
    | Opening | Marking | Spawning            // inside connect_to_server
    | Closing | Joining | Unmarking           // inside disconnect_from_server

  datatype Sender = Ready | OrderReady | RequestReady | BetweenCounters

  /** What connect and disconnect act on.  `spawnFailed` remembers that the last connect could
      not start a receiver, until a disconnect undoes it; `disconnected` that a disconnect
      has returned. */
  datatype Link = Link(
    running: bool, connected: bool, control: Control, handle: Maybe<nat>,
    spawnFailed: bool, disconnected: bool)

  /** The stored counters. */
  datatype Stats = Stats(messagesSent: U64, ordersSent: U64, messagesReceived: U64, tradesReceived: U64)

  /** How often each thing has happened so far. */
  datatype Counts = Counts(
    messagesSent: nat, ordersSent: nat, requestsSent: nat,
    messagesReceived: nat, tradesReceived: nat, statusCalls: nat)

  datatype System = System(
    link: Link, receivers: seq<ReceiverThread>, senders: map<nat, Sender>, stats: Stats, counts: Counts)

  /** What recv and the decoder make of a call. */
  datatype Arrival = NoData | Broken | Data(memory: seq<Byte>, size: nat, msg: MessageValue)

  datatype Step =
    | Connect
    | Disconnect
    | Proceed(success: bool)                       // the controlling thread's next step
    | Receive(receiver: nat, arrival: Arrival)     // that receiver's next step
    | SendOrder(sender: nat)
    | RequestMarketData(sender: nat)
    | FinishSend(sender: nat, success: bool)       // that sender's next step

  /** initialize_client. */
  function Initial(): System {
    System(Link(true, false, Free, None, false, false), [], map[],
           Stats(0, 0, 0, 0), Counts(0, 0, 0, 0, 0, 0))
  }

  function SenderAt(s: System, t: nat): Sender {
    if t in s.senders then s.senders[t] else Ready
  }

  predicate Decodes(a: Arrival) {
    a.Data? && a.size <= |a.memory| && ChecksumInBounds(a.memory, a.size) && a.msg.Valid()
    && Decode(a.memory, a.size, a.msg).code == SERIAL_SUCCESS
  }

  /** Where a receiver stands after recv and the decoder. */
  function Arrived(a: Arrival): (r: Receiver)
    ensures r == Leaving || r == AtLoop || (r.Received? && Encodable(r.msgType))
  {
    if a.Broken? then Leaving
    else if Decodes(a) then
      DeliveredIsWellFormed(a.memory, a.size, a.msg);
      Received(Decode(a.memory, a.size, a.msg).message.msgType)
    else AtLoop
  }

  function ControlStep(s: System, success: bool): System {
    var link := s.link;
    match link.control
    case Free => s
    case Opening => s.(link := link.(control := if success then Marking else Free))
    case Marking => s.(link := link.(connected := true, control := Spawning))
    case Spawning =>
      if success
      then s.(receivers := s.receivers + [ReceiverThread(AtLoop, 0)],
              link := link.(handle := Some(|s.receivers|), control := Free))
      else s.(link := link.(spawnFailed := true, control := Free))
    case Closing => s.(link := link.(control := Joining))
    case Joining =>
      if link.handle.None? then s.(link := link.(control := Unmarking))
      else if link.handle.value < |s.receivers| && s.receivers[link.handle.value].at == Done
      then s.(link := link.(handle := None, control := Unmarking))
      else s                                       // pthread_join still waits
    case Unmarking => s.(link := link.(connected := false, control := Free, spawnFailed := false, disconnected := true))
  }

  function MoveTo(s: System, r: nat, to: Receiver): System
    requires r < |s.receivers|
  {
    s.(receivers := s.receivers[r := s.receivers[r].(at := to)])
  }

  function ReceiverStep(s: System, r: nat, a: Arrival): System
    requires r < |s.receivers|
  {
    match s.receivers[r].at
    case AtLoop => MoveTo(s, r, if s.link.running then AtRecv else Leaving)
    case AtRecv => MoveTo(s, r, Arrived(a))
    case Received(t) =>
      MoveTo(s, r, Counted(t)).(stats := s.stats.(messagesReceived := Bump(s.stats.messagesReceived)),
                                counts := s.counts.(messagesReceived := s.counts.messagesReceived + 1))
    case Counted(t) => MoveTo(CallBack(s, t), r, AtLoop)
    case Leaving => MoveTo(s, r, Notifying).(link := s.link.(connected := false))
    case Notifying => s.(receivers := s.receivers[r := ReceiverThread(Done, s.receivers[r].notified + 1)])
    case Done => s
  }

  /** The switch of the receiver loop. */
  function CallBack(s: System, t: U32): (s': System)
    ensures s'.receivers == s.receivers
  {
    if t == MSG_ORDER_STATUS then s.(counts := s.counts.(statusCalls := s.counts.statusCalls + 1))
    else if t == MSG_TRADE_EXEC then
      s.(stats := s.stats.(tradesReceived := Bump(s.stats.tradesReceived)),
         counts := s.counts.(tradesReceived := s.counts.tradesReceived + 1))
    else s
  }

  function CountMessage(s: System): System {
    s.(stats := s.stats.(messagesSent := Bump(s.stats.messagesSent)),
       counts := s.counts.(messagesSent := s.counts.messagesSent + 1))
  }

  function CountOrder(s: System): System {
    s.(stats := s.stats.(ordersSent := Bump(s.stats.ordersSent)),
       counts := s.counts.(ordersSent := s.counts.ordersSent + 1))
  }

  function SenderStep(s: System, t: nat, success: bool): System {
    match SenderAt(s, t)
    case Ready => s
    case OrderReady =>
      if success then CountOrder(s).(senders := s.senders[t := BetweenCounters])
      else s.(senders := s.senders[t := Ready])
    case BetweenCounters => CountMessage(s).(senders := s.senders[t := Ready])
    case RequestReady =>
      if success
      then CountMessage(s).(counts := s.counts.(messagesSent := s.counts.messagesSent + 1,
                                                requestsSent := s.counts.requestsSent + 1),
                            senders := s.senders[t := Ready])
      else s.(senders := s.senders[t := Ready])
  }

  function Next(s: System, step: Step): System {
    match step
    case Connect =>
      if s.link.control == Free && !s.link.connected then s.(link := s.link.(control := Opening)) else s
    case Disconnect =>
      if s.link.control == Free then s.(link := s.link.(running := false, control := Closing)) else s
    case Proceed(success) => ControlStep(s, success)
    case Receive(r, a) => if r < |s.receivers| then ReceiverStep(s, r, a) else s
    case SendOrder(t) => BeginSend(s, t, OrderReady)
    case RequestMarketData(t) => BeginSend(s, t, RequestReady)
    case FinishSend(t, success) => SenderStep(s, t, success)
  }

  /** The state check at the head of both sending calls. */
  function BeginSend(s: System, t: nat, to: Sender): System {
    if SenderAt(s, t) == Ready && s.link.connected then s.(senders := s.senders[t := to]) else s
  }

  function RunFrom(s: System, steps: seq<Step>): System {
    if |steps| == 0 then s else Next(RunFrom(s, steps[..|steps| - 1]), steps[|steps| - 1])
  }

  function Run(steps: seq<Step>): System {
    RunFrom(Initial(), steps)
  }

  // ---------------------------------------------------------------------------
  // What every step keeps
  // ---------------------------------------------------------------------------

  /** Past the point where the receiver reports itself disconnected. */
  predicate Past(r: Receiver) {
    r == Notifying || r == Done
  }

  predicate InConnect(c: Control) {
    c == Opening || c == Marking || c == Spawning
  }

  /** Threads that have counted an order but not yet the message. */
  ghost function Between(senders: map<nat, Sender>): set<nat> {
    set t | t in senders && senders[t] == BetweenCounters
  }

  /** The handle's receiver has not reported itself disconnected yet. */
  predicate Receiving(rs: seq<ReceiverThread>, handle: Maybe<nat>) {
    handle.Some? && handle.value < |rs| && !Past(rs[handle.value].at)
  }

  ghost predicate ReceiversOk(rs: seq<ReceiverThread>, handle: Maybe<nat>) {
    && (handle.Some? ==> handle.value < |rs|)
    // only the receiver behind the handle can still be at work
    && (forall r :: 0 <= r < |rs| && handle != Some(r) ==> Past(rs[r].at))
    && (forall r :: 0 <= r < |rs| ==> rs[r].notified == if rs[r].at == Done then 1 else 0)
    && (forall r :: 0 <= r < |rs| ==> rs[r].at.Received? || rs[r].at.Counted? ==> Encodable(rs[r].at.msgType))
  }

  ghost predicate ControlOk(link: Link, receiving: bool) {
    && (InConnect(link.control) ==> !receiving)
    && (link.control == Spawning ==> link.connected)
    && (link.control == Opening || link.control == Marking ==> !link.connected)
    && (receiving ==> link.connected)
    && (link.connected && !link.spawnFailed && link.control == Free ==> receiving)
    && (link.spawnFailed ==> link.connected && !receiving && !InConnect(link.control))
    && (link.control == Unmarking ==> link.handle.None?)
    && (link.control == Closing || link.control == Joining || link.control == Unmarking || link.disconnected
        ==> !link.running)
  }

  const TWO_TO_64: int := 0x1_0000_0000_0000_0000

  /** The stored counters wrap around. */
  ghost predicate StatsOk(stats: Stats, counts: Counts) {
    && stats.messagesSent == counts.messagesSent % TWO_TO_64
    && stats.ordersSent == counts.ordersSent % TWO_TO_64
    && stats.messagesReceived == counts.messagesReceived % TWO_TO_64
    && stats.tradesReceived == counts.tradesReceived % TWO_TO_64
  }

  ghost predicate SentOk(counts: Counts, senders: map<nat, Sender>) {
    counts.messagesSent + |Between(senders)| == counts.ordersSent + counts.requestsSent
  }

  ghost predicate ReceivedOk(counts: Counts, rs: seq<ReceiverThread>, handle: Maybe<nat>) {
    && counts.statusCalls == 0
    && counts.tradesReceived
       + (if handle.Some? && handle.value < |rs| && rs[handle.value].at == Counted(MSG_TRADE_EXEC) then 1 else 0)
       <= counts.messagesReceived
  }

  /** After a completed disconnect no receiver gets as far as recv. */
  ghost predicate Quiet(link: Link, rs: seq<ReceiverThread>) {
    link.disconnected ==>
      !link.running
      && forall r :: 0 <= r < |rs| ==> rs[r].at == AtLoop || rs[r].at == Leaving || Past(rs[r].at)
  }

  ghost predicate Invariant(s: System) {
    && ReceiversOk(s.receivers, s.link.handle)
    && ControlOk(s.link, Receiving(s.receivers, s.link.handle))
    && StatsOk(s.stats, s.counts)
    && SentOk(s.counts, s.senders)
    && ReceivedOk(s.counts, s.receivers, s.link.handle)
    && Quiet(s.link, s.receivers)
  }

  lemma MoveSender(senders: map<nat, Sender>, t: nat, to: Sender)
    ensures |Between(senders[t := to])| + (if t in senders && senders[t] == BetweenCounters then 1 else 0)
         == |Between(senders)| + if to == BetweenCounters then 1 else 0
  {
    var before, after := Between(senders), Between(senders[t := to]);
    assert after - {t} == before - {t};
    assert |after| == |after - {t}| + if t in after then 1 else 0;
    assert |before| == |before - {t}| + if t in before then 1 else 0;
  }

  lemma SenderInvariant(s: System, t: nat, success: bool)
    requires Invariant(s)
    ensures Invariant(SenderStep(s, t, success))
  {
    hide ReceiversOk, ControlOk, Quiet, Receiving, Between, StatsOk, Bump;
    SenderStats(s, t, success);
    MoveSender(s.senders, t, Ready);
    MoveSender(s.senders, t, BetweenCounters);
  }

  lemma BeginSendInvariant(s: System, t: nat, to: Sender)
    requires Invariant(s) && to != BetweenCounters
    ensures Invariant(BeginSend(s, t, to))
  {
    hide ReceiversOk, ControlOk, Quiet, Receiving, ReceivedOk, Between, StatsOk;
    MoveSender(s.senders, t, to);
  }

  /** Moving one receiver on, as the receivers and the flags see it. */
  lemma MoveReceiver(rs: seq<ReceiverThread>, handle: Maybe<nat>, r: nat, to: ReceiverThread)
    requires ReceiversOk(rs, handle) && r < |rs|
    requires Past(rs[r].at) ==> Past(to.at)
    requires to.at.Received? || to.at.Counted? ==> Encodable(to.at.msgType)
    requires to.notified == if to.at == Done then 1 else 0
    ensures ReceiversOk(rs[r := to], handle)
    ensures !Past(rs[r].at) ==> handle == Some(r)
    ensures Receiving(rs[r := to], handle) == if handle == Some(r) then !Past(to.at) else Receiving(rs, handle)
  {
  }

  lemma ReceiverStats(s: System, r: nat, a: Arrival)
    requires StatsOk(s.stats, s.counts) && r < |s.receivers|
    ensures StatsOk(ReceiverStep(s, r, a).stats, ReceiverStep(s, r, a).counts)
    ensures SentOk(s.counts, s.senders) ==> SentOk(ReceiverStep(s, r, a).counts, s.senders)
  {
    hide Arrived, Between;
  }

  lemma SenderStats(s: System, t: nat, success: bool)
    requires StatsOk(s.stats, s.counts)
    ensures StatsOk(SenderStep(s, t, success).stats, SenderStep(s, t, success).counts)
  {
  }

  lemma ReceiverInvariant(s: System, r: nat, a: Arrival)
    requires Invariant(s) && r < |s.receivers|
    ensures Invariant(ReceiverStep(s, r, a))
  {
    hide Arrived, Between, StatsOk, SentOk, Bump;
    ReceiverStats(s, r, a);
    MoveReceiver(s.receivers, s.link.handle, r, ReceiverStep(s, r, a).receivers[r]);
    assert s.receivers[r := s.receivers[r]] == s.receivers;
    assert s.receivers[r].at.Counted? ==> s.receivers[r].at.msgType != MSG_ORDER_STATUS;
    hide ReceiversOk;
  }

  lemma ControlInvariant(s: System, success: bool)
    requires Invariant(s)
    ensures Invariant(ControlStep(s, success))
  {
    hide SentOk;
    if s.link.control == Spawning && success {
      SpawnReceiver(s.receivers, s.link.handle);
    }
    if s.link.control == Joining {
      JoinReceiver(s.receivers, s.link.handle);
    }
    if s.link.control == Unmarking {
      AllPast(s.receivers);
    }
    hide ReceiversOk;
  }

  lemma SpawnReceiver(rs: seq<ReceiverThread>, handle: Maybe<nat>)
    requires ReceiversOk(rs, handle) && !Receiving(rs, handle)
    ensures ReceiversOk(rs + [ReceiverThread(AtLoop, 0)], Some(|rs|))
  {
  }

  lemma JoinReceiver(rs: seq<ReceiverThread>, handle: Maybe<nat>)
    requires ReceiversOk(rs, handle)
    ensures handle.Some? && handle.value < |rs| && rs[handle.value].at == Done ==> ReceiversOk(rs, None)
  {
  }

  lemma AllPast(rs: seq<ReceiverThread>)
    ensures ReceiversOk(rs, None) ==> forall r :: 0 <= r < |rs| ==> Past(rs[r].at)
  {
  }

  lemma StepInvariant(s: System, step: Step)
    requires Invariant(s)
    ensures Invariant(Next(s, step))
  {
    match step
    case Connect =>
    case Disconnect =>
    case Proceed(success) => ControlInvariant(s, success);
    case Receive(r, a) =>
      if r < |s.receivers| {
        ReceiverInvariant(s, r, a);
      }
    case SendOrder(t) => BeginSendInvariant(s, t, OrderReady);
    case RequestMarketData(t) => BeginSendInvariant(s, t, RequestReady);
    case FinishSend(t, success) => SenderInvariant(s, t, success);
  }

  lemma {:induction false} RunInvariant(s: System, steps: seq<Step>)
    requires Invariant(s)
    ensures Invariant(RunFrom(s, steps))
  {
    if |steps| > 0 {
      RunInvariant(s, steps[..|steps| - 1]);
      StepInvariant(RunFrom(s, steps[..|steps| - 1]), steps[|steps| - 1]);
    }
  }

  // ---------------------------------------------------------------------------
  // Theorems over every interleaving
  // ---------------------------------------------------------------------------

  /** Counters: each stored one is its total modulo 2^64.  In total, trades never outrun messages
      received, and messages sent fall short of orders and requests sent by exactly the
      number of threads between their two increments. */
  lemma Counters(steps: seq<Step>)
    ensures var s := Run(steps);
            && StatsOk(s.stats, s.counts)
            && s.counts.tradesReceived <= s.counts.messagesReceived
            && s.counts.messagesSent + |Between(s.senders)| == s.counts.ordersSent + s.counts.requestsSent
  {
    RunInvariant(Initial(), steps);
  }

  /** What a reader of the stored counters sees: the two differ by requests and threads in
      between modulo 2^64, and until as many messages were counted, trades and, with no
      thread in between, orders do not exceed messages. */
  lemma StoredCounters(steps: seq<Step>)
    ensures var s := Run(steps);
            && (s.stats.messagesSent + |Between(s.senders)| - s.stats.ordersSent - s.counts.requestsSent)
               % TWO_TO_64 == 0
            && (s.counts.messagesReceived < TWO_TO_64 ==> s.stats.tradesReceived <= s.stats.messagesReceived)
            && (s.counts.messagesSent < TWO_TO_64 && Between(s.senders) == {} ==>
                  s.stats.ordersSent <= s.stats.messagesSent)
  {
    hide Run, Between;
    Counters(steps);
    var s := Run(steps);
    RemaindersAgree(s.counts.messagesSent, |Between(s.senders)|, s.counts.ordersSent, s.counts.requestsSent);
    StoredOrder(s.counts.tradesReceived, s.counts.messagesReceived);
    if Between(s.senders) == {} {
      StoredOrder(s.counts.ordersSent, s.counts.messagesSent);
    }
  }

  lemma StoredOrder(a: nat, b: nat)
    requires a <= b
    ensures b < TWO_TO_64 ==> a % TWO_TO_64 <= b % TWO_TO_64
  {
  }

  lemma RemaindersAgree(m: nat, between: nat, o: nat, requests: nat)
    requires m + between == o + requests
    ensures (m % TWO_TO_64 + between - o % TWO_TO_64 - requests) % TWO_TO_64 == 0
  {
    assert m % TWO_TO_64 + between - o % TWO_TO_64 - requests == TWO_TO_64 * (o / TWO_TO_64 - m / TWO_TO_64);
  }

  /** Only the marking step of connect ever says connected; no receiver does. */
  lemma OnlyConnectConnects(s: System, step: Step)
    requires Next(s, step).link.connected && !s.link.connected
    ensures step.Proceed? && s.link.control == Marking
  {
    hide Arrived;
  }

  /** Over whole runs: whoever finds the context disconnected, and later connected, had a connect
      reach its marking step in between. */
  lemma {:induction false} ConnectedByConnect(s: System, later: seq<Step>) returns (i: nat)
    requires !s.link.connected && RunFrom(s, later).link.connected
    ensures i < |later| && later[i].Proceed? && RunFrom(s, later[..i]).link.control == Marking
  {
    var n := |later| - 1;
    var before := RunFrom(s, later[..n]);
    if before.link.connected {
      i := ConnectedByConnect(s, later[..n]);
      assert later[..n][..i] == later[..i];
    } else {
      OnlyConnectConnects(before, later[n]);
      i := n;
    }
  }

  /** Receivers: each reports its disconnect at most once, and once it is done exactly once;
      at most one is still in its loop; and none ever reports an order status, because the
      decoder never yields one. */
  lemma Receivers(steps: seq<Step>)
    ensures var s := Run(steps);
            && (forall r :: 0 <= r < |s.receivers| ==>
                  s.receivers[r].notified == if s.receivers[r].at == Done then 1 else 0)
            && (forall q, r :: 0 <= q < r < |s.receivers| ==> Past(s.receivers[q].at) || Past(s.receivers[r].at))
            && s.counts.statusCalls == 0
  {
    RunInvariant(Initial(), steps);
  }

  /** Between calls the context says connected exactly while a receiver has not yet reported the
      disconnect, if and only if the last connect did start its receiver (or a disconnect
      came after it). */
  lemma ConnectedWhileReceiving(steps: seq<Step>)
    requires Run(steps).link.control == Free
    ensures var s := Run(steps);
            ((s.link.connected <==> exists r :: 0 <= r < |s.receivers| && !Past(s.receivers[r].at))
             <==> !s.link.spawnFailed)
  {
    RunInvariant(Initial(), steps);
    var s := Run(steps);
    if Receiving(s.receivers, s.link.handle) {
      assert !Past(s.receivers[s.link.handle.value].at);
    }
  }

  ghost predicate NobodyReceiving(s: System) {
    forall r :: 0 <= r < |s.receivers| ==> Past(s.receivers[r].at)
  }

  /** The only step that clears the mark is the last one of a disconnect. */
  lemma OnlyDisconnectRecovers(s: System, step: Step)
    requires Invariant(s) && s.link.spawnFailed
    ensures !Next(s, step).link.spawnFailed <==> step.Proceed? && s.link.control == Unmarking
    ensures NobodyReceiving(s)
    ensures s.link.control == Free && step != Disconnect ==>
              Next(s, step).link == s.link
  {
    hide Arrived, SentOk, ReceivedOk, StatsOk, Quiet;
  }

  /** The last step of a disconnect. */
  predicate CompletesDisconnect(s: System, step: Step) {
    step.Proceed? && s.link.control == Unmarking
  }

  ghost predicate NoDisconnectCompletes(s: System, later: seq<Step>) {
    forall i :: 0 <= i < |later| ==> !CompletesDisconnect(RunFrom(s, later[..i]), later[i])
  }

  /** What a failed start leaves behind lasts through every run until a disconnect completes, and
      no longer: throughout the context is connected, nobody receives and connects are
      refused; and the step that completes a disconnect ends it. */
  lemma {:induction false} FailedSpawnLasts(s: System, later: seq<Step>, next: Step)
    requires Invariant(s) && s.link.spawnFailed && NoDisconnectCompletes(s, later)
    ensures var s' := RunFrom(s, later);
            && Invariant(s') && s'.link.spawnFailed && s'.link.connected
            && NobodyReceiving(s') && Next(s', Connect) == s'
            && (Next(s', next).link.spawnFailed <==> !CompletesDisconnect(s', next))
            && (Next(s', next).link.connected <==> !CompletesDisconnect(s', next))
    decreases |later|
  {
    if |later| == 0 {
      OnlyDisconnectRecovers(s, next);
      StepInvariant(s, next);
      hide ReceiversOk, SentOk, ReceivedOk, StatsOk, Quiet, ReceiverStep, SenderStep, BeginSend;
    } else {
      var before, last := later[..|later| - 1], later[|later| - 1];
      hide Invariant, Next, CompletesDisconnect, NobodyReceiving;
      NoneBefore(s, later);
      FailedSpawnLasts(s, before, last);
      StepInvariant(RunFrom(s, before), last);
      FailedSpawnLasts(RunFrom(s, later), [], next);
    }
  }

  lemma NoneBefore(s: System, later: seq<Step>)
    requires |later| > 0 && NoDisconnectCompletes(s, later)
    ensures var n := |later| - 1;
            && NoDisconnectCompletes(s, later[..n]) && !CompletesDisconnect(RunFrom(s, later[..n]), later[n])
            && NoDisconnectCompletes(RunFrom(s, later), [])
  {
    hide RunFrom, CompletesDisconnect;
    var n := |later| - 1;
    forall i | 0 <= i < n ensures !CompletesDisconnect(RunFrom(s, later[..n][..i]), later[..n][i]) {
      assert later[..n][..i] == later[..i];
    }
  }

  /** Whenever a receiver cannot be started, in any state a run can be in, the context is left
      connected with nobody receiving; further connects are refused; and so it stays, through
      every later run without a disconnect. */
  lemma {:induction false} FailedSpawnStaysConnected(s: System, later: seq<Step>)
    requires Invariant(s) && s.link.control == Spawning
    requires Disconnect !in later
    ensures var s' := RunFrom(Next(s, Proceed(false)), later);
            && Invariant(s') && s'.link == s.link.(spawnFailed := true, control := Free)
            && s'.link.connected && NobodyReceiving(s') && Next(s', Connect) == s'
  {
    StepInvariant(s, Proceed(false));
    if |later| == 0 {
      OnlyDisconnectRecovers(Next(s, Proceed(false)), Connect);
    } else {
      var before, last := later[..|later| - 1], later[|later| - 1];
      FailedSpawnStaysConnected(s, before);
      var s' := RunFrom(Next(s, Proceed(false)), before);
      StepInvariant(s', last);
      OnlyDisconnectRecovers(s', last);
      hide Invariant, RunFrom;
    }
  }

  /** Once a disconnect has returned, no step of any thread changes what was received... */
  lemma QuietStep(s: System, step: Step)
    requires Invariant(s) && s.link.disconnected
    ensures Next(s, step).link.disconnected
    ensures Next(s, step).counts.messagesReceived == s.counts.messagesReceived
    ensures Next(s, step).counts.tradesReceived == s.counts.tradesReceived
  {
    hide ReceiversOk, ControlOk, SentOk, ReceivedOk, Arrived;
  }

  /** ... so through every later run, reconnects included, nothing is ever received again:
      `running` is set only at initialization. */
  lemma {:induction false} NothingAfterDisconnect(s: System, later: seq<Step>)
    requires Invariant(s) && s.link.disconnected
    ensures RunFrom(s, later).link.disconnected
    ensures RunFrom(s, later).counts.messagesReceived == s.counts.messagesReceived
    ensures RunFrom(s, later).counts.tradesReceived == s.counts.tradesReceived
  {
    if |later| > 0 {
      var before := later[..|later| - 1];
      NothingAfterDisconnect(s, before);
      RunInvariant(s, before);
      QuietStep(RunFrom(s, before), later[|later| - 1]);
    }
  }

  lemma FrozenAfterDisconnect(steps: seq<Step>, later: seq<Step>)
    requires Run(steps).link.disconnected
    ensures var before, after := Run(steps), RunFrom(Run(steps), later);
            && after.counts.messagesReceived == before.counts.messagesReceived
            && after.counts.tradesReceived == before.counts.tradesReceived
            && after.stats.messagesReceived == before.stats.messagesReceived
            && after.stats.tradesReceived == before.stats.tradesReceived
  {
    RunInvariant(Initial(), steps);
    NothingAfterDisconnect(Run(steps), later);
    RunInvariant(Run(steps), later);
  }
}
