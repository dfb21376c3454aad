/** What the client's calls achieve: a connect connects, a disconnect ends, messages are received
    and counted, orders and requests are sent and counted (src/client/client.c). */
module ClientProgress {
  import opened Bytes
  import opened Types
  import opened Serialization
  import opened FrameTheorems
  import opened ClientThreads

  lemma RunLast(s: System, steps: seq<Step>, last: Step)
    ensures RunFrom(s, steps + [last]) == Next(RunFrom(s, steps), last)
  {
    assert (steps + [last])[..|steps|] == steps;
    hide Next;
  }

  lemma {:induction false} RunOn(s: System, a: seq<Step>, b: seq<Step>)
    ensures RunFrom(s, a + b) == RunFrom(RunFrom(s, a), b)
  {
    hide Next;
    if |b| == 0 {
      assert a + b == a;
    } else {
      hide RunFrom;
      var most, last := b[..|b| - 1], b[|b| - 1];
      RunOn(s, a, most);
      assert b == most + [last] && a + b == (a + most) + [last];
      RunLast(s, a + most, last);
      RunLast(RunFrom(s, a), most, last);
    }
  }

  lemma RunOne(s: System, a: Step)
    ensures RunFrom(s, [a]) == Next(s, a)
  {
    assert [a][..0] == [];
    assert RunFrom(s, []) == s;
    hide Next;
  }

  /** Two, three and four steps in a row. */
  lemma RunFour(s: System, a: Step, b: Step, c: Step, d: Step)
    ensures RunFrom(s, [a, b]) == Next(Next(s, a), b)
    ensures RunFrom(s, [a, b, c]) == Next(Next(Next(s, a), b), c)
    ensures RunFrom(s, [a, b, c, d]) == Next(Next(Next(Next(s, a), b), c), d)
  {
    hide Next, RunFrom;
    RunOne(s, a);
    RunOne(Next(s, a), b);
    RunOne(Next(Next(s, a), b), c);
    RunOne(Next(Next(Next(s, a), b), c), d);
    RunOn(s, [a], [b]);
    RunOn(s, [a, b], [c]);
    RunOn(s, [a, b, c], [d]);
    assert [a] + [b] == [a, b] && [a, b] + [c] == [a, b, c] && [a, b, c] + [d] == [a, b, c, d];
  }

  // ---------------------------------------------------------------------------
  // Connecting
  // ---------------------------------------------------------------------------

  /** A step of another thread than the controlling one. */
  predicate Other(step: Step) {
    !step.Connect? && !step.Disconnect? && !step.Proceed?
  }

  ghost predicate Others(steps: seq<Step>) {
    forall i :: 0 <= i < |steps| ==> Other(steps[i])
  }

  lemma OtherStep(s: System, step: Step)
    requires Invariant(s) && Other(step)
    ensures var s' := Next(s, step);
            && |s'.receivers| == |s.receivers|
            && s'.link == s.link.(connected := s'.link.connected)
            && (InConnect(s.link.control) ==> s'.link == s.link)
            && (forall r :: 0 <= r < |s.receivers| && s.receivers[r].at == Done ==> s'.receivers[r].at == Done)
  {
    hide SentOk, ReceivedOk, StatsOk, Quiet, Arrived, SenderStep;
    if step.FinishSend? {
      SendersKeepLink(s, step.sender, step.success);
    }
  }

  lemma SendersKeepLink(s: System, t: nat, success: bool)
    ensures SenderStep(s, t, success).link == s.link
    ensures SenderStep(s, t, success).receivers == s.receivers
  {
  }

  /** Whatever the other threads do meanwhile, the controlling thread finds its own place, and
      inside a connect also the state as it left them. */
  lemma {:induction false} OtherSteps(s: System, steps: seq<Step>)
    requires Invariant(s) && Others(steps)
    ensures var s' := RunFrom(s, steps);
            && Invariant(s') && |s'.receivers| == |s.receivers|
            && s'.link == s.link.(connected := s'.link.connected)
            && (InConnect(s.link.control) ==> s'.link == s.link)
  {
    if |steps| > 0 {
      hide Invariant;
      OtherSteps(s, steps[..|steps| - 1]);
      OtherStep(RunFrom(s, steps[..|steps| - 1]), steps[|steps| - 1]);
      StepInvariant(RunFrom(s, steps[..|steps| - 1]), steps[|steps| - 1]);
    }
  }

  /** Every step of the controlling thread, with anything other threads do before it. */
  lemma OthersThen(s: System, others: seq<Step>, step: Step)
    requires Invariant(s) && Others(others)
    ensures var s' := RunFrom(s, others);
            && Invariant(s') && |s'.receivers| == |s.receivers|
            && s'.link == s.link.(connected := s'.link.connected)
            && (InConnect(s.link.control) ==> s'.link == s.link)
            && RunFrom(s, others + [step]) == Next(s', step) && Invariant(Next(s', step))
  {
    hide Invariant, Next, RunFrom;
    OtherSteps(s, others);
    StepInvariant(RunFrom(s, others), step);
    RunOn(s, others, [step]);
    RunOne(RunFrom(s, others), step);
  }

  /** A connect connects.  From every state between calls in which the context is not connected,
      if the three system calls succeed, then with anything other threads do in between it
      ends connected, with one more receiver, at the head of its loop and behind the handle. */
  lemma ConnectConnects(s: System, xs: seq<Step>, ys: seq<Step>, zs: seq<Step>)
    requires Invariant(s) && s.link.control == Free && !s.link.connected
    requires Others(xs) && Others(ys) && Others(zs)
    ensures var s' := RunFrom(s, [Connect] + (xs + [Proceed(true)]) + (ys + [Proceed(true)]) + (zs + [Proceed(true)]));
            && s'.link == s.link.(connected := true, control := Free, handle := Some(|s.receivers|))
            && |s'.receivers| == |s.receivers| + 1
            && s'.receivers[|s.receivers|] == ReceiverThread(AtLoop, 0)
  {
    hide Invariant, RunFrom, Others, ReceiverStep, SenderStep, BeginSend;
    var go := Proceed(true);
    var s1 := Next(s, Connect);
    StepInvariant(s, Connect);
    OthersThen(s1, xs, go);
    var s2 := RunFrom(s1, xs + [go]);
    OthersThen(s2, ys, go);
    var s3 := RunFrom(s2, ys + [go]);
    OthersThen(s3, zs, go);
    FourParts(s, Connect, xs + [go], ys + [go], zs + [go]);
  }

  lemma FourParts(s: System, first: Step, xs: seq<Step>, ys: seq<Step>, zs: seq<Step>)
    ensures RunFrom(s, [first] + xs + ys) == RunFrom(RunFrom(Next(s, first), xs), ys)
    ensures RunFrom(s, [first] + xs + ys + zs) == RunFrom(RunFrom(RunFrom(Next(s, first), xs), ys), zs)
  {
    hide RunFrom, Next;
    RunOne(s, first);
    RunOn(s, [first], xs);
    RunOn(s, [first] + xs, ys);
    RunOn(s, [first] + xs + ys, zs);
  }

  /** A connect that is refused, because the context says connected or because no connection could
      be opened, leaves everything but the other threads' doings as it was. */
  lemma ConnectRefused(s: System, xs: seq<Step>)
    requires Invariant(s) && s.link.control == Free && Others(xs)
    ensures s.link.connected ==> Next(s, Connect) == s
    ensures !s.link.connected ==> RunFrom(s, [Connect] + (xs + [Proceed(false)])).link == s.link
    ensures !s.link.connected ==> |RunFrom(s, [Connect] + (xs + [Proceed(false)])).receivers| == |s.receivers|
  {
    var s1 := Next(s, Connect);
    StepInvariant(s, Connect);
    RunOne(s, Connect);
    OthersThen(s1, xs, Proceed(false));
    RunOn(s, [Connect], xs + [Proceed(false)]);
    hide Invariant, RunFrom, Others;
  }

  // ---------------------------------------------------------------------------
  // Disconnecting
  // ---------------------------------------------------------------------------

  predicate HandleDone(s: System) {
    s.link.handle.None? || (s.link.handle.value < |s.receivers| && s.receivers[s.link.handle.value].at == Done)
  }

  /** A disconnect ends.  From every state between calls: once the receiver behind the handle is
      done, and not before, the join returns, and the call ends with the context stopped,
      disconnected and without a receiver. */
  lemma DisconnectEnds(s: System, xs: seq<Step>, ys: seq<Step>, zs: seq<Step>)
    requires Invariant(s) && s.link.control == Free
    requires Others(xs) && Others(ys) && Others(zs)
    ensures var joining := RunFrom(s, [Disconnect] + (xs + [Proceed(true)]) + ys);
            && joining.link.control == Joining && !joining.link.running
            && (!HandleDone(joining) ==> Next(joining, Proceed(true)) == joining)
            && (HandleDone(joining) ==>
                  var s' := RunFrom(Next(joining, Proceed(true)), zs + [Proceed(true)]);
                  && s'.link == Link(false, false, Free, None, false, true)
                  && NobodyReceiving(s') && |s'.receivers| == |s.receivers|)
  {
    hide Invariant, RunFrom, Others, NobodyReceiving, ReceiverStep, SenderStep, BeginSend;
    var go := Proceed(true);
    var s1 := Next(s, Disconnect);
    StepInvariant(s, Disconnect);
    OthersThen(s1, xs, go);
    var s2 := RunFrom(s1, xs + [go]);
    OtherSteps(s2, ys);
    var joining := RunFrom(s2, ys);
    FourParts(s, Disconnect, xs + [go], ys, []);
    if HandleDone(joining) {
      JoinReturns(joining, zs);
    }
  }

  lemma JoinReturns(joining: System, zs: seq<Step>)
    requires Invariant(joining) && joining.link.control == Joining && HandleDone(joining) && !joining.link.running
    requires Others(zs)
    ensures var s' := RunFrom(Next(joining, Proceed(true)), zs + [Proceed(true)]);
            && s'.link == Link(false, false, Free, None, false, true)
            && NobodyReceiving(s') && |s'.receivers| == |joining.receivers|
  {
    hide Invariant, RunFrom, Others, NobodyReceiving, ReceiverStep, SenderStep, BeginSend;
    var go := Proceed(true);
    StepInvariant(joining, go);
    OthersThen(Next(joining, go), zs, go);
    NobodyWithoutHandle(RunFrom(Next(joining, go), zs + [go]));
  }

  lemma NobodyWithoutHandle(s: System)
    requires Invariant(s)
    ensures s.link.handle.None? ==> NobodyReceiving(s)
  {
  }

  /** How many of its own steps a receiver needs at most once `running` is cleared. */
  function Remaining(r: Receiver): nat {
    match r
    case AtRecv => 6
    case Received(_) => 5
    case Counted(_) => 4
    case AtLoop => 3
    case Leaving => 2
    case Notifying => 1
    case Done => 0
  }

  function OwnSteps(steps: seq<Step>, r: nat): nat {
    if |steps| == 0 then 0
    else
      var last := steps[|steps| - 1];
      OwnSteps(steps[..|steps| - 1], r) + if last.Receive? && last.receiver == r then 1 else 0
  }

  lemma WindDownStep(s: System, step: Step, r: nat)
    requires !s.link.running && r < |s.receivers|
    ensures var s' := Next(s, step);
            && !s'.link.running && r < |s'.receivers|
            && var before, after := Remaining(s.receivers[r].at), Remaining(s'.receivers[r].at);
               if step.Receive? && step.receiver == r then (before == after == 0 || after < before)
               else after == before
  {
    hide Arrived, Decodes, SenderStep, ControlStep, CallBack, Bump;
    if step.Receive? && step.receiver < |s.receivers| {
      OwnStepWinds(s, step.receiver, step.arrival);
      hide ReceiverStep;
    } else if step.Proceed? {
      ControlKeepsReceivers(s, step.success);
    } else if step.FinishSend? {
      SendersKeepLink(s, step.sender, step.success);
    }
  }

  lemma OwnStepWinds(s: System, r: nat, a: Arrival)
    requires !s.link.running && r < |s.receivers|
    ensures var s' := ReceiverStep(s, r, a);
            && !s'.link.running && |s'.receivers| == |s.receivers|
            && (forall q :: 0 <= q < |s.receivers| && q != r ==> s'.receivers[q] == s.receivers[q])
            && var before, after := Remaining(s.receivers[r].at), Remaining(s'.receivers[r].at);
               (before == after == 0 || after < before)
  {
    hide Decodes, Decode, Bump;
  }

  lemma ControlKeepsReceivers(s: System, success: bool)
    requires !s.link.running
    ensures var s' := ControlStep(s, success);
            !s'.link.running && s.receivers <= s'.receivers
  {
  }

  /** The join does return: once `running` is cleared, whatever else happens, a receiver is done
      after at most six steps of its own. */
  lemma {:induction false} ReceiverWindsDown(s: System, later: seq<Step>, r: nat)
    requires !s.link.running && r < |s.receivers|
    ensures var s' := RunFrom(s, later);
            && !s'.link.running && r < |s'.receivers|
            && (Remaining(s'.receivers[r].at) == 0
                || Remaining(s'.receivers[r].at) + OwnSteps(later, r) <= Remaining(s.receivers[r].at))
            && (OwnSteps(later, r) >= 6 ==> s'.receivers[r].at == Done)
  {
    if |later| > 0 {
      hide Next, RunFrom;
      assert later == later[..|later| - 1] + [later[|later| - 1]];
      RunLast(s, later[..|later| - 1], later[|later| - 1]);
      ReceiverWindsDown(s, later[..|later| - 1], r);
      WindDownStep(RunFrom(s, later[..|later| - 1]), later[|later| - 1], r);
    }
  }

  // ---------------------------------------------------------------------------
  // Receiving and sending
  // ---------------------------------------------------------------------------

  /** One turn of the receiver loop.  A message that decodes is counted once, a trade also as a
      trade, and the receiver is back at its loop; data that does not decode, or none,
      changes nothing; a broken connection makes it say disconnected, notify once and end. */
  lemma TurnOfReceiver(s: System, r: nat, a: Arrival)
    requires r < |s.receivers| && s.receivers[r].at == AtLoop && s.link.running
    ensures Decodes(a) ==>
              var t := Decode(a.memory, a.size, a.msg).message.msgType;
              RunFrom(s, [Receive(r, a), Receive(r, a), Receive(r, a), Receive(r, a)])
              == s.(stats := s.stats.(messagesReceived := Bump(s.stats.messagesReceived),
                                      tradesReceived := if t == MSG_TRADE_EXEC then Bump(s.stats.tradesReceived)
                                                        else s.stats.tradesReceived),
                    counts := s.counts.(messagesReceived := s.counts.messagesReceived + 1,
                                        tradesReceived := s.counts.tradesReceived
                                                          + if t == MSG_TRADE_EXEC then 1 else 0))
    ensures a.Broken? ==>
              RunFrom(s, [Receive(r, a), Receive(r, a), Receive(r, a), Receive(r, a), Receive(r, a)])
              == s.(link := s.link.(connected := false),
                    receivers := s.receivers[r := ReceiverThread(Done, s.receivers[r].notified + 1)])
    ensures !Decodes(a) && !a.Broken? ==> RunFrom(s, [Receive(r, a), Receive(r, a)]) == s
  {
    var g := Receive(r, a);
    RunFour(s, g, g, g, g);
    RunOn(s, [g, g, g, g], [g]);
    RunOne(RunFrom(s, [g, g, g, g]), g);
    assert [g, g, g, g] + [g] == [g, g, g, g, g];
    hide RunFrom, Decode, ChecksumInBounds;
    if Decodes(a) {
      DecodedTurn(s, r, a);
    } else if a.Broken? {
      BrokenTurn(s, r, a);
    } else {
      assert s.receivers[r := s.receivers[r].(at := AtRecv)][r := s.receivers[r]] == s.receivers;
    }
  }

  lemma DecodedTurn(s: System, r: nat, a: Arrival)
    requires r < |s.receivers| && s.receivers[r].at == AtLoop && s.link.running && Decodes(a)
    ensures var g, t := Receive(r, a), Decode(a.memory, a.size, a.msg).message.msgType;
            Next(Next(Next(Next(s, g), g), g), g)
            == s.(stats := s.stats.(messagesReceived := Bump(s.stats.messagesReceived),
                                    tradesReceived := if t == MSG_TRADE_EXEC then Bump(s.stats.tradesReceived)
                                                      else s.stats.tradesReceived),
                  counts := s.counts.(messagesReceived := s.counts.messagesReceived + 1,
                                      tradesReceived := s.counts.tradesReceived
                                                        + if t == MSG_TRADE_EXEC then 1 else 0))
  {
    var g, t := Receive(r, a), Decode(a.memory, a.size, a.msg).message.msgType;
    hide Next, Arrived, Decodes, Decode, Bump;
    ArrivesDecoded(a);
    ReceivedTurn(s, r, a, t);
    var s2 := MoveTo(s, r, Received(t));
    CountedTurn(s2, r, a, t);
    assert s2.receivers[r := s2.receivers[r].(at := AtLoop)] == s.receivers;
  }

  lemma ReceivedTurn(s: System, r: nat, a: Arrival, t: U32)
    requires r < |s.receivers| && s.receivers[r].at == AtLoop && s.link.running && Arrived(a) == Received(t)
    ensures Next(Next(s, Receive(r, a)), Receive(r, a)) == MoveTo(s, r, Received(t))
  {
    hide Arrived, Bump, SenderStep, ControlStep, BeginSend, CallBack;
    assert Next(s, Receive(r, a)) == MoveTo(s, r, AtRecv);
  }

  lemma ArrivesDecoded(a: Arrival)
    requires Decodes(a)
    ensures var t := Decode(a.memory, a.size, a.msg).message.msgType; Arrived(a) == Received(t) && Encodable(t)
  {
    hide Decode;
  }

  lemma CountedTurn(s: System, r: nat, a: Arrival, t: U32)
    requires r < |s.receivers| && s.receivers[r].at == Received(t) && Encodable(t)
    ensures var g := Receive(r, a);
            Next(Next(s, g), g)
            == s.(stats := s.stats.(messagesReceived := Bump(s.stats.messagesReceived),
                                    tradesReceived := if t == MSG_TRADE_EXEC then Bump(s.stats.tradesReceived)
                                                      else s.stats.tradesReceived),
                  counts := s.counts.(messagesReceived := s.counts.messagesReceived + 1,
                                      tradesReceived := s.counts.tradesReceived
                                                        + if t == MSG_TRADE_EXEC then 1 else 0),
                  receivers := s.receivers[r := s.receivers[r].(at := AtLoop)])
  {
    hide Arrived, Bump, SenderStep, ControlStep, BeginSend;
    var s1 := Next(s, Receive(r, a));
    assert s1.receivers[r := s1.receivers[r].(at := AtLoop)] == s.receivers[r := s.receivers[r].(at := AtLoop)];
  }

  lemma BrokenTurn(s: System, r: nat, a: Arrival)
    requires r < |s.receivers| && s.receivers[r].at == AtLoop && s.link.running && a.Broken?
    ensures var g := Receive(r, a);
            Next(Next(Next(Next(Next(s, g), g), g), g), g)
            == s.(link := s.link.(connected := false),
                  receivers := s.receivers[r := ReceiverThread(Done, s.receivers[r].notified + 1)])
  {
    var g := Receive(r, a);
    var s1 := Next(s, g);
    assert s1 == MoveTo(s, r, AtRecv);
    var s2 := Next(s1, g);
    assert s2 == MoveTo(s, r, Leaving);
    var s3 := Next(s2, g);
    assert s3 == MoveTo(s, r, Notifying).(link := s.link.(connected := false));
    var s4 := Next(s3, g);
    assert s4.receivers == s.receivers[r := ReceiverThread(Done, s.receivers[r].notified + 1)];
  }

  /** Every frame the encoder produces decodes at a client, whatever follows it. */
  lemma FrameDecodes(t: U32, p: seq<Byte>, tail: seq<Byte>, size: nat, msg: MessageValue)
    requires WellFormed(t, p) && msg.Valid() && |Frame(t, p)| <= size <= |Frame(t, p) + tail|
    ensures ChecksumInBounds(Frame(t, p) + tail, size)
    ensures Decodes(Data(Frame(t, p) + tail, size, msg))
    ensures Decode(Frame(t, p) + tail, size, msg).message.msgType == t
  {
    hide Frame, Decode, ChecksumInBounds;
    EncodeDecode(t, p, tail, size, msg);
  }

  /** From a new context on: a client that connects and is sent any frame receives and counts it. */
  lemma FirstMessage(t: U32, p: seq<Byte>, tail: seq<Byte>, size: nat, msg: MessageValue)
    requires WellFormed(t, p) && msg.Valid() && |Frame(t, p)| <= size <= |Frame(t, p) + tail|
    ensures var connected := Run([Connect, Proceed(true), Proceed(true), Proceed(true)]);
            var recv := Receive(0, Data(Frame(t, p) + tail, size, msg));
            var s := RunFrom(connected, [recv, recv, recv, recv]);
            && s.link.running && s.link.connected && s.link.control == Free && s.link.handle == Some(0)
            && s.receivers == [ReceiverThread(AtLoop, 0)]
            && s.stats.messagesReceived == 1 && s.stats.messagesSent == 0 && s.stats.ordersSent == 0
            && s.stats.tradesReceived == if t == MSG_TRADE_EXEC then 1 else 0
  {
    assert |p| <= UNION_SIZE;
    hide RunFrom, Run, Decodes, Decode, Frame, ChecksumInBounds, WellFormed, Next;
    FrameDecodes(t, p, tail, size, msg);
    FirstReceived(Data(Frame(t, p) + tail, size, msg));
  }

  lemma FirstReceived(a: Arrival)
    requires Decodes(a)
    ensures var connected := Run([Connect, Proceed(true), Proceed(true), Proceed(true)]);
            var s := RunFrom(connected, [Receive(0, a), Receive(0, a), Receive(0, a), Receive(0, a)]);
            && s.link.running && s.link.connected && s.link.control == Free && s.link.handle == Some(0)
            && s.receivers == [ReceiverThread(AtLoop, 0)]
            && s.stats.messagesReceived == 1 && s.stats.messagesSent == 0 && s.stats.ordersSent == 0
            && s.stats.tradesReceived
               == if Decode(a.memory, a.size, a.msg).message.msgType == MSG_TRADE_EXEC then 1 else 0
  {
    hide RunFrom, Run, Decodes, Decode, Next;
    FirstConnect();
    TurnOfReceiver(Run([Connect, Proceed(true), Proceed(true), Proceed(true)]), 0, a);
  }

  lemma FirstConnect()
    ensures Run([Connect, Proceed(true), Proceed(true), Proceed(true)])
            == System(Link(true, true, Free, Some(0), false, false), [ReceiverThread(AtLoop, 0)], map[],
                      Stats(0, 0, 0, 0), Counts(0, 0, 0, 0, 0, 0))
  {
    hide RunFrom;
    RunFour(Initial(), Connect, Proceed(true), Proceed(true), Proceed(true));
  }

  /** One call of send_order or request_market_data: a frame that is taken counts once as a
      message, and an order also as an order; a failed send, or a call while not connected,
      counts nothing. */
  lemma TurnOfSender(s: System, t: nat)
    requires SenderAt(s, t) == Ready
    ensures !s.link.connected ==> Next(s, SendOrder(t)) == s && Next(s, RequestMarketData(t)) == s
    ensures s.link.connected ==>
              var idle := s.(senders := s.senders[t := Ready]);
              && RunFrom(s, [SendOrder(t), FinishSend(t, false)]) == idle
              && RunFrom(s, [RequestMarketData(t), FinishSend(t, false)]) == idle
              && RunFrom(s, [SendOrder(t), FinishSend(t, true), FinishSend(t, true)])
                 == idle.(stats := s.stats.(ordersSent := Bump(s.stats.ordersSent),
                                            messagesSent := Bump(s.stats.messagesSent)),
                          counts := s.counts.(ordersSent := s.counts.ordersSent + 1,
                                              messagesSent := s.counts.messagesSent + 1))
              && RunFrom(s, [RequestMarketData(t), FinishSend(t, true)])
                 == idle.(stats := s.stats.(messagesSent := Bump(s.stats.messagesSent)),
                          counts := s.counts.(requestsSent := s.counts.requestsSent + 1,
                                              messagesSent := s.counts.messagesSent + 1))
  {
    if s.link.connected {
      hide RunFrom, Next;
      OrderTurn(s, t);
      RequestTurn(s, t);
      RunFour(s, SendOrder(t), FinishSend(t, true), FinishSend(t, true), Connect);
      RunFour(s, SendOrder(t), FinishSend(t, false), Connect, Connect);
      RunFour(s, RequestMarketData(t), FinishSend(t, true), Connect, Connect);
      RunFour(s, RequestMarketData(t), FinishSend(t, false), Connect, Connect);
    }
  }

  lemma OrderTurn(s: System, t: nat)
    requires SenderAt(s, t) == Ready && s.link.connected
    ensures Next(Next(s, SendOrder(t)), FinishSend(t, false)) == s.(senders := s.senders[t := Ready])
    ensures Next(Next(Next(s, SendOrder(t)), FinishSend(t, true)), FinishSend(t, true))
            == s.(senders := s.senders[t := Ready],
                  stats := s.stats.(ordersSent := Bump(s.stats.ordersSent), messagesSent := Bump(s.stats.messagesSent)),
                  counts := s.counts.(ordersSent := s.counts.ordersSent + 1,
                                      messagesSent := s.counts.messagesSent + 1))
  {
    var s1 := Next(s, SendOrder(t));
    assert s1.senders[t := Ready] == s.senders[t := Ready];
    var s2 := Next(s1, FinishSend(t, true));
    assert s2.senders[t := Ready] == s.senders[t := Ready];
  }

  lemma RequestTurn(s: System, t: nat)
    requires SenderAt(s, t) == Ready && s.link.connected
    ensures Next(Next(s, RequestMarketData(t)), FinishSend(t, false)) == s.(senders := s.senders[t := Ready])
    ensures Next(Next(s, RequestMarketData(t)), FinishSend(t, true))
            == s.(senders := s.senders[t := Ready],
                  stats := s.stats.(messagesSent := Bump(s.stats.messagesSent)),
                  counts := s.counts.(requestsSent := s.counts.requestsSent + 1,
                                      messagesSent := s.counts.messagesSent + 1))
  {
    var s1 := Next(s, RequestMarketData(t));
    assert s1.senders[t := Ready] == s.senders[t := Ready];
  }
}
