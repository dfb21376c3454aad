/** The server: connection bookkeeping and message processing over one shared context
    (src/server/server_core.c, server_network.c, server_handlers.c).  What leaves the
    process is logged: `outbox` holds every buffer handed to send, `closed` every
    descriptor handed to close. */
module Server {
  import opened Bytes
  import opened Types
  import opened Prices
  import opened Serialization
  import opened FrameTheorems
  import opened Registry

  datatype Packet = Packet(socket: int, bytes: seq<Byte>)

  datatype ServerState = Init | Starting | Running | Stopping | Stopped | Error

  /** One copy of the bytes for each socket. */
  function Copies(to: seq<int>, bytes: seq<Byte>): (ps: seq<Packet>)
    ensures |ps| == |to|
    ensures forall i :: 0 <= i < |to| ==> ps[i] == Packet(to[i], bytes)
  {
    seq(|to|, i requires 0 <= i < |to| => Packet(to[i], bytes))
  }

  /** What process_order refuses.  The position sum wraps around at 2^32. */
  predicate Rejected(o: Order, position: U32) {
    || o.quantity == 0
    || o.quantity > 1000000
    || (o.side == ORDER_SIDE_BUY && (position as int + o.quantity) % 0x1_0000_0000 > 1000000)
  }

  predicate Improves(o: Order, ask: Maybe<Price>) {
    && o.orderType == ORDER_TYPE_LIMIT
    && ask.Some?
    && o.side == ORDER_SIDE_BUY
    && PriceToDouble(o.price) < PriceToDouble(ask.value)
  }

  /** The working copy an accepted order ends up as. */
  function Processed(o: Order, ask: Maybe<Price>, now: I64): Order {
    o.(price := if Improves(o, ask) then DoubleToPrice(PriceToDouble(o.price) + 0.01) else o.price,
       status := ORDER_STATUS_NEW, modificationTime := now)
  }

  /** The position check is an uint32_t sum: an order is refused if and only if its quantity is not
      allowed, or it is a buy that takes the position over the limit without wrapping the
      sum.  With the position of 0 that get_client_position returns, only the quantity decides. */
  lemma PositionLimit(o: Order, position: U32)
    ensures Rejected(o, position) <==>
              || o.quantity == 0 || o.quantity > 1000000
              || (o.side == ORDER_SIDE_BUY && 1000000 < position as int + o.quantity < 0x1_0000_0000)
    ensures position == 0 ==> (Rejected(o, position) <==> o.quantity == 0 || o.quantity > 1000000)
  {
    var sum := position as int + o.quantity;
    if sum < 0x1_0000_0000 {
      assert sum % 0x1_0000_0000 == sum;
    } else if o.quantity <= 1000000 {
      assert sum % 0x1_0000_0000 == sum - 0x1_0000_0000;
    }
  }

  /** What an accepted order becomes: status new, the time of the change, and no other field
      touched but the price.  A limit buy below the ask gains a cent, exactly if its price
      has at most six decimals and to within a millionth otherwise; every other order keeps
      its price, as do all nonnegative prices against the placeholder's zero ask. */
  lemma ProcessedOrder(o: Order, ask: Maybe<Price>, now: I64)
    ensures var r := Processed(o, ask, now);
            var v, w := PriceToDouble(o.price), PriceToDouble(r.price);
            && r.status == 1 && r.modificationTime == now
            && r.(price := o.price, status := o.status, modificationTime := o.modificationTime) == o
            && if o.orderType == ORDER_TYPE_LIMIT && o.side == ORDER_SIDE_BUY
                  && ask.Some? && v < PriceToDouble(ask.value)
               then r.price.exponent == -6
                    && (-9223372036854775809.0 < (v + 0.01) * 1000000.0 < 9223372036854775808.0 ==>
                          && (w == v + 0.01 <==> Normalize(o.price).exponent >= -6)
                          && v + 0.009999 < w < v + 0.010001)
               else r.price == o.price
    ensures ask == Some(Price(0, 0)) && o.price.mantissa >= 0 ==> Processed(o, ask, now).price == o.price
  {
    hide PriceToDouble, Normalize, Truncate;
    ZeroAsk(o.price);
    ConvertibleIff(PriceToDouble(o.price) + 0.01);
    if Convertible(PriceToDouble(o.price) + 0.01) {
      ImprovementIsOneCent(o.price);
    }
  }

  /** A limit buy's new price stays below the ask plus a cent, whatever ask it is below, if and
      only if its price is not more than a cent below zero or has at most six decimals. */
  lemma StaysBelowTheAsk(o: Order, now: I64)
    requires o.orderType == ORDER_TYPE_LIMIT && o.side == ORDER_SIDE_BUY
    requires Convertible(PriceToDouble(o.price)) && Convertible(PriceToDouble(o.price) + 0.01)
    ensures (forall ask: Price :: PriceToDouble(o.price) < PriceToDouble(ask) ==>
               PriceToDouble(Processed(o, Some(ask), now).price) < PriceToDouble(ask) + 0.01)
       <==> PriceToDouble(o.price) >= -0.01 || Normalize(o.price).exponent >= -6
  {
    hide PriceToDouble, Normalize, DoubleToPrice;
    ImprovementBound(o.price);
    var v := PriceToDouble(o.price);
    var w := PriceToDouble(DoubleToPrice(v + 0.01));
    if !BelowEachAsk(v, w) {
      var ask: Price :| v < PriceToDouble(ask) && !(w < PriceToDouble(ask) + 0.01);
      assert PriceToDouble(Processed(o, Some(ask), now).price) == w;
    }
  }

  lemma ZeroAsk(p: Price)
    ensures PriceToDouble(Price(0, 0)) == 0.0
    ensures p.mantissa >= 0 ==> PriceToDouble(p) >= 0.0
  {
    Pow10Positive(p.exponent);
    if p.mantissa >= 0 {
      assert p.mantissa as real * Pow10(p.exponent) >= 0.0;
    }
  }

  /** The frames a decoded message makes the server send, given the client slots. */
  function Relayed(slots: seq<ClientSlot>, t: U32, payload: seq<Byte>): seq<Packet>
    requires WellFormed(t, payload)
  {
    if t == MSG_MARKET_DATA then Copies(Recipients(slots), Frame(t, payload))
    else if t == MSG_TRADE_EXEC then
      var trade := DecodeTrade(payload);
      ToOne(Lookup(slots, trade.buyerId), Frame(t, payload)) + ToOne(Lookup(slots, trade.sellerId), Frame(t, payload))
    else []
  }

  function ToOne(socket: int, bytes: seq<Byte>): seq<Packet> {
    if socket > 0 then [Packet(socket, bytes)] else []
  }

  /** Does handling the message take a sequence number? */
  predicate TakesNumber(t: U32, payload: seq<Byte>, position: U32)
    requires WellFormed(t, payload)
  {
    t == MSG_MARKET_DATA || t == MSG_TRADE_EXEC || !Rejected(DecodeOrder(payload), position)
  }

  class ServerContext {
    var state: ServerState
    var serverSocket: int
    var sequenceNum: U64
    const clients: array<ClientSlot>
    var clientCount: nat
    var outbox: seq<Packet>
    var closed: seq<int>

    ghost predicate Valid()
      reads this
    {
      clients.Length == MAX_CLIENTS && clientCount <= MAX_CLIENTS
    }

    ghost function View(): Clients
      reads this, clients
    {
      Clients(clients[..], clientCount)
    }

    /** initialize_server_context with max_clients at its default. */
    constructor ()
      ensures Valid() && fresh(clients)
      ensures View() == Start().clients && clientCount == 0
      ensures forall k :: 0 <= k < MAX_CLIENTS ==>
                clients[k] == ClientSlot(0, 0, seq(MAX_CLIENT_ID_LENGTH, _ => 0), false, 0, 0, 0)
      ensures state == Init && serverSocket == 0 && sequenceNum == 1
      ensures outbox == [] && closed == []
    {
      state := Init;
      serverSocket := 0;
      sequenceNum := 1;
      clients := new ClientSlot[MAX_CLIENTS](_ => EmptySlot());
      clientCount := 0;
      outbox := [];
      closed := [];
      new;
      assert clients[..] == Start().clients.slots;
    }

    /** accept_client; `accepted` is what accept() returned, `wouldBlock` its errno test. */
    method AcceptClient(accepted: int, wouldBlock: bool, address: int, connectTime: int, heartbeat: int)
      returns (r: int)
      requires Valid()
      modifies this`clientCount, this`closed, clients
      ensures Valid()
      ensures r == if accepted < 0 then (if wouldBlock then ERROR_TIMEOUT else ERROR_SOCKET_ACCEPT)
                   else if old(clientCount) >= MAX_CLIENTS then ERROR_INVALID_STATE
                   else SUCCESS
      ensures View() == if accepted < 0 then old(View())
                        else Accepted(old(View()), accepted, address, connectTime, heartbeat)
      ensures closed == old(closed) + if r == ERROR_INVALID_STATE then [accepted] else []
      ensures clientCount == old(clientCount) + if r == SUCCESS then 1 else 0
      ensures forall i :: 0 <= i < MAX_CLIENTS ==>
                clients[i] == if r == SUCCESS && i == old(clientCount)
                              then old(clients[i]).(socket := accepted, address := address,
                                                    connectTime := connectTime, lastHeartbeat := heartbeat)
                              else old(clients[i])
    {
      if accepted < 0 {
        return if wouldBlock then ERROR_TIMEOUT else ERROR_SOCKET_ACCEPT;
      }
      if clientCount >= MAX_CLIENTS {
        closed := closed + [accepted];
        return ERROR_INVALID_STATE;
      }
      var k := clientCount;
      clientCount := clientCount + 1;
      clients[k] := clients[k].(socket := accepted);
      clients[k] := clients[k].(address := address);
      clients[k] := clients[k].(connectTime := connectTime);
      clients[k] := clients[k].(lastHeartbeat := heartbeat);
      return SUCCESS;
    }

    /** disconnect_client for the handler whose `client` points at slot k, shift and close with
        nothing in between. */
    method DisconnectClient(k: nat)
      requires Valid() && k < MAX_CLIENTS
      modifies this`clientCount, this`closed, clients
      ensures Valid()
      ensures View() == Disconnected(old(View()), k)
      ensures closed == old(closed) + [ClosedSocket(old(View()), k)]
    {
      hide SameId, Disconnected;
      var i := 0;
      while i < clientCount && !SameId(clients[i].id, clients[k].id)
        invariant i <= clientCount
        invariant forall j :: 0 <= j < i ==> !SameId(clients[j].id, clients[k].id)
      {
        i := i + 1;
      }
      if i < clientCount {
        ShiftRemovesFirstMatch(View(), k, i);
        if i < clientCount - 1 {
          MoveDown(i, clientCount - i - 1);
        } else {
          assert clients[..] == clients[..i] + clients[i + 1..clientCount] + clients[clientCount - 1..];
        }
        clientCount := clientCount - 1;
      } else {
        NothingToRemove(View(), k);
      }
      closed := closed + [clients[k].socket];
    }

    /** memmove of n slots from i + 1 to i. */
    method MoveDown(i: nat, n: nat)
      requires i + n < clients.Length
      modifies clients
      ensures clients[..] == old(clients[..i]) + old(clients[i + 1..i + 1 + n]) + old(clients[i + n..])
    {
      forall j | i <= j < i + n {
        clients[j] := clients[j + 1];
      }
    }

    /** stop_server. */
    method StopServer()
      requires Valid()
      modifies this`state, this`serverSocket, this`clientCount, this`closed, clients
      ensures Valid()
      ensures View() == Registry.Stopped(old(View())) && clientCount == 0
      ensures forall i :: 0 <= i < MAX_CLIENTS ==>
                clients[i] == if i < old(clientCount) then old(clients[i]).(active := false) else old(clients[i])
      ensures state == Stopped && serverSocket == if old(serverSocket) >= 0 then -1 else old(serverSocket)
      ensures closed == old(closed) + (if old(serverSocket) >= 0 then [old(serverSocket)] else [])
                        + Sockets(old(View().Live()))
    {
      state := Stopping;
      if serverSocket >= 0 {
        closed := closed + [serverSocket];
        serverSocket := -1;
      }
      CloseClients();
      assert clients[..] == Registry.Stopped(old(View())).slots;
      clientCount := 0;
      state := Stopped;
    }

    /** The loop of stop_server. */
    method CloseClients()
      requires Valid()
      modifies this`closed, clients
      ensures forall j :: 0 <= j < MAX_CLIENTS ==>
                clients[j] == if j < clientCount then old(clients[j]).(active := false) else old(clients[j])
      ensures closed == old(closed) + Sockets(old(View().Live()))
    {
      ghost var live := View().Live();
      for i := 0 to clientCount
        invariant forall j :: 0 <= j < i ==> clients[j] == live[j].(active := false)
        invariant forall j :: i <= j < MAX_CLIENTS ==> clients[j] == old(clients[j])
        invariant closed == old(closed) + Sockets(live[..i])
      {
        if clients[i].active {
          clients[i] := clients[i].(active := false);
        }
        closed := closed + [clients[i].socket];
        assert Sockets(live[..i + 1]) == Sockets(live[..i]) + [live[i].socket];
      }
      assert live[..clientCount] == live;
    }

    method FindClientSocket(id: ClientId) returns (socket: int)
      requires Valid()
      ensures socket == Lookup(clients[..], id)
    {
      for i := 0 to MAX_CLIENTS
        invariant Lookup(clients[..], id) == Lookup(clients[i..], id)
      {
        if clients[i].socket > 0 && SameId(clients[i].id, id) {
          return clients[i].socket;
        }
      }
      return -1;
    }

    /** send(): the bytes are handed over; how many the kernel takes is its affair. */
    method Send(socket: int, bytes: seq<Byte>) returns (sent: int)
      modifies this`outbox
      ensures outbox == old(outbox) + [Packet(socket, bytes)]
    {
      outbox := outbox + [Packet(socket, bytes)];
      sent := *;
    }

    /** One frame goes out if the type can be encoded, and nothing otherwise. */
    method SendResponseMessage(socket: int, response: Message) returns (r: int)
      requires response.Valid()
      modifies this`outbox
      ensures if Encodable(response.msgType)
              then outbox == old(outbox) + [Packet(socket, Frame(response.msgType, response.Value().Payload()))]
                   && r in {SUCCESS, ERROR_SOCKET_CONNECT}
              else outbox == old(outbox) && r == ERROR_SERIALIZATION
    {
      var buffer := new Byte[BUFFER_SIZE];
      var size := SerializeMessage(response, buffer, BUFFER_SIZE);
      if size < 0 {
        return ERROR_SERIALIZATION;
      }
      assert buffer[..size] == Frame(response.msgType, response.Value().Payload());
      var sent := Send(socket, buffer[..size]);
      if sent != size {
        return ERROR_SOCKET_CONNECT;
      }
      return SUCCESS;
    }

    method TakeSequenceNumber() returns (n: U64)
      modifies this`sequenceNum
      ensures n == old(sequenceNum) && sequenceNum == Bump(n)
    {
      n := sequenceNum;
      sequenceNum := Bump(sequenceNum);
    }

    /** process_order.  `position` and `ask` stand for get_client_position and get_market_data.
        Whatever the order, the result is never SUCCESS, and nothing is sent. */
    method ProcessOrder(order: Order, position: U32, ask: Maybe<Price>, modified: I64, now: I64)
      returns (r: int, processed: Order)
      requires Valid()
      modifies this`sequenceNum, this`outbox
      ensures outbox == old(outbox)
      ensures Rejected(order, position) ==>
                r == ERROR_INVALID_ORDER && sequenceNum == old(sequenceNum) && processed == order
      ensures !Rejected(order, position) ==>
                && r == ERROR_SERIALIZATION && sequenceNum == Bump(old(sequenceNum))
                && processed == Processed(order, ask, modified)
                && processed.status == ORDER_STATUS_NEW && processed.modificationTime == modified
    {
      processed := order;
      if processed.quantity == 0 || processed.quantity > 1000000 {
        return ERROR_INVALID_ORDER, processed;
      }
      if processed.side == ORDER_SIDE_BUY && (position as int + processed.quantity) % 0x1_0000_0000 > 1000000 {
        return ERROR_INVALID_ORDER, processed;
      }
      if processed.orderType == ORDER_TYPE_LIMIT {
        if ask.Some? {
          if processed.side == ORDER_SIDE_BUY && PriceToDouble(processed.price) < PriceToDouble(ask.value) {
            processed := processed.(price := DoubleToPrice(PriceToDouble(processed.price) + 0.01));
          }
        }
      }
      processed := processed.(status := ORDER_STATUS_NEW);
      processed := processed.(modificationTime := modified);
      r := ReplyWithStatus(processed, now);
    }

    /** The reply of process_order: a number is taken, then the encoder refuses the type. */
    method ReplyWithStatus(processed: Order, now: I64) returns (r: int)
      requires Valid()
      modifies this`sequenceNum, this`outbox
      ensures r == ERROR_SERIALIZATION
      ensures outbox == old(outbox) && sequenceNum == Bump(old(sequenceNum))
    {
      hide Frame, EncodeOrder, Lookup;
      var n := TakeSequenceNumber();
      var response := new Message(MSG_ORDER_STATUS, n, now, EncodeOrder(processed));
      var socket := FindClientSocket(processed.clientId);
      r := SendResponseMessage(socket, response);
    }

    method BroadcastMarketData(marketData: MarketData, now: I64) returns (r: int)
      requires Valid()
      modifies this`sequenceNum, this`outbox
      ensures r == SUCCESS
      ensures sequenceNum == Bump(old(sequenceNum))
      ensures outbox == old(outbox)
                        + Copies(Recipients(clients[..]), Frame(MSG_MARKET_DATA, EncodeMarketData(marketData)))
    {
      hide Frame, EncodeMarketData;
      var n := TakeSequenceNumber();
      var payload := EncodeMarketData(marketData);
      var msg := new Message(MSG_MARKET_DATA, n, now, payload);
      assert msg.Value().Payload() == payload;
      for i := 0 to MAX_CLIENTS
        invariant msg.Value().Payload() == payload && msg.msgType == MSG_MARKET_DATA
        invariant outbox == old(outbox) + Copies(Recipients(clients[..i]), Frame(MSG_MARKET_DATA, payload))
        invariant sequenceNum == Bump(old(sequenceNum))
      {
        assert clients[..i + 1][..i] == clients[..i];
        if clients[i].socket > 0 {
          var _ := SendResponseMessage(clients[i].socket, msg);
        }
      }
      assert clients[..MAX_CLIENTS] == clients[..];
      return SUCCESS;
    }

    method ProcessTradeExecution(trade: TradeExecution, now: I64) returns (r: int)
      requires Valid()
      modifies this`sequenceNum, this`outbox
      ensures r == SUCCESS
      ensures sequenceNum == Bump(old(sequenceNum))
      ensures outbox == old(outbox)
                        + ToOne(Lookup(clients[..], trade.buyerId), Frame(MSG_TRADE_EXEC, EncodeTrade(trade)))
                        + ToOne(Lookup(clients[..], trade.sellerId), Frame(MSG_TRADE_EXEC, EncodeTrade(trade)))
    {
      hide Frame, EncodeTrade, Lookup;
      var n := TakeSequenceNumber();
      var payload := EncodeTrade(trade);
      var msg := new Message(MSG_TRADE_EXEC, n, now, payload);
      assert msg.Value().Payload() == payload;
      var buyer := FindClientSocket(trade.buyerId);
      var seller := FindClientSocket(trade.sellerId);
      if buyer > 0 {
        var _ := SendResponseMessage(buyer, msg);
      }
      if seller > 0 {
        var _ := SendResponseMessage(seller, msg);
      }
      return SUCCESS;
    }

    /** generate_order_id and generate_trade_id. */
    method GenerateId() returns (id: U64)
      modifies this`sequenceNum
      ensures id == old(sequenceNum) && sequenceNum == Bump(id)
    {
      id := TakeSequenceNumber();
    }

    /** One turn of handle_client's loop for slot k, once recv has put `received` > 0 bytes
        into the buffer.  A message that does not decode is dropped without a trace; one that
        does is counted, and exactly its relayed frames go out. */
    method HandleReceived(k: nat, buffer: array<Byte>, received: nat, msg: Message,
                          position: U32, ask: Maybe<Price>, now: I64)
      requires Valid() && k < MAX_CLIENTS
      requires 0 < received <= buffer.Length && ChecksumInBounds(buffer[..], received)
      requires msg.Valid() && msg.data != buffer
      modifies this`sequenceNum, this`outbox, clients, msg, msg.data
      ensures Valid()
      ensures var o := old(Decode(buffer[..], received, msg.Value()));
              && msg.Value() == o.message
              && if o.code != SERIAL_SUCCESS then
                   View() == old(View()) && outbox == old(outbox) && sequenceNum == old(sequenceNum)
                 else
                   var (t, p) := (o.message.msgType, o.message.Payload());
                   && View() == Heard(old(View()), k, now) && clientCount == old(clientCount)
                   && clients[k] == old(clients[k]).(messagesReceived := Bump(old(clients[k].messagesReceived)),
                                                     lastHeartbeat := now)
                   && (forall i :: 0 <= i < MAX_CLIENTS && i != k ==> clients[i] == old(clients[i]))
                   && outbox == old(outbox) + Relayed(old(View().slots), t, p)
                   && sequenceNum == if TakesNumber(t, p, position) then Bump(old(sequenceNum)) else old(sequenceNum)
    {
      hide Decode, Relayed, TakesNumber, ChecksumInBounds, CString, Overwrite, PayloadSize;
      var code := DeserializeMessage(buffer, received, msg);
      if code != SUCCESS {
        return;
      }
      DeliveredIsWellFormed(old(buffer[..]), received, old(msg.Value()));
      clients[k] := clients[k].(messagesReceived := Bump(clients[k].messagesReceived));
      clients[k] := clients[k].(lastHeartbeat := now);
      assert clients[..] == Heard(old(View()), k, now).slots;
      SameRelays(old(View()), k, now, msg.msgType, msg.Value().Payload());
      Dispatch(msg, position, ask, now);
    }

    /** The switch of handle_client. */
    method Dispatch(msg: Message, position: U32, ask: Maybe<Price>, now: I64)
      requires Valid() && msg.Valid() && Encodable(msg.msgType)
      modifies this`sequenceNum, this`outbox
      ensures outbox == old(outbox) + Relayed(clients[..], msg.msgType, msg.Value().Payload())
      ensures sequenceNum == if TakesNumber(msg.msgType, msg.Value().Payload(), position)
                             then Bump(old(sequenceNum)) else old(sequenceNum)
    {
      hide Frame, Rejected, DecodeOrder, DecodeMarketData, EncodeMarketData, EncodeTrade, Recipients, Lookup;
      if msg.msgType == MSG_ORDER_NEW || msg.msgType == MSG_ORDER_MODIFY || msg.msgType == MSG_ORDER_CANCEL {
        var _, _ := ProcessOrder(DecodeOrder(msg.data[..ORDER_SIZE]), position, ask, now, now);
      } else if msg.msgType == MSG_MARKET_DATA {
        MarketDataImage(msg.data[..MARKET_DATA_SIZE]);
        var _ := BroadcastMarketData(DecodeMarketData(msg.data[..MARKET_DATA_SIZE]), now);
      } else if msg.msgType == MSG_TRADE_EXEC {
        TradeImage(msg.data[..TRADE_SIZE]);
        var _ := ProcessTradeExecution(DecodeTrade(msg.data[..TRADE_SIZE]), now);
      }
    }

    /** handle_message.  The heartbeat reply and the order status reply cannot be encoded, so
        the only frames it ever sends are relays of market data and trades. */
    method HandleMessage(msg: Message, clientSocket: int, position: U32, ask: Maybe<Price>, now: I64)
      returns (r: int)
      requires Valid() && msg.Valid()
      modifies this`sequenceNum, this`outbox
      ensures outbox == old(outbox) + if msg.msgType == MSG_MARKET_DATA || msg.msgType == MSG_TRADE_EXEC
                                      then Relayed(clients[..], msg.msgType, msg.Value().Payload()) else []
      ensures r == SUCCESS <==> msg.msgType in {MSG_MARKET_DATA, MSG_TRADE_EXEC, MSG_ERROR}
      ensures msg.msgType == MSG_HEARTBEAT ==> r == ERROR_SERIALIZATION
      ensures msg.msgType == MSG_NONE || msg.msgType > MSG_ERROR ==> r == ERROR_INVALID_MESSAGE
      ensures MSG_ORDER_NEW <= msg.msgType <= MSG_ORDER_STATUS ==>
                r == if Rejected(DecodeOrder(msg.data[..ORDER_SIZE]), position) then ERROR_INVALID_ORDER
                     else ERROR_SERIALIZATION
      ensures sequenceNum == if msg.msgType in {MSG_MARKET_DATA, MSG_TRADE_EXEC}
                                || (MSG_ORDER_NEW <= msg.msgType <= MSG_ORDER_STATUS && r == ERROR_SERIALIZATION)
                             then Bump(old(sequenceNum)) else old(sequenceNum)
    {
      hide Frame, Rejected, DecodeOrder, DecodeMarketData, EncodeMarketData, EncodeTrade, Recipients, Lookup;
      if msg.msgType == MSG_HEARTBEAT {
        var number := Bump(msg.sequenceNum);
        var response := new Message(MSG_HEARTBEAT, number, now, []);
        r := SendResponseMessage(clientSocket, response);
      } else if msg.msgType == MSG_ORDER_NEW || msg.msgType == MSG_ORDER_CANCEL
                || msg.msgType == MSG_ORDER_MODIFY || msg.msgType == MSG_ORDER_STATUS {
        var processed;
        r, processed := ProcessOrder(DecodeOrder(msg.data[..ORDER_SIZE]), position, ask, now, now);
      } else if msg.msgType == MSG_MARKET_DATA {
        MarketDataImage(msg.data[..MARKET_DATA_SIZE]);
        r := BroadcastMarketData(DecodeMarketData(msg.data[..MARKET_DATA_SIZE]), now);
      } else if msg.msgType == MSG_TRADE_EXEC {
        TradeImage(msg.data[..TRADE_SIZE]);
        r := ProcessTradeExecution(DecodeTrade(msg.data[..TRADE_SIZE]), now);
      } else if msg.msgType == MSG_ERROR {
        r := SUCCESS;
      } else {
        r := ERROR_INVALID_MESSAGE;
      }
    }
  }

  /** Counting a message changes neither sockets nor ids, so nothing about what is relayed. */
  lemma SameRelays(c: Clients, k: nat, now: int, t: U32, payload: seq<Byte>)
    requires c.Valid() && k < MAX_CLIENTS && WellFormed(t, payload)
    ensures Relayed(Heard(c, k, now).slots, t, payload) == Relayed(c.slots, t, payload)
  {
    var slots := Heard(c, k, now).slots;
    SameRecipients(slots, c.slots);
    if t == MSG_TRADE_EXEC {
      SameLookup(slots, c.slots, DecodeTrade(payload).buyerId);
      SameLookup(slots, c.slots, DecodeTrade(payload).sellerId);
    }
  }

  lemma {:induction false} SameRecipients(s: seq<ClientSlot>, t: seq<ClientSlot>)
    requires |s| == |t|
    requires forall i :: 0 <= i < |s| ==> s[i].socket == t[i].socket
    ensures Recipients(s) == Recipients(t)
  {
    if |s| > 0 {
      SameRecipients(s[..|s| - 1], t[..|t| - 1]);
    }
  }

  lemma {:induction false} SameLookup(s: seq<ClientSlot>, t: seq<ClientSlot>, id: ClientId)
    requires |s| == |t|
    requires forall i :: 0 <= i < |s| ==> s[i].socket == t[i].socket && s[i].id == t[i].id
    ensures Lookup(s, id) == Lookup(t, id)
  {
    if |s| > 0 {
      SameLookup(s[1..], t[1..], id);
    }
  }
}
