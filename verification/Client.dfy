/** The client library's calls (src/client/client.c): what send_order and
    request_market_data put on the wire and count, one call at a time. */
module Client {
  import opened Bytes
  import opened Types
  import opened Serialization

  datatype ClientState = Disconnected | Connecting | Connected | Authenticating | Ready | Failed

  /** strncpy(symbol, s, MAX_SYMBOL_LENGTH - 1) into a zeroed array. */
  function SymbolFrom(s: seq<Byte>): (r: Symbol) {
    var text := CString(s);
    var kept := if |text| < MAX_SYMBOL_LENGTH then text else text[..MAX_SYMBOL_LENGTH - 1];
    kept + seq(MAX_SYMBOL_LENGTH - |kept|, _ => 0)
  }

  function NoPrice(): Price {
    Price(0, 0)
  }

  /** The all-zero record with a symbol: a request for market data. */
  function RequestFor(s: seq<Byte>): MarketData {
    MarketData(SymbolFrom(s), NoPrice(), 0, NoPrice(), 0, NoPrice(), 0, 0, 0, 0, 0, 0, 0, 0, 0)
  }

  /** What the server reads in a request: the symbol, cut to fifteen characters, terminated. */
  lemma {:induction false} RequestedSymbol(s: seq<Byte>)
    ensures CString(SymbolFrom(s)) <= CString(s)
    ensures |CString(SymbolFrom(s))| ==
            if |CString(s)| < MAX_SYMBOL_LENGTH then |CString(s)| else MAX_SYMBOL_LENGTH - 1
  {
    var text := CString(s);
    var kept := if |text| < MAX_SYMBOL_LENGTH then text else text[..MAX_SYMBOL_LENGTH - 1];
    TextThenZeros(kept, MAX_SYMBOL_LENGTH - |kept|);
  }

  /** What the server reads in the frame of a request: a record with the symbol's text, cut to
      fifteen characters and filled up with zeros, and zeros in every other field. */
  lemma RequestReadBack(s: seq<Byte>)
    ensures var r := DecodeMarketData(EncodeMarketData(RequestFor(s)));
            && CString(r.symbol) <= CString(s)
            && |CString(r.symbol)| == (if |CString(s)| < 15 then |CString(s)| else 15)
            && (forall i :: |CString(r.symbol)| <= i < MAX_SYMBOL_LENGTH ==> r.symbol[i] == 0)
            && r.lastPrice == r.bid == r.ask == Price(0, 0)
            && r.lastPad == r.bidPad == r.askPad == r.pad1 == r.pad2 == 0
            && r.lastSize == r.bidSize == r.askSize == 0
            && r.volume == 0 && r.numTrades == 0 && r.timestamp == 0
  {
    hide EncodeMarketData, DecodeMarketData, CString;
    MarketDataRoundTrip(RequestFor(s));
    RequestedSymbol(s);
    PaddedWithZeros(s);
  }

  lemma PaddedWithZeros(s: seq<Byte>)
    ensures forall i :: |CString(SymbolFrom(s))| <= i < MAX_SYMBOL_LENGTH ==> SymbolFrom(s)[i] == 0
  {
    RequestedSymbol(s);
  }

  lemma {:induction false} TextThenZeros(text: seq<Byte>, n: nat)
    requires 0 !in text
    ensures CString(text + seq(n, _ => 0)) == text
  {
    if |text| > 0 {
      assert (text + seq(n, _ => 0))[1..] == text[1..] + seq(n, _ => 0);
      TextThenZeros(text[1..], n);
    }
  }

  class ClientContext {
    var state: ClientState
    var outbox: seq<seq<Byte>>
    var messagesSent: U64
    var ordersSent: U64

    constructor ()
      ensures state == Disconnected && outbox == [] && messagesSent == 0 && ordersSent == 0
    {
      state := Disconnected;
      outbox := [];
      messagesSent := 0;
      ordersSent := 0;
    }

    /** Serialize into a stack buffer and hand the frame to send(). */
    method Transmit(msg: Message) returns (size: int)
      requires msg.Valid()
      modifies this`outbox
      ensures if Encodable(msg.msgType)
              then size == HEADER_SIZE + PayloadSize(msg.msgType)
                   && outbox == old(outbox) + [Frame(msg.msgType, msg.Value().Payload())]
              else size < 0 && outbox == old(outbox)
    {
      var buffer := new Byte[BUFFER_SIZE];
      size := SerializeMessage(msg, buffer, BUFFER_SIZE);
      if size >= 0 {
        assert buffer[..size] == Frame(msg.msgType, msg.Value().Payload());
        outbox := outbox + [buffer[..size]];
      }
    }

    /** send_order: only a fully taken frame counts, once as an order and once as a message. */
    method SendOrder(order: Maybe<Order>, now: I64, taken: int) returns (r: int)
      modifies this`outbox, this`ordersSent, this`messagesSent
      ensures r == if order.None? then ERROR_INVALID_PARAM
                   else if state != Connected then ERROR_INVALID_STATE
                   else if taken != HEADER_SIZE + ORDER_SIZE then ERROR_SOCKET_CONNECT
                   else SUCCESS
      ensures outbox == old(outbox) + if r == ERROR_INVALID_PARAM || r == ERROR_INVALID_STATE then []
                                      else [Frame(MSG_ORDER_NEW, EncodeOrder(order.value))]
      ensures ordersSent == if r == SUCCESS then Bump(old(ordersSent)) else old(ordersSent)
      ensures messagesSent == if r == SUCCESS then Bump(old(messagesSent)) else old(messagesSent)
    {
      if order.None? {
        return ERROR_INVALID_PARAM;
      }
      if state != Connected {
        return ERROR_INVALID_STATE;
      }
      hide Frame, EncodeOrder;
      var msg := new Message(MSG_ORDER_NEW, 1, now, EncodeOrder(order.value));
      assert msg.Value().Payload() == EncodeOrder(order.value);
      var size := Transmit(msg);
      if taken != size {
        return ERROR_SOCKET_CONNECT;
      }
      ordersSent := Bump(ordersSent);
      messagesSent := Bump(messagesSent);
      return SUCCESS;
    }

    /** request_market_data: any nonnegative result of send() counts, even a partial one. */
    method RequestMarketData(symbol: Maybe<seq<Byte>>, now: I64, taken: int) returns (r: int)
      modifies this`outbox, this`messagesSent
      ensures r == if symbol.None? then ERROR_INVALID_PARAM
                   else if state != Connected then ERROR_INVALID_STATE
                   else if taken < 0 then ERROR_SOCKET_CONNECT
                   else SUCCESS
      ensures outbox == old(outbox) + if r == ERROR_INVALID_PARAM || r == ERROR_INVALID_STATE then []
                                      else [Frame(MSG_MARKET_DATA, EncodeMarketData(RequestFor(symbol.value)))]
      ensures messagesSent == if r == SUCCESS then Bump(old(messagesSent)) else old(messagesSent)
    {
      hide Frame, EncodeMarketData, RequestFor;
      if symbol.None? {
        return ERROR_INVALID_PARAM;
      }
      if state != Connected {
        return ERROR_INVALID_STATE;
      }
      var payload := EncodeMarketData(RequestFor(symbol.value));
      var msg := new Message(MSG_MARKET_DATA, 0, now, payload);
      assert msg.Value().Payload() == payload;
      var _ := Transmit(msg);
      if taken < 0 {
        return ERROR_SOCKET_CONNECT;
      }
      messagesSent := Bump(messagesSent);
      return SUCCESS;
    }
  }
}
