/** Constants and record types of include/common/types.h, with the byte images the
    compiler gives the records on LP64.  Padding bytes are fields like any other, so
    copying a record is copying its image. */
module Types {
  import opened Arithmetic
  import opened Bytes

  const MAX_SYMBOL_LENGTH: nat := 16
  const MAX_CLIENT_ID_LENGTH: nat := 32
  const BUFFER_SIZE: nat := 4096
  const MAX_CLIENTS: nat := 100

  const SUCCESS := 0
  const ERROR_SOCKET_ACCEPT := -4
  const ERROR_SOCKET_CONNECT := -5
  const ERROR_INVALID_PARAM := -8
  const ERROR_INVALID_STATE := -9
  const ERROR_TIMEOUT := -10
  const ERROR_SERIALIZATION := -11
  const ERROR_INVALID_MESSAGE := -13
  const ERROR_INVALID_ORDER := -14

  const MSG_NONE: U32 := 0
  const MSG_HEARTBEAT: U32 := 1
  const MSG_ORDER_NEW: U32 := 2
  const MSG_ORDER_CANCEL: U32 := 3
  const MSG_ORDER_MODIFY: U32 := 4
  const MSG_ORDER_STATUS: U32 := 5
  const MSG_MARKET_DATA: U32 := 6
  const MSG_TRADE_EXEC: U32 := 7
  const MSG_ERROR: U32 := 8

  const ORDER_TYPE_LIMIT: U32 := 2
  const ORDER_SIDE_BUY: U32 := 1
  const ORDER_STATUS_NEW: U32 := 1

  datatype Maybe<T> = None | Some(value: T)

  type Symbol = s: seq<Byte> | |s| == MAX_SYMBOL_LENGTH witness seq(MAX_SYMBOL_LENGTH, _ => 0)
  type ClientId = s: seq<Byte> | |s| == MAX_CLIENT_ID_LENGTH witness seq(MAX_CLIENT_ID_LENGTH, _ => 0)

  datatype Price = Price(mantissa: I64, exponent: I32)

  datatype Order = Order(
    orderId: U64, symbol: Symbol, clientId: ClientId,
    orderType: U32, side: U32, status: U32, timeInForce: U32,
    price: Price, pricePad: U32,
    quantity: U32, filledQuantity: U32, remainingQuantity: U32, pad: U32,
    creationTime: I64, modificationTime: I64, expirationTime: I64)

  datatype MarketData = MarketData(
    symbol: Symbol, lastPrice: Price, lastPad: U32, bid: Price, bidPad: U32, ask: Price, askPad: U32,
    lastSize: U32, bidSize: U32, askSize: U32, pad1: U32,
    volume: U64, numTrades: U32, pad2: U32, timestamp: I64)

  datatype TradeExecution = TradeExecution(
    tradeId: U64, orderId: U64, symbol: Symbol, price: Price, pricePad: U32,
    quantity: U32, pad: U32, timestamp: I64, buyerId: ClientId, sellerId: ClientId)

  /** What strcmp sees of a fixed-size character array: the bytes before the first NUL. */
  function CString(a: seq<Byte>): (s: seq<Byte>)
    ensures s <= a
    ensures 0 !in s
    ensures |s| < |a| ==> a[|s|] == 0
  {
    if |a| == 0 || a[0] == 0 then [] else [a[0]] + CString(a[1..])
  }

  const ORDER_SIZE: nat := 128
  const MARKET_DATA_SIZE: nat := 104
  const TRADE_SIZE: nat := 128

  /** Field offsets (offsetof), closed by the record size. */
  const ORDER_OFFSETS: seq<nat> :=
    [0, 8, 24, 56, 60, 64, 68, 72, 80, 84, 88, 92, 96, 100, 104, 112, 120, 128]
  const MARKET_DATA_OFFSETS: seq<nat> :=
    [0, 16, 24, 28, 32, 40, 44, 48, 56, 60, 64, 68, 72, 76, 80, 88, 92, 96, 104]
  const TRADE_OFFSETS: seq<nat> := [0, 8, 16, 32, 40, 44, 48, 52, 56, 64, 96, 128]

  function OrderFields(o: Order): (fields: seq<seq<Byte>>)
    ensures Fits(fields, ORDER_OFFSETS)
  {
    [LE64(o.orderId), o.symbol, o.clientId,
     LE32(o.orderType), LE32(o.side), LE32(o.status), LE32(o.timeInForce),
     LEI64(o.price.mantissa), LEI32(o.price.exponent), LE32(o.pricePad),
     LE32(o.quantity), LE32(o.filledQuantity), LE32(o.remainingQuantity), LE32(o.pad),
     LEI64(o.creationTime), LEI64(o.modificationTime), LEI64(o.expirationTime)]
  }

  function MarketDataFields(m: MarketData): (fields: seq<seq<Byte>>)
    ensures Fits(fields, MARKET_DATA_OFFSETS)
  {
    [m.symbol,
     LEI64(m.lastPrice.mantissa), LEI32(m.lastPrice.exponent), LE32(m.lastPad),
     LEI64(m.bid.mantissa), LEI32(m.bid.exponent), LE32(m.bidPad),
     LEI64(m.ask.mantissa), LEI32(m.ask.exponent), LE32(m.askPad),
     LE32(m.lastSize), LE32(m.bidSize), LE32(m.askSize), LE32(m.pad1),
     LE64(m.volume), LE32(m.numTrades), LE32(m.pad2), LEI64(m.timestamp)]
  }

  function TradeFields(t: TradeExecution): (fields: seq<seq<Byte>>)
    ensures Fits(fields, TRADE_OFFSETS)
  {
    [LE64(t.tradeId), LE64(t.orderId), t.symbol,
     LEI64(t.price.mantissa), LEI32(t.price.exponent), LE32(t.pricePad),
     LE32(t.quantity), LE32(t.pad), LEI64(t.timestamp), t.buyerId, t.sellerId]
  }

  function EncodeOrder(o: Order): (b: seq<Byte>)
    ensures |b| == ORDER_SIZE
  {
    FieldsInPlace(OrderFields(o), ORDER_OFFSETS);
    Join(OrderFields(o))
  }

  function EncodeMarketData(m: MarketData): (b: seq<Byte>)
    ensures |b| == MARKET_DATA_SIZE
  {
    FieldsInPlace(MarketDataFields(m), MARKET_DATA_OFFSETS);
    Join(MarketDataFields(m))
  }

  function EncodeTrade(t: TradeExecution): (b: seq<Byte>)
    ensures |b| == TRADE_SIZE
  {
    FieldsInPlace(TradeFields(t), TRADE_OFFSETS);
    Join(TradeFields(t))
  }

  /** The bytes of each field. */
  function OrderPieces(b: seq<Byte>): seq<seq<Byte>>
    requires |b| == ORDER_SIZE
  {
    [b[0..8], b[8..24], b[24..56], b[56..60], b[60..64], b[64..68], b[68..72], b[72..80],
     b[80..84], b[84..88], b[88..92], b[92..96], b[96..100], b[100..104], b[104..112],
     b[112..120], b[120..128]]
  }

  lemma OrderInPlace(b: seq<Byte>, f: seq<seq<Byte>>)
    requires |b| == ORDER_SIZE && Fits(f, ORDER_OFFSETS)
    ensures AllInPlace(b, f, ORDER_OFFSETS) <==> f == OrderPieces(b)
  {
    assert |f| == 17;
    hide Fits;
    if AllInPlace(b, f, ORDER_OFFSETS) || f == OrderPieces(b) {
      assert InPlace(b, f, ORDER_OFFSETS, 0); assert InPlace(b, f, ORDER_OFFSETS, 1);
      assert InPlace(b, f, ORDER_OFFSETS, 2); assert InPlace(b, f, ORDER_OFFSETS, 3);
      assert InPlace(b, f, ORDER_OFFSETS, 4); assert InPlace(b, f, ORDER_OFFSETS, 5);
      assert InPlace(b, f, ORDER_OFFSETS, 6); assert InPlace(b, f, ORDER_OFFSETS, 7);
      assert InPlace(b, f, ORDER_OFFSETS, 8); assert InPlace(b, f, ORDER_OFFSETS, 9);
      assert InPlace(b, f, ORDER_OFFSETS, 10); assert InPlace(b, f, ORDER_OFFSETS, 11);
      assert InPlace(b, f, ORDER_OFFSETS, 12); assert InPlace(b, f, ORDER_OFFSETS, 13);
      assert InPlace(b, f, ORDER_OFFSETS, 14); assert InPlace(b, f, ORDER_OFFSETS, 15);
      assert InPlace(b, f, ORDER_OFFSETS, 16);
    }
  }

  /** The bytes of each field. */
  function MarketDataPieces(b: seq<Byte>): seq<seq<Byte>>
    requires |b| == MARKET_DATA_SIZE
  {
    [b[0..16], b[16..24], b[24..28], b[28..32], b[32..40], b[40..44], b[44..48], b[48..56],
     b[56..60], b[60..64], b[64..68], b[68..72], b[72..76], b[76..80], b[80..88], b[88..92],
     b[92..96], b[96..104]]
  }

  lemma MarketDataInPlace(b: seq<Byte>, f: seq<seq<Byte>>)
    requires |b| == MARKET_DATA_SIZE && Fits(f, MARKET_DATA_OFFSETS)
    ensures AllInPlace(b, f, MARKET_DATA_OFFSETS) <==> f == MarketDataPieces(b)
  {
    assert |f| == 18;
    hide Fits;
    if AllInPlace(b, f, MARKET_DATA_OFFSETS) || f == MarketDataPieces(b) {
      assert InPlace(b, f, MARKET_DATA_OFFSETS, 0); assert InPlace(b, f, MARKET_DATA_OFFSETS, 1);
      assert InPlace(b, f, MARKET_DATA_OFFSETS, 2); assert InPlace(b, f, MARKET_DATA_OFFSETS, 3);
      assert InPlace(b, f, MARKET_DATA_OFFSETS, 4); assert InPlace(b, f, MARKET_DATA_OFFSETS, 5);
      assert InPlace(b, f, MARKET_DATA_OFFSETS, 6); assert InPlace(b, f, MARKET_DATA_OFFSETS, 7);
      assert InPlace(b, f, MARKET_DATA_OFFSETS, 8); assert InPlace(b, f, MARKET_DATA_OFFSETS, 9);
      assert InPlace(b, f, MARKET_DATA_OFFSETS, 10); assert InPlace(b, f, MARKET_DATA_OFFSETS, 11);
      assert InPlace(b, f, MARKET_DATA_OFFSETS, 12); assert InPlace(b, f, MARKET_DATA_OFFSETS, 13);
      assert InPlace(b, f, MARKET_DATA_OFFSETS, 14); assert InPlace(b, f, MARKET_DATA_OFFSETS, 15);
      assert InPlace(b, f, MARKET_DATA_OFFSETS, 16); assert InPlace(b, f, MARKET_DATA_OFFSETS, 17);
    }
  }

  /** The bytes of each field. */
  function TradePieces(b: seq<Byte>): seq<seq<Byte>>
    requires |b| == TRADE_SIZE
  {
    [b[0..8], b[8..16], b[16..32], b[32..40], b[40..44], b[44..48], b[48..52], b[52..56],
     b[56..64], b[64..96], b[96..128]]
  }

  lemma TradeInPlace(b: seq<Byte>, f: seq<seq<Byte>>)
    requires |b| == TRADE_SIZE && Fits(f, TRADE_OFFSETS)
    ensures AllInPlace(b, f, TRADE_OFFSETS) <==> f == TradePieces(b)
  {
    assert |f| == 11;
    hide Fits;
    if AllInPlace(b, f, TRADE_OFFSETS) || f == TradePieces(b) {
      assert InPlace(b, f, TRADE_OFFSETS, 0); assert InPlace(b, f, TRADE_OFFSETS, 1);
      assert InPlace(b, f, TRADE_OFFSETS, 2); assert InPlace(b, f, TRADE_OFFSETS, 3);
      assert InPlace(b, f, TRADE_OFFSETS, 4); assert InPlace(b, f, TRADE_OFFSETS, 5);
      assert InPlace(b, f, TRADE_OFFSETS, 6); assert InPlace(b, f, TRADE_OFFSETS, 7);
      assert InPlace(b, f, TRADE_OFFSETS, 8); assert InPlace(b, f, TRADE_OFFSETS, 9);
      assert InPlace(b, f, TRADE_OFFSETS, 10);
    }
  }

  function DecodeOrder(b: seq<Byte>): Order
    requires |b| == ORDER_SIZE
  {
    var f := OrderPieces(b);
    Order(U64At(f[0]), f[1], f[2], U32At(f[3]), U32At(f[4]), U32At(f[5]), U32At(f[6]),
          Price(I64At(f[7]), I32At(f[8])), U32At(f[9]),
          U32At(f[10]), U32At(f[11]), U32At(f[12]), U32At(f[13]),
          I64At(f[14]), I64At(f[15]), I64At(f[16]))
  }

  function DecodeMarketData(b: seq<Byte>): MarketData
    requires |b| == MARKET_DATA_SIZE
  {
    var f := MarketDataPieces(b);
    MarketData(f[0], Price(I64At(f[1]), I32At(f[2])), U32At(f[3]),
               Price(I64At(f[4]), I32At(f[5])), U32At(f[6]),
               Price(I64At(f[7]), I32At(f[8])), U32At(f[9]),
               U32At(f[10]), U32At(f[11]), U32At(f[12]), U32At(f[13]),
               U64At(f[14]), U32At(f[15]), U32At(f[16]), I64At(f[17]))
  }

  function DecodeTrade(b: seq<Byte>): TradeExecution
    requires |b| == TRADE_SIZE
  {
    var f := TradePieces(b);
    TradeExecution(U64At(f[0]), U64At(f[1]), f[2], Price(I64At(f[3]), I32At(f[4])), U32At(f[5]),
                   U32At(f[6]), U32At(f[7]), I64At(f[8]), f[9], f[10])
  }

  /** Records and their byte images are one to one: each comes back from its image with
      every field as it was, and every image of the right size is some record's. */
  lemma OrderRoundTrip(x: Order)
    ensures DecodeOrder(EncodeOrder(x)) == x
  {
    FieldsInPlace(OrderFields(x), ORDER_OFFSETS);
    OrderInPlace(EncodeOrder(x), OrderFields(x));
  }

  lemma MarketDataRoundTrip(x: MarketData)
    ensures DecodeMarketData(EncodeMarketData(x)) == x
  {
    FieldsInPlace(MarketDataFields(x), MARKET_DATA_OFFSETS);
    MarketDataInPlace(EncodeMarketData(x), MarketDataFields(x));
  }

  lemma TradeRoundTrip(x: TradeExecution)
    ensures DecodeTrade(EncodeTrade(x)) == x
  {
    FieldsInPlace(TradeFields(x), TRADE_OFFSETS);
    TradeInPlace(EncodeTrade(x), TradeFields(x));
  }

  lemma OrderImage(b: seq<Byte>)
    requires |b| == ORDER_SIZE
    ensures EncodeOrder(DecodeOrder(b)) == b
  {
    OrderInPlace(b, OrderFields(DecodeOrder(b)));
    JoinPieces(b, OrderFields(DecodeOrder(b)), ORDER_OFFSETS);
  }

  lemma MarketDataImage(b: seq<Byte>)
    requires |b| == MARKET_DATA_SIZE
    ensures EncodeMarketData(DecodeMarketData(b)) == b
  {
    MarketDataInPlace(b, MarketDataFields(DecodeMarketData(b)));
    JoinPieces(b, MarketDataFields(DecodeMarketData(b)), MARKET_DATA_OFFSETS);
  }

  lemma TradeImage(b: seq<Byte>)
    requires |b| == TRADE_SIZE
    ensures EncodeTrade(DecodeTrade(b)) == b
  {
    TradeInPlace(b, TradeFields(DecodeTrade(b)));
    JoinPieces(b, TradeFields(DecodeTrade(b)), TRADE_OFFSETS);
  }

  /** Where each field of a record lies in its image, padding included. */
  lemma OrderLayout(o: Order)
    ensures var b := EncodeOrder(o);
            && b[0..8] == LE64(o.orderId) && b[8..24] == o.symbol && b[24..56] == o.clientId
            && b[56..60] == LE32(o.orderType) && b[60..64] == LE32(o.side)
            && b[64..68] == LE32(o.status) && b[68..72] == LE32(o.timeInForce)
            && b[72..80] == LEI64(o.price.mantissa) && b[80..84] == LEI32(o.price.exponent)
            && b[84..88] == LE32(o.pricePad)
            && b[88..92] == LE32(o.quantity) && b[92..96] == LE32(o.filledQuantity)
            && b[96..100] == LE32(o.remainingQuantity) && b[100..104] == LE32(o.pad)
            && b[104..112] == LEI64(o.creationTime) && b[112..120] == LEI64(o.modificationTime)
            && b[120..128] == LEI64(o.expirationTime)
  {
    hide LE32, LE64, LEI32, LEI64;
    FieldsInPlace(OrderFields(o), ORDER_OFFSETS);
    OrderInPlace(EncodeOrder(o), OrderFields(o));
    hide Join, AllInPlace, Fits;
    var f, g := OrderFields(o), OrderPieces(EncodeOrder(o));
    assert f[0] == g[0] && f[1] == g[1] && f[2] == g[2] && f[3] == g[3] && f[4] == g[4] && f[5] == g[5];
    assert f[6] == g[6] && f[7] == g[7] && f[8] == g[8] && f[9] == g[9] && f[10] == g[10] && f[11] == g[11];
    assert f[12] == g[12] && f[13] == g[13] && f[14] == g[14] && f[15] == g[15] && f[16] == g[16];
  }

  lemma MarketDataLayout(m: MarketData)
    ensures var b := EncodeMarketData(m);
            && b[0..16] == m.symbol
            && b[16..24] == LEI64(m.lastPrice.mantissa) && b[24..28] == LEI32(m.lastPrice.exponent)
            && b[28..32] == LE32(m.lastPad)
            && b[32..40] == LEI64(m.bid.mantissa) && b[40..44] == LEI32(m.bid.exponent) && b[44..48] == LE32(m.bidPad)
            && b[48..56] == LEI64(m.ask.mantissa) && b[56..60] == LEI32(m.ask.exponent) && b[60..64] == LE32(m.askPad)
            && b[64..68] == LE32(m.lastSize) && b[68..72] == LE32(m.bidSize)
            && b[72..76] == LE32(m.askSize) && b[76..80] == LE32(m.pad1)
            && b[80..88] == LE64(m.volume) && b[88..92] == LE32(m.numTrades)
            && b[92..96] == LE32(m.pad2) && b[96..104] == LEI64(m.timestamp)
  {
    hide LE32, LE64, LEI32, LEI64;
    FieldsInPlace(MarketDataFields(m), MARKET_DATA_OFFSETS);
    MarketDataInPlace(EncodeMarketData(m), MarketDataFields(m));
    hide Join, AllInPlace, Fits;
    var f, g := MarketDataFields(m), MarketDataPieces(EncodeMarketData(m));
    assert f[0] == g[0] && f[1] == g[1] && f[2] == g[2] && f[3] == g[3] && f[4] == g[4] && f[5] == g[5];
    assert f[6] == g[6] && f[7] == g[7] && f[8] == g[8] && f[9] == g[9] && f[10] == g[10] && f[11] == g[11];
    assert f[12] == g[12] && f[13] == g[13] && f[14] == g[14] && f[15] == g[15] && f[16] == g[16] && f[17] == g[17];
  }

  lemma TradeLayout(t: TradeExecution)
    ensures var b := EncodeTrade(t);
            && b[0..8] == LE64(t.tradeId) && b[8..16] == LE64(t.orderId) && b[16..32] == t.symbol
            && b[32..40] == LEI64(t.price.mantissa) && b[40..44] == LEI32(t.price.exponent)
            && b[44..48] == LE32(t.pricePad)
            && b[48..52] == LE32(t.quantity) && b[52..56] == LE32(t.pad) && b[56..64] == LEI64(t.timestamp)
            && b[64..96] == t.buyerId && b[96..128] == t.sellerId
  {
    hide LE32, LE64, LEI32, LEI64;
    FieldsInPlace(TradeFields(t), TRADE_OFFSETS);
    TradeInPlace(EncodeTrade(t), TradeFields(t));
    hide Join, AllInPlace, Fits;
    var f, g := TradeFields(t), TradePieces(EncodeTrade(t));
    assert f[0] == g[0] && f[1] == g[1] && f[2] == g[2] && f[3] == g[3] && f[4] == g[4] && f[5] == g[5];
    assert f[6] == g[6] && f[7] == g[7] && f[8] == g[8] && f[9] == g[9] && f[10] == g[10];
  }

  /** The bytes of an integer field, least significant first; a negative one in two's complement. */
  lemma IntegerBytes(x: U32, y: U64, u: I32, v: I64, i: nat)
    ensures i < 4 ==> Pow(256, i) > 0 && LE32(x)[i] == x / Pow(256, i) % 256
    ensures i < 8 ==> Pow(256, i) > 0 && LE64(y)[i] == y / Pow(256, i) % 256
    ensures i < 4 ==> Pow(256, i) > 0 && LEI32(u)[i] == u % 0x1_0000_0000 / Pow(256, i) % 256
    ensures i < 8 ==> Pow(256, i) > 0 && LEI64(v)[i] == v % 0x1_0000_0000_0000_0000 / Pow(256, i) % 256
  {
    var u', v' := u % 0x1_0000_0000, v % 0x1_0000_0000_0000_0000;
    assert u' == if u < 0 then u + 0x1_0000_0000 else u;
    assert v' == if v < 0 then v + 0x1_0000_0000_0000_0000 else v;
    hide Pow, ToLE;
    if i < 4 {
      ByteOfLE(x, 4, i);
      ByteOfLE(u', 4, i);
    }
    if i < 8 {
      ByteOfLE(y, 8, i);
      ByteOfLE(v', 8, i);
    }
  }
}
