/** hash_string and hash_order: base-33 accumulation modulo 2^64 from 5381
    (src/common/utils.c). */
module Hashes {
  import opened Arithmetic
  import opened Base33
  import opened Bytes
  import opened Types

  const M64: int := 0x1_0000_0000_0000_0000

  /** A char is signed. */
  function CharValue(b: Byte): (c: int)
    ensures -128 <= c < 128 && c % 256 == b
  {
    if b < 128 then b else b - 256
  }

  function Chars(s: seq<Byte>): (r: seq<int>)
    ensures |r| == |s|
    ensures forall i :: 0 <= i < |s| ==> r[i] == CharValue(s[i])
  {
    seq(|s|, i requires 0 <= i < |s| => CharValue(s[i]))
  }

  function StringHash(s: seq<Byte>): U64 {
    Horner(5381, Chars(s)) % M64
  }

  const SYMBOL_OFFSET: nat := 8

  /** What hash_string sees of the symbol: it reads on to the first NUL, past the symbol if
      that has none. */
  function SymbolText(o: Order): seq<Byte> {
    CString(EncodeOrder(o)[SYMBOL_OFFSET..])
  }

  /** The text and the four numbers hash_order adds. */
  function Digits(o: Order): seq<int> {
    Chars(SymbolText(o)) + [o.orderId, o.orderType, o.side, o.quantity]
  }

  function OrderHash(o: Order): U64 {
    Horner(5381, Digits(o)) % M64
  }

  /** One line of C: the wrapped shift, the wrapped sums. */
  function Mix(hash: U64, x: int): U64 {
    ((hash as int * 32 % M64 + hash) % M64 + x) % M64
  }

  lemma MixWraps(h: int, x: int)
    ensures Mix(h % M64, x) == (33 * h + x) % M64
  {
  }

  lemma HashStep(s: seq<Byte>, i: nat)
    requires i < |s|
    ensures StringHash(s[..i + 1]) == Mix(StringHash(s[..i]), CharValue(s[i]))
  {
    assert Chars(s[..i + 1])[..i] == Chars(s[..i]);
    MixWraps(Horner(5381, Chars(s[..i])), CharValue(s[i]));
  }

  /** A string is an array that holds a NUL. */
  method HashString(str: array<Byte>) returns (hash: U64)
    requires |CString(str[..])| < str.Length
    ensures hash == StringHash(CString(str[..]))
  {
    assert StringHash([]) == 5381;
    hide StringHash, Mix, CharValue;
    hash := 5381;
    var i := 0;
    ghost var s := CString(str[..]);
    while str[i] != 0
      invariant i <= |s|
      invariant hash == StringHash(s[..i])
      decreases |s| - i
    {
      assert i < |s|;
      HashStep(s, i);
      var c := CharValue(str[i]);
      hash := Mix(hash, c);
      i := i + 1;
    }
    assert s[..i] == s;
  }

  /** The record must hold a NUL somewhere from its symbol on. */
  method HashOrder(order: Maybe<Order>) returns (hash: U64)
    requires order.Some? ==> |SymbolText(order.value)| < ORDER_SIZE - SYMBOL_OFFSET
    ensures hash == if order.Some? then OrderHash(order.value) else 0
  {
    if order.None? {
      return 0;
    }
    hide EncodeOrder, CString, Mix, Horner, CharValue, StringHash, OrderHash;
    var o := order.value;
    var image := EncodeOrder(o)[SYMBOL_OFFSET..];
    var str := new Byte[|image|](i requires 0 <= i < |image| => image[i]);
    assert str[..] == image;
    hash := HashString(str);
    FieldsMixedIn(o);
    hash := Mix(hash, o.orderId);
    hash := Mix(hash, o.orderType);
    hash := Mix(hash, o.side);
    hash := Mix(hash, o.quantity);
  }

  lemma FieldsMixedIn(o: Order)
    ensures OrderHash(o)
         == Mix(Mix(Mix(Mix(StringHash(SymbolText(o)), o.orderId), o.orderType), o.side), o.quantity)
  {
    hide SymbolText, Mix, Horner, Chars;
    var c := Chars(SymbolText(o));
    MixStep(c, o.orderId);
    MixStep(c + [o.orderId], o.orderType);
    MixStep(c + [o.orderId] + [o.orderType], o.side);
    MixStep(c + [o.orderId] + [o.orderType] + [o.side], o.quantity);
    assert Digits(o) == c + [o.orderId] + [o.orderType] + [o.side] + [o.quantity];
  }

  /** The string hash is the base-33 polynomial of its signed characters behind 5381, and the order
      hash that of the symbol's hash and the four numbers, modulo 2^64. */
  lemma HashPolynomials(s: seq<Byte>, o: Order)
    ensures StringHash(s) == (5381 * Pow(33, |s|) + Polynomial(Chars(s))) % M64
    ensures OrderHash(o) == (1185921 * StringHash(SymbolText(o)) + 35937 * o.orderId
                             + 1089 * o.orderType + 33 * o.side + o.quantity) % M64
  {
    hide Horner, Chars, Mix, Digits, SymbolText, Pow, Polynomial, OrderHash;
    HornerIsPolynomial(5381, Chars(s));
    FieldsMixedIn(o);
    FourMixes(StringHash(SymbolText(o)), o.orderId, o.orderType, o.side, o.quantity);
  }

  lemma FourMixes(h: U64, a: U64, b: U64, c: U64, d: U64)
    ensures Mix(Mix(Mix(Mix(h, a), b), c), d) == (1185921 * h + 35937 * a + 1089 * b + 33 * c + d) % M64
  {
    hide Mix;
    var x, y, z := 33 * h + a, 33 * (33 * h + a) + b, 33 * (33 * (33 * h + a) + b) + c;
    assert h % M64 == h;
    MixWraps(h, a);
    MixWraps(x, b);
    MixWraps(y, c);
    MixWraps(z, d);
  }

  lemma MixStep(s: seq<int>, x: int)
    ensures Mix(Horner(5381, s) % M64, x) == Horner(5381, s + [x]) % M64
  {
    assert (s + [x])[..|s|] == s;
    MixWraps(Horner(5381, s), x);
  }

  lemma Modulus64()
    ensures Pow(2, 64) == M64
  {
    assert Pow(2, 8) == 256;
    PowAdd(2, 8, 8);
    PowAdd(2, 16, 16);
    PowAdd(2, 32, 32);
  }

  lemma {:induction false} CStringOfPrefix(a: seq<Byte>, b: seq<Byte>)
    requires 0 in a
    ensures CString(a + b) == CString(a)
  {
    if a[0] != 0 {
      assert (a + b)[1..] == a[1..] + b;
      CStringOfPrefix(a[1..], b);
    }
  }

  lemma {:induction false} CStringChanged(a: seq<Byte>, i: nat, b: Byte)
    requires i < |CString(a)| && b != 0
    ensures CString(a[i := b]) == CString(a)[i := b]
  {
    if i > 0 {
      assert a[i := b][1..] == a[1..][i - 1 := b];
      CStringChanged(a[1..], i - 1, b);
    }
  }

  /** Everything behind the client id. */
  function Behind(o: Order): seq<Byte> {
    Join(OrderFields(o)[3..])
  }

  lemma BehindIgnores(o: Order, orderId: U64, symbol: Symbol)
    ensures Behind(o.(orderId := orderId, symbol := symbol)) == Behind(o)
  {
    assert OrderFields(o.(orderId := orderId, symbol := symbol))[3..] == OrderFields(o)[3..];
  }

  lemma OrderFromSymbolOn(o: Order)
    ensures EncodeOrder(o)[SYMBOL_OFFSET..] == o.symbol + (o.clientId + Behind(o))
  {
    hide LE64, LE32, LEI64, LEI32;
    var f := OrderFields(o);
    assert f == [f[0]] + ([f[1]] + ([f[2]] + f[3..]));
    JoinConcat([f[0]], [f[1]] + ([f[2]] + f[3..]));
    JoinConcat([f[1]], [f[2]] + f[3..]);
    JoinConcat([f[2]], f[3..]);
    assert Join([f[0]]) == f[0] && Join([f[1]]) == f[1] && Join([f[2]]) == f[2];
  }

  /** With a NUL in the symbol the text is the symbol's; with one in the symbol or the client id,
      which follows, it depends on those two alone. */
  lemma TextOfOrder(o: Order)
    ensures 0 in o.symbol ==> SymbolText(o) == CString(o.symbol)
    ensures 0 in o.symbol + o.clientId ==> SymbolText(o) == CString(o.symbol + o.clientId)
  {
    hide EncodeOrder, Behind;
    OrderFromSymbolOn(o);
    if 0 in o.symbol {
      CStringOfPrefix(o.symbol, o.clientId + Behind(o));
    }
    if 0 in o.symbol + o.clientId {
      assert o.symbol + (o.clientId + Behind(o)) == (o.symbol + o.clientId) + Behind(o);
      CStringOfPrefix(o.symbol + o.clientId, Behind(o));
    }
  }

  /** The id lies before the symbol. */
  lemma TextIgnoresId(o: Order, orderId: U64)
    ensures SymbolText(o.(orderId := orderId)) == SymbolText(o)
  {
    OrderFromSymbolOn(o);
    OrderFromSymbolOn(o.(orderId := orderId));
    BehindIgnores(o, orderId, o.symbol);
    hide EncodeOrder, Behind;
  }

  lemma FieldsBehindText(o: Order, orderType: U32, side: U32, quantity: U32)
    requires 0 in o.symbol + o.clientId
    ensures var o' := o.(orderType := orderType, side := side, quantity := quantity);
            Digits(o') == Chars(SymbolText(o)) + [o.orderId, orderType, side, quantity]
  {
    hide SymbolText;
    TextOfOrder(o);
    TextOfOrder(o.(orderType := orderType, side := side, quantity := quantity));
  }

  /** The order id is always told apart by the hash when everything else is the same; and so are
      type, side and quantity, if the text ends before them. */
  lemma EachFieldCounts(o: Order, orderId: U64, orderType: U32, side: U32, quantity: U32)
    ensures OrderHash(o.(orderId := orderId)) == OrderHash(o) <==> orderId == o.orderId
    ensures 0 in o.symbol + o.clientId ==>
              && (OrderHash(o.(orderType := orderType)) == OrderHash(o) <==> orderType == o.orderType)
              && (OrderHash(o.(side := side)) == OrderHash(o) <==> side == o.side)
              && (OrderHash(o.(quantity := quantity)) == OrderHash(o) <==> quantity == o.quantity)
  {
    hide SymbolText, Chars, Horner;
    var c := Chars(SymbolText(o));
    TextIgnoresId(o, orderId);
    OneDigit(c, o.orderId, orderId, [o.orderType, o.side, o.quantity], Digits(o), Digits(o.(orderId := orderId)));
    if 0 in o.symbol + o.clientId {
      hide Digits;
      FieldsBehindText(o, o.orderType, o.side, o.quantity);
      FieldsBehindText(o, orderType, o.side, o.quantity);
      OneDigit(c + [o.orderId], o.orderType, orderType, [o.side, o.quantity],
               Digits(o), Digits(o.(orderType := orderType)));
      FieldsBehindText(o, o.orderType, side, o.quantity);
      OneDigit(c + [o.orderId, o.orderType], o.side, side, [o.quantity],
               Digits(o), Digits(o.(side := side)));
      FieldsBehindText(o, o.orderType, o.side, quantity);
      OneDigit(c + [o.orderId, o.orderType, o.side], o.quantity, quantity, [],
               Digits(o), Digits(o.(quantity := quantity)));
    }
  }

  lemma OneDigit(pre: seq<int>, a: int, b: int, suf: seq<int>, s: seq<int>, t: seq<int>)
    requires s == pre + [a] + suf && t == pre + [b] + suf
    requires -M64 < a - b < M64
    ensures Horner(5381, s) % M64 == Horner(5381, t) % M64 <==> a == b
  {
    Modulus64();
    DigitChange(5381, pre, a, b, suf, 64);
    CloseAndCongruent(a - b, M64);
  }

  /** Orders with the same symbol and id collide exactly along one plane: when
      1089 * type + 33 * side + quantity agree. */
  lemma SameSymbolAndIdCollision(o: Order, orderType: U32, side: U32, quantity: U32)
    requires 0 in o.symbol + o.clientId
    ensures OrderHash(o.(orderType := orderType, side := side, quantity := quantity)) == OrderHash(o)
       <==> 1089 * orderType + 33 * side + quantity == 1089 * o.orderType + 33 * o.side + o.quantity
  {
    var o' := o.(orderType := orderType, side := side, quantity := quantity);
    var pre := Chars(SymbolText(o)) + [o.orderId];
    FieldsBehindText(o, o.orderType, o.side, o.quantity);
    FieldsBehindText(o, orderType, side, quantity);
    hide SymbolText;
    var w, w' := [o.orderType, o.side, o.quantity], [orderType, side, quantity];
    Modulus64();
    WindowChange(5381, pre, w, w', [], 64);
    assert Digits(o) == pre + w + [] && Digits(o') == pre + w' + [];
    ThreeDigits(o.orderType, o.side, o.quantity);
    ThreeDigits(orderType, side, quantity);
    CloseAndCongruent(Polynomial(w) - Polynomial(w'), M64);
  }

  lemma OneCharacterBefore(s: seq<Byte>, i: nat, b: Byte, rest: seq<int>)
    requires i < |s|
    ensures Horner(5381, Chars(s[i := b]) + rest) % M64 == Horner(5381, Chars(s) + rest) % M64 <==> b == s[i]
  {
    hide Horner;
    var c := Chars(s);
    assert Chars(s[i := b]) == c[..i] + [CharValue(b)] + c[i + 1..];
    assert c == c[..i] + [CharValue(s[i])] + c[i + 1..];
    OneDigit(c[..i], CharValue(s[i]), CharValue(b), c[i + 1..] + rest, c + rest, Chars(s[i := b]) + rest);
  }

  /** Strings of equal length that differ in one character never collide, however long. */
  lemma OneCharacterCounts(s: seq<Byte>, i: nat, b: Byte)
    requires i < |s|
    ensures StringHash(s[i := b]) == StringHash(s) <==> b == s[i]
  {
    OneCharacterBefore(s, i, b, []);
    assert Chars(s[i := b]) + [] == Chars(s[i := b]) && Chars(s) + [] == Chars(s);
    hide Horner;
  }

  /** Nor do orders whose symbols differ in one character, everything else the same. */
  lemma OneSymbolCharacterCounts(o: Order, i: nat, b: Byte)
    requires i < MAX_SYMBOL_LENGTH && i < |SymbolText(o)| && b != 0
    ensures OrderHash(o.(symbol := o.symbol[i := b])) == OrderHash(o) <==> b == o.symbol[i]
  {
    TextWithCharacter(o, i, b);
    OneCharacterBefore(SymbolText(o), i, b, [o.orderId, o.orderType, o.side, o.quantity]);
    hide SymbolText, Chars, Horner;
  }

  lemma ImageWithCharacter(o: Order, i: nat, b: Byte)
    requires i < MAX_SYMBOL_LENGTH
    ensures var image, image' := EncodeOrder(o), EncodeOrder(o.(symbol := o.symbol[i := b]));
            && image'[SYMBOL_OFFSET..] == image[SYMBOL_OFFSET..][i := b]
            && image[SYMBOL_OFFSET..][i] == o.symbol[i]
  {
    hide EncodeOrder, Behind, OrderFields;
    var o' := o.(symbol := o.symbol[i := b]);
    OrderFromSymbolOn(o);
    OrderFromSymbolOn(o');
    BehindIgnores(o, o.orderId, o'.symbol);
  }

  lemma TextWithCharacter(o: Order, i: nat, b: Byte)
    requires i < MAX_SYMBOL_LENGTH && i < |SymbolText(o)| && b != 0
    ensures SymbolText(o)[i] == o.symbol[i]
    ensures SymbolText(o.(symbol := o.symbol[i := b])) == SymbolText(o)[i := b]
  {
    hide EncodeOrder, CString;
    ImageWithCharacter(o, i, b);
    CStringChanged(EncodeOrder(o)[SYMBOL_OFFSET..], i, b);
  }

  /** Up to twelve characters nothing wraps: strings of equal length collide exactly when their
      characters have the same base-33 value. */
  lemma ShortStringCollision(s: seq<Byte>, t: seq<Byte>)
    requires |s| == |t| <= 12
    ensures StringHash(s) == StringHash(t) <==> Polynomial(Chars(s)) == Polynomial(Chars(t))
  {
    hide Horner, Pow, Polynomial, CharValue;
    Modulus64();
    TwelfthPower();
    SignedChars(s);
    SignedChars(t);
    WindowChange(5381, [], Chars(s), Chars(t), [], 64);
    assert [] + Chars(s) + [] == Chars(s) && [] + Chars(t) + [] == Chars(t);
    ShortWindow(Chars(s), Chars(t), -128, 127, 12, 64);
  }

  lemma SignedChars(s: seq<Byte>)
    ensures forall i :: 0 <= i < |s| ==> -128 <= Chars(s)[i] <= 127
  {
  }

  lemma TwelfthPower()
    ensures Pow(33, 12) == 1667889514952984961
  {
    assert Pow(33, 6) == 1291467969;
    PowAdd(33, 6, 6);
  }
}
