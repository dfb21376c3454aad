/** Decimal prices: mantissa * 10^exponent, over exact arithmetic
    (include/common/types.h, src/common/utils.c). */
module Prices {
  import opened Arithmetic
  import opened Types

  function Pow10(e: int): real
    decreases if e < 0 then -e else e
  {
    if e == 0 then 1.0 else if e > 0 then 10.0 * Pow10(e - 1) else Pow10(e + 1) / 10.0
  }

  lemma {:induction false} Pow10Positive(e: int)
    ensures Pow10(e) > 0.0
    decreases if e < 0 then -e else e
  {
    if e > 0 {
      Pow10Positive(e - 1);
    } else if e < 0 {
      Pow10Positive(e + 1);
    }
  }

  lemma Pow10Step(e: int)
    ensures Pow10(e + 1) == 10.0 * Pow10(e)
  {
  }

  /** price_to_double without rounding. */
  function PriceToDouble(p: Price): real {
    p.mantissa as real * Pow10(p.exponent)
  }

  /** C's conversion of a real to an integer: toward zero. */
  function Truncate(x: real): int {
    if x >= 0.0 then x.Floor else -((-x).Floor)
  }

  lemma TruncateTowardZero(x: real)
    ensures x >= 0.0 ==> 0.0 <= Truncate(x) as real <= x < Truncate(x) as real + 1.0
    ensures x <= 0.0 ==> Truncate(x) as real - 1.0 < x <= Truncate(x) as real <= 0.0
  {
  }

  lemma TruncateMonotone(x: real, y: real)
    requires x <= y
    ensures Truncate(x) <= Truncate(y)
  {
    TruncateTowardZero(x);
    TruncateTowardZero(y);
  }

  /** The conversion to int64_t is defined only within its range. */
  predicate Convertible(value: real) {
    -0x8000_0000_0000_0000 <= Truncate(value * 1000000.0) < 0x8000_0000_0000_0000
  }

  /** double_to_price; out of range, the value an x86-64 conversion yields. */
  function DoubleToPrice(value: real): Price {
    Price(if Convertible(value) then Truncate(value * 1000000.0) else -0x8000_0000_0000_0000, -6)
  }

  function ComparePrices(p: Price, q: Price): int {
    var x, y := PriceToDouble(p), PriceToDouble(q);
    if x < y then -1 else if x > y then 1 else 0
  }

  /** A Price behind a pointer. */
  class PriceRef {
    var price: Price

    constructor (price: Price)
      ensures this.price == price
    {
      this.price := price;
    }
  }

  function Normalize(p: Price): Price
    decreases -(p.exponent as int)
  {
    if p.mantissa % 10 == 0 && p.exponent < 0 then Normalize(Price(p.mantissa / 10, p.exponent + 1)) else p
  }

  method NormalizePrice(price: PriceRef?)
    modifies price
    ensures price != null ==> price.price == Normalize(old(price.price))
  {
    if price == null {
      return;
    }
    while price.price.mantissa % 10 == 0 && price.price.exponent < 0
      invariant Normalize(price.price) == Normalize(old(price.price))
      decreases -(price.price.exponent as int)
    {
      price.price := price.price.(mantissa := price.price.mantissa / 10);
      price.price := price.price.(exponent := price.price.exponent + 1);
    }
  }

  lemma MoveFactor(m: int, x: real)
    requires m % 10 == 0
    ensures m as real * x == (m / 10) as real * (10.0 * x)
  {
    assert m as real == 10.0 * (m / 10) as real;
  }

  /** Normalizing keeps the value, and leaves no trailing zero to the left of the point. */
  lemma {:induction false} NormalizeKeepsValue(p: Price)
    ensures PriceToDouble(Normalize(p)) == PriceToDouble(p)
    ensures Normalize(p).mantissa % 10 != 0 || Normalize(p).exponent >= 0
    ensures p.exponent <= Normalize(p).exponent
    ensures p.exponent <= 0 ==> Normalize(p).exponent <= 0
    ensures p.exponent >= 0 ==> Normalize(p) == p
    decreases -(p.exponent as int)
  {
    if p.mantissa % 10 == 0 && p.exponent < 0 {
      NormalizeKeepsValue(Price(p.mantissa / 10, p.exponent + 1));
      MoveFactor(p.mantissa, Pow10(p.exponent));
      Pow10Step(p.exponent);
    }
  }

  lemma {:induction false} Pow10Shift(e: int, n: nat)
    ensures Pow10(e + n) == Pow(10, n) as real * Pow10(e)
  {
    if n > 0 {
      Pow10Shift(e, n - 1);
      Pow10Step(e + n - 1);
      assert Pow(10, n) as real == 10.0 * Pow(10, n - 1) as real;
    }
  }

  lemma RealProduct(a: int, b: int, x: real)
    ensures a as real * (b as real * x) == (a * b) as real * x
  {
    assert (a * b) as real == a as real * b as real;
  }

  /** Equal values at exponents n apart: the finer mantissa is the coarser one times 10^n. */
  lemma AlignMantissas(p: Price, q: Price)
    requires p.exponent <= q.exponent
    ensures PriceToDouble(p) == PriceToDouble(q) <==> p.mantissa == q.mantissa * Pow(10, q.exponent - p.exponent)
  {
    hide Pow, Pow10;
    var n, x := q.exponent - p.exponent, Pow10(p.exponent);
    Pow10Positive(p.exponent);
    Pow10Shift(p.exponent, n);
    RealProduct(q.mantissa, Pow(10, n), x);
    CancelReal(p.mantissa as real, (q.mantissa * Pow(10, n)) as real, x);
  }

  lemma CancelReal(a: real, b: real, x: real)
    requires x > 0.0
    ensures a * x == b * x <==> a == b
  {
    if a < b {
      assert (b - a) * x > 0.0;
    } else if a > b {
      assert (a - b) * x > 0.0;
    }
  }

  lemma TrailingZeros(m: int, n: nat)
    ensures n > 0 ==> (m * Pow(10, n)) % 10 == 0
    ensures n == 0 ==> m * Pow(10, n) == m
  {
    if n > 0 {
      assert m * Pow(10, n) == 10 * (m * Pow(10, n - 1));
      MultipleIsZero(10, m * Pow(10, n - 1));
    }
  }

  lemma CanonicalUnique(p: Price, q: Price)
    requires p.exponent <= q.exponent <= 0
    requires p.mantissa % 10 != 0 || p.exponent == 0
    requires PriceToDouble(p) == PriceToDouble(q)
    ensures p == q
  {
    AlignMantissas(p, q);
    var n := q.exponent - p.exponent;
    TrailingZeros(q.mantissa, n);
  }

  /** Which prices normalize to the same fields: with no positive exponent, exactly those of
      equal value; a price with a positive exponent only normalizes like itself. */
  lemma NormalizeIsCanonical(p: Price, q: Price)
    ensures Normalize(p) == Normalize(q) <==>
            if p.exponent <= 0 && q.exponent <= 0 then PriceToDouble(p) == PriceToDouble(q) else p == q
  {
    NormalizeKeepsValue(p);
    NormalizeKeepsValue(q);
    var p', q' := Normalize(p), Normalize(q);
    if p.exponent <= 0 && q.exponent <= 0 && PriceToDouble(p) == PriceToDouble(q) {
      if p'.exponent <= q'.exponent {
        CanonicalUnique(p', q');
      } else {
        CanonicalUnique(q', p');
      }
    }
  }

  /** The restriction matters: different prices that compare equal normalize differently if and
      only if one of them has a positive exponent; 10 * 10^1 and 1 * 10^2 are such a pair. */
  lemma PositiveExponentsStayApart(p: Price, q: Price)
    requires p != q && ComparePrices(p, q) == 0
    ensures Normalize(p) != Normalize(q) <==> p.exponent > 0 || q.exponent > 0
    ensures ComparePrices(Price(10, 1), Price(1, 2)) == 0
  {
    NormalizeIsCanonical(p, q);
    assert Pow10(1) == 10.0;
    assert Pow10(2) == 100.0;
  }

  /** Comparison tells which value is smaller; it decides equality of normal forms, and orders
      prices totally. */
  lemma CompareAndNormalize(p: Price, q: Price, r: Price)
    ensures ComparePrices(p, q) in {-1, 0, 1}
    ensures ComparePrices(p, q) == -1 <==> PriceToDouble(p) < PriceToDouble(q)
    ensures ComparePrices(p, q) == 1 <==> PriceToDouble(p) > PriceToDouble(q)
    ensures p.exponent <= 0 && q.exponent <= 0 ==>
              (ComparePrices(p, q) == 0 <==> Normalize(p) == Normalize(q))
    ensures ComparePrices(Normalize(p), Normalize(q)) == ComparePrices(p, q) == -ComparePrices(q, p)
    ensures ComparePrices(p, q) <= 0 && ComparePrices(q, r) <= 0 ==> ComparePrices(p, r) <= 0
  {
    NormalizeIsCanonical(p, q);
    NormalizeKeepsValue(p);
    NormalizeKeepsValue(q);
  }

  /** A price is its mantissa times the power of ten of its exponent, or divided by it. */
  lemma ValueOfPrice(p: Price)
    ensures p.exponent >= 0 ==> PriceToDouble(p) == (p.mantissa * Pow(10, p.exponent)) as real
    ensures p.exponent < 0 ==> PriceToDouble(p) * Pow(10, -(p.exponent as int)) as real == p.mantissa as real
  {
    hide Pow, Pow10;
    assert Pow10(0) == 1.0 by { PowerZero(); }
    if p.exponent >= 0 {
      Pow10Shift(0, p.exponent);
      RealProduct(p.mantissa, Pow(10, p.exponent), 1.0);
    } else {
      var x, k := Pow10(p.exponent), Pow(10, -(p.exponent as int));
      Pow10Shift(p.exponent, -(p.exponent as int));
      assert k as real * x == 1.0;
      assert p.mantissa as real * x * k as real == p.mantissa as real * (k as real * x);
    }
  }

  lemma PowerZero()
    ensures Pow10(0) == 1.0
  {
  }

  /** Which values can be converted at all, and what comes out otherwise. */
  lemma ConvertibleIff(value: real)
    ensures Convertible(value) <==>
              -9223372036854775809.0 < value * 1000000.0 < 9223372036854775808.0
    ensures !Convertible(value) ==> DoubleToPrice(value) == Price(-9223372036854775808, -6)
  {
    hide Truncate;
    var x := value * 1000000.0;
    TruncateTowardZero(x);
    if x >= 0.0 {
      FloorBelow(Truncate(x), x, 0x8000_0000_0000_0000);
    } else {
      FloorBelow(-Truncate(x), -x, 0x8000_0000_0000_0001);
    }
  }

  lemma FloorBelow(t: int, x: real, n: int)
    requires t as real <= x < t as real + 1.0
    ensures t < n <==> x < n as real
  {
    if t < n {
      assert t as real + 1.0 <= n as real;
    }
  }

  lemma MicroUnits(m: int)
    requires -0x8000_0000_0000_0000 <= m < 0x8000_0000_0000_0000
    ensures PriceToDouble(Price(m, -6)) * 1000000.0 == m as real
  {
    Pow10Shift(-6, 6);
    assert Pow(10, 6) == 1000000;
    assert Pow10(0) == 1.0;
    var x := Pow10(-6);
    assert (m as real * x) * 1000000.0 == m as real * (x * 1000000.0);
  }

  /** double_to_price cuts toward zero, by less than a millionth. */
  lemma ConversionTruncates(value: real)
    requires Convertible(value)
    ensures var v := PriceToDouble(DoubleToPrice(value));
            && (value >= 0.0 ==> 0.0 <= v <= value && value - v < 0.000001)
            && (value <= 0.0 ==> value <= v <= 0.0 && v - value < 0.000001)
  {
    hide PriceToDouble, Truncate;
    MicroUnits(Truncate(value * 1000000.0));
    TruncateTowardZero(value * 1000000.0);
  }

  lemma ConversionMonotone(x: real, y: real)
    requires Convertible(x) && Convertible(y)
    requires x <= y
    ensures PriceToDouble(DoubleToPrice(x)) <= PriceToDouble(DoubleToPrice(y))
  {
    hide PriceToDouble, Truncate;
    MicroUnits(Truncate(x * 1000000.0));
    MicroUnits(Truncate(y * 1000000.0));
    TruncateMonotone(x * 1000000.0, y * 1000000.0);
  }

  predicate Whole(x: real) {
    x.Floor as real == x
  }

  lemma TruncateWhole(x: real)
    ensures Truncate(x) as real == x <==> Whole(x)
  {
    var n := x.Floor;
    assert -(n as real) == (-n) as real && ((-n) as real).Floor == -n;
    var t := Truncate(x);
    assert (t as real).Floor == t;
  }

  /** The conversion is exact exactly for whole numbers of millionths. */
  lemma ConversionExactIff(value: real)
    requires Convertible(value)
    ensures PriceToDouble(DoubleToPrice(value)) == value <==> Whole(value * 1000000.0)
  {
    hide PriceToDouble, Truncate;
    MicroUnits(Truncate(value * 1000000.0));
    TruncateWhole(value * 1000000.0);
  }

  /** There and back: converting a price to a double and back keeps its normal form if and
      only if the normal form needs no more than six decimals.  (A positive exponent is
      spelled out as trailing zeros, so the value is kept and the fields are not.) */
  lemma PriceRoundTrip(p: Price)
    requires Convertible(PriceToDouble(p))
    ensures var back := DoubleToPrice(PriceToDouble(p));
            && (PriceToDouble(back) == PriceToDouble(p) <==> Normalize(p).exponent >= -6)
            && (Normalize(back) == Normalize(p) <==> -6 <= Normalize(p).exponent <= 0)
  {
    hide PriceToDouble, Whole, Normalize;
    var back := DoubleToPrice(PriceToDouble(p));
    NormalizeKeepsValue(p);
    NormalizeKeepsValue(back);
    NormalizeIsCanonical(p, back);
    SixDecimalsIff(Normalize(p));
    ConversionExactIff(PriceToDouble(p));
  }

  /** A normal form is a whole number of millionths exactly when it has at most six decimals. */
  lemma SixDecimalsIff(n: Price)
    requires n.mantissa % 10 != 0 || n.exponent >= 0
    ensures Whole(PriceToDouble(n) * 1000000.0) <==> n.exponent >= -6
  {
    hide PriceToDouble;
    if n.exponent >= -6 {
      var k := n.mantissa * Pow(10, n.exponent + 6);
      WholeMillionths(n, k);
      assert (k as real).Floor == k;
    } else if Whole(PriceToDouble(n) * 1000000.0) {
      FinerThanMillionths(n, (PriceToDouble(n) * 1000000.0).Floor);
    }
  }

  lemma FinerThanMillionths(n: Price, k: int)
    requires n.exponent < -6
    requires PriceToDouble(n) * 1000000.0 == k as real
    ensures n.mantissa % 10 == 0
  {
    var d := -6 - n.exponent;
    var x := Pow10(n.exponent);
    Pow10Positive(n.exponent);
    Pow10Shift(n.exponent, d);
    Pow10Shift(-6, 6);
    assert Pow(10, 6) == 1000000 && Pow10(0) == 1.0;
    var m := k * Pow(10, d);
    RealProduct(k, Pow(10, d), x);
    assert Pow10(-6) * 1000000.0 == 1.0;
    CancelReal(n.mantissa as real, m as real, x);
    TrailingZeros(k, d);
  }

  lemma WholeMillionths(n: Price, k: int)
    requires n.exponent >= -6
    requires k == n.mantissa * Pow(10, n.exponent + 6)
    ensures PriceToDouble(n) * 1000000.0 == k as real
  {
    var x := Pow10(-6);
    Pow10Shift(-6, n.exponent + 6);
    Pow10Shift(-6, 6);
    assert Pow(10, 6) == 1000000 && Pow10(0) == 1.0;
    assert x * 1000000.0 == 1.0;
    RealProduct(n.mantissa, Pow(10, n.exponent + 6), x);
    assert k as real * x * 1000000.0 == k as real * (x * 1000000.0);
  }

  /** The limit-buy improvement of process_order adds one cent exactly when the price needs
      no more than six decimals; otherwise it is less than a millionth off, short of it for
      prices from minus a cent up, beyond it below. */
  lemma ImprovementIsOneCent(p: Price)
    requires Convertible(PriceToDouble(p) + 0.01)
    ensures var v, w := PriceToDouble(p), PriceToDouble(DoubleToPrice(PriceToDouble(p) + 0.01));
            && (w == v + 0.01 <==> Normalize(p).exponent >= -6)
            && (v >= -0.01 ==> v + 0.009999 < w <= v + 0.01)
            && (v <= -0.01 ==> v + 0.01 <= w < v + 0.010001)
  {
    hide PriceToDouble, Normalize, Whole;
    var v := PriceToDouble(p);
    NormalizeKeepsValue(p);
    SixDecimalsIff(Normalize(p));
    WholeShift(v * 1000000.0);
    ConversionExactIff(v + 0.01);
    ConversionTruncates(v + 0.01);
  }

  lemma WholeShift(x: real)
    ensures Whole(x + 10000.0) <==> Whole(x)
  {
    assert (x + 10000.0).Floor == x.Floor + 10000;
  }

  /** w is below each ask above v, plus a cent. */
  ghost predicate BelowEachAsk(v: real, w: real) {
    forall ask: Price :: v < PriceToDouble(ask) ==> w < PriceToDouble(ask) + 0.01
  }

  /** The improved price stays below every ask above the price, plus a cent, if and only if the
      price is not more than a cent below zero or needs no more than six decimals: else the
      cut toward zero raises it by more than a cent. */
  lemma ImprovementBound(p: Price)
    requires Convertible(PriceToDouble(p)) && Convertible(PriceToDouble(p) + 0.01)
    ensures var v, w := PriceToDouble(p), PriceToDouble(DoubleToPrice(PriceToDouble(p) + 0.01));
            BelowEachAsk(v, w) <==> v >= -0.01 || Normalize(p).exponent >= -6
  {
    hide PriceToDouble, Normalize;
    var v, w := PriceToDouble(p), PriceToDouble(DoubleToPrice(PriceToDouble(p) + 0.01));
    ImprovementIsOneCent(p);
    ConversionTruncates(v + 0.01);
    if v < -0.01 && Normalize(p).exponent < -6 {
      var ask := AskJustAbove(p);
      assert v < PriceToDouble(ask) && !(w < PriceToDouble(ask) + 0.01);
    }
  }

  /** One cent under the improved price. */
  lemma AskJustAbove(p: Price) returns (ask: Price)
    requires Convertible(PriceToDouble(p)) && Convertible(PriceToDouble(p) + 0.01)
    requires PriceToDouble(p) < -0.01 && Normalize(p).exponent < -6
    ensures PriceToDouble(p) < PriceToDouble(ask)
    ensures PriceToDouble(ask) + 0.01 == PriceToDouble(DoubleToPrice(PriceToDouble(p) + 0.01))
  {
    hide PriceToDouble, Normalize, Truncate;
    var v := PriceToDouble(p);
    var m := Truncate((v + 0.01) * 1000000.0);
    ImprovementIsOneCent(p);
    ConversionTruncates(v + 0.01);
    MicroUnits(m);
    TruncateTowardZero(v * 1000000.0);
    assert (m - 10000) as real == m as real - 10000.0;
    assert v * 1000000.0 < (m - 10000) as real;
    AboveIsAtLeast(Truncate(v * 1000000.0), v * 1000000.0, m - 10000);
    MicroUnits(m - 10000);
    ask := Price(m - 10000, -6);
  }

  lemma AboveIsAtLeast(t: int, x: real, n: int)
    requires t as real - 1.0 < x < n as real
    ensures t <= n
  {
  }
}
