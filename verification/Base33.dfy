/** Base-33 accumulation, `acc = acc * 33 + digit`, modulo a power of two.
    The wire checksum (modulus 2^32, start 0) and the order hash (modulus 2^64,
    start 5381) are both instances, so what a change of digits does to the result
    is settled here once, for every number of digits and every power of two. */
module Base33 {
  import opened Arithmetic

  /** What the accumulator would hold without wrap-around. */
  function Horner(start: int, s: seq<int>): int {
    if |s| == 0 then start else 33 * Horner(start, s[..|s| - 1]) + s[|s| - 1]
  }

  /** The polynomial: digit i weighs 33^(n-1-i). */
  function Polynomial(s: seq<int>): int {
    if |s| == 0 then 0 else s[0] * Pow(33, |s| - 1) + Polynomial(s[1..])
  }

  lemma {:induction false} HornerConcat(start: int, a: seq<int>, b: seq<int>)
    ensures Horner(start, a + b) == Horner(Horner(start, a), b)
  {
    if |b| == 0 {
      assert a + b == a;
    } else {
      var i := |b| - 1;
      HornerConcat(start, a, b[..i]);
      assert (a + b)[..|a + b| - 1] == a + b[..i];
    }
  }

  /** Accumulating from any start is the start shifted up plus the polynomial. */
  lemma {:induction false} HornerIsPolynomial(start: int, s: seq<int>)
    ensures Horner(start, s) == start * Pow(33, |s|) + Polynomial(s)
    decreases |s|
  {
    if |s| > 0 {
      var next := 33 * start + s[0];
      assert s == s[..1] + s[1..];
      HornerConcat(start, s[..1], s[1..]);
      assert Horner(start, s[..1]) == next by {
        assert s[..1][..0] == [];
      }
      HornerIsPolynomial(next, s[1..]);
      var p := Pow(33, |s| - 1);
      Distribute(33 * start, s[0], p);
      Associate(start, 33, p);
    }
  }

  /** Powers of 33 are odd, so multiplying by one loses nothing modulo 2^k. */
  lemma {:induction false} Pow33Odd(n: nat)
    ensures Pow(33, n) % 2 == 1
    ensures Pow(33, n) > 0
    ensures V2(Pow(33, n)) == 0
  {
    if n > 0 {
      Pow33Odd(n - 1);
      OddTimesOdd(33, Pow(33, n - 1));
    }
  }

  lemma Cancel33(x: int, n: nat, k: nat)
    ensures Pow(2, k) > 0
    ensures (x * Pow(33, n)) % Pow(2, k) == 0 <==> x % Pow(2, k) == 0
  {
    PowPositive(2, k);
    if x != 0 {
      Pow33Odd(n);
      V2Product(x, Pow(33, n));
      DividesIffV2(x, k);
      DividesIffV2(x * Pow(33, n), k);
    }
  }

  lemma DifferenceOfSquares(p: int)
    requires p % 4 == 1 && p != 1 && p != -1
    ensures p * p != 1
    ensures V2(p * p - 1) == V2(p - 1) + 1
  {
    assert p * p - 1 == (p - 1) * (p + 1);
    V2OfTwiceOdd(p + 1);
    V2Product(p - 1, p + 1);
  }

  /** Doubling the exponent adds one factor of two: 33^2e - 1 = (33^e - 1)(33^e + 1). */
  lemma DoubleExponent(e: nat)
    requires Pow(33, e) != 1
    ensures Pow(33, e + e) != 1
    ensures V2(Pow(33, e + e) - 1) == V2(Pow(33, e) - 1) + 1
  {
    PowAdd(33, e, e);
    Pow33ModFour(e);
    DifferenceOfSquares(Pow(33, e));
  }

  lemma SixFactors(n: int)
    requires n != 0 && V2(n) >= 6
    ensures n % 64 == 0
  {
    DividesIffV2(n, 6);
    assert Pow(2, 6) == 64;
  }

  /** One more power after an exponent with at least six factors of two leaves five. */
  lemma OddExponent(q: int)
    ensures 33 * (64 * q + 1) != 1
    ensures V2(33 * (64 * q + 1) - 1) == 5
  {
    ThirtyTwoTimesOdd(33 * q);
    assert 33 * (64 * q + 1) - 1 == 32 * (2 * (33 * q) + 1);
  }

  lemma ThirtyTwoTimesOdd(h: int)
    ensures 32 * (2 * h + 1) != 0 && V2(32 * (2 * h + 1)) == 5
  {
    V2Product(32, 2 * h + 1);
    V2Of32();
  }

  lemma V2Of32()
    ensures V2(32) == 5
  {
    assert V2(2) == 1;
    assert V2(8) == 3;
  }

  /** Lifting the exponent: 33^d - 1 has exactly five more factors of two than d. */
  lemma {:induction false} LiftExponent(d: nat)
    requires d > 0
    ensures Pow(33, d) != 1
    ensures V2(Pow(33, d) - 1) == 5 + V2(d)
  {
    if d == 1 {
      assert Pow(33, 1) == 33;
      V2Of32();
    } else if d % 2 == 0 {
      LiftExponent(d / 2);
      DoubleExponent(d / 2);
    } else {
      LiftExponent(d - 1);
      var x := Pow(33, d - 1) - 1;
      SixFactors(x);
      OddExponent(x / 64);
      assert Pow(33, d) == 33 * (64 * (x / 64) + 1);
    }
  }

  lemma {:induction false} Pow33ModFour(e: nat)
    ensures Pow(33, e) % 4 == 1
    ensures Pow(33, e) > 0
  {
    if e > 0 {
      Pow33ModFour(e - 1);
    }
  }

  /** Whatever digits follow, distinct accumulators modulo 2^k stay distinct. */
  lemma StartChange(x: int, y: int, suf: seq<int>, k: nat)
    ensures Pow(2, k) > 0
    ensures Horner(x, suf) % Pow(2, k) == Horner(y, suf) % Pow(2, k)
       <==> (x - y) % Pow(2, k) == 0
  {
    PowPositive(2, k);
    HornerIsPolynomial(x, suf);
    HornerIsPolynomial(y, suf);
    Distribute(x, y, Pow(33, |suf|));
    CongruentIff(Horner(x, suf), Horner(y, suf), Pow(2, k));
    Cancel33(x - y, |suf|, k);
  }

  /** Replacing one stretch of digits by another of the same length goes unnoticed
      modulo 2^k exactly when the two stretches have congruent values; nothing before
      or after them matters. */
  lemma WindowChange(start: int, pre: seq<int>, w: seq<int>, w': seq<int>, suf: seq<int>, k: nat)
    requires |w| == |w'|
    ensures Pow(2, k) > 0
    ensures Horner(start, pre + w + suf) % Pow(2, k) == Horner(start, pre + w' + suf) % Pow(2, k)
       <==> (Polynomial(w) - Polynomial(w')) % Pow(2, k) == 0
  {
    var h := Horner(start, pre);
    HornerConcat(start, pre, w);
    HornerConcat(start, pre, w');
    HornerConcat(start, pre + w, suf);
    HornerConcat(start, pre + w', suf);
    HornerIsPolynomial(h, w);
    HornerIsPolynomial(h, w');
    StartChange(Horner(h, w), Horner(h, w'), suf, k);
  }

  /** A single replaced digit: only the difference of the two digits counts. */
  lemma DigitChange(start: int, pre: seq<int>, a: int, b: int, suf: seq<int>, k: nat)
    ensures Pow(2, k) > 0
    ensures Horner(start, pre + [a] + suf) % Pow(2, k) == Horner(start, pre + [b] + suf) % Pow(2, k)
       <==> (a - b) % Pow(2, k) == 0
  {
    WindowChange(start, pre, [a], [b], suf, k);
    assert Polynomial([a]) == a && Polynomial([b]) == b;
  }

  /** Exchanging two digits at distance d goes unnoticed modulo 2^(5+k) exactly when
      2^k divides d times their difference. */
  lemma SwapChange(start: int, pre: seq<int>, a: int, mid: seq<int>, b: int, suf: seq<int>, k: nat)
    ensures Pow(2, 5 + k) > 0 && Pow(2, k) > 0
    ensures Horner(start, pre + ([a] + mid + [b]) + suf) % Pow(2, 5 + k)
            == Horner(start, pre + ([b] + mid + [a]) + suf) % Pow(2, 5 + k)
       <==> ((|mid| + 1) * (a - b)) % Pow(2, k) == 0
  {
    var d := |mid| + 1;
    var p := Pow(33, d);
    WindowChange(start, pre, [a] + mid + [b], [b] + mid + [a], suf, 5 + k);
    Bracketed(a, mid, b);
    Bracketed(b, mid, a);
    SwapDifference(a, b, p);
    LiftedMultiple(d, a - b, k);
  }

  lemma SwapDifference(a: int, b: int, p: int)
    ensures (a * p + b) - (b * p + a) == (p - 1) * (a - b)
  {
    assert (p - 1) * (a - b) == p * (a - b) - (a - b);
    assert p * (a - b) == a * p - b * p;
  }

  /** 2^(5+k) divides e times 33^d - 1 exactly when 2^k divides d times e. */
  lemma LiftedMultiple(d: nat, e: int, k: nat)
    requires d > 0
    ensures Pow(2, 5 + k) > 0 && Pow(2, k) > 0
    ensures ((Pow(33, d) - 1) * e) % Pow(2, 5 + k) == 0 <==> (d * e) % Pow(2, k) == 0
  {
    PowPositive(2, k);
    PowPositive(2, 5 + k);
    if e != 0 {
      LiftExponent(d);
      V2Product(Pow(33, d) - 1, e);
      V2Product(d, e);
      DividesIffV2((Pow(33, d) - 1) * e, 5 + k);
      DividesIffV2(d * e, k);
    }
  }

  lemma Bracketed(a: int, mid: seq<int>, b: int)
    ensures Polynomial([a] + mid + [b])
            == a * Pow(33, |mid| + 1) + 33 * Polynomial(mid) + b
  {
    var s := [a] + mid + [b];
    assert s[1..] == mid + [b];
    assert (mid + [b])[..|mid|] == mid;
    HornerIsPolynomial(0, mid);
    HornerIsPolynomial(0, mid + [b]);
  }

  lemma LeadingDigit(a: int, rest: seq<int>)
    ensures Polynomial([a] + rest) == a * Pow(33, |rest|) + Polynomial(rest)
  {
    assert ([a] + rest)[1..] == rest;
  }

  lemma TwoDigits(a: int, b: int)
    ensures Polynomial([a, b]) == 33 * a + b
  {
    LeadingDigit(a, [b]);
    LeadingDigit(b, []);
    assert Pow(33, 1) == 33;
  }

  lemma ThreeDigits(a: int, b: int, c: int)
    ensures Polynomial([a, b, c]) == 1089 * a + 33 * b + c
  {
    LeadingDigit(a, [b, c]);
    TwoDigits(b, c);
    assert Pow(33, 2) == 1089;
  }

  lemma ScaleDigit(a: int, lo: int, hi: int, p: int)
    requires lo <= a <= hi && p > 0
    ensures lo * p <= a * p <= hi * p
  {
    assert (hi - a) * p >= 0 && (a - lo) * p >= 0;
  }

  lemma BoundStep(a: int, lo: int, hi: int, p: int, rest: int)
    requires lo <= a <= hi && p > 0
    requires lo * (p - 1) <= 32 * rest <= hi * (p - 1)
    ensures lo * (33 * p - 1) <= 32 * (a * p + rest) <= hi * (33 * p - 1)
  {
    ScaleDigit(a, lo, hi, p);
    assert lo * (33 * p - 1) == 32 * (lo * p) + lo * (p - 1);
    assert hi * (33 * p - 1) == 32 * (hi * p) + hi * (p - 1);
  }

  /** Digits from lo to hi give a polynomial from lo to hi times (33^n - 1) / 32. */
  lemma {:induction false} PolynomialBound(s: seq<int>, lo: int, hi: int)
    requires forall i :: 0 <= i < |s| ==> lo <= s[i] <= hi
    ensures lo * (Pow(33, |s|) - 1) <= 32 * Polynomial(s) <= hi * (Pow(33, |s|) - 1)
  {
    if |s| > 0 {
      PolynomialBound(s[1..], lo, hi);
      PowPositive(33, |s| - 1);
      BoundStep(s[0], lo, hi, Pow(33, |s| - 1), Polynomial(s[1..]));
    }
  }

  lemma {:induction false} Pow33Monotone(m: nat, n: nat)
    requires m <= n
    ensures Pow(33, m) <= Pow(33, n)
    decreases n
  {
    if m < n {
      Pow33Monotone(m, n - 1);
      PowPositive(33, n - 1);
    }
  }

  /** Short stretches do not wrap: if (hi - lo) * (33^n - 1) / 32 stays below 2^k, two stretches
      of n digits from lo to hi are congruent modulo 2^k only when equal in value. */
  lemma ShortWindow(w: seq<int>, w': seq<int>, lo: int, hi: int, n: nat, k: nat)
    requires |w| == |w'| <= n
    requires forall i :: 0 <= i < |w| ==> lo <= w[i] <= hi && lo <= w'[i] <= hi
    requires lo <= hi
    requires (hi - lo) * (Pow(33, n) - 1) < 32 * Pow(2, k)
    ensures Pow(2, k) > 0
    ensures (Polynomial(w) - Polynomial(w')) % Pow(2, k) == 0 <==> Polynomial(w) == Polynomial(w')
  {
    PowPositive(2, k);
    PolynomialBound(w, lo, hi);
    PolynomialBound(w', lo, hi);
    Pow33Monotone(|w|, n);
    var p := Pow(33, |w|) - 1;
    Distribute(hi, lo, p);
    MonotoneProduct(hi - lo, p, Pow(33, n) - 1);
    CloseAndCongruent(Polynomial(w) - Polynomial(w'), Pow(2, k));
  }

  lemma MonotoneProduct(x: int, y: int, z: int)
    requires x >= 0 && y <= z
    ensures x * y <= x * z
  {
    assert x * (z - y) >= 0;
  }

  /** Congruent numbers closer together than the modulus are equal. */
  lemma CloseAndCongruent(x: int, m: int)
    requires -m < x < m
    ensures x % m == 0 <==> x == 0
  {
    assert x == m * (x / m) + x % m;
    MultipleSize(m, x / m);
  }
}
