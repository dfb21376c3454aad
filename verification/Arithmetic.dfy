/** Powers, residues and the 2-adic valuation: the number theory behind the
    base-33 checksum and hashes. */
module Arithmetic {

  function Pow(b: int, e: nat): int {
    if e == 0 then 1 else b * Pow(b, e - 1)
  }

  lemma {:induction false} PowAdd(b: int, m: nat, n: nat)
    ensures Pow(b, m + n) == Pow(b, m) * Pow(b, n)
  {
    if m > 0 {
      PowAdd(b, m - 1, n);
      Associate(b, Pow(b, m - 1), Pow(b, n));
    }
  }

  lemma Distribute(x: int, y: int, p: int)
    ensures x * p - y * p == (x - y) * p
    ensures (x + y) * p == x * p + y * p
  {
  }

  lemma Associate(x: int, y: int, z: int)
    ensures (x * y) * z == x * (y * z)
  {
  }

  lemma {:induction false} PowPositive(b: int, e: nat)
    requires b > 0
    ensures Pow(b, e) > 0
  {
    if e > 0 {
      PowPositive(b, e - 1);
      assert b * Pow(b, e - 1) > 0;
    }
  }

  /** A nonzero multiple of m is at least m in size. */
  lemma MultipleSize(m: int, d: int)
    requires m > 0
    ensures d >= 1 ==> m * d >= m
    ensures d <= -1 ==> m * d <= -m
  {
    assert m * d - m == m * (d - 1);
    assert m * d + m == m * (d + 1);
  }

  /** Quotient and remainder are the only pair that fits. */
  lemma DivModUnique(x: int, m: int, q: int, r: int)
    requires 0 <= r < m
    requires x == m * q + r
    ensures x / m == q && x % m == r
  {
    var d := x / m - q;
    assert x == m * (x / m) + x % m;
    assert m * d == r - x % m by {
      assert m * d == m * (x / m) - m * q;
    }
    MultipleSize(m, d);
  }

  lemma MultipleIsZero(m: int, q: int)
    requires m > 0
    ensures (m * q) % m == 0
  {
    DivModUnique(m * q, m, q, 0);
  }

  /** Adding a multiple of the modulus does not change the residue. */
  lemma ModAddMultiple(x: int, m: int, q: int)
    requires m > 0
    ensures (x + m * q) % m == x % m
  {
    assert x + m * q == m * (x / m + q) + x % m by {
      assert m * (x / m + q) == m * (x / m) + m * q;
    }
    DivModUnique(x + m * q, m, x / m + q, x % m);
  }

  /** Two numbers are congruent exactly when the modulus divides their difference. */
  lemma CongruentIff(x: int, y: int, m: int)
    requires m > 0
    ensures x % m == y % m <==> (x - y) % m == 0
  {
    if x % m == y % m {
      assert x - y == m * (x / m - y / m);
      MultipleIsZero(m, x / m - y / m);
    }
    if (x - y) % m == 0 {
      assert x == y + m * ((x - y) / m);
      ModAddMultiple(y, m, (x - y) / m);
    }
  }

  /** Reducing an operand early does not change the reduced linear form. */
  lemma ModLinear(x: int, c: int, y: int, m: int)
    requires m > 0
    ensures (c * (x % m) + y) % m == (c * x + y) % m
  {
    assert c * x + y == (c * (x % m) + y) + m * (c * (x / m)) by {
      assert x == m * (x / m) + x % m;
      assert c * x == c * (m * (x / m)) + c * (x % m);
      assert c * (m * (x / m)) == m * (c * (x / m));
    }
    ModAddMultiple(c * (x % m) + y, m, c * (x / m));
  }

  lemma ModCombine(x: int, c: int, y: int, m: int)
    requires m > 0
    ensures (x % m * c + y % m) % m == (x * c + y) % m
  {
    ModLinear(x, c, y % m, m);
    ModLinear(y, 1, c * x, m);
  }

  function Abs(n: int): nat {
    if n < 0 then -n else n
  }

  /** The exponent of 2 in a nonzero integer. */
  function V2(n: int): nat
    requires n != 0
    decreases Abs(n)
  {
    if n % 2 != 0 then 0 else 1 + V2(n / 2)
  }

  lemma V2Double(n: int)
    requires n != 0
    ensures V2(2 * n) == 1 + V2(n)
  {
    assert 2 * n / 2 == n;
  }

  lemma V2OfTwiceOdd(n: int)
    requires n % 4 == 2
    ensures V2(n) == 1
  {
    var h := n / 4;
    assert n == 2 * (2 * h + 1);
    V2Double(2 * h + 1);
  }

  lemma OddTimesOdd(x: int, y: int)
    requires x % 2 != 0 && y % 2 != 0
    ensures (x * y) % 2 != 0
  {
    var h := x / 2;
    assert x * y == (2 * h + 1) * y == 2 * (h * y) + y;
  }

  lemma EvenFactor(x: int, y: int)
    requires x % 2 == 0 && x != 0 && y != 0
    ensures x * y == 2 * (x / 2 * y)
    ensures x / 2 * y != 0
  {
    var h := x / 2;
    assert x == 2 * h;
  }

  lemma {:induction false} V2Product(x: int, y: int)
    requires x != 0 && y != 0
    ensures x * y != 0
    ensures V2(x * y) == V2(x) + V2(y)
    decreases Abs(x) + Abs(y)
  {
    if x % 2 == 0 {
      EvenFactor(x, y);
      V2Product(x / 2, y);
      V2Double(x / 2 * y);
    } else if y % 2 == 0 {
      EvenFactor(y, x);
      V2Product(x, y / 2);
      V2Double(y / 2 * x);
    } else {
      OddTimesOdd(x, y);
    }
  }

  lemma HalveDivides(n: int, p: int)
    requires p > 0
    ensures n % (2 * p) == 0 <==> n % 2 == 0 && n / 2 % p == 0
  {
    if n % (2 * p) == 0 {
      var q := n / (2 * p);
      assert n == 2 * (p * q);
      MultipleIsZero(p, q);
    }
    if n % 2 == 0 && n / 2 % p == 0 {
      var q := n / 2 / p;
      assert n == 2 * (p * q) == (2 * p) * q;
      MultipleIsZero(2 * p, q);
    }
  }

  /** A power of two divides a nonzero integer exactly when its exponent does not
      exceed the valuation. */
  lemma {:induction false} DividesIffV2(n: int, k: nat)
    requires n != 0
    ensures Pow(2, k) > 0
    ensures n % Pow(2, k) == 0 <==> V2(n) >= k
    decreases k
  {
    PowPositive(2, k);
    if k > 0 {
      PowPositive(2, k - 1);
      HalveDivides(n, Pow(2, k - 1));
      if n % 2 == 0 {
        DividesIffV2(n / 2, k - 1);
      }
    }
  }

  /** A nonzero integer below 2^k in size has valuation below k. */
  lemma V2Small(n: int, k: nat)
    requires n != 0
    requires -Pow(2, k) < n < Pow(2, k)
    ensures V2(n) < k
  {
    PowPositive(2, k);
    DividesIffV2(n, k);
    assert n == Pow(2, k) * (n / Pow(2, k)) + n % Pow(2, k);
    MultipleSize(Pow(2, k), n / Pow(2, k));
  }
}
