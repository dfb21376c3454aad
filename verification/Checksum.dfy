/** The wire checksum (calculate_checksum) and exactly which changes it detects. */
module Checksum {
  import opened Arithmetic
  import opened Base33
  import opened Bytes

  const M32: int := 0x1_0000_0000

  /** The value the loop computes, over all byte strings. */
  function ChecksumOf(s: seq<Byte>): U32 {
    Horner(0, s) % M32
  }

  lemma Modulus32()
    ensures Pow(2, 32) == M32
    ensures Pow(2, 27) == 0x800_0000
    ensures Pow(2, 20) == 0x10_0000
    ensures Pow(2, 8) == 256
  {
    assert Pow(2, 8) == 256;
    PowAdd(2, 8, 8);
    PowAdd(2, 16, 16);
    PowAdd(2, 16, 4);
    PowAdd(2, 20, 7);
    assert Pow(2, 4) == 16 && Pow(2, 7) == 128;
  }

  /** Wrapping after the shift, after the first sum and after the second is the same as
      wrapping once. */
  lemma StepWraps(h: int, b: int)
    ensures (((h % M32) * 32 % M32 + h % M32) % M32 + b) % M32 == (33 * h + b) % M32
  {
  }

  method CalculateChecksum(data: array<Byte>, offset: nat, size: nat) returns (checksum: U32)
    requires offset + size <= data.Length
    ensures checksum == ChecksumOf(data[offset..offset + size])
  {
    checksum := 0;
    for i := 0 to size
      invariant checksum == ChecksumOf(data[offset..offset + i])
    {
      ghost var done := data[offset..offset + i];
      ghost var more := data[offset..offset + i + 1];
      assert more[..|more| - 1] == done;
      StepWraps(Horner(0, done), data[offset + i]);
      var shifted := checksum * 32 % M32;
      checksum := ((shifted + checksum) % M32 + data[offset + i]) % M32;
    }
  }

  /** The loop evaluates the polynomial sum of b[i] * 33^(n-1-i) modulo 2^32. */
  lemma ChecksumIsPolynomial(s: seq<Byte>)
    ensures ChecksumOf(s) == Polynomial(s) % M32
  {
    HornerIsPolynomial(0, s);
  }

  /** The checksum of a concatenation follows from the two checksums. */
  lemma ChecksumConcat(a: seq<Byte>, b: seq<Byte>)
    ensures ChecksumOf(a + b) == (ChecksumOf(a) * Pow(33, |b|) + ChecksumOf(b)) % M32
  {
    hide Horner, Pow, Polynomial;
    var x, y, p := Horner(0, a), Horner(0, b), Pow(33, |b|);
    assert Horner(0, a + b) == x * p + y by {
      HornerConcat(0, a, b);
      HornerIsPolynomial(x, b);
      HornerIsPolynomial(0, b);
    }
    ModCombine(x, p, y, M32);
  }

  /** The accumulator after the bytes of s, from any starting accumulator. */
  function Accumulate(start: U32, s: seq<Byte>): U32 {
    Horner(start, s) % M32
  }

  const INVERSE_OF_33: int := 1041204193

  /** Undoes Accumulate: takes the bytes back off, last first. */
  function Unwind(acc: U32, s: seq<Byte>): U32
    decreases |s|
  {
    if |s| == 0 then acc
    else Unwind((acc - s[|s| - 1]) * INVERSE_OF_33 % M32, s[..|s| - 1])
  }

  lemma AccumulateStep(start: U32, s: seq<Byte>)
    requires |s| > 0
    ensures Accumulate(start, s) == (33 * Accumulate(start, s[..|s| - 1]) + s[|s| - 1]) % M32
  {
    ModLinear(Horner(start, s[..|s| - 1]), 33, s[|s| - 1], M32);
  }

  lemma UndoStep(x: U32, b: Byte)
    ensures ((33 * x + b) % M32 - b) * INVERSE_OF_33 % M32 == x
    ensures (33 * ((x - b) * INVERSE_OF_33 % M32) + b) % M32 == x
  {
    var m := 33 * x + b;
    assert m == M32 * (m / M32) + m % M32;
    assert (m % M32 - b) * INVERSE_OF_33 == x + M32 * (8 * x - (m / M32) * INVERSE_OF_33);
    ModAddMultiple(x, M32, 8 * x - (m / M32) * INVERSE_OF_33);
    ModLinear((x - b) * INVERSE_OF_33, 33, b, M32);
    assert 33 * ((x - b) * INVERSE_OF_33) + b == x + M32 * (8 * (x - b));
    ModAddMultiple(x, M32, 8 * (x - b));
  }

  /** For fixed bytes, starting and final accumulators are one to one. */
  lemma {:induction false} AccumulatorBijection(x: U32, s: seq<Byte>)
    ensures Unwind(Accumulate(x, s), s) == x
    ensures Accumulate(Unwind(x, s), s) == x
    decreases |s|
  {
    if |s| > 0 {
      var front, b := s[..|s| - 1], s[|s| - 1];
      AccumulateStep(x, s);
      UndoStep(Accumulate(x, front), b);
      AccumulatorBijection(x, front);
      var y := (x - b) * INVERSE_OF_33 % M32;
      UndoStep(x, b);
      AccumulatorBijection(y, front);
      AccumulateStep(Unwind(y, front), s);
    }
  }

  /** Changing bytes only inside one window of at most five goes unnoticed exactly when the
      window keeps its base-33 value. */
  lemma WindowDetection(pre: seq<Byte>, w: seq<Byte>, w': seq<Byte>, suf: seq<Byte>)
    requires |w| == |w'| <= 5
    ensures ChecksumOf(pre + w + suf) == ChecksumOf(pre + w' + suf)
       <==> Polynomial(w) == Polynomial(w')
  {
    Modulus32();
    WindowChange(0, pre, w, w', suf, 32);
    SmallPowers();
    ShortWindow(w, w', 0, 255, 5, 32);
  }

  lemma SmallPowers()
    ensures Pow(33, 1) == 33 && Pow(33, 2) == 1089 && Pow(33, 3) == 35937
    ensures Pow(33, 4) == 1185921 && Pow(33, 5) == 39135393
  {
  }

  /** Five is the limit: these six bytes have different base-33 values and one checksum. */
  lemma SixByteCollision()
    ensures var w, w': seq<Byte> := [109, 24, 20, 26, 9, 4], [0, 0, 0, 0, 0, 0];
            Polynomial(w) == M32 && Polynomial(w') == 0 && ChecksumOf(w) == ChecksumOf(w')
  {
    var w: seq<Byte>, w': seq<Byte> := [109, 24, 20, 26, 9, 4], [0, 0, 0, 0, 0, 0];
    SixDigits(109, 24, 20, 26, 9, 4);
    SixDigits(0, 0, 0, 0, 0, 0);
    ChecksumIsPolynomial(w);
    ChecksumIsPolynomial(w');
  }

  lemma SixDigits(a: int, b: int, c: int, d: int, e: int, f: int)
    ensures Polynomial([a, b, c, d, e, f])
            == 39135393 * a + 1185921 * b + 35937 * c + 1089 * d + 33 * e + f
  {
    SmallPowers();
    LeadingDigit(a, [b, c, d, e, f]);
    LeadingDigit(b, [c, d, e, f]);
    LeadingDigit(c, [d, e, f]);
    LeadingDigit(d, [e, f]);
    TwoDigits(e, f);
  }

  /** Any change of one byte is detected, wherever it is and however long the data. */
  lemma OneByteDetected(s: seq<Byte>, i: nat, b: Byte)
    requires i < |s| && b != s[i]
    ensures ChecksumOf(s[i := b]) != ChecksumOf(s)
  {
    WindowDetection(s[..i], [s[i]], [b], s[i + 1..]);
    assert s == s[..i] + [s[i]] + s[i + 1..];
    assert s[i := b] == s[..i] + [b] + s[i + 1..];
    assert Polynomial([s[i]]) == s[i] && Polynomial([b]) == b;
  }

  /** A change of two adjacent bytes is missed exactly when the second moves by -33 times
      what the first moves. */
  lemma AdjacentBytesMissed(s: seq<Byte>, i: nat, b: Byte, c: Byte)
    requires i + 1 < |s|
    ensures ChecksumOf(s[i := b][i + 1 := c]) == ChecksumOf(s)
       <==> (c as int) - s[i + 1] == -33 * ((b as int) - s[i])
  {
    WindowDetection(s[..i], [s[i], s[i + 1]], [b, c], s[i + 2..]);
    assert s == s[..i] + [s[i], s[i + 1]] + s[i + 2..];
    assert s[i := b][i + 1 := c] == s[..i] + [b, c] + s[i + 2..];
    TwoDigits(s[i], s[i + 1]);
    TwoDigits(b, c);
  }

  function Swapped(s: seq<Byte>, i: nat, j: nat): (t: seq<Byte>)
    requires i < |s| && j < |s|
  {
    s[i := s[j]][j := s[i]]
  }

  /** Exchanging the bytes at i < j goes unnoticed exactly when 2^27 divides their distance
      times their difference. */
  lemma SwapMissed(s: seq<Byte>, i: nat, j: nat)
    requires i < j < |s|
    ensures ChecksumOf(Swapped(s, i, j)) == ChecksumOf(s)
       <==> ((j - i) * (s[i] as int - s[j])) % 0x800_0000 == 0
  {
    var pre, mid, suf := s[..i], s[i + 1..j], s[j + 1..];
    Modulus32();
    SwapChange(0, pre, s[i], mid, s[j], suf, 27);
    assert s == pre + ([s[i]] + mid + [s[j]]) + suf;
    assert Swapped(s, i, j) == pre + ([s[j]] + mid + [s[i]]) + suf;
  }

  /** Hence every exchange of unequal bytes less than 2^20 apart is detected. */
  lemma SwapDetected(s: seq<Byte>, i: nat, j: nat)
    requires i < j < |s|
    requires j - i < 0x10_0000
    requires s[i] != s[j]
    ensures ChecksumOf(Swapped(s, i, j)) != ChecksumOf(s)
  {
    var d, e := j - i, s[i] as int - s[j];
    Modulus32();
    SwapMissed(s, i, j);
    V2Small(d, 20);
    V2Small(e, 8);
    V2Product(d, e);
    DividesIffV2(d * e, 27);
  }

  /** 2^20 is the limit: at that distance a difference of 128 slips through. */
  lemma SwapAtTwoToTheTwentyMissed(s: seq<Byte>, i: nat)
    requires i + 0x10_0000 < |s|
    requires s[i] as int == s[i + 0x10_0000] as int + 128
    ensures ChecksumOf(Swapped(s, i, i + 0x10_0000)) == ChecksumOf(s)
  {
    SwapMissed(s, i, i + 0x10_0000);
  }
}
