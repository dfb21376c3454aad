/** Bytes, little-endian integers and fixed-width record layouts (LP64, little endian). */
module Bytes {
  import opened Arithmetic

  type Byte = x: int | 0 <= x < 256
  type U32 = x: int | 0 <= x < 0x1_0000_0000
  type U64 = x: int | 0 <= x < 0x1_0000_0000_0000_0000
  type I32 = x: int | -0x8000_0000 <= x < 0x8000_0000
  type I64 = x: int | -0x8000_0000_0000_0000 <= x < 0x8000_0000_0000_0000

  /** What an atomic fetch-and-add of 1 leaves in a 64-bit counter. */
  function Bump(n: U64): U64 {
    (n as int + 1) % 0x1_0000_0000_0000_0000
  }

  /** The w low-order bytes of x, least significant first. */
  function ToLE(x: nat, w: nat): (s: seq<Byte>)
    ensures |s| == w
  {
    if w == 0 then [] else [x % 256] + ToLE(x / 256, w - 1)
  }

  function FromLE(s: seq<Byte>): nat {
    if |s| == 0 then 0 else s[0] + 256 * FromLE(s[1..])
  }

  /** Little endian: byte i carries the digit of weight 256^i. */
  lemma {:induction false} ByteOfLE(x: nat, w: nat, i: nat)
    requires i < w
    ensures Pow(256, i) > 0 && ToLE(x, w)[i] == x / Pow(256, i) % 256
  {
    if i > 0 {
      ByteOfLE(x / 256, w - 1, i - 1);
      DivideTwice(x, 256, Pow(256, i - 1));
    }
  }

  lemma DivideTwice(x: nat, a: nat, b: nat)
    requires a > 0 && b > 0
    ensures a * b > 0 && x / a / b == x / (a * b)
  {
    Quotient(x, a);
    Quotient(x / a, b);
    Nested(a, b, x / a, x % a, x / a / b, x / a % b);
  }

  lemma Quotient(x: nat, d: nat)
    requires d > 0
    ensures x == d * (x / d) + x % d && 0 <= x % d < d
  {
  }

  lemma Nested(a: nat, b: nat, q: nat, r: nat, q': nat, r': nat)
    requires q == b * q' + r' && r < a && r' < b
    ensures a * b > 0 && (a * q + r) / (a * b) == q'
  {
    Rebracket(a, b, q', r');
    MulMonotone(a, r', b - 1);
    MulMonotone(a, 1, b);
    QuotientIs(a * q + r, a * b, q', a * r' + r);
  }

  lemma Rebracket(a: nat, b: nat, q: nat, r: nat)
    ensures a * (b * q + r) == a * b * q + a * r
    ensures a * (b - 1) == a * b - a
  {
  }

  lemma MulMonotone(d: nat, a: int, b: int)
    ensures a <= b ==> d * a <= d * b
  {
  }

  lemma QuotientIs(x: nat, d: nat, q: nat, r: nat)
    requires d > 0 && x == d * q + r && r < d
    ensures x / d == q
  {
    var e := x / d;
    MulMonotone(d, e + 1, q);
    MulMonotone(d, q + 1, e);
  }

  lemma {:induction false} FromToLE(x: nat, w: nat)
    requires x < Pow(256, w)
    ensures FromLE(ToLE(x, w)) == x
  {
    if w > 0 {
      FromToLE(x / 256, w - 1);
    }
  }

  lemma LowByte(b: Byte, rest: nat)
    ensures (b + 256 * rest) % 256 == b
    ensures (b + 256 * rest) / 256 == rest
  {
  }

  lemma {:induction false} ToFromLE(s: seq<Byte>)
    ensures FromLE(s) < Pow(256, |s|)
    ensures ToLE(FromLE(s), |s|) == s
  {
    if |s| > 0 {
      ToFromLE(s[1..]);
      LowByte(s[0], FromLE(s[1..]));
      assert s == [s[0]] + s[1..];
    }
  }

  lemma Widths256()
    ensures Pow(256, 4) == 0x1_0000_0000
    ensures Pow(256, 8) == 0x1_0000_0000_0000_0000
  {
  }

  function LE32(x: U32): (s: seq<Byte>)
    ensures |s| == 4
    ensures FromLE(s) == x
  {
    Widths256();
    FromToLE(x, 4);
    ToLE(x, 4)
  }

  function LE64(x: U64): (s: seq<Byte>)
    ensures |s| == 8
    ensures FromLE(s) == x
  {
    Widths256();
    FromToLE(x, 8);
    ToLE(x, 8)
  }

  function U32At(s: seq<Byte>): (x: U32)
    requires |s| == 4
    ensures LE32(x) == s
  {
    Widths256();
    ToFromLE(s);
    FromLE(s)
  }

  function U64At(s: seq<Byte>): (x: U64)
    requires |s| == 8
    ensures LE64(x) == s
  {
    Widths256();
    ToFromLE(s);
    FromLE(s)
  }

  /** Two's complement: a signed value and its bit pattern. */
  function LEI32(x: I32): (s: seq<Byte>)
    ensures |s| == 4
  {
    LE32(if x < 0 then x + 0x1_0000_0000 else x)
  }

  function LEI64(x: I64): (s: seq<Byte>)
    ensures |s| == 8
  {
    LE64(if x < 0 then x + 0x1_0000_0000_0000_0000 else x)
  }

  function I32At(s: seq<Byte>): (x: I32)
    requires |s| == 4
    ensures LEI32(x) == s
  {
    var u := U32At(s);
    if u < 0x8000_0000 then u else u - 0x1_0000_0000
  }

  function I64At(s: seq<Byte>): (x: I64)
    requires |s| == 8
    ensures LEI64(x) == s
  {
    var u := U64At(s);
    if u < 0x8000_0000_0000_0000 then u else u - 0x1_0000_0000_0000_0000
  }

  /** Records are fields laid end to end, padding included. */
  function Join(fields: seq<seq<Byte>>): seq<Byte> {
    if |fields| == 0 then [] else Join(fields[..|fields| - 1]) + fields[|fields| - 1]
  }

  lemma {:induction false} JoinConcat(a: seq<seq<Byte>>, b: seq<seq<Byte>>)
    ensures Join(a + b) == Join(a) + Join(b)
  {
    if |b| == 0 {
      assert a + b == a;
    } else {
      var n := |b| - 1;
      assert (a + b)[..|a| + n] == a + b[..n];
      JoinConcat(a, b[..n]);
    }
  }

  /** `offsets` lists where each field begins, and at last the size of the record. */
  ghost predicate Fits(fields: seq<seq<Byte>>, offsets: seq<nat>) {
    && |offsets| == |fields| + 1
    && offsets[0] == 0
    && forall i :: 0 <= i < |fields| ==> offsets[i + 1] == offsets[i] + |fields[i]|
  }

  lemma {:induction false} OffsetsRise(fields: seq<seq<Byte>>, offsets: seq<nat>, i: nat, j: nat)
    requires Fits(fields, offsets)
    requires i <= j < |offsets|
    ensures offsets[i] <= offsets[j]
    decreases j
  {
    if i < j {
      OffsetsRise(fields, offsets, i, j - 1);
      assert offsets[j - 1 + 1] == offsets[j - 1] + |fields[j - 1]|;
    }
  }

  ghost predicate InPlace(record: seq<Byte>, fields: seq<seq<Byte>>, offsets: seq<nat>, i: nat)
    requires i < |fields| && Fits(fields, offsets)
  {
    offsets[i + 1] <= |record| && record[offsets[i]..offsets[i + 1]] == fields[i]
  }

  ghost predicate AllInPlace(record: seq<Byte>, fields: seq<seq<Byte>>, offsets: seq<nat>)
    requires Fits(fields, offsets)
  {
    forall i :: 0 <= i < |fields| ==> InPlace(record, fields, offsets, i)
  }

  lemma SliceOfFront(front: seq<Byte>, back: seq<Byte>, i: nat, j: nat)
    requires i <= j <= |front|
    ensures (front + back)[i..j] == front[i..j]
  {
  }

  /** Each field sits in the joined record at its own offset, and nothing follows the last. */
  lemma {:induction false} FieldsInPlace(fields: seq<seq<Byte>>, offsets: seq<nat>)
    requires Fits(fields, offsets)
    ensures |Join(fields)| == offsets[|fields|]
    ensures AllInPlace(Join(fields), fields, offsets)
  {
    if |fields| > 0 {
      var n := |fields| - 1;
      var most, upTo := fields[..n], offsets[..n + 1];
      FieldsInPlace(most, upTo);
      forall i | 0 <= i < |fields|
        ensures InPlace(Join(fields), fields, offsets, i)
      {
        if i < n {
          assert InPlace(Join(most), most, upTo, i);
          SliceOfFront(Join(most), fields[n], upTo[i], upTo[i + 1]);
        }
      }
    }
  }

  /** A record whose pieces are the given fields is their join. */
  lemma {:induction false} JoinPieces(record: seq<Byte>, fields: seq<seq<Byte>>, offsets: seq<nat>)
    requires Fits(fields, offsets)
    requires |record| == offsets[|fields|]
    requires AllInPlace(record, fields, offsets)
    ensures Join(fields) == record
    decreases |fields|
  {
    if |fields| > 0 {
      var n := |fields| - 1;
      var most, upTo := fields[..n], offsets[..n + 1];
      var front := record[..offsets[n]];
      forall i | 0 <= i < n
        ensures InPlace(front, most, upTo, i)
      {
        OffsetsRise(fields, offsets, i + 1, n);
        assert InPlace(record, fields, offsets, i);
        assert front[offsets[i]..offsets[i + 1]] == record[offsets[i]..offsets[i + 1]];
      }
      JoinPieces(front, most, upTo);
      assert InPlace(record, fields, offsets, n);
      assert record == front + record[offsets[n]..];
    }
  }
}
