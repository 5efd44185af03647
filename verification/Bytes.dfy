/**
 Bytes, powers of two and the big-endian value of a byte string.
 A node id is a string of 20 bytes; everything the routing table and the XOR
 metric do byte by byte is related here to one natural number below 2^160.
 */
module Bytes {

  type Byte = x: int | 0 <= x < 256

  const SHA1_SIZE := 20

  type Id = s: seq<Byte> | |s| == SHA1_SIZE witness seq(SHA1_SIZE, _ => 0)

  function ZeroId(): Id
  {
    seq(SHA1_SIZE, _ => 0)
  }

  // ----- powers of two -----

  function Pow2(n: nat): (p: nat)
    ensures p >= 1
  {
    if n == 0 then 1 else 2 * Pow2(n - 1)
  }

  lemma {:induction false} Pow2Add(a: nat, b: nat)
    ensures Pow2(a + b) == Pow2(a) * Pow2(b)
  {
    if b == 0 {
    } else {
      Pow2Add(a, b - 1);
      assert Pow2(a) * (2 * Pow2(b - 1)) == 2 * (Pow2(a) * Pow2(b - 1));
    }
  }

  lemma {:induction false} Pow2Monotone(a: nat, b: nat)
    requires a < b
    ensures Pow2(a) < Pow2(b)
    decreases b
  {
    if a + 1 < b {
      Pow2Monotone(a, b - 1);
    }
  }

  lemma ProductBounds(x: int, p: nat)
    ensures x >= 1 ==> x * p >= p
    ensures x <= -1 ==> x * p <= 0 - p
  {
  }

  lemma Pow2Eight()
    ensures Pow2(8) == 256
  {
    assert Pow2(4) == 16;
  }

  // ----- the number a byte string denotes -----

  /** The big-endian value of a byte string. */
  ghost function Value(s: seq<Byte>): nat
  {
    if s == [] then 0 else 256 * Value(s[..|s| - 1]) + s[|s| - 1]
  }

  lemma {:induction false} ValueBound(s: seq<Byte>)
    ensures Value(s) < Pow2(8 * |s|)
  {
    if s != [] {
      var n := |s| - 1;
      ValueBound(s[..n]);
      Pow2Add(8 * n, 8);
      Pow2Eight();
    }
  }

  lemma {:induction false} ValueConcat(a: seq<Byte>, b: seq<Byte>)
    ensures Value(a + b) == Value(a) * Pow2(8 * |b|) + Value(b)
  {
    if b == [] {
      assert a + b == a;
    } else {
      hide Pow2;
      var n := |b| - 1;
      assert (a + b)[..|a| + n] == a + b[..n] && (a + b)[|a| + n] == b[n];
      ValueConcat(a, b[..n]);
      ShiftedByte(Value(a), 8 * n);
      assert 8 * |b| == 8 * n + 8;
      AddByte(Value(a) * Pow2(8 * n), Value(a) * Pow2(8 * |b|), Value(b[..n]), b[n]);
    }
  }

  lemma AddByte(x: int, y: int, v: int, b: int)
    requires 256 * x == y
    ensures 256 * (x + v) + b == y + (256 * v + b)
  {
  }

  lemma ShiftedByte(x: int, e: nat)
    ensures 256 * (x * Pow2(e)) == x * Pow2(e + 8)
  {
    Pow2Add(e, 8);
    Pow2Eight();
    var p := Pow2(e);
    assert 256 * (x * p) == x * (p * 256);
  }

  lemma {:induction false} ValueZero(s: seq<Byte>)
    requires forall k :: 0 <= k < |s| ==> s[k] == 0
    ensures Value(s) == 0
  {
    if s != [] {
      ValueZero(s[..|s| - 1]);
    }
  }

  /** Equal values of equally long strings are equal strings. */
  lemma {:induction false} ValueInjective(a: seq<Byte>, b: seq<Byte>)
    requires |a| == |b| && Value(a) == Value(b)
    ensures a == b
  {
    if a != [] {
      var n := |a| - 1;
      ValueInjective(a[..n], b[..n]);
      assert a == a[..n] + [a[n]] && b == b[..n] + [b[n]];
    }
  }

  /** The first differing byte decides the order of two equally long strings. */
  lemma {:induction false} FirstDifferenceOrders(a: seq<Byte>, b: seq<Byte>, i: nat)
    requires |a| == |b| && i < |a|
    requires a[..i] == b[..i] && a[i] < b[i]
    ensures Value(a) < Value(b)
    decreases |a|
  {
    var n := |a| - 1;
    if i == n {
    } else {
      assert a[..n][..i] == a[..i] && b[..n][..i] == b[..i];
      FirstDifferenceOrders(a[..n], b[..n], i);
    }
  }

  /** The sign of an index loop over two byte strings: `memcmp`. */
  method MemCmp(a: seq<Byte>, b: seq<Byte>) returns (r: int)
    requires |a| == |b|
    ensures r < 0 <==> Value(a) < Value(b)
    ensures r == 0 <==> a == b
    ensures r == 0 <==> Value(a) == Value(b)
  {
    for i := 0 to |a|
      invariant a[..i] == b[..i]
    {
      if a[i] < b[i] {
        FirstDifferenceOrders(a, b, i);
        return -1;
      } else if a[i] > b[i] {
        FirstDifferenceOrders(b, a, i);
        return 1;
      }
      assert a[..i + 1] == a[..i] + [a[i]] && b[..i + 1] == b[..i] + [b[i]];
    }
    assert a == a[..|a|] && b == b[..|b|];
    r := 0;
  }

  // ----- the XOR metric -----

  /** The exclusive or of two n-bit numbers, digit by digit. */
  function XorBits(a: nat, b: nat, n: nat): (r: nat)
    ensures r < Pow2(n)
  {
    if n == 0 then 0 else (a + b) % 2 + 2 * XorBits(a / 2, b / 2, n - 1)
  }

  function XorByte(a: Byte, b: Byte): Byte
  {
    Pow2Eight();
    XorBits(a, b, 8)
  }

  function Xor(a: seq<Byte>, b: seq<Byte>): (r: seq<Byte>)
    requires |a| == |b|
    ensures |r| == |a|
  {
    seq(|a|, i requires 0 <= i < |a| => XorByte(a[i], b[i]))
  }

  lemma {:induction false} XorCancels(a: nat, b: nat, t: nat, n: nat)
    requires a < Pow2(n) && b < Pow2(n)
    ensures XorBits(a, t, n) == XorBits(b, t, n) <==> a == b
  {
    if n > 0 {
      XorCancels(a / 2, b / 2, t / 2, n - 1);
      LowDigitCancels(a, b, t, XorBits(a / 2, t / 2, n - 1), XorBits(b / 2, t / 2, n - 1));
    }
  }

  /** Two numbers with a low digit taken modulo 2 agree exactly in both of their parts. */
  lemma LowDigitCancels(a: nat, b: nat, t: nat, x: nat, y: nat)
    requires x == y <==> a / 2 == b / 2
    ensures (a + t) % 2 + 2 * x == (b + t) % 2 + 2 * y <==> a == b
  {
    assert (a + t) % 2 == (b + t) % 2 <==> a % 2 == b % 2;
  }

  /** Binary digit k of a number, counted from the lowest. */
  function Digit(x: nat, k: nat): nat
  {
    x / Pow2(k) % 2
  }

  lemma DigitHalved(x: nat, k: nat)
    ensures Digit(x, k) == if k == 0 then x % 2 else Digit(x / 2, k - 1)
  {
    if k > 0 {
      HalvedFirst(x, k);
    }
  }

  /** Digit k of the exclusive or is set exactly if digit k of one and not of the other is. */
  lemma {:induction false} XorDigit(a: nat, b: nat, n: nat, k: nat)
    requires k < n
    ensures Digit(XorBits(a, b, n), k) == (Digit(a, k) + Digit(b, k)) % 2
  {
    hide Digit, XorBits;
    XorHalf(a, b, n);
    DigitHalved(XorBits(a, b, n), k);
    DigitHalved(a, k);
    DigitHalved(b, k);
    if k > 0 {
      XorDigit(a / 2, b / 2, n - 1, k - 1);
    }
  }

  lemma XorHalf(a: nat, b: nat, n: nat)
    requires n > 0
    ensures XorBits(a, b, n) / 2 == XorBits(a / 2, b / 2, n - 1) && XorBits(a, b, n) % 2 == (a + b) % 2
  {
  }

  lemma HalvedFirst(x: nat, k: nat)
    requires k > 0
    ensures x / Pow2(k) == x / 2 / Pow2(k - 1)
  {
    DivideTwice(x, Pow2(k - 1));
  }

  lemma DivideTwice(x: nat, d: nat)
    requires d > 0
    ensures x / (2 * d) == x / 2 / d
  {
    var q, r := x / 2 / d, x / 2 % d;
    assert x == 2 * (d * q + r) + x % 2;
    var y := x / (2 * d) - q;
    assert y * (2 * d) == 2 * r + x % 2 - x % (2 * d);
    ProductBounds(y, 2 * d);
  }

  /** Kademlia's distance: the XOR of two ids read as a big-endian number. */
  ghost function Distance(id: Id, target: Id): nat
  {
    Value(Xor(id, target))
  }

  /** The first byte in which two ids differ decides which one is closer. */
  lemma FirstDifferenceIsCloser(a: Id, b: Id, target: Id, i: nat)
    requires i < SHA1_SIZE && a[..i] == b[..i] && a[i] != b[i]
    ensures XorByte(a[i], target[i]) < XorByte(b[i], target[i]) <==> Distance(a, target) < Distance(b, target)
    ensures Distance(a, target) != Distance(b, target)
  {
    var x, y := Xor(a, target), Xor(b, target);
    forall k | 0 <= k < i
      ensures x[k] == y[k]
    {
      assert a[..i][k] == b[..i][k];
    }
    assert x[..i] == y[..i];
    Pow2Eight();
    XorCancels(a[i], b[i], target[i], 8);
    if x[i] < y[i] {
      FirstDifferenceOrders(x, y, i);
    } else {
      FirstDifferenceOrders(y, x, i);
    }
  }

  /** An id is at distance zero of itself and of no other, and distance has no direction. */
  lemma DistanceZero(a: Id, b: Id)
    ensures Distance(a, b) == 0 <==> a == b
    ensures Distance(a, b) == Distance(b, a)
  {
    forall i | 0 <= i < SHA1_SIZE
      ensures XorByte(a[i], a[i]) == 0 && XorByte(a[i], b[i]) == XorByte(b[i], a[i])
    {
      XorSame(a[i], 8);
      XorSymmetric(a[i], b[i], 8);
    }
    assert Xor(a, b) == Xor(b, a);
    ValueZero(Xor(a, a));
    DistanceInjective(a, b, a);
  }

  lemma {:induction false} XorSame(a: nat, n: nat)
    ensures XorBits(a, a, n) == 0
  {
    if n > 0 {
      XorSame(a / 2, n - 1);
    }
  }

  lemma {:induction false} XorSymmetric(a: nat, b: nat, n: nat)
    ensures XorBits(a, b, n) == XorBits(b, a, n)
  {
    if n > 0 {
      XorSymmetric(a / 2, b / 2, n - 1);
    }
  }

  /** Distinct ids are at distinct distances. */
  lemma DistanceInjective(a: Id, b: Id, target: Id)
    ensures Distance(a, target) == Distance(b, target) <==> a == b
  {
    if a != b {
      var i := FirstDifference(a, b);
      FirstDifferenceIsCloser(a, b, target, i);
    }
  }

  lemma {:induction false} FirstDifference(a: seq<Byte>, b: seq<Byte>) returns (i: nat)
    requires |a| == |b| && a != b
    ensures i < |a| && a[i] != b[i] && a[..i] == b[..i]
  {
    if a[0] != b[0] {
      i := 0;
    } else {
      assert a == [a[0]] + a[1..] && b == [b[0]] + b[1..];
      var k := FirstDifference(a[1..], b[1..]);
      i := k + 1;
      assert a[..i] == [a[0]] + a[1..][..k] && b[..i] == [b[0]] + b[1..][..k];
    }
  }

  /** `str_sha1_compare`: a negative result says that `id1` is the closer one. */
  method Sha1Compare(id1: Id, id2: Id, target: Id) returns (r: int)
    ensures r < 0 <==> Distance(id1, target) < Distance(id2, target)
    ensures r == 0 <==> id1 == id2
    ensures r > 0 <==> Distance(id2, target) < Distance(id1, target)
  {
    for i := 0 to SHA1_SIZE
      invariant id1[..i] == id2[..i]
    {
      if id1[i] != id2[i] {
        FirstDifferenceIsCloser(id1, id2, target, i);
        var xor1 := XorByte(id1[i], target[i]);
        var xor2 := XorByte(id2[i], target[i]);
        return if xor1 < xor2 then -1 else 1;
      }
      assert id1[..i + 1] == id1[..i] + [id1[i]] && id2[..i + 1] == id2[..i] + [id2[i]];
    }
    assert id1 == id1[..SHA1_SIZE] && id2 == id2[..SHA1_SIZE];
    r := 0;
  }
}
