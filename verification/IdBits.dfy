/**
 The bit arithmetic behind a bucket split: the scan for the lowest set bit of a
 20-byte id and the setting of one further bit, both stated on the 160-bit number.
 */
module IdBits {
  import opened Bytes

  const ID_BITS := 160

  // ----- the lowest set bit of a number -----

  ghost function TrailingZeros(v: nat): nat
    requires v > 0
  {
    if v % 2 == 1 then 0 else 1 + TrailingZeros(v / 2)
  }

  /** Position, counted from the most significant of 160 bits, of the lowest set
      bit; -1 for 0, and -1 also for 2^160, the end of the id space. */
  ghost function LowestBit(v: nat): int
  {
    if v == 0 then -1 else ID_BITS - 1 - TrailingZeros(v)
  }

  lemma {:induction false} TrailingZerosShift(m: nat, e: nat)
    requires m > 0
    ensures m * Pow2(e) > 0
    ensures TrailingZeros(m * Pow2(e)) == TrailingZeros(m) + e
  {
    if e == 0 {
    } else {
      TrailingZerosShift(m, e - 1);
      assert m * Pow2(e) == 2 * (m * Pow2(e - 1));
    }
  }

  lemma TrailingZerosOdd(h: nat, e: nat)
    ensures (2 * h + 1) * Pow2(e) > 0
    ensures TrailingZeros((2 * h + 1) * Pow2(e)) == e
  {
    TrailingZerosShift(2 * h + 1, e);
  }

  /** Of the two ends of an aligned interval of width 2^k, the one with the finer
      alignment reveals k. */
  lemma AlignedEnds(q: nat, k: nat)
    requires k <= ID_BITS
    ensures var b1, b2 := LowestBit(q * Pow2(k)), LowestBit((q + 1) * Pow2(k));
            (if b1 >= b2 then b1 else b2) == ID_BITS - 1 - k
  {
    hide Pow2, TrailingZeros;
    TrailingZerosShift(q + 1, k);
    OneIsOdd(q);
    if q > 0 {
      TrailingZerosShift(q, k);
    } else {
      assert q * Pow2(k) == 0;
    }
  }

  lemma OneIsOdd(q: nat)
    ensures TrailingZeros(q + 1) == 0 || (q > 0 && TrailingZeros(q) == 0)
  {
  }

  // ----- bits of a byte string -----

  /** The weight of bit j of a byte, counted from the left: `0x80 >> j`. */
  function Mask(j: nat): (m: nat)
    requires j < 8
    ensures 1 <= m <= 128
  {
    if j == 0 then 0x80 else if j == 1 then 0x40 else if j == 2 then 0x20 else if j == 3 then 0x10
    else if j == 4 then 0x08 else if j == 5 then 0x04 else if j == 6 then 0x02 else 0x01
  }

  lemma MaskValue(j: nat)
    requires j < 8
    ensures Mask(j) == Pow2(7 - j)
  {
    assert Pow2(3) == 8 && Pow2(5) == 32 && Pow2(7) == 128;
  }

  /** `(x & (0x80 >> j)) != 0` */
  predicate Bit(x: Byte, j: nat)
    requires j < 8
  {
    (x / Mask(j)) % 2 == 1
  }

  /** `x | (0x80 >> j)` */
  function OrBit(x: Byte, j: nat): Byte
    requires j < 8
  {
    if Bit(x, j) then x else
      ClearBitBound(x, j);
      x + Mask(j)
  }

  lemma ClearBitBound(x: Byte, j: nat)
    requires j < 8 && !Bit(x, j)
    ensures x + Mask(j) < 256
  {
    if j == 0 {
      assert x / 0x80 == 0;
    } else if j == 1 {
      assert x / 0x40 <= 2;
    } else if j == 2 {
      assert x / 0x20 <= 6;
    } else if j == 3 {
      assert x / 0x10 <= 14;
    } else if j == 4 {
      assert x / 0x08 <= 30;
    } else if j == 5 {
      assert x / 0x04 <= 62;
    } else if j == 6 {
      assert x / 0x02 <= 126;
    } else {
      assert x <= 254;
    }
  }

  predicate BitSet(id: Id, bit: nat)
    requires bit < ID_BITS
  {
    Bit(id[bit / 8], bit % 8)
  }

  /** A byte whose bits right of j are all clear is a multiple of the weight of bit j. */
  lemma {:induction false} ClearTail(x: Byte, j: nat)
    requires j < 8 && forall b :: j < b < 8 ==> !Bit(x, b)
    ensures x % Mask(j) == 0
    decreases 8 - j
  {
    if j < 7 {
      ClearTail(x, j + 1);
      assert !Bit(x, j + 1);
    }
  }

  /** The byte is `(2h + 1) * 2^(7 - j)` when j is its lowest set bit. */
  lemma LowestMask(x: Byte, j: nat) returns (h: nat)
    requires j < 8 && Bit(x, j)
    requires forall b :: j < b < 8 ==> !Bit(x, b)
    ensures x == (2 * h + 1) * Pow2(7 - j)
  {
    ClearTail(x, j);
    MaskValue(j);
    h := x / Mask(j) / 2;
  }

  // ----- value of the string, seen from one byte -----

  lemma {:induction false} TrailingZeroBytes(s: seq<Byte>, i: nat)
    requires i < |s| && forall k :: i < k < |s| ==> s[k] == 0
    ensures Value(s) == (256 * Value(s[..i]) + s[i]) * Pow2(8 * (|s| - 1 - i))
  {
    assert s == s[..i + 1] + s[i + 1..];
    assert s[..i + 1][..i] == s[..i];
    assert Value(s[..i + 1]) == 256 * Value(s[..i]) + s[i];
    hide Value, Pow2;
    ValueConcat(s[..i + 1], s[i + 1..]);
    ValueZero(s[i + 1..]);
  }

  lemma {:induction false} ValueUpdate(s: seq<Byte>, i: nat, y: Byte)
    requires i < |s|
    ensures Value(s[i := y]) == Value(s) + (y - s[i]) * Pow2(8 * (|s| - 1 - i))
  {
    var n, t := |s| - 1, s[i := y];
    assert Value(t) == 256 * Value(t[..n]) + t[n];
    if i == n {
      assert t[..n] == s[..n];
    } else {
      assert t[..n] == s[..n][i := y];
      ValueUpdate(s[..n], i, y);
      var d: int, e: nat := y - s[i], 8 * (n - 1 - i);
      assert 8 * (|s| - 1 - i) == e + 8;
      ShiftedByte(d, e);
    }
  }

  lemma LowestOfBytes(w: nat, x: nat, h: nat, e: nat, z: nat)
    requires e < 8 && x == (2 * h + 1) * Pow2(e)
    ensures (256 * w + x) * Pow2(z) > 0
    ensures TrailingZeros((256 * w + x) * Pow2(z)) == e + z
  {
    hide Pow2, TrailingZeros;
    var g := OddAbove(w, h, e);
    TrailingZerosOdd(g, e);
    TrailingZerosShift(256 * w + x, z);
  }

  /** Whole bytes above the lowest set bit of a byte do not make it another one. */
  lemma OddAbove(w: nat, h: nat, e: nat) returns (g: nat)
    requires e < 8
    ensures 256 * w + (2 * h + 1) * Pow2(e) == (2 * g + 1) * Pow2(e)
  {
    var p := Pow2(7 - e);
    Pow2Add(8 - e, e);
    Pow2Eight();
    assert Pow2(8 - e) == 2 * p;
    hide Pow2;
    g := p * w + h;
    var q := Pow2(e);
    assert 256 * w == (2 * p * q) * w == (2 * (p * w)) * q;
    assert (2 * (p * w)) * q + (2 * h + 1) * q == (2 * g + 1) * q;
  }

  /** Every bit to the right of byte i's lowest set bit is clear. */
  lemma ClearAfter(id: Id, i: nat, j: nat)
    requires i < SHA1_SIZE && j < 8
    requires forall k :: i < k < SHA1_SIZE ==> id[k] == 0
    requires forall b :: j < b < 8 ==> !Bit(id[i], b)
    ensures forall b :: 8 * i + j < b < ID_BITS ==> !BitSet(id, b)
  {
    forall b | 8 * i + j < b < ID_BITS
      ensures !BitSet(id, b)
    {
      if b / 8 > i {
        assert id[b / 8] == 0;
      } else {
        assert j < b % 8;
      }
    }
  }

  lemma LowestBitAt(id: Id, i: nat, j: nat)
    requires i < SHA1_SIZE && j < 8 && Bit(id[i], j)
    requires forall k :: i < k < SHA1_SIZE ==> id[k] == 0
    requires forall b :: j < b < 8 ==> !Bit(id[i], b)
    ensures LowestBit(Value(id)) == 8 * i + j
  {
    var h := LowestMask(id[i], j);
    TrailingZeroBytes(id, i);
    LowestOfBytes(Value(id[..i]), id[i], h, 7 - j, 8 * (19 - i));
  }

  lemma LastNonZeroByte(id: Id) returns (i: nat)
    requires Value(id) != 0
    ensures i < SHA1_SIZE && id[i] != 0
    ensures forall k :: i < k < SHA1_SIZE ==> id[k] == 0
  {
    i := 19;
    while id[i] == 0
      invariant i < SHA1_SIZE && forall k :: i < k < SHA1_SIZE ==> id[k] == 0
      decreases i
    {
      if i == 0 {
        ValueZero(id);
      }
      i := i - 1;
    }
  }

  lemma LowestSetBit(x: Byte) returns (j: nat)
    requires x != 0
    ensures j < 8 && Bit(x, j)
    ensures forall b :: j < b < 8 ==> !Bit(x, b)
  {
    SomeBitSet(x);
    j := 7;
    while !Bit(x, j)
      invariant j < 8 && forall b :: j < b < 8 ==> !Bit(x, b)
      decreases j
    {
      j := j - 1;
    }
  }

  /** Bits to the right of the lowest set bit of the number are clear in the string. */
  lemma ClearBeyondLowest(id: Id, bit: nat)
    requires LowestBit(Value(id)) < bit < ID_BITS
    ensures !BitSet(id, bit)
  {
    if Value(id) == 0 {
      ValueZero(ZeroId());
      ValueInjective(id, ZeroId());
    } else {
      var i := LastNonZeroByte(id);
      var j := LowestSetBit(id[i]);
      LowestBitAt(id, i, j);
      ClearAfter(id, i, j);
    }
  }

  /** `bckt_significant_bit`: last non-zero byte first, then its last set bit. */
  method SignificantBit(id: Id) returns (r: int)
    ensures r == LowestBit(Value(id))
    ensures -1 <= r < 160
  {
    var i := 19;
    while i >= 0
      invariant -1 <= i <= 19
      invariant forall k :: i < k < SHA1_SIZE ==> id[k] == 0
    {
      if id[i] != 0 { break; }
      i := i - 1;
    }
    if i < 0 {
      ValueZero(id);
      return -1;
    }
    var j := LowestBitOfByte(id[i]);
    LowestBitAt(id, i, j);
    r := 8 * i + j;
  }

  method LowestBitOfByte(x: Byte) returns (j: nat)
    requires x != 0
    ensures j < 8 && Bit(x, j)
    ensures forall b :: j < b < 8 ==> !Bit(x, b)
  {
    SomeBitSet(x);
    var k := 7;
    while k >= 0
      invariant -1 <= k <= 7
      invariant forall b :: k < b < 8 ==> !Bit(x, b)
    {
      if Bit(x, k) { break; }
      k := k - 1;
    }
    j := k;
  }

  lemma SomeBitSet(x: Byte)
    requires x != 0
    ensures exists b :: 0 <= b < 8 && Bit(x, b)
  {
    if !Bit(x, 0) {
      if forall b :: 0 < b < 8 ==> !Bit(x, b) {
        ClearTail(x, 0);
      }
    }
  }

  /** `id[bit / 8] |= 0x80 >> (bit % 8)` */
  function WithBit(id: Id, bit: nat): Id
    requires bit < ID_BITS
  {
    id[bit / 8 := OrBit(id[bit / 8], bit % 8)]
  }

  /** Setting a clear bit adds that bit's weight. */
  lemma WithBitValue(id: Id, bit: nat)
    requires bit < ID_BITS && !BitSet(id, bit)
    ensures Value(WithBit(id, bit)) == Value(id) + Pow2(ID_BITS - 1 - bit)
  {
    BitValueAt(id, bit / 8, bit % 8);
    assert 7 - bit % 8 + 8 * (19 - bit / 8) == ID_BITS - 1 - bit;
  }

  lemma BitValueAt(id: Id, i: nat, j: nat)
    requires i < SHA1_SIZE && j < 8 && !Bit(id[i], j)
    ensures Value(id[i := OrBit(id[i], j)]) == Value(id) + Pow2(7 - j + 8 * (19 - i))
  {
    MaskValue(j);
    AddedWeight(id, i, OrBit(id[i], j), 7 - j);
  }

  lemma AddedWeight(id: Id, i: nat, y: Byte, e: nat)
    requires i < SHA1_SIZE && y - id[i] == Pow2(e)
    ensures Value(id[i := y]) == Value(id) + Pow2(e + 8 * (19 - i))
  {
    ValueUpdate(id, i, y);
    Pow2Add(e, 8 * (19 - i));
  }
}
