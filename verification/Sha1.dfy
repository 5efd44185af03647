/** The textbook definition of SHA-1 (FIPS 180-4), word by word. */
module Fips180 {

  type Octet = bv8
  type Word = bv32

  datatype Regs = Regs(a: Word, b: Word, c: Word, d: Word, e: Word)

  /** Section 3.2: rotation to the left. */
  function Rotl(x: Word, n: nat): Word
    requires 0 < n < 32
  {
    (x << n) | (x >> (32 - n))
  }

  // ----- section 4.1.1 -----

  function Ch(x: Word, y: Word, z: Word): Word
  {
    (x & y) ^ (!x & z)
  }

  function Parity(x: Word, y: Word, z: Word): Word
  {
    x ^ y ^ z
  }

  function Maj(x: Word, y: Word, z: Word): Word
  {
    (x & y) ^ (x & z) ^ (y & z)
  }

  function F(t: nat, x: Word, y: Word, z: Word): Word
  {
    if t < 20 then Ch(x, y, z) else if t < 40 then Parity(x, y, z) else if t < 60 then Maj(x, y, z) else Parity(x, y, z)
  }

  /** Section 4.2.1. */
  function K(t: nat): Word
  {
    if t < 20 then 0x5a827999 else if t < 40 then 0x6ed9eba1 else if t < 60 then 0x8f1bbcdc else 0xca62c1d6
  }

  /** Section 5.3.1. */
  const INITIAL := Regs(0x67452301, 0xefcdab89, 0x98badcfe, 0x10325476, 0xc3d2e1f0)

  // ----- section 6.1.2 -----

  type Block = s: seq<Octet> | |s| == 64 witness seq(64, _ => 0 as Octet)

  function BigEndian(b0: Octet, b1: Octet, b2: Octet, b3: Octet): Word
  {
    ((b0 as Word) << 24) | ((b1 as Word) << 16) | ((b2 as Word) << 8) | (b3 as Word)
  }

  /** The message schedule of 80 words. */
  function W(m: Block, t: nat): Word
  {
    if t < 16 then BigEndian(m[4 * t], m[4 * t + 1], m[4 * t + 2], m[4 * t + 3])
    else Next(W(m, t - 3), W(m, t - 8), W(m, t - 14), W(m, t - 16))
  }

  /** A schedule word from four earlier ones. */
  function Next(a: Word, b: Word, c: Word, d: Word): Word
  {
    Rotl(a ^ b ^ c ^ d, 1)
  }

  /** Addition modulo 2^32. */
  function Plus(x: Word, y: Word): Word
  {
    x + y
  }

  function Sum(a: Word, f: Word, e: Word, k: Word, w: Word): Word
  {
    a + f + e + k + w
  }

  function Round(r: Regs, t: nat, w: Word): Regs
  {
    Regs(Sum(Rotl(r.a, 5), F(t, r.b, r.c, r.d), r.e, K(t), w), r.a, Rotl(r.b, 30), r.c, r.d)
  }

  /** The working variables after t rounds. */
  function Rounds(h: Regs, m: Block, t: nat): Regs
  {
    if t == 0 then h else Round(Rounds(h, m, t - 1), t - 1, W(m, t - 1))
  }

  function Compress(h: Regs, m: Block): Regs
  {
    var r := Rounds(h, m, 80);
    Regs(Plus(h.a, r.a), Plus(h.b, r.b), Plus(h.c, r.c), Plus(h.d, r.d), Plus(h.e, r.e))
  }

  /** The hash value after all complete blocks of a string. */
  function Fold(s: seq<Octet>): Regs
  {
    if |s| < 64 then INITIAL else
      var n := (|s| - 64) / 64 * 64;
      Compress(Fold(s[..n]), s[n..n + 64])
  }

  // ----- section 5.1.1 -----

  const TWO_64 := 0x1_0000_0000_0000_0000

  function OctetOf(n: nat): Octet
  {
    (n % 256) as Octet
  }

  /** A number below 2^64 as eight bytes, most significant first. */
  function Length64(n: nat): (r: seq<Octet>)
    ensures |r| == 8
  {
    [OctetOf(n / 0x100_0000_0000_0000), OctetOf(n / 0x1_0000_0000_0000), OctetOf(n / 0x100_0000_0000),
     OctetOf(n / 0x1_0000_0000), OctetOf(n / 0x100_0000), OctetOf(n / 0x1_0000), OctetOf(n / 0x100), OctetOf(n)]
  }

  /** Zero bytes so that the bit `1`, the zeros and the length end on a block boundary. */
  function ZeroCount(n: nat): (k: nat)
    ensures k < 64 && (n + 1 + k + 8) % 64 == 0
  {
    (55 - n % 64) % 64
  }

  function Padded(m: seq<Octet>): (r: seq<Octet>)
    ensures |r| % 64 == 0
  {
    m + [0x80] + seq(ZeroCount(|m|), _ => 0 as Octet) + Length64(8 * |m| % TWO_64)
  }

  function WordOctets(w: Word): (r: seq<Octet>)
    ensures |r| == 4
  {
    [((w >> 24) & 0xff) as Octet, ((w >> 16) & 0xff) as Octet, ((w >> 8) & 0xff) as Octet, (w & 0xff) as Octet]
  }

  /** The message digest. */
  function Digest(m: seq<Octet>): (r: seq<Octet>)
    ensures |r| == 20
  {
    var h := Fold(Padded(m));
    WordOctets(h.a) + WordOctets(h.b) + WordOctets(h.c) + WordOctets(h.d) + WordOctets(h.e)
  }

  // ----- what the parts are, in other words -----

  /** A word is loaded with its first octet on top. */
  lemma BigEndianOctets(b0: Octet, b1: Octet, b2: Octet, b3: Octet)
    ensures var w := BigEndian(b0, b1, b2, b3);
            && w >> 24 == b0 as Word && (w >> 16) & 0xff == b1 as Word
            && (w >> 8) & 0xff == b2 as Word && w & 0xff == b3 as Word
  {
  }

  /** Storing a word and loading it again gives the word, and the other way round. */
  lemma OctetsRoundTrip(w: Word, b0: Octet, b1: Octet, b2: Octet, b3: Octet)
    ensures var o := WordOctets(w); BigEndian(o[0], o[1], o[2], o[3]) == w
    ensures WordOctets(BigEndian(b0, b1, b2, b3)) == [b0, b1, b2, b3]
  {
    StoredThenLoaded(w);
    LoadedThenStored(b0, b1, b2, b3);
  }

  lemma StoredThenLoaded(w: Word)
    ensures BigEndian(((w >> 24) & 0xff) as Octet, ((w >> 16) & 0xff) as Octet, ((w >> 8) & 0xff) as Octet, (w & 0xff) as Octet) == w
  {
  }

  lemma LoadedThenStored(b0: Octet, b1: Octet, b2: Octet, b3: Octet)
    ensures var w := BigEndian(b0, b1, b2, b3);
            && ((w >> 24) & 0xff) as Octet == b0 && ((w >> 16) & 0xff) as Octet == b1
            && ((w >> 8) & 0xff) as Octet == b2 && (w & 0xff) as Octet == b3
  {
  }

  /** The round constants are the integer parts of 2^30 times the square roots of 2, 3, 5 and 10. */
  lemma RoundConstants(t: nat)
    ensures var k, n := K(t) as int, if t < 20 then 2 else if t < 40 then 3 else if t < 60 then 5 else 10;
            k * k <= n * 0x1000_0000_0000_0000 < (k + 1) * (k + 1)
  {
  }

  /** The octets of the initial hash value, lowest first: 01 23 45 up to ef, fe dc ba down to 10,
      and f0 e1 d2 c3. */
  lemma InitialOctets(k: nat)
    requires k < 4
    ensures WordOctets(INITIAL.a)[3 - k] as nat == 0x01 + 0x22 * k
    ensures WordOctets(INITIAL.b)[3 - k] as nat == 0x89 + 0x22 * k
    ensures WordOctets(INITIAL.c)[3 - k] as nat == 0xfe - 0x22 * k
    ensures WordOctets(INITIAL.d)[3 - k] as nat == 0x76 - 0x22 * k
    ensures WordOctets(INITIAL.e)[3 - k] as nat == 0xf0 - 0x0f * k
  {
    assert WordOctets(INITIAL.a) == [0x67, 0x45, 0x23, 0x01] && WordOctets(INITIAL.b) == [0xef, 0xcd, 0xab, 0x89];
    assert WordOctets(INITIAL.c) == [0x98, 0xba, 0xdc, 0xfe] && WordOctets(INITIAL.d) == [0x10, 0x32, 0x54, 0x76];
    assert WordOctets(INITIAL.e) == [0xc3, 0xd2, 0xe1, 0xf0];
  }

  lemma CountTo(x: nat) returns (o: Octet)
    requires x < 256
    ensures o as int == x
  {
    o := 0;
    var i := 0;
    while i < x
      invariant i <= x && o as int == i
    {
      o := o + 1;
      i := i + 1;
    }
  }

  lemma Converted(o: Octet, x: int)
    requires o as int == x
    ensures x as Octet == o
  {
  }

  lemma SmallOctet(x: nat)
    requires x < 256
    ensures (x as Octet) as int == x
  {
    var o := CountTo(x);
    Converted(o, x);
  }

  lemma OctetValue(n: nat)
    ensures OctetOf(n) as int == n % 256
  {
    SmallOctet(n % 256);
  }

  /** The octets of a length are its digits to the base 256, the lowest last. */
  lemma LengthDigits(n: nat)
    ensures var l := Length64(n);
            && l[7] as int == n % 256 && l[6] as int == n / 0x100 % 256
            && l[5] as int == n / 0x1_0000 % 256 && l[4] as int == n / 0x100_0000 % 256
            && l[3] as int == n / 0x1_0000_0000 % 256 && l[2] as int == n / 0x100_0000_0000 % 256
            && l[1] as int == n / 0x1_0000_0000_0000 % 256 && l[0] as int == n / 0x100_0000_0000_0000 % 256
  {
    hide OctetOf;
    OctetValue(n);
    OctetValue(n / 0x100);
    OctetValue(n / 0x1_0000);
    OctetValue(n / 0x100_0000);
    OctetValue(n / 0x1_0000_0000);
    OctetValue(n / 0x100_0000_0000);
    OctetValue(n / 0x1_0000_0000_0000);
    OctetValue(n / 0x100_0000_0000_0000);
  }

  /** Padding appends a one bit, fewer than 512 zero bits and the length, and ends on a block. */
  lemma PaddedMeaning(m: seq<Octet>)
    ensures var p, n := Padded(m), |Padded(m)|;
            && n % 64 == 0 && |m| + 9 <= n < |m| + 73 && p[..|m|] == m && p[|m|] == 0x80
            && (forall i :: |m| < i < n - 8 ==> p[i] == 0) && p[n - 8..] == Length64(8 * |m| % TWO_64)
  {
  }
}

/**
 The streaming implementation (src/ext/sha1-linus.c): sixteen words that roll over,
 registers that change roles from round to round, rewritten Boolean functions.
 */
module Sha1 {
  import opened Fips180
  import Bytes

  // ----- rewritten operators -----

  /** `SHA_ROT(x, l, r)` */
  function Rot(x: Word, l: nat, r: nat): Word
    requires l < 32 && r < 32
  {
    (x << l) | (x >> r)
  }

  /** `(((C^D)&B)^D)` */
  function ChFn(b: Word, c: Word, d: Word): Word
  {
    ((c ^ d) & b) ^ d
  }

  /** `(B^C^D)` */
  function ParityFn(b: Word, c: Word, d: Word): Word
  {
    b ^ c ^ d
  }

  /** `((B&C)+(D&(B^C)))` */
  function MajFn(b: Word, c: Word, d: Word): Word
  {
    (b & c) + (d & (b ^ c))
  }

  /** The expression that the macros `T_0_15` to `T_60_79` pass as `fn`. */
  function Fn(t: nat, b: Word, c: Word, d: Word): Word
  {
    if t < 20 then ChFn(b, c, d) else if t < 40 then ParityFn(b, c, d) else if t < 60 then MajFn(b, c, d)
    else ParityFn(b, c, d)
  }

  /** `E += TEMP + SHA_ROL(A,5) + (fn) + (constant)` */
  function Accumulate(e: Word, temp: Word, a: Word, f: Word, k: Word): Word
  {
    e + (temp + a + f + k)
  }

  lemma ChRewritten(b: Word, c: Word, d: Word)
    ensures ChFn(b, c, d) == Ch(b, c, d)
  {
    ChBits(b, c, d);
  }

  lemma ChBits(b: Word, c: Word, d: Word)
    ensures ((c ^ d) & b) ^ d == (b & c) ^ (!b & d)
  {
  }

  lemma ParityRewritten(b: Word, c: Word, d: Word)
    ensures ParityFn(b, c, d) == Parity(b, c, d)
  {
  }

  /** The two summands never share a bit, so the sum has no carries. */
  lemma MajRewritten(b: Word, c: Word, d: Word)
    ensures MajFn(b, c, d) == Maj(b, c, d)
  {
    MajBits(b, c, d);
  }

  lemma MajBits(b: Word, c: Word, d: Word)
    ensures (b & c) + (d & (b ^ c)) == (b & c) ^ (b & d) ^ (c & d)
  {
  }

  lemma FnRewritten(t: nat, b: Word, c: Word, d: Word)
    ensures Fn(t, b, c, d) == F(t, b, c, d)
  {
    hide Ch, Parity, Maj, ChFn, ParityFn, MajFn;
    ChRewritten(b, c, d);
    ParityRewritten(b, c, d);
    MajRewritten(b, c, d);
  }

  lemma RotIsRotl(x: Word, n: nat)
    requires 0 < n < 32
    ensures Rot(x, n, 32 - n) == Rotl(x, n)
  {
  }

  lemma SumReordered(a: Word, f: Word, e: Word, k: Word, w: Word)
    ensures Accumulate(e, w, a, f, k) == Sum(a, f, e, k, w)
  {
  }

  // ----- one block -----

  /** Slot k & 15 of the array still holds schedule word k for the last sixteen k below t. */
  ghost predicate Rolling(w: seq<Word>, m: Block, t: nat)
  {
    |w| == 16 && forall k :: 0 <= k < t && t - 16 <= k ==> w[k % 16] == W(m, k)
  }

  lemma SlotsDiffer(k: nat, t: nat)
    requires k < t < k + 16
    ensures k % 16 != t % 16
  {
  }

  lemma RollingStep(w: seq<Word>, m: Block, t: nat)
    requires Rolling(w, m, t)
    ensures Rolling(w[t % 16 := W(m, t)], m, t + 1)
  {
    hide W;
    var u := w[t % 16 := W(m, t)];
    forall k | 0 <= k < t + 1 && t + 1 - 16 <= k
      ensures u[k % 16] == W(m, k)
    {
      if k < t {
        SlotsDiffer(k, t);
        Slot(w, m, t, k, k % 16);
      }
    }
  }

  lemma Slot(w: seq<Word>, m: Block, t: nat, k: nat, i: nat)
    requires Rolling(w, m, t) && k < t <= k + 16 && i == k % 16
    ensures w[i] == W(m, k)
  {
    hide W;
  }

  lemma SixteenOn(x: nat)
    ensures (x + 16) % 16 == x % 16
  {
  }

  /** The four slots that `SHA_MIX` reads. */
  lemma SlotsBefore(t: nat)
    requires t >= 16
    ensures (t + 13) % 16 == (t - 3) % 16 && (t + 8) % 16 == (t - 8) % 16
    ensures (t + 2) % 16 == (t - 14) % 16 && t % 16 == (t - 16) % 16
  {
    SixteenOn(t - 3);
    SixteenOn(t - 8);
    SixteenOn(t - 14);
    SixteenOn(t - 16);
  }

  /** `SHA_MIX` of the four words that it reads. */
  function Mix(a: Word, b: Word, c: Word, d: Word): Word
  {
    Rot(a ^ b ^ c ^ d, 1, 31)
  }

  lemma MixIsNext(a: Word, b: Word, c: Word, d: Word)
    ensures Mix(a, b, c, d) == Next(a, b, c, d)
  {
    hide Rot, Rotl;
    RotIsRotl(a ^ b ^ c ^ d, 1);
  }

  lemma MixIsSchedule(w: seq<Word>, m: Block, t: nat)
    requires Rolling(w, m, t) && t >= 16
    ensures Mix(w[(t + 13) % 16], w[(t + 8) % 16], w[(t + 2) % 16], w[t % 16]) == W(m, t)
  {
    hide Rolling, Mix, Next, BigEndian;
    SlotsBefore(t);
    RollingLength(w, m, t);
    Slot(w, m, t, t - 3, (t + 13) % 16);
    Slot(w, m, t, t - 8, (t + 8) % 16);
    Slot(w, m, t, t - 14, (t + 2) % 16);
    Slot(w, m, t, t - 16, t % 16);
    MixIsNext(W(m, t - 3), W(m, t - 8), W(m, t - 14), W(m, t - 16));
  }

  lemma RollingLength(w: seq<Word>, m: Block, t: nat)
    requires Rolling(w, m, t)
    ensures |w| == 16
  {
  }

  /** `SHA_ROUND`: only the fifth and the second register get new values. */
  method ShaRound(arr: array<Word>, m: Block, t: nat, a: Word, b: Word, c: Word, d: Word, e: Word)
    returns (e': Word, b': Word)
    requires arr.Length == 16 && t < 80 && Rolling(arr[..], m, t)
    modifies arr
    ensures Rolling(arr[..], m, t + 1)
    ensures Regs(e', a, b', c, d) == Round(Regs(a, b, c, d, e), t, W(m, t))
  {
    hide F, Fn, K, W, Rot, Rotl, Mix, BigEndian, Rolling, Accumulate, Sum;
    var temp: Word;
    if t < 16 {
      temp := BigEndian(m[4 * t], m[4 * t + 1], m[4 * t + 2], m[4 * t + 3]);
      InputIsSchedule(m, t);
    } else {
      temp := Mix(arr[(t + 13) % 16], arr[(t + 8) % 16], arr[(t + 2) % 16], arr[t % 16]);
      MixIsSchedule(arr[..], m, t);
    }
    RollingStep(arr[..], m, t);
    ghost var before := arr[..];
    arr[t % 16] := temp;
    assert arr[..] == before[t % 16 := temp];
    e' := Accumulate(e, temp, Rot(a, 5, 27), Fn(t, b, c, d), K(t));
    b' := Rot(b, 30, 2);
    FnRewritten(t, b, c, d);
    RotIsRotl(a, 5);
    RotIsRotl(b, 30);
    SumReordered(Rotl(a, 5), F(t, b, c, d), e, K(t), temp);
  }

  lemma InputIsSchedule(m: Block, t: nat)
    requires t < 16
    ensures BigEndian(m[4 * t], m[4 * t + 1], m[4 * t + 2], m[4 * t + 3]) == W(m, t)
  {
  }

  function AsRegs(h: seq<Word>): Regs
    requires |h| == 5
  {
    Regs(h[0], h[1], h[2], h[3], h[4])
  }

  /** Unsigned addition in 32 bits. */
  method AddWord(x: Word, y: Word) returns (z: Word)
    ensures z == Plus(x, y)
  {
    z := x + y;
  }

  /** The last five lines of `blk_SHA1_Block`. */
  method AddTo(h: array<Word>, A: Word, B: Word, C: Word, D: Word, E: Word)
    requires h.Length == 5
    modifies h
    ensures AsRegs(h[..]) == old(Regs(Plus(h[0], A), Plus(h[1], B), Plus(h[2], C), Plus(h[3], D), Plus(h[4], E)))
  {
    hide Plus;
    h[0] := AddWord(h[0], A);
    h[1] := AddWord(h[1], B);
    h[2] := AddWord(h[2], C);
    h[3] := AddWord(h[3], D);
    h[4] := AddWord(h[4], E);
  }

  /** `blk_SHA1_Block`, the 80 unrolled rounds taken five at a time. */
  method BlockRounds(h: array<Word>, m: Block)
    requires h.Length == 5
    modifies h
    ensures AsRegs(h[..]) == Compress(old(AsRegs(h[..])), m)
  {
    hide Round, W, Rounds, Rolling, Plus;
    var A, B, C, D, E := h[0], h[1], h[2], h[3], h[4];
    var arr := new Word[16];
    ghost var h0 := AsRegs(h[..]);
    NothingYet(h0, m, arr[..]);
    var t := 0;
    while t < 80
      invariant t <= 80 && t % 5 == 0
      invariant arr.Length == 16 && Rolling(arr[..], m, t)
      invariant h[..] == old(h[..])
      invariant Regs(A, B, C, D, E) == Rounds(h0, m, t)
    {
      E, B := ShaRound(arr, m, t, A, B, C, D, E);
      D, A := ShaRound(arr, m, t + 1, E, A, B, C, D);
      C, E := ShaRound(arr, m, t + 2, D, E, A, B, C);
      B, D := ShaRound(arr, m, t + 3, C, D, E, A, B);
      A, C := ShaRound(arr, m, t + 4, B, C, D, E, A);
      FiveRounds(h0, m, t);
      t := t + 5;
    }
    AddTo(h, A, B, C, D, E);
  }

  lemma NothingYet(h: Regs, m: Block, w: seq<Word>)
    requires |w| == 16
    ensures Rounds(h, m, 0) == h && Rolling(w, m, 0)
  {
  }

  lemma FiveRounds(h: Regs, m: Block, t: nat)
    ensures var r1 := Round(Rounds(h, m, t), t, W(m, t));
            var r2 := Round(r1, t + 1, W(m, t + 1));
            var r3 := Round(r2, t + 2, W(m, t + 2));
            var r4 := Round(r3, t + 3, W(m, t + 3));
            Rounds(h, m, t + 5) == Round(r4, t + 4, W(m, t + 4))
  {
    hide Round, W;
    assert Rounds(h, m, t + 1) == Round(Rounds(h, m, t), t, W(m, t));
    assert Rounds(h, m, t + 2) == Round(Rounds(h, m, t + 1), t + 1, W(m, t + 1));
    assert Rounds(h, m, t + 3) == Round(Rounds(h, m, t + 2), t + 2, W(m, t + 2));
    assert Rounds(h, m, t + 4) == Round(Rounds(h, m, t + 3), t + 3, W(m, t + 3));
  }

  // ----- folding over a growing message -----

  function Whole(n: nat): (r: nat)
    ensures r <= n < r + 64 && r % 64 == 0
  {
    n / 64 * 64
  }

  lemma WholeAt(n: nat, p: nat)
    requires p % 64 == 0 && p <= n < p + 64
    ensures Whole(n) == p && n % 64 == n - p
  {
  }

  /** A block appended to complete blocks is one more compression. */
  lemma FoldBlock(s: seq<Octet>, p: nat, m: Block)
    requires p % 64 == 0 && p + 64 <= |s| && m == s[p..p + 64]
    ensures Fold(s[..p + 64]) == Compress(Fold(s[..p]), m)
  {
    hide Compress, Fold;
    var u := s[..p + 64];
    assert u[..p] == s[..p] && u[p..p + 64] == m;
    FoldLast(u, p, m);
  }

  /** An incomplete last block does not count. */
  lemma FoldWhole(s: seq<Octet>, p: nat)
    requires p % 64 == 0 && p <= |s| < p + 64
    ensures Fold(s) == Fold(s[..p])
  {
    hide Compress, Fold;
    if p == 0 {
      FoldShort(s);
      FoldShort(s[..p]);
    } else {
      var u, n := s[..p], p - 64;
      var m: Block := s[n..p];
      assert u[..n] == s[..n] && u[n..n + 64] == m;
      FoldLast(s, n, m);
      FoldLast(u, n, m);
    }
  }

  lemma FoldShort(s: seq<Octet>)
    requires |s| < 64
    ensures Fold(s) == INITIAL
  {
  }

  lemma FoldLast(s: seq<Octet>, n: nat, m: Block)
    requires n % 64 == 0 && n + 64 <= |s| < n + 128 && s[n..n + 64] == m
    ensures Fold(s) == Compress(Fold(s[..n]), m)
  {
    hide Compress;
    LastBlock(|s|, n);
  }

  lemma LastBlock(len: nat, n: nat)
    requires n % 64 == 0 && n + 64 <= len < n + 128
    ensures (len - 64) / 64 * 64 == n
  {
  }

  /** `htonl` followed by a byte-wise copy. */
  function Be32(n: nat): (r: seq<Octet>)
    ensures |r| == 4
  {
    [OctetOf(n / 0x100_0000), OctetOf(n / 0x1_0000), OctetOf(n / 0x100), OctetOf(n)]
  }

  /** `padlen`: the bit count as two 32-bit words, from a 64-bit byte count. */
  function PadLen(size: nat): (r: seq<Octet>)
    ensures |r| == 8
  {
    Be32(size / 0x2000_0000 % 0x1_0000_0000) + Be32(size * 8 % 0x1_0000_0000)
  }

  lemma PadLenIsLength(n: nat)
    ensures PadLen(n % TWO_64) == Length64(8 * n % TWO_64)
  {
    hide Be32, Length64;
    BitCount(n);
    HighBytes(8 * n % TWO_64);
    LowBytes(8 * n % TWO_64);
    var l := Length64(8 * n % TWO_64);
    assert l == l[..4] + l[4..];
  }

  lemma BitCount(n: nat)
    ensures n % TWO_64 / 0x2000_0000 % 0x1_0000_0000 == 8 * n % TWO_64 / 0x1_0000_0000
    ensures n % TWO_64 * 8 % 0x1_0000_0000 == 8 * n % TWO_64 % 0x1_0000_0000
  {
    var a, low := n / 0x2000_0000, n % 0x2000_0000;
    var high, mid := a / 0x1_0000_0000, a % 0x1_0000_0000;
    var top, h := high / 8, high % 8;
    var bits, size := 0x1_0000_0000 * mid + 8 * low, 0x2000_0000 * (0x1_0000_0000 * h + mid) + low;
    Quotient(8 * n, TWO_64, high, bits);
    Quotient(bits, 0x1_0000_0000, mid, 8 * low);
    Quotient(n, TWO_64, top, size);
    Quotient(size, 0x2000_0000, 0x1_0000_0000 * h + mid, low);
    Quotient(0x1_0000_0000 * h + mid, 0x1_0000_0000, h, mid);
    Quotient(8 * size, 0x1_0000_0000, 0x1_0000_0000 * h + mid, 8 * low);
  }

  lemma SameOctet(a: nat, b: nat)
    requires a % 256 == b % 256
    ensures OctetOf(a) == OctetOf(b)
  {
  }

  lemma HighBytes(bits: nat)
    ensures Be32(bits / 0x1_0000_0000) == Length64(bits)[..4]
  {
    hide OctetOf;
    assert bits / 0x1_0000_0000 / 0x100_0000 == bits / 0x100_0000_0000_0000;
    assert bits / 0x1_0000_0000 / 0x1_0000 == bits / 0x1_0000_0000_0000;
    assert bits / 0x1_0000_0000 / 0x100 == bits / 0x100_0000_0000;
  }

  lemma LowBytes(bits: nat)
    ensures Be32(bits % 0x1_0000_0000) == Length64(bits)[4..]
  {
    hide OctetOf;
    var lo := bits % 0x1_0000_0000;
    SecondOctet(bits, lo);
    ThirdOctet(bits, lo);
    FourthOctet(bits, lo);
    SameOctet(lo / 0x100_0000, bits / 0x100_0000);
    SameOctet(lo / 0x1_0000, bits / 0x1_0000);
    SameOctet(lo / 0x100, bits / 0x100);
    SameOctet(lo, bits);
  }

  /** Multiples of 256 above an octet do not change it. */
  lemma OctetAbove(a: nat, k: nat)
    ensures (256 * a + k) % 256 == k % 256
  {
  }

  lemma Quotient(x: nat, d: nat, k: nat, r: nat)
    requires r < d && x == d * k + r
    ensures x / d == k && x % d == r
  {
    var y := x / d - k;
    assert x == d * (x / d) + x % d;
    assert y * d == r - x % d;
    Bytes.ProductBounds(y, d);
  }

  lemma SecondOctet(bits: nat, lo: nat)
    requires lo == bits % 0x1_0000_0000
    ensures lo / 0x100 % 256 == bits / 0x100 % 256 && lo % 256 == bits % 256
  {
    var q, k := bits / 0x1_0000_0000, lo / 0x100;
    Quotient(bits, 0x100, q * 0x100_0000 + k, lo % 0x100);
    OctetAbove(q * 0x1_0000, k);
    OctetAbove(q * 0x100_0000, lo);
  }

  lemma ThirdOctet(bits: nat, lo: nat)
    requires lo == bits % 0x1_0000_0000
    ensures lo / 0x1_0000 % 256 == bits / 0x1_0000 % 256
  {
    var q, k := bits / 0x1_0000_0000, lo / 0x1_0000;
    Quotient(bits, 0x1_0000, q * 0x1_0000 + k, lo % 0x1_0000);
    OctetAbove(q * 0x100, k);
  }

  lemma FourthOctet(bits: nat, lo: nat)
    requires lo == bits % 0x1_0000_0000
    ensures lo / 0x100_0000 % 256 == bits / 0x100_0000 % 256
  {
    var q, k := bits / 0x1_0000_0000, lo / 0x100_0000;
    Quotient(bits, 0x100_0000, q * 0x100 + k, lo % 0x100_0000);
    OctetAbove(q, k);
  }

  /** What the 64-bit counter keeps of a length. */
  lemma Counter(n: nat, d: nat)
    ensures n % TWO_64 % 64 == n % 64
    ensures (n % TWO_64 + d) % TWO_64 == (n + d) % TWO_64
  {
    var q, r := n / TWO_64, n % TWO_64;
    Quotient(n, 64, 0x400_0000_0000_0000 * q + r / 64, r % 64);
    var k, s := (r + d) / TWO_64, (r + d) % TWO_64;
    assert n + d == TWO_64 * (q + k) + s;
    Quotient(n + d, TWO_64, q + k, s);
  }

  // ----- the context -----

  class Context {
    var size: nat
    const H: array<Word>
    const W: array<Octet>
    ghost var message: seq<Octet>

    ghost predicate Valid()
      reads this, H, W
    {
      && H.Length == 5 && W.Length == 64
      && size == |message| % TWO_64
      && AsRegs(H[..]) == Fold(message)
      && W[..|message| % 64] == message[Whole(|message|)..]
    }

    /** `blk_SHA1_Init` */
    constructor ()
      ensures Valid() && message == [] && fresh(H) && fresh(W)
    {
      size := 0;
      H := new Word[5];
      W := new Octet[64];
      message := [];
      new;
      H[0], H[1], H[2], H[3], H[4] := 0x67452301, 0xefcdab89, 0x98badcfe, 0x10325476, 0xc3d2e1f0;
    }

    /** `blk_SHA1_Update` */
    method Update(data: seq<Octet>)
      requires Valid()
      modifies this, H, W
      ensures Valid() && message == old(message) + data
    {
      hide Fold, Compress, Whole;
      Counter(|message|, |data|);
      var lenW := size % 64;
      ghost var full := message + data;
      ghost var p := Whole(|message|);
      WholeAt(|message|, p);
      FoldWhole(message, p);
      assert full[..p] == message[..p];
      size := (size + |data|) % TWO_64;
      message := full;
      if lenW != 0 {
        TopUp(lenW, data, full, p);
      } else {
        assert data == full[p..];
        Absorb(data, full, p);
      }
    }

    /** The branch of `blk_SHA1_Update` that starts from a half-filled buffer. */
    method TopUp(lenW: nat, data: seq<Octet>, ghost full: seq<Octet>, ghost p: nat)
      requires H.Length == 5 && W.Length == 64 && 0 < lenW < 64 && p % 64 == 0 && |full| == p + lenW + |data|
      requires W[..lenW] == full[p..p + lenW] && data == full[p + lenW..]
      requires AsRegs(H[..]) == Fold(full[..p])
      modifies H, W
      ensures AsRegs(H[..]) == Fold(full) && W[..|full| % 64] == full[Whole(|full|)..]
    {
      hide Fold, Compress, Whole;
      var left := 64 - lenW;
      if |data| < left {
        left := |data|;
      }
      FillBuffer(lenW, data[..left], full, p);
      if (lenW + left) % 64 != 0 {
        FoldWhole(full, p);
        WholeAt(|full|, p);
        assert full[p..p + lenW + left] == full[p..];
        return;
      }
      assert W[..] == full[p..p + 64];
      BlockRounds(H, W[..]);
      FoldBlock(full, p, W[..]);
      assert data[left..] == full[p + 64..];
      Absorb(data[left..], full, p + 64);
    }

    /** The copy into the half-filled buffer. */
    method FillBuffer(lenW: nat, data: seq<Octet>, ghost full: seq<Octet>, ghost p: nat)
      requires W.Length == 64 && lenW + |data| <= 64 && p + lenW + |data| <= |full|
      requires W[..lenW] == full[p..p + lenW] && data == full[p + lenW..p + lenW + |data|]
      modifies W
      ensures W[..lenW + |data|] == full[p..p + lenW + |data|]
    {
      forall i | 0 <= i < |data| {
        W[lenW + i] := data[i];
      }
      forall k | 0 <= k < lenW + |data|
        ensures W[k] == full[p + k]
      {
        if k < lenW {
          assert W[k] == old(W[..lenW])[k] == full[p..p + lenW][k];
        } else {
          assert W[k] == data[k - lenW];
        }
      }
    }

    /** The loop over complete blocks and the copy of what is left. */
    method Absorb(data: seq<Octet>, ghost full: seq<Octet>, ghost start: nat)
      requires H.Length == 5 && W.Length == 64 && start % 64 == 0 && start <= |full| && data == full[start..]
      requires AsRegs(H[..]) == Fold(full[..start])
      modifies H, W
      ensures AsRegs(H[..]) == Fold(full) && W[..|full| % 64] == full[Whole(|full|)..]
    {
      hide Fold, Compress;
      var rest := data;
      ghost var p: nat := start;
      while |rest| >= 64
        invariant p % 64 == 0 && p <= |full| && rest == full[p..]
        invariant AsRegs(H[..]) == Fold(full[..p])
        decreases |rest|
      {
        assert rest[..64] == full[p..p + 64];
        BlockRounds(H, rest[..64]);
        FoldBlock(full, p, rest[..64]);
        rest := rest[64..];
        p := p + 64;
      }
      FillBuffer(0, rest, full, p);
      FoldWhole(full, p);
      WholeAt(|full|, p);
      assert full[p..p + |rest|] == full[p..];
    }

    /** `blk_SHA1_Final` */
    method Final() returns (hash: seq<Octet>)
      requires Valid()
      modifies this, H, W
      ensures hash == Digest(old(message))
    {
      hide Fold, PadLen, Length64, WordOctets;
      ghost var m := message;
      Counter(|m|, 0);
      var pad: seq<Octet> := [0x80] + seq(63, _ => 0);
      var padlen := PadLen(size);
      var i := size % 64;
      var head := pad[..1 + (55 - i) % 64];
      PadLenIsLength(|m|);
      PaddedParts(m, head, padlen);
      Update(head);
      Update(padlen);
      FoldWhole(message, |message|);
      hash := Emit();
    }

    method Emit() returns (hash: seq<Octet>)
      requires H.Length == 5
      ensures hash == WordOctets(H[0]) + WordOctets(H[1]) + WordOctets(H[2]) + WordOctets(H[3]) + WordOctets(H[4])
    {
      hide WordOctets;
      hash := [];
      var i := 0;
      while i < 5
        invariant i <= 5 && hash == Output(H[..], i)
      {
        hash := hash + WordOctets(H[i]);
        i := i + 1;
      }
      OutputAll(H[..]);
    }
  }

  lemma PaddedParts(m: seq<Octet>, head: seq<Octet>, tail: seq<Octet>)
    requires |head| == 1 + ZeroCount(|m|) && tail == Length64(8 * |m| % TWO_64)
    requires forall i :: 0 <= i < |head| ==> head[i] == if i == 0 then 0x80 else 0
    ensures m + head + tail == Padded(m)
  {
    hide Length64;
    assert head == [0x80] + seq(ZeroCount(|m|), _ => 0 as Octet);
  }

  function Output(h: seq<Word>, n: nat): seq<Octet>
    requires n <= |h|
  {
    if n == 0 then [] else Output(h, n - 1) + WordOctets(h[n - 1])
  }

  lemma OutputAll(h: seq<Word>)
    requires |h| == 5
    ensures Output(h, 5) == WordOctets(h[0]) + WordOctets(h[1]) + WordOctets(h[2]) + WordOctets(h[3]) + WordOctets(h[4])
  {
    hide WordOctets;
    assert Output(h, 1) == WordOctets(h[0]);
    assert Output(h, 2) == Output(h, 1) + WordOctets(h[1]);
    assert Output(h, 3) == Output(h, 2) + WordOctets(h[2]);
    assert Output(h, 4) == Output(h, 3) + WordOctets(h[3]);
  }

  // ----- any way of cutting a message -----

  function Joined(chunks: seq<seq<Octet>>): seq<Octet>
  {
    if chunks == [] then [] else Joined(chunks[..|chunks| - 1]) + chunks[|chunks| - 1]
  }

  /** However a message is cut into `Update` calls, `Final` gives its digest. */
  method HashChunks(chunks: seq<seq<Octet>>) returns (hash: seq<Octet>)
    ensures hash == Digest(Joined(chunks))
  {
    hide Digest;
    var c := new Context();
    var i := 0;
    while i < |chunks|
      invariant i <= |chunks| && c.Valid() && fresh(c) && fresh(c.H) && fresh(c.W)
      invariant c.message == Joined(chunks[..i])
    {
      c.Update(chunks[i]);
      assert chunks[..i + 1][..i] == chunks[..i];
      i := i + 1;
    }
    assert chunks[..i] == chunks;
    hash := c.Final();
  }
}
