/** Writing into a byte buffer that the caller owns. */
module Buffers {
  import opened Bytes

  /** b with the bytes from p on overwritten by s. */
  function Spliced(b: seq<Byte>, p: nat, s: seq<Byte>): (r: seq<Byte>)
    requires p + |s| <= |b|
    ensures |r| == |b|
  {
    b[..p] + s + b[p + |s|..]
  }

  lemma SplicedOn(b: seq<Byte>, p: nat, s: seq<Byte>, x: seq<Byte>)
    requires p + |s| + |x| <= |b|
    ensures Spliced(Spliced(b, p, s), p + |s|, x) == Spliced(b, p, s + x)
  {
  }

  /** `memcpy(p, s, len)` */
  method Copy(buf: array<Byte>, p: nat, s: seq<Byte>)
    requires p + |s| <= buf.Length
    modifies buf
    ensures buf[..] == Spliced(old(buf[..]), p, s)
  {
    forall k | 0 <= k < |s| {
      buf[p + k] := s[k];
    }
  }

  /** `*p = x` */
  method PutByte(buf: array<Byte>, p: nat, x: Byte)
    requires p < buf.Length
    modifies buf
    ensures buf[..] == Spliced(old(buf[..]), p, [x])
  {
    buf[p] := x;
  }

  lemma SplicedNothing(b: seq<Byte>, p: nat)
    requires p <= |b|
    ensures Spliced(b, p, []) == b
  {
  }
}
