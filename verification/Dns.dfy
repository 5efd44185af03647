/**
 The two DNS name codecs (RFC 1035, section 3.1): the server's in src/dns/dns.c and the
 client's in src/dns/client.c. A C string is the sequence of its bytes before the NUL.
 */
module Dns {
  import opened Collections
  import opened Bytes
  import opened Buffers

  const DOT: Byte := 46
  const NAME_BUFFER := 256

  type Label = seq<Byte>

  /** foo, bar, com => foo.bar.com */
  function Dotted(ls: seq<Label>): (s: seq<Byte>)
  {
    if ls == [] then [] else if |ls| == 1 then ls[0] else ls[0] + [DOT] + Dotted(ls[1..])
  }

  /** foo, bar, com => 3foo3bar3com; a length byte holds what fits of the length. */
  function WireLabels(ls: seq<Label>): (s: seq<Byte>)
  {
    if ls == [] then [] else [|ls[0]| % 256] + ls[0] + WireLabels(ls[1..])
  }

  /** foo, bar, com => 3foo3bar3com0 */
  function Wire(ls: seq<Label>): (s: seq<Byte>)
  {
    WireLabels(ls) + [0]
  }

  function FirstDot(s: seq<Byte>): (k: nat)
    ensures k <= |s| && (k < |s| ==> s[k] == DOT)
    ensures forall i :: 0 <= i < k ==> s[i] != DOT
  {
    if s == [] || s[0] == DOT then 0 else 1 + FirstDot(s[1..])
  }

  /** foo.bar.com => foo, bar, com; there is always at least one, possibly empty, label. */
  function Splits(s: seq<Byte>): (ls: seq<Label>)
    ensures ls != []
    decreases |s|
  {
    var k := FirstDot(s);
    if k == |s| then [s] else [s[..k]] + Splits(s[k + 1..])
  }

  ghost predicate DotFree(ls: seq<Label>)
  {
    forall l <- ls :: DOT !in l
  }

  lemma FirstDotIs(s: seq<Byte>, k: nat)
    requires k <= |s| && (k < |s| ==> s[k] == DOT)
    requires forall i :: 0 <= i < k ==> s[i] != DOT
    ensures FirstDot(s) == k
  {
  }

  /** Splitting at the dots undoes joining by dots. */
  lemma {:induction false} SplitsOfDotted(ls: seq<Label>)
    requires ls != [] && DotFree(ls)
    ensures Splits(Dotted(ls)) == ls
  {
    if |ls| == 1 {
      assert ls[0] in ls;
      FirstDotIs(ls[0], |ls[0]|);
    } else {
      SplitsOfDotted(ls[1..]);
      assert ls[0] in ls && ls == [ls[0]] + ls[1..];
      SplitsOfJoin(ls[0], Dotted(ls[1..]));
    }
  }

  lemma SplitsOfJoin(l: Label, rest: seq<Byte>)
    requires DOT !in l
    ensures Splits(l + [DOT] + rest) == [l] + Splits(rest)
  {
    var s := l + [DOT] + rest;
    assert forall i :: 0 <= i < |l| ==> s[i] == l[i] && l[i] in l;
    FirstDotIs(s, |l|);
    assert s[..|l|] == l && s[|l| + 1..] == rest;
  }

  /** Joining by dots undoes splitting, on every string. */
  lemma {:induction false} DottedOfSplits(s: seq<Byte>)
    ensures Dotted(Splits(s)) == s && DotFree(Splits(s))
    decreases |s|
  {
    var k := FirstDot(s);
    if k < |s| {
      DottedOfSplits(s[k + 1..]);
      assert Splits(s)[1..] == Splits(s[k + 1..]);
      assert s == s[..k] + [DOT] + s[k + 1..];
    }
  }

  /** A name on the wire takes two bytes more than its text. */
  lemma {:induction false} WireLength(ls: seq<Label>)
    requires ls != []
    ensures |Wire(ls)| == |Dotted(ls)| + 2
  {
    if |ls| > 1 {
      WireLength(ls[1..]);
    } else {
      assert WireLabels(ls[1..]) == [];
    }
  }

  lemma WireOf(s: seq<Byte>)
    ensures |Wire(Splits(s))| == |s| + 2
  {
    hide Splits, Wire, Dotted;
    DottedOfSplits(s);
    WireLength(Splits(s));
  }

  lemma {:induction false} WireLabelsAppend(ls: seq<Label>, l: Label)
    ensures WireLabels(ls + [l]) == WireLabels(ls) + [|l| % 256] + l
  {
    if ls != [] {
      WireLabelsAppend(ls[1..], l);
      assert (ls + [l])[1..] == ls[1..] + [l];
    }
  }

  lemma {:induction false} DottedAppend(ls: seq<Label>, l: Label)
    requires ls != []
    ensures Dotted(ls + [l]) == Dotted(ls) + [DOT] + l
  {
    if |ls| > 1 {
      DottedAppend(ls[1..], l);
      assert (ls + [l])[1..] == ls[1..] + [l];
    } else {
      assert (ls + [l])[1..] == [l];
    }
  }

  /** Text has a full stop, the byte 46, between its labels; the wire form has the length of each
      label in front of it, and a zero at the end. */
  lemma NameBytes(l: Label, ls: seq<Label>)
    ensures Dotted([]) == [] && Dotted([l]) == l
    ensures ls != [] ==> Dotted([l] + ls) == l + [46] + Dotted(ls)
    ensures Wire([]) == [0] && Wire([l] + ls) == [|l| % 256] + l + Wire(ls)
  {
    assert ([l] + ls)[1..] == ls;
  }

  // ----- encoding -----

  /** A length byte and the label, as `p_encode_domain` writes them. */
  method PutLabel(buf: array<Byte>, i: nat, l: Label) returns (j: nat)
    requires i + 1 + |l| <= buf.Length
    modifies buf
    ensures j == i + 1 + |l| && buf[..] == Spliced(old(buf[..]), i, [|l| % 256] + l)
  {
    ghost var b := buf[..];
    PutByte(buf, i, |l| % 256);
    SplicedOn(b, i, [|l| % 256], l);
    Copy(buf, i + 1, l);
    j := i + 1 + |l|;
  }

  lemma SplitsStep(s: seq<Byte>, k: nat)
    requires k == FirstDot(s) < |s|
    ensures WireLabels(Splits(s)) == [k % 256] + s[..k] + WireLabels(Splits(s[k + 1..]))
  {
    hide FirstDot, WireLabels;
    var ls := Splits(s);
    assert ls == [s[..k]] + Splits(s[k + 1..]);
    assert ls[1..] == Splits(s[k + 1..]);
    FirstLabel(ls);
  }

  lemma SplitsFrom(s: seq<Byte>, beg: nat, k: nat)
    requires beg <= |s| && k == FirstDot(s[beg..]) < |s| - beg
    ensures WireLabels(Splits(s[beg..])) == ([k % 256] + s[beg..beg + k]) + WireLabels(Splits(s[beg + k + 1..]))
  {
    hide WireLabels, Splits, FirstDot;
    SplitsStep(s[beg..], k);
    assert s[beg..][..k] == s[beg..beg + k] && s[beg..][k + 1..] == s[beg + k + 1..];
  }

  /** `p_encode_domain` writes the wire form of every string whatsoever. */
  method EncodeDomain(buf: array<Byte>, at: nat, domain: seq<Byte>) returns (end: nat)
    requires at + |domain| + 2 <= buf.Length
    modifies buf
    ensures |Wire(Splits(domain))| == |domain| + 2 && end == at + |domain| + 2
    ensures buf[..] == Spliced(old(buf[..]), at, Wire(Splits(domain)))
  {
    hide Spliced, Splits, WireLabels, FirstDot;
    WireOf(domain);
    ghost var b := buf[..];
    ghost var out: seq<Byte> := [];
    var beg, i := 0, at;
    SplicedNothing(b, at);
    assert domain[0..] == domain;
    assert [] + WireLabels(Splits(domain)) == WireLabels(Splits(domain));
    var plen := FirstDot(domain);
    while beg + plen < |domain|
      invariant beg <= |domain| && plen == FirstDot(domain[beg..])
      invariant i == at + |out| && |out| == beg
      invariant out + WireLabels(Splits(domain[beg..])) == WireLabels(Splits(domain))
      invariant buf[..] == Spliced(b, at, out)
      decreases |domain| - beg
    {
      var l := domain[beg..beg + plen];
      ghost var w := [plen % 256] + l;
      ghost var rest := WireLabels(Splits(domain[beg + plen + 1..]));
      SplitsFrom(domain, beg, plen);
      SplicedOn(b, at, out, w);
      i := PutLabel(buf, i, l);
      assert out + (w + rest) == (out + w) + rest;
      out := out + w;
      beg := beg + plen + 1;
      plen := FirstDot(domain[beg..]);
    }
    var l := domain[beg..];
    LastLabel(l);
    SplicedOn(b, at, out, [|l| % 256] + l);
    i := PutLabel(buf, i, l);
    ghost var c := buf[..];
    ghost var w := out + ([|l| % 256] + l);
    assert w == WireLabels(Splits(domain));
    SplicedOn(b, at, w, [0]);
    PutByte(buf, i, 0);
    end := i + 1;
  }

  lemma LastLabel(s: seq<Byte>)
    requires FirstDot(s) == |s|
    ensures WireLabels(Splits(s)) == [|s| % 256] + s
  {
  }

  /** The client appends a dot to its host name and emits a label at each dot. It writes
      the same bytes as `p_encode_domain`, for every string. */
  method ChangeToDnsNameFormat(buf: array<Byte>, at: nat, host: seq<Byte>) returns (end: nat, changed: seq<Byte>)
    requires at + |host| + 2 <= buf.Length
    modifies buf
    ensures |Wire(Splits(host))| == |host| + 2 && end == at + |host| + 2 && changed == host + [DOT]
    ensures buf[..] == Spliced(old(buf[..]), at, Wire(Splits(host)))
  {
    hide Spliced, Splits, WireLabels, FirstDot, Written;
    WireOf(host);
    changed := host + [DOT];
    ghost var b := buf[..];
    var lock := 0;
    var dns := at;
    NothingWritten(b, at, host);
    for i := 0 to |changed|
      invariant lock <= i && dns == at + lock
      invariant forall k :: lock <= k < i ==> changed[k] != DOT
      invariant i > |host| ==> lock == i
      invariant Written(buf[..], b, at, host, lock)
    {
      if changed[i] == DOT {
        LabelWritten(buf[..], b, at, host, lock, i, [(i - lock) % 256] + changed[lock..i]);
        dns := MoveLabel(buf, dns, changed, lock, i);
        lock := i + 1;
      }
    }
    AllWritten(buf[..], b, at, host);
    PutByte(buf, dns, 0);
    end := dns + 1;
  }

  /** s is b with the labels that end before `lock` written at `at`. */
  ghost predicate Written(s: seq<Byte>, b: seq<Byte>, at: nat, host: seq<Byte>, lock: nat)
  {
    var w := WireLabels(Splits(host));
    && lock <= |w| && at + |w| <= |b|
    && w == w[..lock] + Pending(host, lock) && s == Spliced(b, at, w[..lock])
  }

  lemma NothingWritten(b: seq<Byte>, at: nat, host: seq<Byte>)
    requires at + |Wire(Splits(host))| <= |b|
    ensures Written(b, b, at, host, 0)
  {
    hide Splits, WireLabels;
    var w := WireLabels(Splits(host));
    assert host[0..] == host && w[..0] == [] && [] + w == w;
    SplicedNothing(b, at);
  }

  lemma LabelWritten(s: seq<Byte>, b: seq<Byte>, at: nat, host: seq<Byte>, lock: nat, i: nat, l: seq<Byte>)
    requires lock <= i <= |host| && |l| == 1 + i - lock && at + lock + |l| <= |s|
    requires (host + [DOT])[i] == DOT && forall k :: lock <= k < i ==> (host + [DOT])[k] != DOT
    requires l == [(i - lock) % 256] + (host + [DOT])[lock..i]
    requires Written(s, b, at, host, lock)
    ensures Written(Spliced(s, at + lock, l), b, at, host, i + 1)
  {
    hide Splits, WireLabels, Pending, Spliced;
    var w := WireLabels(Splits(host));
    Piece(host, lock, i);
    assert w == (w[..lock] + l) + Pending(host, i + 1);
    assert w[..i + 1] == w[..lock] + l;
    SplicedOn(b, at, w[..lock], l);
  }

  lemma AllWritten(s: seq<Byte>, b: seq<Byte>, at: nat, host: seq<Byte>)
    requires |s| == |b| && at + |host| + 2 <= |b| && |Wire(Splits(host))| == |host| + 2
    requires Written(s, b, at, host, |host| + 1)
    ensures Spliced(s, at + |host| + 1, [0]) == Spliced(b, at, Wire(Splits(host)))
  {
    hide Splits, WireLabels, Pending, Spliced;
    var w := WireLabels(Splits(host));
    assert w[..|host| + 1] == w;
    SplicedOn(b, at, w, [0]);
  }

  /** What the client still has to write once it is past the first bytes of the host. */
  ghost function Pending(host: seq<Byte>, lock: nat): (s: seq<Byte>)
  {
    if lock <= |host| then WireLabels(Splits(host[lock..])) else []
  }

  lemma Piece(host: seq<Byte>, lock: nat, i: nat)
    requires lock <= i <= |host| && (host + [DOT])[i] == DOT
    requires forall k :: lock <= k < i ==> (host + [DOT])[k] != DOT
    ensures Pending(host, lock) == [(i - lock) % 256] + (host + [DOT])[lock..i] + Pending(host, i + 1)
  {
    hide WireLabels, Splits, FirstDot;
    var s := host[lock..];
    assert forall k :: 0 <= k < |s| ==> s[k] == (host + [DOT])[lock + k];
    FirstDotIs(s, i - lock);
    assert (host + [DOT])[lock..i] == s[..i - lock];
    if i < |host| {
      SplitsStep(s, i - lock);
      assert s[i - lock + 1..] == host[i + 1..];
    } else {
      LastLabel(s);
    }
  }

  /** The inner loop of `ChangetoDnsNameFormat`. */
  method MoveLabel(buf: array<Byte>, at: nat, host: seq<Byte>, from: nat, to: nat) returns (dns: nat)
    requires from <= to <= |host| && at + 1 + (to - from) <= buf.Length
    modifies buf
    ensures dns == at + 1 + (to - from)
    ensures buf[..] == Spliced(old(buf[..]), at, [(to - from) % 256] + host[from..to])
  {
    hide Spliced;
    ghost var b, len := buf[..], [(to - from) % 256];
    dns := at;
    PutByte(buf, dns, (to - from) % 256);
    dns := dns + 1;
    assert len + host[from..from] == len;
    for lock := from to to
      invariant dns == at + 1 + (lock - from)
      invariant buf[..] == Spliced(b, at, len + host[from..lock])
    {
      SplicedOn(b, at, len + host[from..lock], [host[lock]]);
      assert len + host[from..lock] + [host[lock]] == len + host[from..lock + 1];
      PutByte(buf, dns, host[lock]);
      dns := dns + 1;
    }
  }

  function Octets16(value: nat): (r: seq<Byte>)
    requires value < 0x1_0000
    ensures |r| == 2 && 256 * (r[0] as int) + r[1] as int == value
  {
    [value / 256, value % 256]
  }

  /** `p_put16bits` */
  method Put16(buf: array<Byte>, at: nat, value: nat) returns (end: nat)
    requires at + 2 <= buf.Length && value < 0x1_0000
    modifies buf
    ensures end == at + 2 && buf[..] == Spliced(old(buf[..]), at, Octets16(value))
  {
    buf[at] := value / 256;
    buf[at + 1] := value % 256;
    end := at + 2;
  }

  /** The length that `p_put_srv` announces for a service record. */
  function SrvLength(name: seq<Byte>): nat
  {
    6 + |name| + 2
  }

  /** The data of a service record as `p_encode_response` writes them: exactly as many
      bytes as were announced. */
  method EncodeSrvData(buf: array<Byte>, at: nat, priority: nat, weight: nat, port: nat, target: seq<Byte>) returns (end: nat)
    requires priority < 0x1_0000 && weight < 0x1_0000 && port < 0x1_0000
    requires at + SrvLength(target) <= buf.Length
    modifies buf
    ensures end == at + SrvLength(target) && SrvLength(target) == 6 + |Wire(Splits(target))|
    ensures buf[..] == Spliced(old(buf[..]), at,
                               Octets16(priority) + Octets16(weight) + Octets16(port) + Wire(Splits(target)))
  {
    hide Spliced, Splits, WireLabels, Octets16;
    ghost var b := buf[..];
    end := Put16(buf, at, priority);
    end := Put16(buf, end, weight);
    SplicedOn(b, at, Octets16(priority), Octets16(weight));
    end := Put16(buf, end, port);
    SplicedOn(b, at, Octets16(priority) + Octets16(weight), Octets16(port));
    end := EncodeDomain(buf, end, target);
    SplicedOn(b, at, Octets16(priority) + Octets16(weight) + Octets16(port), Wire(Splits(target)));
  }

  // ----- decoding -----

  /** Labels that a length byte other than zero can announce. */
  ghost predicate Sized(ls: seq<Label>)
  {
    forall l <- ls :: 1 <= |l| <= 255
  }

  /** b starts with the wire form of ls. */
  ghost predicate Holds(b: seq<Byte>, ls: seq<Label>)
  {
    Sized(ls) && Wire(ls) <= b
  }

  /** The labels read so far are the first labels of whatever name b holds. */
  lemma {:induction false} ReadPrefix(b: seq<Byte>, done: seq<Label>, ls: seq<Label>)
    requires Sized(done) && WireLabels(done) <= b && Holds(b, ls)
    ensures |done| <= |ls| && done == ls[..|done|]
  {
    hide WireLabels, Wire;
    if done != [] {
      assert done[0] in done;
      FirstLabel(done);
      First(b, done[0], WireLabels(done[1..]));
      NoName(b, ls);
      WireUnfold(ls);
      assert ls[0] in ls;
      First(b, ls[0], Wire(ls[1..]));
      ReadPrefix(b[1 + |done[0]|..], done[1..], ls[1..]);
      ConsPrefix(done, ls);
    }
  }

  lemma NoName(b: seq<Byte>, ls: seq<Label>)
    requires b != [] && b[0] != 0 && Wire(ls) <= b
    ensures ls != []
  {
  }

  lemma ConsPrefix(a: seq<Label>, b: seq<Label>)
    requires a != [] && b != [] && a[0] == b[0] && |a| <= |b| && a[1..] == b[1..][..|a| - 1]
    ensures a == b[..|a|]
  {
    assert a == [a[0]] + a[1..];
    assert b[..|a|] == [b[0]] + b[1..][..|a| - 1];
  }

  lemma WireUnfold(ls: seq<Label>)
    requires ls != []
    ensures Wire(ls) == [|ls[0]| % 256] + ls[0] + Wire(ls[1..])
  {
  }

  lemma First(b: seq<Byte>, l: Label, rest: seq<Byte>)
    requires 1 <= |l| <= 255 && [|l| % 256] + l + rest <= b
    ensures b[0] == |l| < |b| && b[1..1 + |l|] == l && rest <= b[1 + |l|..]
    ensures b == [|l| % 256] + l + rest ==> rest == b[1 + |l|..]
  {
    var w := [|l| % 256] + l + rest;
    assert w[1..1 + |l|] == l && w[1 + |l|..] == rest;
    assert b[..|w|] == w;
  }

  /** A buffer holds at most one name. */
  lemma WireUnique(b: seq<Byte>, ls: seq<Label>, other: seq<Label>)
    requires Holds(b, ls) && Holds(b, other)
    ensures ls == other
  {
    ReadPrefix(b, ls, other);
    ReadPrefix(b, other, ls);
  }

  lemma {:induction false} WireLabelsConcat(a: seq<Label>, c: seq<Label>)
    ensures WireLabels(a + c) == WireLabels(a) + WireLabels(c)
  {
    hide WireLabels;
    if a == [] {
      NoLabels(a);
      assert a + c == c;
    } else {
      WireLabelsConcat(a[1..], c);
      FirstLabel(a);
      FirstLabel(a + c);
      var h, t, r := [|a[0]| % 256] + a[0], WireLabels(a[1..]), WireLabels(c);
      assert (a + c)[1..] == a[1..] + c;
      assert h + (t + r) == (h + t) + r;
    }
  }

  lemma FirstLabel(ls: seq<Label>)
    requires ls != []
    ensures WireLabels(ls) == ([|ls[0]| % 256] + ls[0]) + WireLabels(ls[1..])
  {
  }

  /** What `p_decode_domain` has room for: 256 bytes with the NUL, and fewer than
      the bytes it was told are left. The root name always fits. */
  predicate Fits(ls: seq<Label>, size: nat)
  {
    ls == [] || (|Dotted(ls)| < 256 && |Dotted(ls)| < size)
  }

  lemma AtEnd(b: seq<Byte>, ls: seq<Label>)
    requires Wire(ls) <= b
    ensures |WireLabels(ls)| < |b| && b[|WireLabels(ls)|] == 0
  {
    assert b[|WireLabels(ls)|] == Wire(ls)[|WireLabels(ls)|];
  }

  /** Once the labels read and the announced one are too long, so is the whole name. */
  lemma Overflows(b: seq<Byte>, done: seq<Label>, ls: seq<Label>)
    requires Sized(done) && WireLabels(done) <= b && Holds(b, ls)
    requires |WireLabels(done)| < |b| && b[|WireLabels(done)|] != 0
    ensures ls != [] && |Dotted(ls)| >= |WireLabels(done)| + b[|WireLabels(done)|]
  {
    hide WireLabels, Dotted;
    var k, p := |done|, |WireLabels(done)|;
    ReadPrefix(b, done, ls);
    AtEnd(b, ls);
    assert ls[..|ls|] == ls;
    var l, rest := ls[k], ls[k + 1..];
    assert l in ls && ls == done + [l] + rest;
    WireLabelsConcat(done + [l], rest);
    WireLabelsAppend(done, l);
    assert Wire(ls) == WireLabels(done) + [|l| % 256] + l + WireLabels(rest) + [0];
    assert b[p] == Wire(ls)[p] == |l|;
    WireLength(ls);
  }

  /** `p_decode_domain`. On success the buffer holds the name ls, and its text and length
      are handed back; a name that the buffer holds is refused only if it does not fit.
      The byte just behind the announced size is looked at exactly if labels that fit fill all
      of the announced bytes. */
  method DecodeDomain(domain: array<Byte>, b: seq<Byte>, size: nat)
    returns (n: int, ghost ls: seq<Label>, ghost behind: bool)
    requires domain.Length == 256 && size < |b|
    modifies domain
    ensures n >= 0 ==> Holds(b, ls) && n == |Wire(ls)| && Fits(ls, size)
    ensures n >= 0 ==> domain[..|Dotted(ls)| + 1] == Dotted(ls) + [0]
    ensures n < 0 ==> n == -1 && forall other :: Holds(b, other) ==> !Fits(other, size)
    ensures behind <==> exists done :: Fills(done, b, size)
  {
    hide Dotted, WireLabels, ReadUpTo, Holds, Fits, Spliced, Fills;
    var p, i := 0, 0;
    ls := [];
    ReadNothing(b, size);
    behind := p == size;
    while b[p] != 0
      invariant p <= size && ReadUpTo(b, p, ls, size) && (behind <==> p == size)
      invariant 0 <= i < NAME_BUFFER && domain[..i] == Dotted(ls)
      invariant if ls == [] then i == p == 0 else p == i + 1 && i > 0
      decreases |b| - p
    {
      i := DotOn(domain, i);
      ghost var d := domain[..i];
      assert i == p && d == Dotted(ls) + (if ls == [] then [] else [DOT]);
      var len := b[p];
      p := p + 1;
      if i + len >= NAME_BUFFER || i + len >= size {
        forall other | Holds(b, other) ensures !Fits(other, size) {
          Refused(b, p - 1, ls, size, other);
        }
        FillsIff(b, p - 1, ls, size);
        return -1, ls, behind;
      }
      ghost var l := b[p..p + len];
      CopyOn(domain, i, b[p..p + len]);
      ReadMore(b, p - 1, ls, size);
      ls := ls + [l];
      p := p + len;
      i := i + len;
      behind := p == size;
    }
    domain[i] := 0;
    ReadAll(b, p, ls, size);
    FillsIff(b, p, ls, size);
    n := p + 1;
  }

  /** The decoder has read the labels ls in the first p bytes of b. */
  ghost predicate ReadUpTo(b: seq<Byte>, p: nat, ls: seq<Label>, size: nat)
  {
    p <= |b| && Sized(ls) && b[..p] == WireLabels(ls) && Fits(ls, size)
  }

  /** The labels take all of the announced bytes, without the end of a name. */
  ghost predicate Fills(done: seq<Label>, b: seq<Byte>, size: nat)
  {
    size <= |b| && Sized(done) && Fits(done, size) && WireLabels(done) == b[..size]
  }

  /** While there are announced bytes left, labels that fill them go on with one that fits. */
  lemma FillsGoesOn(b: seq<Byte>, p: nat, ls: seq<Label>, size: nat, done: seq<Label>)
    requires ReadUpTo(b, p, ls, size) && p < size && Fills(done, b, size)
    ensures b[p] != 0 && p + b[p] < size && p + b[p] < NAME_BUFFER
  {
    hide Dotted, WireLabels;
    var c := b[..size] + [0];
    assert c[..p] == b[..p] && Wire(done) == c;
    ReadPrefix(c, ls, done);
    var k := |ls|;
    assert done[..|done|] == done;
    var l, rest := done[k], done[k + 1..];
    assert l in done && done == ls + [l] + rest;
    WireLabelsConcat(ls + [l], rest);
    WireLabelsAppend(ls, l);
    assert b[..size] == b[..p] + [|l| % 256] + l + WireLabels(rest);
    assert b[p] == b[..size][p] == |l|;
    WireLength(done);
  }

  /** Where the decoder stops, it has looked behind exactly if some labels fill the bytes. */
  lemma FillsIff(b: seq<Byte>, p: nat, ls: seq<Label>, size: nat)
    requires ReadUpTo(b, p, ls, size) && p <= size < |b|
    requires b[p] == 0 || p + b[p] >= size || p + b[p] >= NAME_BUFFER
    ensures p == size <==> exists done :: Fills(done, b, size)
  {
    hide Dotted, WireLabels, Fits;
    if p == size {
      assert Fills(ls, b, size);
    } else {
      forall done
        ensures !Fills(done, b, size)
      {
        if Fills(done, b, size) {
          FillsGoesOn(b, p, ls, size, done);
        }
      }
    }
  }

  /** Two announced bytes with one label: the end of the name is taken from the byte behind. */
  lemma LooksBehind()
    ensures Fills([[97]], [1, 97, 0], 2)
  {
    assert [1, 97, 0][..2] == [1, 97];
    assert [[97]][1..] == [];
  }

  lemma ReadNothing(b: seq<Byte>, size: nat)
    ensures ReadUpTo(b, 0, [], size) && Dotted([]) == []
  {
  }

  lemma ReadMore(b: seq<Byte>, p: nat, ls: seq<Label>, size: nat)
    requires p < |b| && ReadUpTo(b, p, ls, size) && b[p] > 0
    requires p + b[p] < NAME_BUFFER && p + b[p] < size && size < |b|
    ensures ReadUpTo(b, p + 1 + b[p], ls + [b[p + 1..p + 1 + b[p]]], size)
    ensures Dotted(ls + [b[p + 1..p + 1 + b[p]]]) == Dotted(ls) + (if ls == [] then [] else [DOT]) + b[p + 1..p + 1 + b[p]]
  {
    hide Dotted, WireLabels;
    var l := b[p + 1..p + 1 + b[p]];
    Grown(b, p, b[p]);
    AppendLabel(ls, l);
    WireLength(ls + [l]);
  }

  lemma ReadAll(b: seq<Byte>, p: nat, ls: seq<Label>, size: nat)
    requires p < |b| && ReadUpTo(b, p, ls, size) && b[p] == 0
    ensures Holds(b, ls) && |Wire(ls)| == p + 1 && Fits(ls, size)
  {
    hide WireLabels, Dotted;
    assert b[..p + 1] == b[..p] + [b[p]];
  }

  lemma Refused(b: seq<Byte>, p: nat, ls: seq<Label>, size: nat, other: seq<Label>)
    requires p < |b| && ReadUpTo(b, p, ls, size) && b[p] > 0
    requires p + b[p] >= NAME_BUFFER || p + b[p] >= size
    requires Holds(b, other)
    ensures !Fits(other, size)
  {
    hide WireLabels, Dotted;
    Overflows(b, ls, other);
  }

  /** A copy to the end of the text in the first i bytes. */
  method CopyOn(d: array<Byte>, i: nat, l: seq<Byte>)
    requires i + |l| <= d.Length
    modifies d
    ensures d[..i + |l|] == old(d[..i]) + l
  {
    ghost var was := d[..];
    Copy(d, i, l);
    assert d[..][..i + |l|] == was[..i] + l;
  }

  /** A dot, unless the text is empty. */
  method DotOn(d: array<Byte>, i: nat) returns (j: nat)
    requires i < d.Length
    modifies d
    ensures j == (if i == 0 then 0 else i + 1) && d[..j] == old(d[..i]) + if i == 0 then [] else [DOT]
  {
    j := i;
    if i != 0 {
      d[i] := DOT;
      j := i + 1;
    }
  }

  lemma Grown(b: seq<Byte>, p: nat, len: nat)
    requires p + 1 + len <= |b|
    ensures b[..p + 1 + len] == b[..p] + [b[p]] + b[p + 1..p + 1 + len]
  {
  }

  lemma AppendLabel(ls: seq<Label>, l: Label)
    requires Sized(ls) && 1 <= |l| <= 255
    ensures Sized(ls + [l])
    ensures WireLabels(ls + [l]) == WireLabels(ls) + [|l| % 256] + l
    ensures Dotted(ls + [l]) == Dotted(ls) + (if ls == [] then [] else [DOT]) + l
  {
    WireLabelsAppend(ls, l);
    if ls != [] { DottedAppend(ls, l); } else { assert ls + [l] == [l]; }
  }

  /** Every label followed by a dot: what `ReadName` has before it cuts the last dot. */
  ghost function Dots(ls: seq<Label>): (s: seq<Byte>)
  {
    if ls == [] then [] else ls[0] + [DOT] + Dots(ls[1..])
  }

  lemma {:induction false} DotsAppend(ls: seq<Label>, l: Label)
    ensures Dots(ls + [l]) == Dots(ls) + (l + [DOT])
  {
    if ls == [] {
      assert ls + [l] == [l];
    } else {
      DotsAppend(ls[1..], l);
      assert (ls + [l])[1..] == ls[1..] + [l];
    }
  }

  lemma {:induction false} DotsOfDotted(ls: seq<Label>)
    requires ls != []
    ensures Dots(ls) == Dotted(ls) + [DOT]
  {
    if |ls| == 1 {
      assert Dots(ls[1..]) == [];
    } else {
      DotsOfDotted(ls[1..]);
    }
  }

  /** `strlen` of the string that starts a buffer. */
  function StrLen(s: seq<Byte>): (n: nat)
    requires 0 in s
    ensures n < |s| && s[n] == 0 && forall i :: 0 <= i < n ==> s[i] != 0
  {
    if s[0] == 0 then 0 else 1 + StrLen(s[1..])
  }

  ghost predicate NoNul(s: seq<Byte>)
  {
    forall x <- s :: x != 0
  }

  /** Where the first byte stands that `ReadName` takes for a compression pointer. */
  ghost function FirstPointer(w: seq<Byte>): (k: nat)
    ensures k <= |w| && (k < |w| ==> w[k] >= 192) && forall i :: 0 <= i < k ==> w[i] < 192
  {
    if w == [] || w[0] >= 192 then 0 else 1 + FirstPointer(w[1..])
  }

  /** Why `ReadName` does not get through: it writes in front of its 256 bytes or behind them, or
      it follows a compression pointer. */
  datatype Halt = Before | Beyond | Pointer

  /** The inner loop of `ReadName`: one label moves one place to the left over its length byte. */
  method ShiftLabel(name: array<Byte>, at: nat, len: nat) returns (i: nat)
    requires at + len < name.Length
    modifies name
    ensures i == at + len
    ensures name[..] == Spliced(old(name[..]), at, old(name[at + 1..at + 1 + len]) + [DOT])
  {
    ghost var was := name[..];
    ghost var l := was[at + 1..at + 1 + len];
    i := at;
    for j := 0 to len
      invariant i == at + j
      invariant forall k :: 0 <= k < at || i <= k < name.Length ==> name[k] == was[k]
      invariant forall k :: at <= k < i ==> name[k] == l[k - at]
    {
      assert name[i + 1] == was[i + 1] == l[j];
      name[i] := name[i + 1];
      i := i + 1;
    }
    name[i] := DOT;
  }

  /** The first loop of `ReadName`: the bytes of the name up to its end, if there is room. */
  method ReadRaw(name: array<Byte>, b: seq<Byte>, ghost w: seq<Byte>) returns (halt: Option<Halt>, p: nat, count: nat)
    requires NoNul(w) && w + [0] <= b
    modifies name
    ensures halt == Some(Pointer) <==> FirstPointer(w) < |w| && FirstPointer(w) <= name.Length
    ensures halt == Some(Beyond) <==> FirstPointer(w) >= name.Length && |w| >= name.Length && halt != Some(Pointer)
    ensures halt == None <==> FirstPointer(w) == |w| < name.Length
    ensures halt == None ==> p == |w| && count == |w| + 1 && name[..p] == w && name[p] == 0
    ensures halt != Some(Before)
  {
    hide FirstPointer;
    assert forall k :: 0 <= k < |w| ==> w[k] in w;
    count, p := 1, 0;
    while b[p] != 0
      invariant p <= |w| && p <= name.Length && b[p] == (w + [0])[p] && count == p + 1
      invariant name[..p] == w[..p] && p <= FirstPointer(w)
      decreases |w| - p
    {
      assert (w + [0])[p] != 0 && p < |w|;
      if b[p] >= 192 {
        return Some(Pointer), p, count;
      }
      if p == name.Length {
        return Some(Beyond), p, count;
      }
      name[p] := b[p];
      p := p + 1;
      count := count + 1;
    }
    if p == name.Length {
      return Some(Beyond), p, count;
    }
    name[p] := 0;
    halt := None;
  }

  /** `ReadName` has put k labels into text form, in the first i bytes of s. */
  ghost predicate Shifted(s: seq<Byte>, i: nat, ls: seq<Label>, k: nat)
  {
    && i <= |WireLabels(ls)| < |s| && k <= |ls|
    && s[|WireLabels(ls)|] == 0 && (forall t :: 0 <= t < |WireLabels(ls)| ==> s[t] != 0)
    && s[..i] == Dots(ls[..k]) && s[i..|WireLabels(ls)|] == WireLabels(ls[k..])
  }

  lemma ShiftedLength(s: seq<Byte>, i: nat, ls: seq<Label>, k: nat)
    requires Shifted(s, i, ls, k)
    ensures 0 in s && StrLen(s) == |WireLabels(ls)|
  {
    hide WireLabels, Dots;
  }

  lemma NothingShifted(s: seq<Byte>, ls: seq<Label>)
    requires |WireLabels(ls)| < |s| && s[..|WireLabels(ls)|] == WireLabels(ls)
    requires NoNul(WireLabels(ls)) && s[|WireLabels(ls)|] == 0
    ensures Shifted(s, 0, ls, 0)
  {
    hide WireLabels;
    assert ls[0..] == ls && ls[..0] == [];
    assert forall t :: 0 <= t < |WireLabels(ls)| ==> s[t] == WireLabels(ls)[t] && s[t] in WireLabels(ls);
  }

  lemma NextLabel(s: seq<Byte>, i: nat, ls: seq<Label>, k: nat)
    requires Sized(ls) && Shifted(s, i, ls, k) && i < |WireLabels(ls)|
    ensures k < |ls| && s[i] == |ls[k]| && i + 1 + s[i] <= |WireLabels(ls)|
    ensures s[i + 1..i + 1 + s[i]] == ls[k]
    ensures s[i + 1 + s[i]..|WireLabels(ls)|] == WireLabels(ls[k + 1..])
  {
    hide WireLabels, Dots;
    var rest := s[i..|WireLabels(ls)|];
    NoLabels(ls[k..]);
    LabelsFrom(ls, k);
    var l, tail := ls[k], WireLabels(ls[k + 1..]);
    assert l in ls;
    First(rest, l, tail);
    Sub(s, i, |WireLabels(ls)|, 1, 1 + |l|);
    Sub(s, i, |WireLabels(ls)|, 1 + |l|, |rest|);
  }

  lemma Sub(s: seq<Byte>, a: nat, n: nat, x: nat, y: nat)
    requires a <= n <= |s| && x <= y <= n - a
    ensures s[a..n][x..y] == s[a + x..a + y]
  {
    var t := s[a..n];
    assert forall k :: 0 <= k < y - x ==> t[x..y][k] == t[x + k] == s[a + x + k];
  }

  lemma LabelsFrom(ls: seq<Label>, k: nat)
    requires k < |ls|
    ensures WireLabels(ls[k..]) == [|ls[k]| % 256] + ls[k] + WireLabels(ls[k + 1..])
  {
    assert ls[k..][0] == ls[k] && ls[k..][1..] == ls[k + 1..];
  }

  lemma OneMoreShifted(s: seq<Byte>, i: nat, ls: seq<Label>, k: nat, t: seq<Byte>)
    requires Sized(ls) && Shifted(s, i, ls, k) && k < |ls| && i + 1 + |ls[k]| <= |WireLabels(ls)|
    requires s[i + 1..i + 1 + |ls[k]|] == ls[k]
    requires s[i + 1 + |ls[k]|..|WireLabels(ls)|] == WireLabels(ls[k + 1..])
    requires t == Spliced(s, i, ls[k] + [DOT])
    ensures Shifted(t, i + 1 + |ls[k]|, ls, k + 1)
  {
    hide WireLabels, Dots;
    var l := ls[k];
    DotsAppend(ls[..k], l);
    assert ls[..k] + [l] == ls[..k + 1];
    var j := i + 1 + |l|;
    assert t[..j] == s[..i] + (l + [DOT]);
    assert t[j..] == s[j..];
    assert t[j..|WireLabels(ls)|] == s[j..|WireLabels(ls)|];
    forall x | 0 <= x < |WireLabels(ls)| ensures t[x] != 0 {
      if i <= x < i + |l| {
        assert t[x] == l[x - i] == s[i + 1..i + 1 + |l|][x - i] == s[x + 1];
      }
    }
  }

  lemma NoLabels(ls: seq<Label>)
    ensures WireLabels(ls) == [] <==> ls == []
  {
  }

  lemma AllShifted(s: seq<Byte>, i: nat, ls: seq<Label>, k: nat)
    requires ls != [] && Shifted(s, i, ls, k) && i == |WireLabels(ls)|
    ensures i == |Dotted(ls)| + 1 && s[..i] == Dotted(ls) + [DOT]
  {
    hide Dots, Dotted, WireLabels;
    assert s[i..|WireLabels(ls)|] == [];
    NoLabels(ls[k..]);
    assert ls[..k] == ls;
    DotsOfDotted(ls);
  }

  lemma RootIff(b: seq<Byte>, ls: seq<Label>)
    requires Holds(b, ls)
    ensures b != [] && (ls == [] <==> b[0] == 0)
  {
    assert b[0] == Wire(ls)[0];
    if ls != [] {
      assert ls[0] in ls;
    }
  }

  /** `ReadName`: the text of the name in a new buffer, and the number of bytes that the name takes on
      the wire. It writes in front of the buffer exactly for the root name; else the first byte of 192
      and above is followed as a pointer if it comes within 257 bytes, and a name of more than 256
      bytes is written beyond the buffer. */
  method ReadName(b: seq<Byte>, ghost ls: seq<Label>) returns (name: array<Byte>, count: nat, halt: Option<Halt>)
    requires Holds(b, ls) && NoNul(WireLabels(ls))
    ensures b != [] && (ls == [] <==> b[0] == 0)
    ensures halt == Some(Before) <==> ls == []
    ensures halt == Some(Pointer) <==> FirstPointer(WireLabels(ls)) < |WireLabels(ls)| && FirstPointer(WireLabels(ls)) <= 256
    ensures halt == Some(Beyond) <==> |Wire(ls)| > 256 && halt != Some(Pointer)
    ensures halt == None <==> ls != [] && |Wire(ls)| <= 256 && FirstPointer(WireLabels(ls)) == |WireLabels(ls)|
    ensures halt == None ==>
              && fresh(name) && name.Length == 256 && count == |Wire(ls)| == |Dotted(ls)| + 2
              && name[..|Dotted(ls)| + 1] == Dotted(ls) + [0]
  {
    hide WireLabels, Dotted, Dots, Spliced, Shifted, StrLen, Sized, NoNul, FirstPointer;
    name := new Byte[NAME_BUFFER](_ => 0);
    RootIff(b, ls);
    NoLabels(ls);
    var p;
    halt, p, count := ReadRaw(name, b, WireLabels(ls));
    if halt != None {
      return;
    }
    if ls != [] {
      WireLength(ls);
    }
    ghost var k: nat := 0;
    var i: nat := 0;
    NothingShifted(name[..], ls);
    ShiftedLength(name[..], i, ls, k);
    while i < StrLen(name[..])
      invariant 0 in name[..] && StrLen(name[..]) == |WireLabels(ls)|
      invariant i <= |WireLabels(ls)| && k <= |ls| && Shifted(name[..], i, ls, k)
      decreases |ls| - k
    {
      ghost var s := name[..];
      NextLabel(s, i, ls, k);
      var len := name[i];
      ghost var at := i;
      i := ShiftLabel(name, i, len);
      i := i + 1;
      OneMoreShifted(s, at, ls, k, name[..]);
      k := k + 1;
      ShiftedLength(name[..], i, ls, k);
    }
    if i == 0 {
      return name, count, Some(Before);
    }
    AllShifted(name[..], i, ls, k);
    name[i - 1] := 0;
    halt := None;
  }

  // ----- between client and server -----

  /** A name within section 2.3.4 of RFC 1035: labels of 1 to 63 bytes, at most 255 bytes
      on the wire. Its bytes are ASCII without the dot. */
  ghost predicate Legal(ls: seq<Label>)
  {
    && ls != [] && |Wire(ls)| <= 255
    && forall l <- ls :: 1 <= |l| <= 63 && DOT !in l && forall x <- l :: 0 < x < 128
  }

  lemma {:induction false} LegalBytes(ls: seq<Label>)
    requires forall l <- ls :: 1 <= |l| <= 63 && forall x <- l :: 0 < x < 128
    ensures (forall x <- WireLabels(ls) :: 0 < x < 192) && Sized(ls)
  {
    if ls != [] {
      assert ls[0] in ls;
      LegalBytes(ls[1..]);
    }
  }

  lemma NoPointer(w: seq<Byte>)
    requires forall x <- w :: 0 < x < 192
    ensures NoNul(w) && FirstPointer(w) == |w|
  {
    assert forall i :: 0 <= i < |w| ==> w[i] in w;
  }

  lemma LegalName(ls: seq<Label>)
    requires Legal(ls)
    ensures Splits(Dotted(ls)) == ls && Sized(ls) && |Wire(ls)| == |Dotted(ls)| + 2
    ensures NoNul(WireLabels(ls)) && FirstPointer(WireLabels(ls)) == |WireLabels(ls)|
  {
    hide WireLabels, Dotted, Splits;
    LegalBytes(ls);
    NoPointer(WireLabels(ls));
    SplitsOfDotted(ls);
    WireLength(ls);
  }

  /** A question: the client encodes a host name and the server reads it, whatever follows. */
  method Ask(host: seq<Byte>, tail: seq<Byte>, ghost ls: seq<Label>) returns (n: int, text: seq<Byte>)
    requires Legal(ls) && host == Dotted(ls) && tail != []
    ensures n == |host| + 2 && text == host
  {
    hide WireLabels, Dotted, Splits;
    LegalName(ls);
    var buf := new Byte[|host| + 2](_ => 0);
    var end, changed := ChangeToDnsNameFormat(buf, 0, host);
    assert buf[..] == Wire(ls);
    var domain := new Byte[NAME_BUFFER](_ => 0);
    ghost var read, behind;
    n, read, behind := DecodeDomain(domain, buf[..] + tail, |host| + 2);
    assert Holds(buf[..] + tail, ls) && Fits(ls, |host| + 2);
    assert n >= 0;
    WireUnique(buf[..] + tail, ls, read);
    text := domain[..n - 2];
    assert text == domain[..|Dotted(ls)| + 1][..|Dotted(ls)|];
  }

  /** An answer: the server encodes a name and the client reads it, whatever follows. */
  method Answer(name: seq<Byte>, tail: seq<Byte>, ghost ls: seq<Label>) returns (n: nat, text: seq<Byte>)
    requires Legal(ls) && name == Dotted(ls)
    ensures n == |name| + 2 && text == name
  {
    hide WireLabels, Dotted, Splits;
    LegalName(ls);
    var buf := new Byte[|name| + 2](_ => 0);
    var end := EncodeDomain(buf, 0, name);
    assert buf[..] == Wire(ls);
    var read, halt;
    read, n, halt := ReadName(buf[..] + tail, ls);
    text := read[..n - 2];
    assert text == read[..|Dotted(ls)| + 1][..|Dotted(ls)|];
  }
}
