/**
 Bencoding (BEP 3) as src/p2p/ben.c writes, checks and reads it: an encoder with a
 size pre-pass, a validator, and a decoder that checks nothing by itself.
 */
module Bencode {
  import opened Collections
  import opened Bytes
  import opened Buffers

  const CH_MINUS: Byte := 45
  const CH_ZERO: Byte := 48
  const CH_COLON: Byte := 58
  const CH_D: Byte := 100
  const CH_E: Byte := 101
  const CH_I: Byte := 105
  const CH_L: Byte := 108

  const BEN_STR_MAXLEN := 4
  const BEN_STR_MAXSIZE := 1023
  const BEN_INT_MAXLEN := 10
  const BEN_INT_MAXSIZE := 2147483647
  const BUF_SIZE := 1024

  datatype Ben = Str(s: seq<Byte>) | Int(i: int) | List(items: seq<Ben>) | Dict(entries: seq<Entry>)
  datatype Entry = Entry(key: seq<Byte>, val: Ben)

  // ----- decimal numbers -----

  predicate IsDigit(b: Byte)
  {
    48 <= b <= 57
  }

  predicate AllDigits(s: seq<Byte>)
  {
    forall k :: 0 <= k < |s| ==> IsDigit(s[k])
  }

  /** What `%li` prints for a non-negative number. */
  function Decimal(n: nat): (r: seq<Byte>)
    ensures r != []
  {
    if n < 10 then [CH_ZERO + n] else Decimal(n / 10) + [CH_ZERO + n % 10]
  }

  function Signed(i: int): seq<Byte>
  {
    if i < 0 then [CH_MINUS] + Decimal(-i) else Decimal(i)
  }

  /** What `strtol` reads from digits, before saturation. */
  function DigitsValue(s: seq<Byte>): nat
    requires AllDigits(s)
  {
    if s == [] then 0 else 10 * DigitsValue(s[..|s| - 1]) + (s[|s| - 1] - CH_ZERO)
  }

  function Strtol(s: seq<Byte>): nat
    requires AllDigits(s)
  {
    if DigitsValue(s) > LONG_MAX then LONG_MAX else DigitsValue(s)
  }

  function Pow10(n: nat): nat
  {
    if n == 0 then 1 else 10 * Pow10(n - 1)
  }

  lemma {:induction false} DecimalReads(n: nat)
    ensures AllDigits(Decimal(n)) && DigitsValue(Decimal(n)) == n
  {
    if n >= 10 {
      DecimalReads(n / 10);
      var r := Decimal(n / 10);
      assert (r + [CH_ZERO + n % 10])[..|r|] == r;
    } else {
      assert Decimal(n)[..0] == [];
    }
  }

  lemma {:induction false} DecimalLength(n: nat, k: nat)
    requires k >= 1 && n < Pow10(k)
    ensures |Decimal(n)| <= k
  {
    if n >= 10 {
      assert k >= 2;
      DecimalLength(n / 10, k - 1);
    }
  }

  // ----- encoding -----

  function Encode(t: Ben): (r: seq<Byte>)
    ensures r != []
    decreases t, 1
  {
    match t
    case Str(s) => EncodeStr(s)
    case Int(i) => [CH_I] + Signed(i) + [CH_E]
    case List(items) => [CH_L] + EncodeItems(items) + [CH_E]
    case Dict(entries) => [CH_D] + EncodeEntries(entries) + [CH_E]
  }

  function EncodeStr(s: seq<Byte>): (r: seq<Byte>)
    ensures r != []
  {
    Decimal(|s|) + [CH_COLON] + s
  }

  function EncodeItems(items: seq<Ben>): seq<Byte>
    decreases items, 0
  {
    if items == [] then [] else Encode(items[0]) + EncodeItems(items[1..])
  }

  function EncodeEntries(entries: seq<Entry>): seq<Byte>
    decreases entries, 0
  {
    if entries == [] then [] else
      EncodeStr(entries[0].key) + Encode(entries[0].val) + EncodeEntries(entries[1..])
  }

  // ----- validating: the cursor after the checked part, or None -----

  function DigitsEnd(c: seq<Byte>, p: nat): (e: nat)
    requires p <= |c|
    ensures p <= e <= |c|
    ensures AllDigits(c[p..e])
    ensures e < |c| ==> !IsDigit(c[e])
    decreases |c| - p
  {
    if p < |c| && IsDigit(c[p]) then
      var e := DigitsEnd(c, p + 1);
      assert c[p..e] == [c[p]] + c[p + 1..e];
      e
    else p
  }

  /** `ben_validate_s`. A number that runs off the end passes. */
  function ValidateS(c: seq<Byte>, p: nat): (r: Option<nat>)
    ensures r.Some? ==> p < r.value <= |c|
  {
    if p >= |c| then None else
      var e := DigitsEnd(c, p);
      if e == |c| then Some(e)
      else if c[e] != CH_COLON || e == p || e - p > BEN_STR_MAXLEN then None
      else
        var i := Strtol(c[p..e]);
        if i > BEN_STR_MAXSIZE || e + 1 + i > |c| then None else Some(e + 1 + i)
  }

  /** First digit of the number after the `i` at p, if there is a byte there. */
  function IntStart(c: seq<Byte>, p: nat): (r: Option<nat>)
    ensures r.Some? ==> p < r.value < |c|
  {
    if p + 1 >= |c| then None
    else if c[p + 1] != CH_MINUS then Some(p + 1)
    else if p + 2 >= |c| then None
    else Some(p + 2)
  }

  /** `ben_validate_i`. A number that runs off the end passes. */
  function ValidateI(c: seq<Byte>, p: nat): (r: Option<nat>)
    ensures r.Some? ==> p < r.value <= |c|
  {
    var start := IntStart(c, p);
    if start.None? then None else
      var e := DigitsEnd(c, start.value);
      if e == |c| then Some(e)
      else if c[e] != CH_E || e == start.value || e - start.value > BEN_INT_MAXLEN then None
      else if Strtol(c[start.value..e]) > BEN_INT_MAXSIZE then None
      else Some(e + 1)
  }

  /** `ben_validate_r` */
  function ValidateR(c: seq<Byte>, p: nat): (r: Option<nat>)
    ensures r.Some? ==> p < r.value <= |c|
    decreases |c| - p, 1
  {
    if p >= |c| then None
    else if c[p] == CH_D then (if p + 1 >= |c| then None else ValidateEntries(c, p + 1))
    else if c[p] == CH_L then (if p + 1 >= |c| then None else ValidateItems(c, p + 1))
    else if c[p] == CH_I then ValidateI(c, p)
    else if IsDigit(c[p]) then ValidateS(c, p)
    else None
  }

  /** The loop of `ben_validate_d`. */
  function ValidateEntries(c: seq<Byte>, p: nat): (r: Option<nat>)
    requires p < |c|
    ensures r.Some? ==> p < r.value <= |c|
    decreases |c| - p, 2
  {
    if c[p] == CH_E then Some(p + 1) else
      var q := ValidateS(c, p);
      if q.None? then None else
        var r := ValidateR(c, q.value);
        if r.None? || r.value >= |c| then None else ValidateEntries(c, r.value)
  }

  /** The loop of `ben_validate_l`. */
  function ValidateItems(c: seq<Byte>, p: nat): (r: Option<nat>)
    requires p < |c|
    ensures r.Some? ==> p < r.value <= |c|
    decreases |c| - p, 2
  {
    if c[p] == CH_E then Some(p + 1) else
      var r := ValidateR(c, p);
      if r.None? || r.value >= |c| then None else ValidateItems(c, r.value)
  }

  // ----- decoding without checks: a value and the next cursor, or what goes wrong -----

  datatype Why =
    | OutOfBounds   // a byte outside the buffer is read
    | Stuck         // a loop meets a byte that it never steps over
    | NoChild       // a byte starts no value: the parent gets a null pointer
    | DigitBuffer   // more digits than the local buffer holds

  datatype Dec<+T> = Done(val: T, next: nat) | Fault(why: Why)

  /** `ben_dec_s` */
  function DecS(c: seq<Byte>, p: nat): (r: Dec<seq<Byte>>)
    ensures r.Done? ==> p < r.next <= |c|
  {
    if p >= |c| then Fault(OutOfBounds) else
      var e := DigitsEnd(c, p);
      if e == |c| then Fault(OutOfBounds)
      else if c[e] != CH_COLON then Fault(Stuck)
      else if e - p >= BUF_SIZE then Fault(DigitBuffer)
      else
        var l := Strtol(c[p..e]);
        if e + 1 + l > |c| then Fault(OutOfBounds) else Done(c[e + 1..e + 1 + l], e + 1 + l)
  }

  /** `ben_dec_i` */
  function DecI(c: seq<Byte>, p: nat): (r: Dec<int>)
    ensures r.Done? ==> p < r.next <= |c|
  {
    var start := IntStart(c, p);
    if start.None? then Fault(OutOfBounds) else
      var e := DigitsEnd(c, start.value);
      if e == |c| then Fault(OutOfBounds)
      else if c[e] != CH_E then Fault(Stuck)
      else if e - start.value >= BUF_SIZE then Fault(DigitBuffer)
      else
        var v := Strtol(c[start.value..e]);
        Done(if c[p + 1] == CH_MINUS then 0 - v else v, e + 1)
  }

  /** `ben_dec_r` */
  function DecR(c: seq<Byte>, p: nat): (r: Dec<Ben>)
    ensures r.Done? ==> p < r.next <= |c|
    decreases |c| - p, 1
  {
    if p >= |c| then Fault(OutOfBounds)
    else if c[p] == CH_D then
      match DecEntries(c, p + 1)
      case Done(d, q) => Done(Dict(d), q)
      case Fault(w) => Fault(w)
    else if c[p] == CH_L then
      match DecItems(c, p + 1)
      case Done(l, q) => Done(List(l), q)
      case Fault(w) => Fault(w)
    else if c[p] == CH_I then
      match DecI(c, p)
      case Done(i, q) => Done(Int(i), q)
      case Fault(w) => Fault(w)
    else if IsDigit(c[p]) then
      match DecS(c, p)
      case Done(s, q) => Done(Str(s), q)
      case Fault(w) => Fault(w)
    else Fault(NoChild)
  }

  /** The loop of `ben_dec_d`. */
  function DecEntries(c: seq<Byte>, p: nat): (r: Dec<seq<Entry>>)
    ensures r.Done? ==> p < r.next <= |c|
    decreases |c| - p, 2
  {
    if p >= |c| then Fault(OutOfBounds)
    else if c[p] == CH_E then Done([], p + 1)
    else
      match DecS(c, p)
      case Fault(w) => Fault(w)
      case Done(key, q) =>
        match DecR(c, q)
        case Fault(w) => Fault(w)
        case Done(val, r) =>
          match DecEntries(c, r)
          case Fault(w) => Fault(w)
          case Done(rest, n) => Done([Entry(key, val)] + rest, n)
  }

  /** The loop of `ben_dec_l`. */
  function DecItems(c: seq<Byte>, p: nat): (r: Dec<seq<Ben>>)
    ensures r.Done? ==> p < r.next <= |c|
    decreases |c| - p, 2
  {
    if p >= |c| then Fault(OutOfBounds)
    else if c[p] == CH_E then Done([], p + 1)
    else
      match DecR(c, p)
      case Fault(w) => Fault(w)
      case Done(val, q) =>
        match DecItems(c, q)
        case Fault(w) => Fault(w)
        case Done(rest, n) => Done([val] + rest, n)
  }

  // ----- the trees that survive a round trip -----

  predicate Small(t: Ben)
    decreases t, 1
  {
    match t
    case Str(s) => |s| <= BEN_STR_MAXSIZE
    case Int(i) => -BEN_INT_MAXSIZE <= i <= BEN_INT_MAXSIZE
    case List(items) => SmallItems(items)
    case Dict(entries) => SmallEntries(entries)
  }

  predicate SmallItems(items: seq<Ben>)
    decreases items, 0
  {
    items == [] || (Small(items[0]) && SmallItems(items[1..]))
  }

  predicate SmallEntries(entries: seq<Entry>)
    decreases entries, 0
  {
    entries == [] ||
    (|entries[0].key| <= BEN_STR_MAXSIZE && Small(entries[0].val) && SmallEntries(entries[1..]))
  }

  // ----- soundness: what the validator accepts, the decoder reads -----

  lemma SoundS(c: seq<Byte>, p: nat)
    requires ValidateS(c, p).Some?
    ensures DigitsEnd(c, p) < |c| ==>
              && DecS(c, p).Done? && DecS(c, p).next == ValidateS(c, p).value
              && |DecS(c, p).val| <= BEN_STR_MAXSIZE
    ensures DigitsEnd(c, p) == |c| ==> ValidateS(c, p).value == |c| && DecS(c, p) == Fault(OutOfBounds)
  {
  }

  lemma SoundI(c: seq<Byte>, p: nat)
    requires ValidateI(c, p).Some?
    ensures IntStart(c, p).Some?
    ensures DigitsEnd(c, IntStart(c, p).value) < |c| ==>
              && DecI(c, p).Done? && DecI(c, p).next == ValidateI(c, p).value
              && -BEN_INT_MAXSIZE <= DecI(c, p).val <= BEN_INT_MAXSIZE
    ensures DigitsEnd(c, IntStart(c, p).value) == |c| ==>
              ValidateI(c, p).value == |c| && DecI(c, p) == Fault(OutOfBounds)
  {
  }

  /** A value that is followed by something, or that is a container, is read up to
      exactly the cursor where the validator stopped. */
  lemma {:induction false} SoundR(c: seq<Byte>, p: nat)
    requires ValidateR(c, p).Some?
    requires ValidateR(c, p).value < |c| || c[p] == CH_D || c[p] == CH_L
    ensures DecR(c, p).Done? && DecR(c, p).next == ValidateR(c, p).value && Small(DecR(c, p).val)
    decreases |c| - p, 1
  {
    if c[p] == CH_D {
      SoundEntries(c, p + 1);
    } else if c[p] == CH_L {
      SoundItems(c, p + 1);
    } else if c[p] == CH_I {
      SoundI(c, p);
    } else {
      SoundS(c, p);
    }
  }

  lemma {:induction false} SoundEntries(c: seq<Byte>, p: nat)
    requires p < |c| && ValidateEntries(c, p).Some?
    ensures DecEntries(c, p).Done? && DecEntries(c, p).next == ValidateEntries(c, p).value
    ensures SmallEntries(DecEntries(c, p).val)
    decreases |c| - p, 2
  {
    if c[p] != CH_E {
      SoundS(c, p);
      var q := ValidateS(c, p).value;
      SoundR(c, q);
      var r := ValidateR(c, q).value;
      SoundEntries(c, r);
      var rest := DecEntries(c, r).val;
      assert ([Entry(DecS(c, p).val, DecR(c, q).val)] + rest)[1..] == rest;
    }
  }

  lemma {:induction false} SoundItems(c: seq<Byte>, p: nat)
    requires p < |c| && ValidateItems(c, p).Some?
    ensures DecItems(c, p).Done? && DecItems(c, p).next == ValidateItems(c, p).value
    ensures SmallItems(DecItems(c, p).val)
    decreases |c| - p, 2
  {
    if c[p] != CH_E {
      SoundR(c, p);
      var r := ValidateR(c, p).value;
      SoundItems(c, r);
      var rest := DecItems(c, r).val;
      assert ([DecR(c, p).val] + rest)[1..] == rest;
    }
  }

  /** What makes an accepted packet safe to decode: it is a container, or the
      number it starts with has its terminator. */
  predicate Terminated(c: seq<Byte>)
    requires c != []
  {
    || c[0] == CH_D || c[0] == CH_L
    || (IsDigit(c[0]) && CH_COLON in c)
    || (c[0] == CH_I && CH_E in c)
  }

  lemma DigitsEndMissing(c: seq<Byte>, p: nat, b: Byte)
    requires p <= |c| && !IsDigit(b) && b !in c[..p]
    requires DigitsEnd(c, p) < |c| ==> c[DigitsEnd(c, p)] == b
    ensures DigitsEnd(c, p) < |c| <==> b in c
  {
    var e := DigitsEnd(c, p);
    if e == |c| {
      forall k | 0 <= k < |c|
        ensures c[k] != b
      {
        if k < p {
          assert c[k] == c[..p][k];
        } else {
          assert c[k] == c[p..e][k - p];
        }
      }
    }
  }

  /** Of the accepted packets exactly the terminated ones are decoded inside the
      buffer; on the others the decoder runs past the end. */
  lemma AcceptedDecodesIff(c: seq<Byte>)
    requires ValidateR(c, 0).Some?
    ensures Terminated(c) <==> DecR(c, 0).Done?
    ensures Terminated(c) ==> DecR(c, 0).next == ValidateR(c, 0).value && Small(DecR(c, 0).val)
    ensures !Terminated(c) ==> DecR(c, 0) == Fault(OutOfBounds)
  {
    if c[0] == CH_D || c[0] == CH_L {
      SoundR(c, 0);
    } else if c[0] == CH_I {
      SoundI(c, 0);
      var start := IntStart(c, 0).value;
      assert CH_E !in c[..start];
      DigitsEndMissing(c, start, CH_E);
    } else {
      SoundS(c, 0);
      DigitsEndMissing(c, 0, CH_COLON);
    }
  }

  /** `12` is accepted, and decoding it reads past its end. */
  lemma UnterminatedNumberAccepted()
    ensures ValidateR([49, 50], 0) == Some(2)
    ensures DecR([49, 50], 0) == Fault(OutOfBounds)
  {
    var c: seq<Byte> := [49, 50];
    assert DigitsEnd(c, 2) == 2;
    assert DigitsEnd(c, 1) == 2;
  }

  // ----- round trip -----

  /** Bytes s stand at position p of c. */
  predicate At(c: seq<Byte>, p: nat, s: seq<Byte>)
  {
    p + |s| <= |c| && c[p..p + |s|] == s
  }

  lemma AtParts(c: seq<Byte>, p: nat, a: seq<Byte>, b: seq<Byte>)
    requires At(c, p, a + b)
    ensures At(c, p, a) && At(c, p + |a|, b)
  {
    assert c[p..p + |a|] == (a + b)[..|a|];
    assert c[p + |a|..p + |a| + |b|] == (a + b)[|a|..];
  }

  lemma {:induction false} DigitsEndAt(c: seq<Byte>, p: nat, s: seq<Byte>)
    requires At(c, p, s) && AllDigits(s)
    requires p + |s| == |c| || !IsDigit(c[p + |s|])
    ensures DigitsEnd(c, p) == p + |s|
    decreases |s|
  {
    if s != [] {
      assert c[p] == c[p..p + |s|][0];
      assert s == [s[0]] + s[1..];
      AtParts(c, p, [s[0]], s[1..]);
      DigitsEndAt(c, p + 1, s[1..]);
    }
  }

  lemma AtHead(c: seq<Byte>, p: nat, s: seq<Byte>)
    requires At(c, p, s) && s != []
    ensures p < |c| && c[p] == s[0]
  {
    assert c[p] == c[p..p + |s|][0];
  }

  /** A decimal number and its terminator, seen by the scan for digits. */
  lemma NumberAt(c: seq<Byte>, p: nat, n: nat, end: Byte)
    requires At(c, p, Decimal(n) + [end]) && !IsDigit(end)
    ensures var e := p + |Decimal(n)|;
            && p < e < |c| && DigitsEnd(c, p) == e && c[e] == end && IsDigit(c[p])
            && DigitsValue(c[p..e]) == n
  {
    var d := Decimal(n);
    DecimalReads(n);
    AtParts(c, p, d, [end]);
    AtHead(c, p, d);
    AtHead(c, p + |d|, [end]);
    DigitsEndAt(c, p, d);
  }

  lemma StrRoundTrip(c: seq<Byte>, p: nat, s: seq<Byte>)
    requires |s| <= BEN_STR_MAXSIZE && At(c, p, EncodeStr(s))
    ensures ValidateS(c, p) == Some(p + |EncodeStr(s)|)
    ensures DecS(c, p) == Done(s, p + |EncodeStr(s)|)
    ensures IsDigit(c[p])
  {
    hide DigitsEnd, Decimal, DigitsValue;
    var d := Decimal(|s|);
    ShortNumbers(|s|);
    AtParts(c, p, d + [CH_COLON], s);
    NumberAt(c, p, |s|, CH_COLON);
  }

  lemma ShortNumbers(n: nat)
    ensures n <= BEN_STR_MAXSIZE ==> |Decimal(n)| <= BEN_STR_MAXLEN
    ensures n <= BEN_INT_MAXSIZE ==> |Decimal(n)| <= BEN_INT_MAXLEN
  {
    assert Pow10(4) == 10000 && Pow10(5) == 100000 && Pow10(10) == 10000000000;
    if n <= BEN_STR_MAXSIZE {
      DecimalLength(n, 4);
    } else if n <= BEN_INT_MAXSIZE {
      DecimalLength(n, 10);
    }
  }

  lemma NegativeRoundTrip(c: seq<Byte>, p: nat, i: int, n: nat)
    requires i + n == 0 && 0 < n <= BEN_INT_MAXSIZE && At(c, p, [CH_I, CH_MINUS] + (Decimal(n) + [CH_E]))
    ensures p < |c| && c[p] == CH_I
    ensures ValidateI(c, p) == Some(p + |Decimal(n)| + 3)
    ensures DecI(c, p) == Done(i, p + |Decimal(n)| + 3)
  {
    hide DigitsEnd, Decimal, DigitsValue;
    var d := Decimal(n);
    ShortNumbers(n);
    AtParts(c, p, [CH_I, CH_MINUS], d + [CH_E]);
    AtHead(c, p, [CH_I, CH_MINUS]);
    assert c[p + 1] == c[p..p + 2][1];
    NumberAt(c, p + 2, n, CH_E);
  }

  lemma NaturalRoundTrip(c: seq<Byte>, p: nat, n: nat)
    requires n <= BEN_INT_MAXSIZE && At(c, p, [CH_I] + (Decimal(n) + [CH_E]))
    ensures p < |c| && c[p] == CH_I
    ensures ValidateI(c, p) == Some(p + |Decimal(n)| + 2)
    ensures DecI(c, p) == Done(n, p + |Decimal(n)| + 2)
  {
    hide DigitsEnd, Decimal, DigitsValue;
    var d := Decimal(n);
    ShortNumbers(n);
    AtParts(c, p, [CH_I], d + [CH_E]);
    AtHead(c, p, [CH_I]);
    NumberAt(c, p + 1, n, CH_E);
  }

  lemma IntRoundTrip(c: seq<Byte>, p: nat, i: int)
    requires -BEN_INT_MAXSIZE <= i <= BEN_INT_MAXSIZE && At(c, p, [CH_I] + Signed(i) + [CH_E])
    ensures p < |c| && c[p] == CH_I
    ensures ValidateI(c, p) == Some(p + |Signed(i)| + 2)
    ensures DecI(c, p) == Done(i, p + |Signed(i)| + 2)
  {
    hide At, Decimal, ValidateI, DecI;
    if i < 0 {
      assert [CH_I] + Signed(i) + [CH_E] == [CH_I, CH_MINUS] + (Decimal(-i) + [CH_E]);
      NegativeRoundTrip(c, p, i, -i);
    } else {
      assert [CH_I] + Signed(i) + [CH_E] == [CH_I] + (Decimal(i) + [CH_E]);
      NaturalRoundTrip(c, p, i);
    }
  }

  /** Wherever the encoding of a small tree stands in a buffer, validator and decoder
      both step over exactly it, and the decoder returns the tree. */
  lemma {:induction false} RoundTrip(c: seq<Byte>, p: nat, t: Ben)
    requires Small(t) && At(c, p, Encode(t))
    ensures ValidateR(c, p) == Some(p + |Encode(t)|)
    ensures DecR(c, p) == Done(t, p + |Encode(t)|)
    decreases t, 1
  {
    hide EncodeStr, EncodeItems, EncodeEntries, Signed, ValidateS, ValidateI, ValidateItems, ValidateEntries;
    hide DecS, DecI, DecItems, DecEntries, SmallItems, SmallEntries, At;
    match t
    case Str(s) =>
      StrRoundTrip(c, p, s);
    case Int(i) =>
      IntRoundTrip(c, p, i);
    case List(items) =>
      assert [CH_L] + EncodeItems(items) + [CH_E] == [CH_L] + (EncodeItems(items) + [CH_E]);
      AtParts(c, p, [CH_L], EncodeItems(items) + [CH_E]);
      AtHead(c, p, [CH_L]);
      ItemsRoundTrip(c, p + 1, items);
    case Dict(entries) =>
      assert [CH_D] + EncodeEntries(entries) + [CH_E] == [CH_D] + (EncodeEntries(entries) + [CH_E]);
      AtParts(c, p, [CH_D], EncodeEntries(entries) + [CH_E]);
      AtHead(c, p, [CH_D]);
      EntriesRoundTrip(c, p + 1, entries);
  }

  /** No value starts with the byte that ends a container. */
  lemma EncodeHead(t: Ben)
    ensures Encode(t)[0] != CH_E
  {
    match t
    case Str(s) => DecimalReads(|s|);
    case Int(i) =>
    case List(items) =>
    case Dict(entries) =>
  }

  lemma {:induction false} ItemsRoundTrip(c: seq<Byte>, p: nat, items: seq<Ben>)
    requires SmallItems(items) && At(c, p, EncodeItems(items) + [CH_E])
    ensures p < |c|
    ensures ValidateItems(c, p) == Some(p + |EncodeItems(items)| + 1)
    ensures DecItems(c, p) == Done(items, p + |EncodeItems(items)| + 1)
    decreases items, 0
  {
    hide Encode, Small, ValidateR, DecR, At;
    if items == [] {
      AtHead(c, p, EncodeItems(items) + [CH_E]);
    } else {
      var h, rest := Encode(items[0]), EncodeItems(items[1..]) + [CH_E];
      assert EncodeItems(items) + [CH_E] == h + rest;
      AtParts(c, p, h, rest);
      AtHead(c, p, h);
      EncodeHead(items[0]);
      RoundTrip(c, p, items[0]);
      ItemsRoundTrip(c, p + |h|, items[1..]);
      assert items == [items[0]] + items[1..];
    }
  }

  lemma {:induction false} EntriesRoundTrip(c: seq<Byte>, p: nat, entries: seq<Entry>)
    requires SmallEntries(entries) && At(c, p, EncodeEntries(entries) + [CH_E])
    ensures p < |c|
    ensures ValidateEntries(c, p) == Some(p + |EncodeEntries(entries)| + 1)
    ensures DecEntries(c, p) == Done(entries, p + |EncodeEntries(entries)| + 1)
    decreases entries, 0
  {
    hide Encode, EncodeStr, Small, ValidateR, DecR, ValidateS, DecS, At, ValidateEntries, DecEntries;
    if entries == [] {
      AtHead(c, p, EncodeEntries(entries) + [CH_E]);
      NoEntry(c, p);
    } else {
      var k, v := EncodeStr(entries[0].key), Encode(entries[0].val);
      var rest := EncodeEntries(entries[1..]) + [CH_E];
      assert EncodeEntries(entries) + [CH_E] == k + (v + rest);
      AtParts(c, p, k, v + rest);
      AtParts(c, p + |k|, v, rest);
      StrRoundTrip(c, p, entries[0].key);
      RoundTrip(c, p + |k|, entries[0].val);
      EntriesRoundTrip(c, p + |k| + |v|, entries[1..]);
      OneEntry(c, p, entries[0], p + |k|, p + |k| + |v|, entries[1..], p + |EncodeEntries(entries)| + 1);
      assert entries == [entries[0]] + entries[1..];
    }
  }

  lemma NoEntry(c: seq<Byte>, p: nat)
    requires p < |c| && c[p] == CH_E
    ensures ValidateEntries(c, p) == Some(p + 1) && DecEntries(c, p) == Done([], p + 1)
  {
  }

  /** One entry of a dictionary in front of the others, for validator and decoder. */
  lemma OneEntry(c: seq<Byte>, p: nat, e: Entry, q: nat, r: nat, rest: seq<Entry>, end: nat)
    requires p < |c| && r < |c| && IsDigit(c[p])
    requires ValidateS(c, p) == Some(q) && DecS(c, p) == Done(e.key, q)
    requires ValidateR(c, q) == Some(r) && DecR(c, q) == Done(e.val, r)
    requires ValidateEntries(c, r) == Some(end) && DecEntries(c, r) == Done(rest, end)
    ensures ValidateEntries(c, p) == Some(end) && DecEntries(c, p) == Done([e] + rest, end)
  {
    hide ValidateS, DecS, ValidateR, DecR;
  }

  /** Encoding, then validating and decoding with any bytes after it. */
  lemma EncodeDecode(t: Ben, trailing: seq<Byte>)
    requires Small(t)
    ensures ValidateR(Encode(t) + trailing, 0) == Some(|Encode(t)|)
    ensures DecR(Encode(t) + trailing, 0) == Done(t, |Encode(t)|)
  {
    RoundTrip(Encode(t) + trailing, 0, t);
  }

  /** A decoded packet survives being encoded again. */
  lemma DecodeEncodeDecode(c: seq<Byte>)
    requires ValidateR(c, 0).Some? && Terminated(c)
    ensures DecR(c, 0).Done? && DecR(Encode(DecR(c, 0).val), 0) == Done(DecR(c, 0).val, |Encode(DecR(c, 0).val)|)
  {
    AcceptedDecodesIff(c);
    var t := DecR(c, 0).val;
    EncodeDecode(t, []);
    assert Encode(t) + [] == Encode(t);
  }

  // ----- the encoder: a size pre-pass, then bytes written through a pointer -----

  // ----- the bytes of BEP 3, as numbers -----

  /** A string is its length in decimal, a colon and its bytes. */
  lemma StringBytes(s: seq<Byte>)
    ensures Encode(Str(s)) == Decimal(|s|) + [58] + s
  {
    hide Decimal;
  }

  /** An integer stands between `i` and `e`, with a minus sign if it is negative. */
  lemma IntegerBytes(i: int)
    ensures Encode(Int(i)) == if i < 0 then [105, 45] + Decimal(-i) + [101] else [105] + Decimal(i) + [101]
  {
    hide Decimal;
    if i < 0 {
      assert [105] + ([45] + Decimal(-i)) + [101] == [105, 45] + Decimal(-i) + [101];
    }
  }

  /** The items of a list stand one behind the other between `l` and `e`. */
  lemma ListBytes(t: Ben, items: seq<Ben>)
    ensures Encode(List([])) == [108, 101]
    ensures Encode(List([t] + items)) == [108] + Encode(t) + Encode(List(items))[1..]
  {
    var x, rest := Encode(t), EncodeItems(items);
    assert ([t] + items)[1..] == items;
    assert EncodeItems([t] + items) == x + rest;
    assert Encode(List(items))[1..] == rest + [101];
    hide Encode, EncodeItems;
    assert [108] + (x + rest) + [101] == [108] + x + (rest + [101]);
  }

  /** The keys and values of a dictionary stand one behind the other between `d` and `e`. */
  lemma DictBytes(e: Entry, entries: seq<Entry>)
    ensures Encode(Dict([])) == [100, 101]
    ensures Encode(Dict([e] + entries)) == [100] + Encode(Str(e.key)) + Encode(e.val) + Encode(Dict(entries))[1..]
  {
    var k, v, rest := EncodeStr(e.key), Encode(e.val), EncodeEntries(entries);
    assert ([e] + entries)[1..] == entries;
    assert EncodeEntries([e] + entries) == k + v + rest;
    assert Encode(Dict(entries))[1..] == rest + [101];
    hide Encode, EncodeEntries, EncodeStr;
    assert [100] + (k + v + rest) + [101] == [100] + k + v + (rest + [101]);
  }

  /** Decimal digits are the bytes 48 to 57, the last one that of the remainder by ten. */
  lemma DecimalBytes(n: nat)
    ensures n < 10 ==> Decimal(n) == [48 + n]
    ensures n >= 10 ==> Decimal(n) == Decimal(n / 10) + [48 + n % 10]
  {
  }

  /** The value of digits, read from the left. */
  lemma DigitsValueBytes(s: seq<Byte>, d: Byte)
    requires (forall k :: 0 <= k < |s| ==> 48 <= s[k] <= 57) && 48 <= d <= 57
    ensures AllDigits([]) && DigitsValue([]) == 0
    ensures AllDigits(s) && AllDigits(s + [d]) && DigitsValue(s + [d]) == 10 * DigitsValue(s) + (d as int - 48)
  {
    assert (s + [d])[..|s|] == s;
  }

  /** The packet `d1:ali-7eee` and the tree that it stands for. */
  lemma PacketInBytes()
    ensures Encode(Dict([Entry([97], List([Int(-7)]))])) == [100, 49, 58, 97, 108, 105, 45, 55, 101, 101, 101]
  {
    hide Encode, Decimal;
    var seven, e := Int(-7), Entry([97], List([Int(-7)]));
    DecimalBytes(7);
    DecimalBytes(1);
    StringBytes([97]);
    IntegerBytes(-7);
    ListBytes(seven, []);
    DictBytes(e, []);
    assert [seven] + [] == [seven] && [e] + [] == [e];
    assert Encode(seven) == [105, 45, 55, 101];
    assert Encode(List([seven])) == [108, 105, 45, 55, 101, 101];
    assert Encode(Str([97])) == [49, 58, 97];
  }

  /** Digits c[p..e] with a byte behind them that is none. */
  ghost predicate DigitRun(c: seq<Byte>, p: nat, e: nat)
  {
    p <= e < |c| && (forall k :: p <= k < e ==> 48 <= c[k] <= 57) && !(48 <= c[e] <= 57)
  }

  lemma DigitRunEnds(c: seq<Byte>, p: nat, e: nat)
    requires DigitRun(c, p, e)
    ensures DigitsEnd(c, p) == e
  {
    DigitsEndAt(c, p, c[p..e]);
  }

  /** A string is accepted exactly with one to four digits, a colon, a length of at most 1023 and as
      many bytes behind; the cursor then stands behind them. */
  lemma StringAcceptedIff(c: seq<Byte>, p: nat, e: nat)
    requires DigitRun(c, p, e)
    ensures AllDigits(c[p..e])
    ensures var l := DigitsValue(c[p..e]);
            ValidateS(c, p) ==
            if 1 <= e - p <= 4 && c[e] == 58 && l <= 1023 && e + 1 + l <= |c| then Some(e + 1 + l) else None
    ensures ValidateS(c, p).Some? ==> DecS(c, p) == Done(c[e + 1..e + 1 + DigitsValue(c[p..e])], e + 1 + DigitsValue(c[p..e]))
  {
    DigitRunEnds(c, p, e);
    hide DigitsEnd, DigitsValue;
  }

  /** An integer is accepted exactly with an optional minus sign, one to ten digits, a magnitude of at
      most 2147483647 and an `e`; the cursor then stands behind it. */
  lemma IntegerAcceptedIff(c: seq<Byte>, p: nat, start: nat, e: nat)
    requires p + 1 < |c| && start == (if c[p + 1] == 45 then p + 2 else p + 1) && DigitRun(c, start, e)
    ensures AllDigits(c[start..e])
    ensures ValidateI(c, p) ==
            if 1 <= e - start <= 10 && c[e] == 101 && DigitsValue(c[start..e]) <= 2147483647 then Some(e + 1) else None
    ensures ValidateI(c, p).Some? ==>
              DecI(c, p) == Done(if c[p + 1] == 45 then 0 - DigitsValue(c[start..e]) else DigitsValue(c[start..e]), e + 1)
  {
    DigitRunEnds(c, start, e);
    hide DigitsEnd, DigitsValue;
  }

  /** The decoder copies the digits of a number into 1024 bytes with a NUL behind them. */
  lemma DigitBufferHolds(c: seq<Byte>, p: nat, e: nat)
    requires DigitRun(c, p, e) && c[e] == 58
    ensures DecS(c, p) == Fault(DigitBuffer) <==> e - p >= 1024
  {
    DigitRunEnds(c, p, e);
    hide DigitsEnd, DigitsValue;
  }

  /** Which kind of value the first byte announces. */
  lemma FirstByteDecides(c: seq<Byte>, p: nat)
    requires p < |c|
    ensures c[p] == 105 ==> ValidateR(c, p) == ValidateI(c, p)
    ensures 48 <= c[p] <= 57 ==> ValidateR(c, p) == ValidateS(c, p)
    ensures c[p] == 108 && p + 1 < |c| ==> ValidateR(c, p) == ValidateItems(c, p + 1)
    ensures c[p] == 100 && p + 1 < |c| ==> ValidateR(c, p) == ValidateEntries(c, p + 1)
    ensures c[p] !in {100, 105, 108} && !(48 <= c[p] <= 57) ==> ValidateR(c, p) == None
    ensures c[p] == 101 ==> ValidateItems(c, p) == ValidateEntries(c, p) == Some(p + 1)
  {
    hide ValidateI, ValidateS;
  }

  /** The trees within the limits. */
  lemma SmallMeans(s: seq<Byte>, i: int, items: seq<Ben>, entries: seq<Entry>, t: Ben, e: Entry)
    ensures Small(Str(s)) <==> |s| <= 1023
    ensures Small(Int(i)) <==> -2147483647 <= i <= 2147483647
    ensures Small(List([])) && Small(Dict([]))
    ensures Small(List([t] + items)) <==> Small(t) && Small(List(items))
    ensures Small(Dict([e] + entries)) <==> |e.key| <= 1023 && Small(e.val) && Small(Dict(entries))
  {
    assert ([t] + items)[1..] == items && ([e] + entries)[1..] == entries;
  }

  lemma EncodeItemsSplit(items: seq<Ben>, k: nat)
    requires k < |items|
    ensures EncodeItems(items[k..]) == Encode(items[k]) + EncodeItems(items[k + 1..])
  {
    assert items[k..][1..] == items[k + 1..];
  }

  lemma EncodeEntriesSplit(entries: seq<Entry>, k: nat)
    requires k < |entries|
    ensures EncodeEntries(entries[k..]) ==
            EncodeStr(entries[k].key) + Encode(entries[k].val) + EncodeEntries(entries[k + 1..])
  {
    assert entries[k..][1..] == entries[k + 1..];
  }

  /** `ben_enc_size` */
  method EncSize(t: Ben) returns (size: nat)
    ensures size == |Encode(t)|
    decreases t
  {
    hide EncodeItems, EncodeEntries, Decimal;
    size := 0;
    match t
    case Dict(entries) =>
      size := size + 2;
      var k := 0;
      EncodeEntriesEnds(entries);
      while k < |entries|
        invariant k <= |entries|
        invariant size + |EncodeEntries(entries[k..])| == 2 + |EncodeEntries(entries)|
      {
        EncodeEntriesSplit(entries, k);
        var ks := EncSizeStr(entries[k].key);
        var vs := EncSize(entries[k].val);
        size := size + ks;
        size := size + vs;
        k := k + 1;
      }
    case List(items) =>
      size := size + 2;
      var k := 0;
      EncodeItemsEnds(items);
      while k < |items|
        invariant k <= |items|
        invariant size + |EncodeItems(items[k..])| == 2 + |EncodeItems(items)|
      {
        EncodeItemsSplit(items, k);
        var vs := EncSize(items[k]);
        size := size + vs;
        k := k + 1;
      }
    case Int(i) =>
      size := size + |[CH_I] + Signed(i) + [CH_E]|;
    case Str(s) =>
      size := EncSizeStr(s);
  }

  /** The string branch of `ben_enc_size`, which is also reached for every key. */
  method EncSizeStr(s: seq<Byte>) returns (size: nat)
    ensures size == |EncodeStr(s)|
  {
    size := |Decimal(|s|) + [CH_COLON]| + |s|;
  }

  lemma EncodeItemsEnds(items: seq<Ben>)
    ensures EncodeItems(items[0..]) == EncodeItems(items) && EncodeItems(items[|items|..]) == []
  {
    assert items[0..] == items;
  }

  lemma EncodeEntriesEnds(entries: seq<Entry>)
    ensures EncodeEntries(entries[0..]) == EncodeEntries(entries) && EncodeEntries(entries[|entries|..]) == []
  {
    assert entries[0..] == entries;
  }

  /** The string branch of `ben_enc_rec`: the length, then the data if there is any. */
  method EncRecStr(s: seq<Byte>, buf: array<Byte>, p: nat) returns (q: nat)
    requires p + |EncodeStr(s)| <= buf.Length
    modifies buf
    ensures q == p + |EncodeStr(s)| && buf[..] == Spliced(old(buf[..]), p, EncodeStr(s))
  {
    hide Decimal;
    var meta := Decimal(|s|) + [CH_COLON];
    ghost var b := buf[..];
    Copy(buf, p, meta);
    q := p + |meta|;
    SplicedOn(b, p, meta, s);
    if |s| > 0 {
      Copy(buf, q, s);
      q := q + |s|;
    } else {
      assert meta + s == meta;
    }
  }

  /** `ben_enc_rec` */
  method EncRec(t: Ben, buf: array<Byte>, p: nat) returns (q: nat)
    requires p + |Encode(t)| <= buf.Length
    modifies buf
    ensures q == p + |Encode(t)| && buf[..] == Spliced(old(buf[..]), p, Encode(t))
    decreases t, 1
  {
    hide EncodeItems, EncodeEntries, EncodeStr, Decimal, Signed, Spliced;
    ghost var b := buf[..];
    match t
    case Dict(entries) =>
      ghost var body := EncodeEntries(entries);
      SplicedOn(b, p, [CH_D], body);
      SplicedOn(b, p, [CH_D] + body, [CH_E]);
      Copy(buf, p, [CH_D]);
      q := EncRecEntries(entries, buf, p + 1);
      Copy(buf, q, [CH_E]);
      q := q + 1;
    case List(items) =>
      ghost var body := EncodeItems(items);
      SplicedOn(b, p, [CH_L], body);
      SplicedOn(b, p, [CH_L] + body, [CH_E]);
      Copy(buf, p, [CH_L]);
      q := EncRecItems(items, buf, p + 1);
      Copy(buf, q, [CH_E]);
      q := q + 1;
    case Int(i) =>
      var text := [CH_I] + Signed(i) + [CH_E];
      Copy(buf, p, text);
      q := p + |text|;
    case Str(s) =>
      q := EncRecStr(s, buf, p);
  }

  /** The loop of `ben_enc_rec` over a list. */
  method EncRecItems(items: seq<Ben>, buf: array<Byte>, p: nat) returns (q: nat)
    requires p + |EncodeItems(items)| <= buf.Length
    modifies buf
    ensures q == p + |EncodeItems(items)| && buf[..] == Spliced(old(buf[..]), p, EncodeItems(items))
    decreases items, 0
  {
    hide Encode, EncodeItems, Spliced;
    ghost var b, done := buf[..], [];
    q := p;
    var k := 0;
    EncodeItemsEnds(items);
    SplicedNothing(b, p);
    while k < |items|
      invariant k <= |items| && q == p + |done|
      invariant done + EncodeItems(items[k..]) == EncodeItems(items)
      invariant p + |done| <= |b| && buf[..] == Spliced(b, p, done)
    {
      EncodeItemsSplit(items, k);
      ghost var vs, rest := Encode(items[k]), EncodeItems(items[k + 1..]);
      assert done + (vs + rest) == done + vs + rest;
      SplicedOn(b, p, done, vs);
      q := EncRec(items[k], buf, q);
      done := done + vs;
      k := k + 1;
    }
    assert done + [] == done;
  }

  /** The loop of `ben_enc_rec` over a dictionary. */
  method EncRecEntries(entries: seq<Entry>, buf: array<Byte>, p: nat) returns (q: nat)
    requires p + |EncodeEntries(entries)| <= buf.Length
    modifies buf
    ensures q == p + |EncodeEntries(entries)| && buf[..] == Spliced(old(buf[..]), p, EncodeEntries(entries))
    decreases entries, 0
  {
    hide Encode, EncodeStr, EncodeEntries, Spliced;
    ghost var b, done := buf[..], [];
    q := p;
    var k := 0;
    EncodeEntriesEnds(entries);
    SplicedNothing(b, p);
    while k < |entries|
      invariant k <= |entries| && q == p + |done|
      invariant done + EncodeEntries(entries[k..]) == EncodeEntries(entries)
      invariant p + |done| <= |b| && buf[..] == Spliced(b, p, done)
    {
      EncodeEntriesSplit(entries, k);
      ghost var ks, vs := EncodeStr(entries[k].key), Encode(entries[k].val);
      ghost var rest := EncodeEntries(entries[k + 1..]);
      assert done + (ks + vs + rest) == done + ks + vs + rest;
      SplicedOn(b, p, done, ks);
      SplicedOn(b, p, done + ks, vs);
      q := EncRecStr(entries[k].key, buf, q);
      q := EncRec(entries[k].val, buf, q);
      done := done + ks + vs;
      k := k + 1;
    }
    assert done + [] == done;
  }

  /** `ben_enc`: the buffer of the computed size is filled exactly, so it never fails. */
  method Enc(t: Ben) returns (raw: Option<seq<Byte>>)
    ensures raw == Some(Encode(t))
  {
    var size := EncSize(t);
    if size <= 0 {
      return None;
    }
    var code := new Byte[size](_ => 0);
    var p := EncRec(t, code, 0);
    if p != size {
      return None;
    }
    assert code[..] == Encode(t);
    raw := Some(code[..]);
  }

  // ----- validator and decoder over a shared cursor -----

  class Raw {
    const code: seq<Byte>
    var p: nat

    constructor (code: seq<Byte>)
      ensures this.code == code && p == 0
    {
      this.code := code;
      p := 0;
    }

    /** `ben_validate_s` */
    method CheckS() returns (ok: bool)
      modifies this
      ensures ok == ValidateS(code, old(p)).Some?
      ensures ok ==> p == ValidateS(code, old(p)).value
    {
      hide DigitsEnd, DigitsValue;
      if p >= |code| {
        return false;
      }
      var start := p;
      var run := true;
      assert DigitsEnd(code, p) == DigitsEnd(code, start);
      while p < |code| && run
        invariant start <= p && (run ==> p <= |code| && DigitsEnd(code, p) == DigitsEnd(code, start))
        invariant !run ==> ValidateS(code, start) == if p > |code| then None else Some(p)
        decreases run, |code| - p
      {
        DigitStep(code, p);
        if IsDigit(code[p]) {
          p := p + 1;
        } else if code[p] == CH_COLON {
          var i := p - start;
          if i <= 0 || i > BEN_STR_MAXLEN {
            return false;
          }
          var v := Strtol(code[start..p]);
          if v > BEN_STR_MAXSIZE {
            return false;
          }
          p := p + v + 1;
          run := false;
        } else {
          return false;
        }
      }
      if run {
        DigitStop(code);
      }
      ok := p <= |code|;
    }

    /** `ben_validate_i` */
    method CheckI() returns (ok: bool)
      modifies this
      ensures ok == ValidateI(code, old(p)).Some?
      ensures ok ==> p == ValidateI(code, old(p)).value
    {
      hide DigitsEnd, DigitsValue, Strtol;
      p := p + 1;
      if p >= |code| {
        return false;
      }
      if code[p] == CH_MINUS {
        p := p + 1;
        if p >= |code| {
          return false;
        }
      }
      var start := p;
      var run := true;
      assert IntStart(code, old(p)) == Some(start);
      hide IntStart;
      while p < |code| && run
        invariant start <= p && (run ==> p <= |code| && DigitsEnd(code, p) == DigitsEnd(code, start))
        invariant !run ==> p <= |code| && ValidateI(code, old(p)) == Some(p)
        decreases run, |code| - p
      {
        DigitStep(code, p);
        if IsDigit(code[p]) {
          p := p + 1;
        } else if code[p] == CH_E {
          var i := p - start;
          if i <= 0 || i > BEN_INT_MAXLEN {
            return false;
          }
          var v := Strtol(code[start..p]);
          if v > BEN_INT_MAXSIZE {
            return false;
          }
          p := p + 1;
          run := false;
        } else {
          return false;
        }
      }
      if run {
        DigitStop(code);
      }
      ok := p <= |code|;
    }

    /** `ben_validate_r` */
    method CheckR() returns (ok: bool)
      modifies this
      ensures ok == ValidateR(code, old(p)).Some?
      ensures ok ==> p == ValidateR(code, old(p)).value
      decreases |code| - p, 1
    {
      hide ValidateEntries, ValidateItems, ValidateS, ValidateI;
      if p >= |code| {
        return false;
      }
      if code[p] == CH_D {
        ok := CheckD();
      } else if code[p] == CH_L {
        ok := CheckL();
      } else if code[p] == CH_I {
        ok := CheckI();
      } else if IsDigit(code[p]) {
        ok := CheckS();
      } else {
        ok := false;
      }
    }

    /** `ben_validate_d` */
    method CheckD() returns (ok: bool)
      requires p < |code|
      modifies this
      ensures ok <==> old(p) + 1 < |code| && ValidateEntries(code, old(p) + 1).Some?
      ensures ok ==> p == ValidateEntries(code, old(p) + 1).value
      decreases |code| - p, 0
    {
      hide ValidateS, ValidateR;
      p := p + 1;
      if p >= |code| {
        return false;
      }
      while code[p] != CH_E
        invariant old(p) < p < |code| && ValidateEntries(code, p) == ValidateEntries(code, old(p) + 1)
        decreases |code| - p
      {
        ok := CheckS();
        if !ok {
          return false;
        }
        ok := CheckR();
        if !ok {
          return false;
        }
        if p >= |code| {
          return false;
        }
      }
      p := p + 1;
      ok := p <= |code|;
    }

    /** `ben_validate_l` */
    method CheckL() returns (ok: bool)
      requires p < |code|
      modifies this
      ensures ok <==> old(p) + 1 < |code| && ValidateItems(code, old(p) + 1).Some?
      ensures ok ==> p == ValidateItems(code, old(p) + 1).value
      decreases |code| - p, 0
    {
      hide ValidateR;
      p := p + 1;
      if p >= |code| {
        return false;
      }
      while code[p] != CH_E
        invariant old(p) < p < |code| && ValidateItems(code, p) == ValidateItems(code, old(p) + 1)
        decreases |code| - p
      {
        ok := CheckR();
        if !ok {
          return false;
        }
        if p >= |code| {
          return false;
        }
      }
      p := p + 1;
      ok := p <= |code|;
    }

    /** `ben_dec_s`, on input that lets it finish. */
    method ReadS() returns (s: seq<Byte>)
      requires DecS(code, p).Done?
      modifies this
      ensures s == DecS(code, old(p)).val && p == DecS(code, old(p)).next
    {
      hide DigitsEnd, DigitsValue;
      var start := p;
      while code[p] != CH_COLON
        invariant start <= p < |code| && DigitsEnd(code, p) == DigitsEnd(code, start) < |code|
        decreases |code| - p
      {
        DigitStep(code, p);
        p := p + 1;
      }
      DigitStep(code, p);
      var l := Strtol(code[start..p]);
      p := p + 1;
      s := code[p..p + l];
      p := p + l;
    }

    /** `ben_dec_i`, on input that lets it finish. */
    method ReadI() returns (i: int)
      requires DecI(code, p).Done?
      modifies this
      ensures i == DecI(code, old(p)).val && p == DecI(code, old(p)).next
    {
      hide DigitsEnd, DigitsValue;
      var prefix: int := 1;
      p := p + 1;
      if code[p] == CH_MINUS {
        prefix := -1;
        p := p + 1;
      }
      var start := p;
      while code[p] != CH_E
        invariant start <= p < |code| && DigitsEnd(code, p) == DigitsEnd(code, start) < |code|
        decreases |code| - p
      {
        DigitStep(code, p);
        p := p + 1;
      }
      DigitStep(code, p);
      var result := Strtol(code[start..p]);
      p := p + 1;
      i := prefix * result;
    }

    /** `ben_dec_r`, on input that lets it finish. */
    method ReadR() returns (t: Ben)
      requires DecR(code, p).Done?
      modifies this
      ensures t == DecR(code, old(p)).val && p == DecR(code, old(p)).next
      decreases |code| - p, 1
    {
      hide DecEntries, DecItems, DecS, DecI;
      if code[p] == CH_D {
        t := ReadD();
      } else if code[p] == CH_L {
        t := ReadL();
      } else if code[p] == CH_I {
        var i := ReadI();
        t := Int(i);
      } else {
        var s := ReadS();
        t := Str(s);
      }
    }

    /** `ben_dec_d`, on input that lets it finish. */
    method ReadD() returns (t: Ben)
      requires p < |code| && DecEntries(code, p + 1).Done?
      modifies this
      ensures t == Dict(DecEntries(code, old(p) + 1).val) && p == DecEntries(code, old(p) + 1).next
      decreases |code| - p, 0
    {
      hide DecS, DecR;
      p := p + 1;
      var dict: seq<Entry> := [];
      ghost var all := DecEntries(code, p);
      assert [] + all.val == all.val;
      while code[p] != CH_E
        invariant old(p) < p < |code| && DecEntries(code, p).Done?
        invariant all == Done(dict + DecEntries(code, p).val, DecEntries(code, p).next)
        decreases |code| - p
      {
        ghost var rest := DecEntries(code, p);
        var key := ReadS();
        var val := ReadR();
        assert rest.val == [Entry(key, val)] + DecEntries(code, p).val;
        assert dict + rest.val == dict + [Entry(key, val)] + DecEntries(code, p).val;
        dict := dict + [Entry(key, val)];
      }
      assert dict + [] == dict;
      p := p + 1;
      t := Dict(dict);
    }

    /** `ben_dec_l`, on input that lets it finish. */
    method ReadL() returns (t: Ben)
      requires p < |code| && DecItems(code, p + 1).Done?
      modifies this
      ensures t == List(DecItems(code, old(p) + 1).val) && p == DecItems(code, old(p) + 1).next
      decreases |code| - p, 0
    {
      hide DecR;
      p := p + 1;
      var list: seq<Ben> := [];
      ghost var all := DecItems(code, p);
      assert [] + all.val == all.val;
      while code[p] != CH_E
        invariant old(p) < p < |code| && DecItems(code, p).Done?
        invariant all == Done(list + DecItems(code, p).val, DecItems(code, p).next)
        decreases |code| - p
      {
        ghost var rest := DecItems(code, p);
        var val := ReadR();
        assert rest.val == [val] + DecItems(code, p).val;
        assert list + rest.val == list + [val] + DecItems(code, p).val;
        list := list + [val];
      }
      assert list + [] == list;
      p := p + 1;
      t := List(list);
    }
  }

  /** A decoded value is a dictionary exactly if it starts with a `d`. */
  lemma DictionaryIff(c: seq<Byte>)
    requires DecR(c, 0).Done?
    ensures c != [] && (DecR(c, 0).val.Dict? <==> c[0] == CH_D)
  {
    hide DecEntries, DecItems, DecS, DecI;
  }

  /** What becomes of a packet: it is dropped, handed on as a dictionary, or takes the decoder
      past its end. */
  datatype Packet = Dropped | Handed(dict: Ben) | Overrun

  /** `p2p_parse` and `p2p_decode` up to the decoded packet: validate, then decode. */
  method Parse(bencode: seq<Byte>, linklocal: bool) returns (packet: Packet)
    ensures packet == Overrun <==> !linklocal && ValidateR(bencode, 0).Some? && !Terminated(bencode)
    ensures packet.Handed? <==> !linklocal && bencode != [] && bencode[0] == CH_D && ValidateR(bencode, 0).Some?
    ensures packet.Handed? ==> DecR(bencode, 0) == Done(packet.dict, ValidateR(bencode, 0).value)
    ensures packet.Handed? ==> packet.dict.Dict? && Small(packet.dict)
  {
    hide ValidateR, DecR;
    if |bencode| < 1 || linklocal {
      NothingAccepted(bencode);
      return Dropped;
    }
    var check := new Raw(bencode);
    var ok := check.CheckR();
    if !ok {
      return Dropped;
    }
    AcceptedDecodesIff(bencode);
    if !Terminated(bencode) {
      return Overrun;
    }
    DictionaryIff(bencode);
    var raw := new Raw(bencode);
    var t := raw.ReadR();
    packet := if t.Dict? then Handed(t) else Dropped;
  }

  lemma NothingAccepted(c: seq<Byte>)
    ensures c == [] ==> ValidateR(c, 0).None?
  {
  }

  /** In the receive buffer, where a NUL follows every packet, an accepted packet without its
      terminator keeps the decoder in its loop for ever. */
  lemma UnterminatedLoops(c: seq<Byte>)
    requires ValidateR(c, 0).Some? && !Terminated(c)
    ensures DecR(c + [0], 0) == Fault(Stuck)
  {
    hide DigitsEnd;
    AcceptedDecodesIff(c);
    if c[0] == CH_I {
      SoundI(c, 0);
      var start := IntStart(c, 0).value;
      assert IntStart(c + [0], 0) == Some(start);
      DigitsToTheEnd(c, start);
    } else {
      SoundS(c, 0);
      DigitsToTheEnd(c, 0);
    }
  }

  lemma DigitsToTheEnd(c: seq<Byte>, p: nat)
    requires p <= |c| && DigitsEnd(c, p) == |c|
    ensures DigitsEnd(c + [0], p) == |c|
  {
    hide DigitsEnd;
    assert c[p..|c|] == c[p..];
    assert (c + [0])[p..|c|] == c[p..];
    DigitsEndAt(c + [0], p, c[p..]);
  }

  lemma DigitStep(c: seq<Byte>, p: nat)
    requires p < |c|
    ensures DigitsEnd(c, p) == if IsDigit(c[p]) then DigitsEnd(c, p + 1) else p
  {
  }

  lemma DigitStop(c: seq<Byte>)
    ensures DigitsEnd(c, |c|) == |c|
  {
  }
}
