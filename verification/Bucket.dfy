/** A node of the routing table (src/p2p/node_udp.c). */
module UdpNodes {
  import opened Bytes

  datatype Endpoint = Endpoint(ip: seq<Byte>, port: nat)

  class UdpNode {
    const id: Id
    var addr: Endpoint
    var timePing: int
    var timeFind: int
    var pinged: nat

    constructor (id: Id, addr: Endpoint)
      ensures this.id == id && this.addr == addr
      ensures timePing == 0 && timeFind == 0 && pinged == 0
    {
      this.id, this.addr := id, addr;
      timePing, timeFind, pinged := 0, 0, 0;
    }

    /** Everything about the node that can change. */
    ghost function Data(): (Endpoint, int, int, nat)
      reads this
    {
      (addr, timePing, timeFind, pinged)
    }

    predicate Ok()
      reads this
    {
      pinged <= 1
    }

    predicate Bad()
      reads this
    {
      pinged >= 4
    }
  }
}

/**
 The Kademlia routing table (src/p2p/bucket.c): an ordered list of buckets, each
 covering the ids from its own id up to the id of the next bucket.
 */
module Bucket {
  import opened Collections
  import opened Bytes
  import opened IdBits
  import opened UdpNodes

  const BCKT_SIZE_MAX := 20
  const SPLIT_SIZE := 8

  datatype Buck = Buck(id: Id, nodes: seq<UdpNode>)
  type Table = seq<Buck>

  // ----- ranges -----

  ghost function Lo(t: Table, i: nat): nat
    requires i < |t|
  {
    Value(t[i].id)
  }

  ghost function Hi(t: Table, i: nat): nat
    requires i < |t|
  {
    if i + 1 < |t| then Value(t[i + 1].id) else Pow2(ID_BITS)
  }

  /** 159 minus the larger of the two lowest set bits of the ends of a range. */
  ghost function Level(lo: nat, hi: nat): int
  {
    var b1, b2 := LowestBit(lo), LowestBit(hi);
    ID_BITS - 1 - if b1 >= b2 then b1 else b2
  }

  /** A range of `2^Level` ids that starts at a multiple of its width. */
  ghost predicate Aligned(lo: nat, hi: nat)
  {
    && 0 <= Level(lo, hi) <= ID_BITS
    && lo % Pow2(Level(lo, hi)) == 0
    && hi == lo + Pow2(Level(lo, hi))
  }

  lemma AlignedIntro(q: nat, k: nat)
    requires k <= ID_BITS
    ensures Level(q * Pow2(k), (q + 1) * Pow2(k)) == k
    ensures Aligned(q * Pow2(k), (q + 1) * Pow2(k))
  {
    AlignedEnds(q, k);
    assert (q + 1) * Pow2(k) == q * Pow2(k) + Pow2(k);
    MultipleMod(q, Pow2(k));
  }

  lemma MultipleMod(q: nat, p: nat)
    requires p > 0
    ensures (q * p) % p == 0
  {
    var d, r := (q * p) / p, (q * p) % p;
    assert r == (q - d) * p;
    ProductBounds(q - d, p);
  }

  /** The midpoint of an aligned range gives two aligned ranges of half the width. */
  lemma Halves(lo: nat, mid: nat, hi: nat)
    requires Aligned(lo, hi) && Level(lo, hi) > 0
    requires mid == lo + Pow2(Level(lo, hi) - 1)
    ensures lo < mid < hi
    ensures Aligned(lo, mid) && Level(lo, mid) == Level(lo, hi) - 1
    ensures Aligned(mid, hi) && Level(mid, hi) == Level(lo, hi) - 1
  {
    var k := Level(lo, hi);
    var q := HalfMultiples(lo, Pow2(k - 1));
    AlignedIntro(2 * q, k - 1);
    AlignedIntro(2 * q + 1, k - 1);
  }

  lemma HalfMultiples(lo: nat, p: nat) returns (q: nat)
    requires p > 0 && lo % (2 * p) == 0
    ensures lo == (2 * q) * p && lo + p == (2 * q + 1) * p && lo + 2 * p == (2 * q + 2) * p
  {
    q := lo / (2 * p);
    assert lo == (2 * p) * q;
    assert (2 * p) * q == (2 * q) * p;
  }

  ghost predicate Covers(t: Table, i: nat, v: nat)
    requires i < |t|
  {
    Lo(t, i) <= v < Hi(t, i)
  }

  /** The buckets cut the id space into aligned intervals of power-of-two width. */
  ghost predicate Partition(t: Table)
  {
    && t != []
    && Lo(t, 0) == 0
    && forall i :: 0 <= i < |t| ==> Aligned(Lo(t, i), Hi(t, i))
  }

  ghost predicate Distinct(nodes: seq<UdpNode>)
  {
    forall a, b :: 0 <= a < b < |nodes| ==> nodes[a].id != nodes[b].id
  }

  ghost predicate Placed(t: Table, i: nat)
    requires i < |t|
  {
    && |t[i].nodes| <= BCKT_SIZE_MAX
    && Distinct(t[i].nodes)
    && forall k :: 0 <= k < |t[i].nodes| ==> Covers(t, i, Value(t[i].nodes[k].id))
  }

  ghost predicate ValidTable(t: Table)
  {
    Partition(t) && forall i :: 0 <= i < |t| ==> Placed(t, i)
  }

  // ----- finding the bucket of an id -----

  ghost function BestFrom(t: Table, id: Id, i: nat): (r: nat)
    requires i < |t|
    ensures i <= r < |t|
    decreases |t| - i
  {
    if i + 1 == |t| || Value(id) < Value(t[i + 1].id) then i else BestFrom(t, id, i + 1)
  }

  ghost function BestMatch(t: Table, id: Id): (r: nat)
    requires t != []
    ensures r < |t|
  {
    BestFrom(t, id, 0)
  }

  lemma {:induction false} BestFromCovers(t: Table, id: Id, i: nat)
    requires i < |t| && Lo(t, i) <= Value(id)
    ensures Covers(t, BestFrom(t, id, i), Value(id))
    decreases |t| - i
  {
    ValueBound(id);
    if i + 1 < |t| && Value(id) >= Value(t[i + 1].id) {
      BestFromCovers(t, id, i + 1);
    }
  }

  lemma {:induction false} Increasing(t: Table, i: nat, j: nat)
    requires Partition(t) && i < j < |t|
    ensures Hi(t, i) <= Lo(t, j)
    decreases j
  {
    if i + 1 < j {
      Increasing(t, i, j - 1);
      assert Aligned(Lo(t, j - 1), Hi(t, j - 1));
    }
  }

  /** Bucket ids strictly increase from 0. */
  lemma BucketIdsIncrease(t: Table, i: nat, j: nat)
    requires Partition(t) && i < j < |t|
    ensures Lo(t, 0) == 0 && Lo(t, i) < Lo(t, j)
  {
    Increasing(t, i, j);
    assert Aligned(Lo(t, i), Hi(t, i));
  }

  /** Exactly one bucket covers an id, and the walk finds it. */
  lemma BestMatchUnique(t: Table, id: Id, i: nat)
    requires Partition(t) && i < |t|
    ensures Covers(t, i, Value(id)) <==> i == BestMatch(t, id)
  {
    BestFromCovers(t, id, 0);
    var r := BestMatch(t, id);
    if i < r {
      Increasing(t, i, r);
    } else if r < i {
      Increasing(t, r, i);
    }
  }

  // ----- looking a node up -----

  ghost function FindIn(nodes: seq<UdpNode>, id: Id): Option<UdpNode>
  {
    if nodes == [] then None
    else if nodes[0].id == id then Some(nodes[0])
    else FindIn(nodes[1..], id)
  }

  ghost function Find(t: Table, id: Id): Option<UdpNode>
    requires t != []
  {
    FindIn(t[BestMatch(t, id)].nodes, id)
  }

  lemma {:induction false} FindInIff(nodes: seq<UdpNode>, n: UdpNode)
    requires Distinct(nodes)
    ensures FindIn(nodes, n.id) == Some(n) <==> n in nodes
  {
    if nodes != [] {
      FindInIff(nodes[1..], n);
      assert nodes == [nodes[0]] + nodes[1..];
    }
  }

  lemma {:induction false} FindInNone(nodes: seq<UdpNode>, id: Id)
    ensures FindIn(nodes, id).None? <==> forall k :: 0 <= k < |nodes| ==> nodes[k].id != id
    ensures FindIn(nodes, id).Some? ==> FindIn(nodes, id).value in nodes && FindIn(nodes, id).value.id == id
  {
    if nodes != [] {
      FindInNone(nodes[1..], id);
      assert nodes == [nodes[0]] + nodes[1..];
    }
  }

  /** A search of the one matching bucket finds a node iff any bucket holds it. */
  lemma FindIffStored(t: Table, n: UdpNode)
    requires ValidTable(t)
    ensures Find(t, n.id) == Some(n) <==> exists i :: 0 <= i < |t| && n in t[i].nodes
  {
    var r := BestMatch(t, n.id);
    assert Placed(t, r);
    FindInIff(t[r].nodes, n);
    if i :| 0 <= i < |t| && n in t[i].nodes {
      assert Placed(t, i);
      BestMatchUnique(t, n.id, i);
    }
  }

  /** No id occurs twice, whichever buckets the two occurrences would be in. */
  lemma StoredOnce(t: Table, i: nat, a: nat, j: nat, b: nat)
    requires ValidTable(t) && i < |t| && j < |t| && a < |t[i].nodes| && b < |t[j].nodes|
    requires t[i].nodes[a].id == t[j].nodes[b].id
    ensures i == j && a == b
  {
    assert Placed(t, i) && Placed(t, j);
    BestMatchUnique(t, t[i].nodes[a].id, i);
    BestMatchUnique(t, t[j].nodes[b].id, j);
  }

  // ----- storing and deleting -----

  function Stored(t: Table, i: nat, n: UdpNode): Table
    requires i < |t|
  {
    t[i := t[i].(nodes := t[i].nodes + [n])]
  }

  function Without(nodes: seq<UdpNode>, id: Id): (r: seq<UdpNode>)
    ensures |r| <= |nodes|
  {
    if nodes == [] then [] else if nodes[0].id == id then nodes[1..] else [nodes[0]] + Without(nodes[1..], id)
  }

  function WithoutNode(t: Table, i: nat, id: Id): Table
    requires i < |t|
  {
    t[i := t[i].(nodes := Without(t[i].nodes, id))]
  }

  /** `bckt_put` on the table: refused when the id is known or its bucket is full. */
  ghost function PutNode(t: Table, n: UdpNode): Table
    requires t != []
  {
    var i := BestMatch(t, n.id);
    if Find(t, n.id).Some? || |t[i].nodes| >= BCKT_SIZE_MAX then t else Stored(t, i, n)
  }

  /** `bckt_del` on the table. */
  ghost function DelNode(t: Table, id: Id): Table
    requires t != []
  {
    WithoutNode(t, BestMatch(t, id), id)
  }

  /** Tables with the same bucket ids have the same ranges. */
  ghost predicate SameIds(t: Table, u: Table)
  {
    |t| == |u| && forall i :: 0 <= i < |t| ==> t[i].id == u[i].id
  }

  lemma {:induction false} SameBestFrom(t: Table, u: Table, id: Id, i: nat)
    requires SameIds(t, u) && i < |t|
    ensures BestFrom(t, id, i) == BestFrom(u, id, i)
    decreases |t| - i
  {
    if i + 1 < |t| {
      SameBestFrom(t, u, id, i + 1);
    }
  }

  lemma SamePartition(t: Table, u: Table)
    requires SameIds(t, u) && Partition(t)
    ensures Partition(u)
    ensures forall i :: 0 <= i < |t| ==> Lo(t, i) == Lo(u, i) && Hi(t, i) == Hi(u, i)
  {
    forall i | 0 <= i < |t|
      ensures Lo(t, i) == Lo(u, i) && Hi(t, i) == Hi(u, i)
    {
    }
    forall i | 0 <= i < |u|
      ensures Aligned(Lo(u, i), Hi(u, i))
    {
      assert Aligned(Lo(t, i), Hi(t, i));
    }
  }

  lemma {:induction false} FindInConcat(a: seq<UdpNode>, b: seq<UdpNode>, id: Id)
    ensures FindIn(a + b, id) == if FindIn(a, id).Some? then FindIn(a, id) else FindIn(b, id)
  {
    if a == [] {
      assert a + b == b;
    } else {
      assert (a + b)[1..] == a[1..] + b;
      FindInConcat(a[1..], b, id);
    }
  }

  lemma {:induction false} FindInWithout(nodes: seq<UdpNode>, id: Id, other: Id)
    requires Distinct(nodes)
    ensures FindIn(Without(nodes, id), other) == if other == id then None else FindIn(nodes, other)
  {
    if nodes != [] {
      FindInWithout(nodes[1..], id, other);
      if nodes[0].id == id {
        FindInNone(nodes[1..], id);
      } else {
        var rest := Without(nodes[1..], id);
        assert ([nodes[0]] + rest)[1..] == rest;
      }
    }
  }

  lemma {:induction false} WithoutKeeps(nodes: seq<UdpNode>, id: Id)
    requires Distinct(nodes)
    ensures Distinct(Without(nodes, id))
    ensures forall k :: 0 <= k < |Without(nodes, id)| ==> Without(nodes, id)[k] in nodes && Without(nodes, id)[k].id != id
  {
    if nodes != [] {
      var rest := nodes[1..];
      assert nodes == [nodes[0]] + rest;
      WithoutKeeps(rest, id);
      if nodes[0].id != id {
        var w := Without(rest, id);
        forall b | 0 <= b < |w|
          ensures w[b].id != nodes[0].id
        {
          assert w[b] in rest;
        }
      }
    }
  }

  /** Replacing the contents of one bucket by nodes that belong there. */
  lemma ReplaceContents(t: Table, i: nat, nodes: seq<UdpNode>)
    requires ValidTable(t) && i < |t|
    requires |nodes| <= BCKT_SIZE_MAX && Distinct(nodes)
    requires forall k :: 0 <= k < |nodes| ==> Covers(t, i, Value(nodes[k].id))
    ensures ValidTable(t[i := t[i].(nodes := nodes)])
  {
    var u := t[i := t[i].(nodes := nodes)];
    SamePartition(t, u);
    forall j | 0 <= j < |u|
      ensures Placed(u, j)
    {
      if j != i {
        assert Placed(t, j);
      }
    }
  }

  lemma PutNodeValid(t: Table, n: UdpNode)
    requires ValidTable(t)
    ensures ValidTable(PutNode(t, n)) && SameIds(t, PutNode(t, n))
  {
    var i := BestMatch(t, n.id);
    BestFromCovers(t, n.id, 0);
    FindInNone(t[i].nodes, n.id);
    assert Placed(t, i);
    if PutNode(t, n) != t {
      ReplaceContents(t, i, t[i].nodes + [n]);
    }
  }

  /** Storing a node changes the lookup of its own id only. */
  lemma PutNodeFind(t: Table, n: UdpNode, id: Id)
    requires ValidTable(t) && PutNode(t, n) != t
    ensures Find(PutNode(t, n), id) == if id == n.id then Some(n) else Find(t, id)
  {
    var i := BestMatch(t, n.id);
    PutNodeValid(t, n);
    SameBestFrom(t, PutNode(t, n), id, 0);
    FindInConcat(t[i].nodes, [n], id);
  }

  lemma DelNodeValid(t: Table, id: Id)
    requires ValidTable(t)
    ensures ValidTable(DelNode(t, id)) && SameIds(t, DelNode(t, id))
  {
    var i := BestMatch(t, id);
    assert Placed(t, i);
    WithoutKeeps(t[i].nodes, id);
    var w := Without(t[i].nodes, id);
    forall k | 0 <= k < |w|
      ensures Covers(t, i, Value(w[k].id))
    {
      assert w[k] in t[i].nodes;
    }
    ReplaceContents(t, i, w);
  }

  /** Deleting an id changes the lookup of that id only. */
  lemma DelNodeFind(t: Table, id: Id, other: Id)
    requires ValidTable(t)
    ensures Find(DelNode(t, id), other) == if other == id then None else Find(t, other)
  {
    var i := BestMatch(t, id);
    assert Placed(t, i);
    DelNodeValid(t, id);
    SameBestFrom(t, DelNode(t, id), other, 0);
    FindInWithout(t[i].nodes, id, other);
  }

  // ----- splitting -----

  /** The nodes with an id in a range, in list order. */
  ghost function Select(nodes: seq<UdpNode>, lo: nat, hi: nat): (r: seq<UdpNode>)
    ensures |r| <= |nodes|
  {
    if nodes == [] then [] else
      var n := |nodes| - 1;
      var r := Select(nodes[..n], lo, hi);
      if lo <= Value(nodes[n].id) < hi then r + [nodes[n]] else r
  }

  ghost predicate Subsequence(a: seq<UdpNode>, b: seq<UdpNode>)
  {
    || a == []
    || (b != [] && (|| Subsequence(a, b[..|b| - 1])
                    || (a[|a| - 1] == b[|b| - 1] && Subsequence(a[..|a| - 1], b[..|b| - 1]))))
  }

  lemma {:induction false} SelectIsSubsequence(nodes: seq<UdpNode>, lo: nat, hi: nat)
    ensures Subsequence(Select(nodes, lo, hi), nodes)
  {
    if nodes != [] {
      var n := |nodes| - 1;
      var r := Select(nodes[..n], lo, hi);
      SelectIsSubsequence(nodes[..n], lo, hi);
      assert (r + [nodes[n]])[..|r|] == r;
    }
  }

  lemma {:induction false} SelectPartitions(nodes: seq<UdpNode>, lo: nat, mid: nat, hi: nat)
    requires lo <= mid <= hi
    requires forall k :: 0 <= k < |nodes| ==> lo <= Value(nodes[k].id) < hi
    ensures multiset(Select(nodes, lo, mid)) + multiset(Select(nodes, mid, hi)) == multiset(nodes)
  {
    if nodes != [] {
      var n := |nodes| - 1;
      assert nodes == nodes[..n] + [nodes[n]];
      SelectPartitions(nodes[..n], lo, mid, hi);
    }
  }

  lemma {:induction false} SelectMembers(nodes: seq<UdpNode>, lo: nat, hi: nat)
    ensures forall k :: 0 <= k < |Select(nodes, lo, hi)| ==>
              Select(nodes, lo, hi)[k] in nodes && lo <= Value(Select(nodes, lo, hi)[k].id) < hi
    ensures Distinct(nodes) ==> Distinct(Select(nodes, lo, hi))
  {
    if nodes != [] {
      var n := |nodes| - 1;
      assert nodes == nodes[..n] + [nodes[n]];
      SelectMembers(nodes[..n], lo, hi);
      if Distinct(nodes) {
        var r := Select(nodes[..n], lo, hi);
        forall a | 0 <= a < |r|
          ensures r[a].id != nodes[n].id
        {
          assert r[a] in nodes[..n];
        }
      }
    }
  }

  lemma {:induction false} SelectFind(nodes: seq<UdpNode>, lo: nat, hi: nat, id: Id)
    ensures FindIn(Select(nodes, lo, hi), id) == if lo <= Value(id) < hi then FindIn(nodes, id) else None
  {
    if nodes != [] {
      var n := |nodes| - 1;
      assert nodes == nodes[..n] + [nodes[n]];
      SelectFind(nodes[..n], lo, hi, id);
      FindInConcat(nodes[..n], [nodes[n]], id);
      FindInConcat(Select(nodes[..n], lo, hi), [nodes[n]], id);
    }
  }

  /** `bckt_compute_id`: one bit further than the finer aligned end of the range. */
  ghost function SplitId(t: Table, i: nat): Id
    requires i < |t| && 1 <= Level(Lo(t, i), Hi(t, i)) <= ID_BITS
  {
    WithBit(t[i].id, ID_BITS - Level(Lo(t, i), Hi(t, i)))
  }

  /** The new id is the exact midpoint of the bucket's range. */
  lemma SplitIdIsMidpoint(t: Table, i: nat)
    requires i < |t| && Aligned(Lo(t, i), Hi(t, i)) && Level(Lo(t, i), Hi(t, i)) >= 1
    ensures Value(SplitId(t, i)) == Lo(t, i) + Pow2(Level(Lo(t, i), Hi(t, i)) - 1)
    ensures 2 * Value(SplitId(t, i)) == Lo(t, i) + Hi(t, i)
  {
    var bit := ID_BITS - Level(Lo(t, i), Hi(t, i));
    ClearBeyondLowest(t[i].id, bit);
    WithBitValue(t[i].id, bit);
  }

  /** Bucket i cut in two, after the first k of its nodes have been handed out again. */
  ghost function SplitUpTo(t: Table, i: nat, k: nat): Table
    requires i < |t| && 1 <= Level(Lo(t, i), Hi(t, i)) <= ID_BITS && k <= |t[i].nodes|
  {
    var mid, nodes := SplitId(t, i), t[i].nodes[..k];
    t[..i]
    + [Buck(t[i].id, Select(nodes, Lo(t, i), Value(mid))), Buck(mid, Select(nodes, Value(mid), Hi(t, i)))]
    + t[i + 1..]
  }

  ghost predicate Splittable(t: Table, i: nat)
    requires i < |t|
  {
    |t[i].nodes| > SPLIT_SIZE
  }

  /** `bckt_split` on the table. */
  ghost function SplitNode(t: Table, target: Id): Table
    requires ValidTable(t)
  {
    var i := BestMatch(t, target);
    if Splittable(t, i) then
      SplittableIsWide(t, i);
      SplitUpTo(t, i, |t[i].nodes|)
    else t
  }

  lemma {:induction false} DistinctInRange(s: seq<nat>, lo: nat, hi: nat)
    requires lo <= hi
    requires forall k :: 0 <= k < |s| ==> lo <= s[k] < hi
    requires forall a, b :: 0 <= a < b < |s| ==> s[a] != s[b]
    ensures |s| <= hi - lo
    decreases hi
  {
    if s == [] {
    } else if k :| 0 <= k < |s| && s[k] == hi - 1 {
      DistinctInRange(s[..k] + s[k + 1..], lo, hi - 1);
    } else {
      assert lo <= s[0] < hi - 1;
      DistinctInRange(s, lo, hi - 1);
    }
  }

  /** Pigeonhole: more than eight distinct ids need a range of at least sixteen,
      so there is always a bit left to split on. */
  lemma SplittableIsWide(t: Table, i: nat)
    requires ValidTable(t) && i < |t| && Splittable(t, i)
    ensures 4 <= Level(Lo(t, i), Hi(t, i)) <= ID_BITS
  {
    var nodes := t[i].nodes;
    var k := Level(Lo(t, i), Hi(t, i));
    var s := seq(|nodes|, j requires 0 <= j < |nodes| => Value(nodes[j].id));
    assert Placed(t, i) && Aligned(Lo(t, i), Hi(t, i));
    forall a, b | 0 <= a < b < |s|
      ensures s[a] != s[b]
    {
      if s[a] == s[b] {
        ValueInjective(nodes[a].id, nodes[b].id);
      }
    }
    DistinctInRange(s, Lo(t, i), Hi(t, i));
    if k < 3 {
      Pow2Monotone(k, 3);
    }
    assert Pow2(3) == 8;
  }

  /** The bucket ids after a split: the old ones, with the new one behind that of bucket i. */
  lemma SplitIds(t: Table, i: nat, k: nat, j: nat)
    requires i < |t| && 1 <= Level(Lo(t, i), Hi(t, i)) <= ID_BITS && k <= |t[i].nodes|
    requires j < |SplitUpTo(t, i, k)|
    ensures |SplitUpTo(t, i, k)| == |t| + 1
    ensures SplitUpTo(t, i, k)[j].id == if j <= i then t[j].id else if j == i + 1 then SplitId(t, i) else t[j - 1].id
  {
    hide Level, SplitId, Select, Lo, Hi;
  }

  /** The ranges after a split: the old ones, with bucket i halved. */
  lemma SplitRange(t: Table, i: nat, k: nat, j: nat)
    requires Partition(t) && i < |t| && Level(Lo(t, i), Hi(t, i)) >= 1 && k <= |t[i].nodes|
    requires j < |SplitUpTo(t, i, k)|
    ensures var u := SplitUpTo(t, i, k);
            && Lo(u, j) == (if j <= i then Lo(t, j) else if j == i + 1 then Value(SplitId(t, i)) else Lo(t, j - 1))
            && Hi(u, j) == (if j < i then Hi(t, j) else if j == i then Value(SplitId(t, i)) else Hi(t, j - 1))
  {
    hide Level, SplitId, SplitUpTo, Value, Pow2;
    assert Aligned(Lo(t, i), Hi(t, i));
    SplitIds(t, i, k, j);
    if j < |t| {
      SplitIds(t, i, k, j + 1);
    }
  }

  lemma SplitHalves(t: Table, i: nat)
    requires i < |t| && Aligned(Lo(t, i), Hi(t, i)) && Level(Lo(t, i), Hi(t, i)) >= 1
    ensures Lo(t, i) < Value(SplitId(t, i)) < Hi(t, i)
    ensures Aligned(Lo(t, i), Value(SplitId(t, i))) && Aligned(Value(SplitId(t, i)), Hi(t, i))
    ensures Level(Lo(t, i), Value(SplitId(t, i))) == Level(Lo(t, i), Hi(t, i)) - 1
    ensures Level(Value(SplitId(t, i)), Hi(t, i)) == Level(Lo(t, i), Hi(t, i)) - 1
  {
    hide Level, SplitId;
    SplitIdIsMidpoint(t, i);
    Halves(Lo(t, i), Value(SplitId(t, i)), Hi(t, i));
  }

  lemma SplitAligned(t: Table, i: nat, k: nat, j: nat)
    requires Partition(t) && i < |t| && Level(Lo(t, i), Hi(t, i)) >= 1 && k <= |t[i].nodes|
    requires j < |SplitUpTo(t, i, k)|
    ensures var u := SplitUpTo(t, i, k); Aligned(Lo(u, j), Hi(u, j))
  {
    SplitRange(t, i, k, j);
    assert Aligned(Lo(t, i), Hi(t, i));
    SplitHalves(t, i);
    if j < i {
      assert Aligned(Lo(t, j), Hi(t, j));
    } else if j >= i + 2 {
      assert Aligned(Lo(t, j - 1), Hi(t, j - 1));
    }
  }

  lemma SplitPartition(t: Table, i: nat, k: nat)
    requires Partition(t) && i < |t| && Level(Lo(t, i), Hi(t, i)) >= 1 && k <= |t[i].nodes|
    ensures Partition(SplitUpTo(t, i, k))
  {
    var u := SplitUpTo(t, i, k);
    SplitRange(t, i, k, 0);
    forall j | 0 <= j < |u|
      ensures Aligned(Lo(u, j), Hi(u, j))
    {
      SplitAligned(t, i, k, j);
    }
  }

  /** A bucket with the range and the contents of a well-placed one is well placed. */
  lemma PlacedAlike(t: Table, i: nat, u: Table, j: nat)
    requires i < |t| && j < |u| && Placed(t, i)
    requires u[j].nodes == t[i].nodes && Lo(u, j) == Lo(t, i) && Hi(u, j) == Hi(t, i)
    ensures Placed(u, j)
  {
    hide Lo, Hi, Distinct;
  }

  lemma PlacedSelection(t: Table, i: nat, k: nat, u: Table, j: nat)
    requires i < |t| && k <= |t[i].nodes| && Placed(t, i)
    requires j < |u| && u[j].nodes == Select(t[i].nodes[..k], Lo(u, j), Hi(u, j))
    ensures Placed(u, j)
  {
    hide Lo, Hi, Select;
    SelectMembers(t[i].nodes[..k], Lo(u, j), Hi(u, j));
  }

  lemma SplitPlaced(t: Table, i: nat, k: nat, j: nat)
    requires ValidTable(t) && i < |t| && k <= |t[i].nodes| && 1 <= Level(Lo(t, i), Hi(t, i)) <= ID_BITS
    requires j < |SplitUpTo(t, i, k)|
    ensures Placed(SplitUpTo(t, i, k), j)
  {
    hide Level, SplitId, Select, Aligned, Placed, Distinct, Lo, Hi;
    var u := SplitUpTo(t, i, k);
    SplitRange(t, i, k, j);
    if j < i {
      PlacedAlike(t, j, u, j);
    } else if j >= i + 2 {
      PlacedAlike(t, j - 1, u, j);
    } else {
      PlacedSelection(t, i, k, u, j);
    }
  }

  lemma SplitUpToValid(t: Table, i: nat, k: nat)
    requires ValidTable(t) && i < |t| && Splittable(t, i) && k <= |t[i].nodes|
    requires 1 <= Level(Lo(t, i), Hi(t, i)) <= ID_BITS
    ensures ValidTable(SplitUpTo(t, i, k))
  {
    hide Level, SplitId, Select, Aligned, Placed, SplitUpTo, Lo, Hi;
    SplitPartition(t, i, k);
    forall j | 0 <= j < |SplitUpTo(t, i, k)|
      ensures Placed(SplitUpTo(t, i, k), j)
    {
      SplitPlaced(t, i, k, j);
    }
  }

  /** A split keeps every stored node, each half in the old relative order, and touches no other bucket. */
  lemma SplitConserves(t: Table, target: Id)
    requires ValidTable(t)
    ensures var i, u := BestMatch(t, target), SplitNode(t, target);
            if !Splittable(t, i) then u == t else
              && |u| == |t| + 1 && u[..i] == t[..i] && u[i + 2..] == t[i + 1..]
              && multiset(u[i].nodes) + multiset(u[i + 1].nodes) == multiset(t[i].nodes)
              && Subsequence(u[i].nodes, t[i].nodes) && Subsequence(u[i + 1].nodes, t[i].nodes)
  {
    hide Subsequence, SplitId, Distinct, Level, Select;
    var i := BestMatch(t, target);
    if Splittable(t, i) {
      var nodes := t[i].nodes;
      SplittableIsWide(t, i);
      assert nodes == nodes[..|nodes|] && Placed(t, i) && Aligned(Lo(t, i), Hi(t, i));
      SplitHalves(t, i);
      SelectPartitions(nodes, Lo(t, i), Value(SplitId(t, i)), Hi(t, i));
      SelectIsSubsequence(nodes, Lo(t, i), Value(SplitId(t, i)));
      SelectIsSubsequence(nodes, Value(SplitId(t, i)), Hi(t, i));
    }
  }

  lemma SplitNodeValid(t: Table, target: Id)
    requires ValidTable(t)
    ensures ValidTable(SplitNode(t, target))
  {
    var i := BestMatch(t, target);
    if Splittable(t, i) {
      SplittableIsWide(t, i);
      SplitUpToValid(t, i, |t[i].nodes|);
    }
  }

  /** Where an id belongs after bucket i has been cut. */
  lemma SplitBestMatch(t: Table, i: nat, k: nat, id: Id)
    requires Partition(t) && i < |t| && Level(Lo(t, i), Hi(t, i)) >= 1 && k <= |t[i].nodes|
    ensures var r := BestMatch(t, id);
            BestMatch(SplitUpTo(t, i, k), id) ==
            if r < i || (r == i && Value(id) < Value(SplitId(t, i))) then r else r + 1
  {
    hide Level, BestMatch, SplitId;
    assert Aligned(Lo(t, i), Hi(t, i));
    var r := BestMatch(t, id);
    var s := if r < i || (r == i && Value(id) < Value(SplitId(t, i))) then r else r + 1;
    SplitPartition(t, i, k);
    BestMatchUnique(t, id, r);
    SplitRange(t, i, k, s);
    BestMatchUnique(SplitUpTo(t, i, k), id, s);
  }

  /** A split changes no lookup. */
  lemma SplitNodeFind(t: Table, target: Id, id: Id)
    requires ValidTable(t)
    ensures SplitNode(t, target) != [] && Find(SplitNode(t, target), id) == Find(t, id)
  {
    hide Level, SplitId, Distinct, Aligned, FindIn, Select;
    var i := BestMatch(t, target);
    if Splittable(t, i) {
      SplittableIsWide(t, i);
      var nodes := t[i].nodes;
      assert nodes == nodes[..|nodes|];
      SplitBestMatch(t, i, |nodes|, id);
      BestMatchUnique(t, id, BestMatch(t, id));
      SelectFind(nodes, Lo(t, i), Value(SplitId(t, i)), id);
      SelectFind(nodes, Value(SplitId(t, i)), Hi(t, i), id);
    }
  }

  /** Width exponent of the bucket an id belongs to. */
  ghost function TargetLevel(t: Table, id: Id): int
    requires t != []
  {
    var i := BestMatch(t, id);
    Level(Lo(t, i), Hi(t, i))
  }

  /** Every split halves the range of the target's own bucket. */
  lemma SplitHalvesTarget(t: Table, target: Id)
    requires ValidTable(t) && Splittable(t, BestMatch(t, target))
    ensures |SplitNode(t, target)| == |t| + 1
    ensures TargetLevel(SplitNode(t, target), target) == TargetLevel(t, target) - 1 >= 3
  {
    var i := BestMatch(t, target);
    SplittableIsWide(t, i);
    assert Aligned(Lo(t, i), Hi(t, i));
    SplitHalves(t, i);
    var k := |t[i].nodes|;
    SplitBestMatch(t, i, k, target);
    SplitRange(t, i, k, i);
    SplitRange(t, i, k, i + 1);
  }

  // ----- every run of the table -----

  datatype Op = Put(n: UdpNode) | Del(id: Id) | Split(target: Id)

  ghost function Step(t: Table, op: Op): Table
    requires ValidTable(t)
  {
    match op
    case Put(n) => PutNode(t, n)
    case Del(id) => DelNode(t, id)
    case Split(target) => SplitNode(t, target)
  }

  function InitialTable(): Table
  {
    [Buck(ZeroId(), [])]
  }

  lemma InitialTableValid()
    ensures ValidTable(InitialTable())
  {
    ValueZero(ZeroId());
    WholeSpaceAligned(ID_BITS);
  }

  lemma WholeSpaceAligned(k: nat)
    requires k == ID_BITS
    ensures Aligned(0, Pow2(k))
  {
    hide Pow2, Aligned;
    AlignedIntro(0, k);
    assert 0 * Pow2(k) == 0 && (0 + 1) * Pow2(k) == Pow2(k);
  }

  lemma StepValid(t: Table, op: Op)
    requires ValidTable(t)
    ensures ValidTable(Step(t, op))
  {
    match op
    case Put(n) => PutNodeValid(t, n);
    case Del(id) => DelNodeValid(t, id);
    case Split(target) => SplitNodeValid(t, target);
  }

  ghost function Run(t: Table, ops: seq<Op>): (u: Table)
    requires ValidTable(t)
    ensures ValidTable(u)
    decreases |ops|
  {
    if ops == [] then t else
      StepValid(t, ops[0]);
      Run(Step(t, ops[0]), ops[1..])
  }

  ghost function Reached(ops: seq<Op>): (t: Table)
    ensures ValidTable(t)
  {
    InitialTableValid();
    Run(InitialTable(), ops)
  }

  /** In every reachable table the bucket ids strictly increase from 0, each range
      is an aligned power-of-two interval, no bucket is overfull and every node
      sits in the one bucket a search for its id looks at. */
  lemma ReachableTable(ops: seq<Op>, i: nat)
    requires i < |Reached(ops)|
    ensures var t := Reached(ops);
            && Lo(t, 0) == 0 && (i > 0 ==> Lo(t, i - 1) < Lo(t, i)) && Lo(t, i) < Hi(t, i)
            && Hi(t, i) - Lo(t, i) == Pow2(Level(Lo(t, i), Hi(t, i)))
            && Lo(t, i) % Pow2(Level(Lo(t, i), Hi(t, i))) == 0
            && |t[i].nodes| <= 20
            && (forall a :: 0 <= a < |t[i].nodes| ==>
                  BestMatch(t, t[i].nodes[a].id) == i && Find(t, t[i].nodes[a].id) == Some(t[i].nodes[a]))
  {
    var t := Reached(ops);
    assert Aligned(Lo(t, i), Hi(t, i)) && Placed(t, i);
    if i > 0 {
      assert Aligned(Lo(t, i - 1), Hi(t, i - 1));
    }
    forall a | 0 <= a < |t[i].nodes|
      ensures BestMatch(t, t[i].nodes[a].id) == i && Find(t, t[i].nodes[a].id) == Some(t[i].nodes[a])
    {
      BestMatchUnique(t, t[i].nodes[a].id, i);
      FindIffStored(t, t[i].nodes[a]);
    }
  }

  // ----- handing out contacts -----

  /** The last non-empty bucket at or below i. */
  ghost function NonEmptyAtOrBelow(t: Table, i: nat): Option<nat>
    requires i < |t|
  {
    if t[i].nodes != [] then Some(i) else if i == 0 then None else NonEmptyAtOrBelow(t, i - 1)
  }

  lemma {:induction false} NonEmptyIsNearest(t: Table, i: nat)
    requires i < |t|
    ensures match NonEmptyAtOrBelow(t, i)
            case Some(r) => r <= i && t[r].nodes != [] && forall j :: r < j <= i ==> t[j].nodes == []
            case None => forall j :: 0 <= j <= i ==> t[j].nodes == []
  {
    if t[i].nodes == [] && i > 0 {
      NonEmptyIsNearest(t, i - 1);
    }
  }

  /** The first m nodes that are not questionable, in bucket order. */
  function FirstOk(nodes: seq<UdpNode>, m: nat): (r: seq<UdpNode>)
    reads nodes
    ensures |r| <= m && |r| <= |nodes|
  {
    if nodes == [] || m == 0 then []
    else if nodes[0].Ok() then [nodes[0]] + FirstOk(nodes[1..], m - 1)
    else FirstOk(nodes[1..], m)
  }

  lemma {:induction false} FirstOkNodes(nodes: seq<UdpNode>, m: nat)
    ensures forall k :: 0 <= k < |FirstOk(nodes, m)| ==> FirstOk(nodes, m)[k] in nodes && FirstOk(nodes, m)[k].pinged <= 1
    ensures Distinct(nodes) ==> Distinct(FirstOk(nodes, m))
    ensures |FirstOk(nodes, m)| < m ==> forall k :: 0 <= k < |nodes| && nodes[k].pinged <= 1 ==> nodes[k] in FirstOk(nodes, m)
  {
    if nodes != [] && m > 0 {
      var rest := nodes[1..];
      assert nodes == [nodes[0]] + rest;
      FirstOkNodes(rest, if nodes[0].Ok() then m - 1 else m);
      if nodes[0].Ok() && Distinct(nodes) {
        var r := FirstOk(rest, m - 1);
        forall b | 0 <= b < |r|
          ensures r[b].id != nodes[0].id
        {
          assert r[b] in rest;
        }
      }
    }
  }

  // ----- the list of buckets -----

  class RoutingTable {
    var buckets: Table

    constructor ()
      ensures ValidTable(buckets) && buckets == InitialTable()
    {
      buckets := InitialTable();
      InitialTableValid();
    }

    /** `bckt_find_best_match` */
    method FindBestMatch(id: Id) returns (r: nat)
      requires buckets != []
      ensures r == BestMatch(buckets, id)
    {
      var item := 0;
      while item + 1 < |buckets|
        invariant item < |buckets|
        invariant BestMatch(buckets, id) == BestFrom(buckets, id, item)
      {
        var c := MemCmp(id, buckets[item + 1].id);
        if c < 0 {
          return item;
        }
        item := item + 1;
      }
      r := |buckets| - 1;
    }

    /** `bckt_find_any_match` */
    method FindAnyMatch(id: Id) returns (r: Option<nat>)
      requires buckets != []
      ensures r == NonEmptyAtOrBelow(buckets, BestMatch(buckets, id))
    {
      var best := FindBestMatch(id);
      var i := best;
      while i >= 0
        invariant -1 <= i < |buckets|
        invariant NonEmptyAtOrBelow(buckets, best) == if i < 0 then None else NonEmptyAtOrBelow(buckets, i)
      {
        if buckets[i].nodes != [] {
          return Some(i);
        }
        i := i - 1;
      }
      r := None;
    }

    /** `bckt_find_node` */
    method FindNode(id: Id) returns (r: Option<UdpNode>)
      requires buckets != []
      ensures r == Find(buckets, id)
    {
      var i := FindBestMatch(id);
      var nodes := buckets[i].nodes;
      var k := 0;
      while k < |nodes|
        invariant k <= |nodes|
        invariant FindIn(nodes, id) == FindIn(nodes[k..], id)
      {
        if nodes[k].id == id {
          return Some(nodes[k]);
        }
        k := k + 1;
      }
      r := None;
    }

    /** `bckt_put` */
    method Put(n: UdpNode) returns (ok: bool)
      requires ValidTable(buckets)
      modifies this
      ensures ValidTable(buckets)
      ensures buckets == PutNode(old(buckets), n)
      ensures ok <==> buckets != old(buckets)
      ensures ok <==> Find(old(buckets), n.id).None?
                      && |old(buckets)[BestMatch(old(buckets), n.id)].nodes| < 20
    {
      PutNodeValid(buckets, n);
      var i := FindBestMatch(n.id);
      var known := FindNode(n.id);
      if known.Some? {
        return false;
      }
      if |buckets[i].nodes| >= BCKT_SIZE_MAX {
        return false;
      }
      assert |(buckets[i].nodes + [n])| == |buckets[i].nodes| + 1;
      buckets := Stored(buckets, i, n);
      ok := true;
    }

    /** `bckt_del` */
    method Del(id: Id)
      requires ValidTable(buckets)
      modifies this
      ensures ValidTable(buckets)
      ensures buckets == DelNode(old(buckets), id)
    {
      DelNodeValid(buckets, id);
      var i := FindBestMatch(id);
      buckets := WithoutNode(buckets, i, id);
    }

    /** `bckt_compute_id`: the failure result is for a range of a single id. */
    method ComputeId(i: nat) returns (r: Option<Id>)
      requires i < |buckets| && Aligned(Lo(buckets, i), Hi(buckets, i))
      ensures r.None? <==> Level(Lo(buckets, i), Hi(buckets, i)) == 0
      ensures r.Some? ==> r.value == SplitId(buckets, i)
    {
      var bit1 := SignificantBit(buckets[i].id);
      var bit2 := -1;
      if i + 1 < |buckets| {
        bit2 := SignificantBit(buckets[i + 1].id);
      } else {
        EndOfSpace(ID_BITS);
      }
      var bit := if bit1 >= bit2 then bit1 else bit2;
      bit := bit + 1;
      if bit >= ID_BITS {
        return None;
      }
      r := Some(WithBit(buckets[i].id, bit));
    }

    /** `bckt_split` */
    method Split(target: Id) returns (ok: bool)
      requires ValidTable(buckets)
      modifies this
      ensures ValidTable(buckets)
      ensures buckets == SplitNode(old(buckets), target)
      ensures ok <==> |old(buckets)[BestMatch(old(buckets), target)].nodes| > 8
    {
      hide ValidTable, BestMatch, Level, Lo, Hi, Aligned, SplitId;
      var t := buckets;
      HasBuckets(t);
      var i := FindBestMatch(target);
      if |buckets[i].nodes| <= SPLIT_SIZE {
        return false;
      }
      SplittableIsWide(t, i);
      BucketAligned(t, i);
      var idNew := ComputeId(i);
      if idNew.None? {
        return false;
      }
      var nodes := buckets[i].nodes;
      buckets := t[..i] + [t[i].(nodes := []), Buck(idNew.value, [])] + t[i + 1..];
      var k := 0;
      while k < |nodes|
        invariant k <= |nodes|
        invariant buckets == SplitUpTo(t, i, k)
      {
        SplitHandOut(t, i, k);
        var j := FindBestMatch(nodes[k].id);
        buckets := Stored(buckets, j, nodes[k]);
        k := k + 1;
      }
      SplitNodeValid(t, target);
      ok := true;
    }

    /** `bckt_split_loop`: at most 157 splits, after which the target's bucket
        holds at most eight nodes. */
    method SplitLoop(target: Id) returns (change: bool, ghost splits: nat)
      requires ValidTable(buckets)
      modifies this
      ensures ValidTable(buckets)
      ensures |buckets[BestMatch(buckets, target)].nodes| <= 8
      ensures splits <= 157 && |buckets| == |old(buckets)| + splits
      ensures change <==> splits > 0
      ensures buckets == Run(old(buckets), Splits(target, splits))
      ensures forall id: Id :: Find(buckets, id) == Find(old(buckets), id)
    {
      change, splits := false, 0;
      ghost var t := buckets;
      LevelBound(t, target);
      while true
        invariant ValidTable(buckets) && 0 <= TargetLevel(buckets, target)
        invariant splits == TargetLevel(t, target) - TargetLevel(buckets, target)
        invariant splits > 0 ==> TargetLevel(buckets, target) >= 3
        invariant change <==> splits > 0
        invariant |buckets| == |t| + splits
        invariant buckets == Run(t, Splits(target, splits))
        invariant forall id: Id :: Find(buckets, id) == Find(t, id)
        decreases TargetLevel(buckets, target)
      {
        ghost var before := buckets;
        var ok := Split(target);
        if !ok {
          break;
        }
        SplitOnce(t, before, target, splits);
        SplitFinds(before, target);
        splits := splits + 1;
        change := true;
      }
    }

    /** `bckt_is_empty` */
    method IsEmpty() returns (empty: bool)
      ensures empty <==> forall i :: 0 <= i < |buckets| ==> buckets[i].nodes == []
    {
      var i := 0;
      while i < |buckets|
        invariant i <= |buckets| && forall j :: 0 <= j < i ==> buckets[j].nodes == []
      {
        if buckets[i].nodes != [] {
          return false;
        }
        i := i + 1;
      }
      empty := true;
    }

    /** `bckt_compact_list`: at most eight contacts from one bucket. */
    method CompactList(target: Id) returns (r: seq<UdpNode>)
      requires buckets != []
      ensures match NonEmptyAtOrBelow(buckets, BestMatch(buckets, target))
              case None => r == []
              case Some(i) => i < |buckets| && r == FirstOk(buckets[i].nodes, 8)
    {
      hide BestMatch, NonEmptyAtOrBelow;
      NonEmptyIsNearest(buckets, BestMatch(buckets, target));
      var item := FindAnyMatch(target);
      if item.None? {
        return [];
      }
      r := CompactNodes(buckets[item.value].nodes);
    }

    /** The walk through the bucket. */
    static method CompactNodes(nodes: seq<UdpNode>) returns (r: seq<UdpNode>)
      ensures r == FirstOk(nodes, 8)
    {
      hide FirstOk;
      r := [];
      var k := 0;
      FirstOkBegins(nodes, 8);
      while k < |nodes| && |r| < 8
        invariant k <= |nodes| && |r| <= 8
        invariant FirstOk(nodes, 8) == r + FirstOk(nodes[k..], 8 - |r|)
      {
        var n := nodes[k];
        FirstOkStep(nodes, k, r, 8 - |r|);
        if n.Ok() {
          r := r + [n];
        }
        k := k + 1;
      }
      FirstOkEnds(nodes, k, r, 8 - |r|);
    }
  }

  lemma FirstOkBegins(nodes: seq<UdpNode>, m: nat)
    ensures FirstOk(nodes, m) == [] + FirstOk(nodes[0..], m)
  {
    assert nodes[0..] == nodes;
  }

  lemma {:induction false} FirstOkStep(nodes: seq<UdpNode>, k: nat, r: seq<UdpNode>, m: nat)
    requires k < |nodes| && m > 0
    ensures r + FirstOk(nodes[k..], m) ==
            if nodes[k].Ok() then r + [nodes[k]] + FirstOk(nodes[k + 1..], m - 1) else r + FirstOk(nodes[k + 1..], m)
  {
    assert nodes[k..][1..] == nodes[k + 1..];
  }

  lemma {:induction false} FirstOkEnds(nodes: seq<UdpNode>, k: nat, r: seq<UdpNode>, m: nat)
    requires k <= |nodes| && (k == |nodes| || m == 0)
    ensures r + FirstOk(nodes[k..], m) == r
  {
  }

  ghost function Splits(target: Id, n: nat): seq<Op>
  {
    seq(n, _ => Op.Split(target))
  }

  lemma {:induction false} RunAppend(t: Table, ops: seq<Op>, op: Op)
    requires ValidTable(t)
    ensures Run(t, ops + [op]) == Step(Run(t, ops), op)
    decreases |ops|
  {
    if ops == [] {
      assert ops + [op] == [op];
    } else {
      StepValid(t, ops[0]);
      assert (ops + [op])[1..] == ops[1..] + [op];
      RunAppend(Step(t, ops[0]), ops[1..], op);
    }
  }

  /** What one more effective split adds to a run of splits. */
  lemma SplitOnce(t: Table, u: Table, target: Id, n: nat)
    requires ValidTable(t) && u == Run(t, Splits(target, n))
    requires Splittable(u, BestMatch(u, target))
    ensures var v := SplitNode(u, target);
            && v != [] && |v| == |u| + 1
            && v == Run(t, Splits(target, n + 1))
            && TargetLevel(v, target) == TargetLevel(u, target) - 1 >= 3
  {
    SplitHalvesTarget(u, target);
    RunAppend(t, Splits(target, n), Op.Split(target));
    assert Splits(target, n + 1) == Splits(target, n) + [Op.Split(target)];
  }

  lemma SplitFinds(u: Table, target: Id)
    requires ValidTable(u)
    ensures SplitNode(u, target) != []
    ensures forall id: Id :: Find(SplitNode(u, target), id) == Find(u, id)
  {
    SplitNodeValid(u, target);
    forall id: Id
      ensures Find(SplitNode(u, target), id) == Find(u, id)
    {
      SplitNodeFind(u, target, id);
    }
  }

  lemma LevelBound(t: Table, id: Id)
    requires ValidTable(t)
    ensures 0 <= TargetLevel(t, id) <= ID_BITS
  {
    var i := BestMatch(t, id);
    assert Aligned(Lo(t, i), Hi(t, i));
  }

  lemma EndOfSpace(k: nat)
    requires k == ID_BITS
    ensures LowestBit(Pow2(k)) == -1
  {
    TrailingZerosShift(1, k);
  }

  // ----- a failed search for any match -----

  ghost function Puts(nodes: seq<UdpNode>): seq<Op>
  {
    seq(|nodes|, k requires 0 <= k < |nodes| => Op.Put(nodes[k]))
  }

  lemma ShorterDistinct(nodes: seq<UdpNode>, m: nat)
    requires Distinct(nodes) && m == |nodes| - 1
    ensures Distinct(nodes[..m]) && forall k :: 0 <= k < m ==> nodes[..m][k].id != nodes[m].id
  {
  }

  lemma {:induction false} PutsReach(nodes: seq<UdpNode>)
    requires |nodes| <= BCKT_SIZE_MAX && Distinct(nodes)
    ensures Reached(Puts(nodes)) == [Buck(ZeroId(), nodes)]
  {
    hide Value, ValidTable, Distinct;
    if nodes != [] {
      var m := |nodes| - 1;
      ShorterDistinct(nodes, m);
      PutsReach(nodes[..m]);
      assert Puts(nodes) == Puts(nodes[..m]) + [Op.Put(nodes[m])];
      InitialTableValid();
      RunAppend(InitialTable(), Puts(nodes[..m]), Op.Put(nodes[m]));
      FindInNone(nodes[..m], nodes[m].id);
      assert nodes == nodes[..m] + [nodes[m]];
    }
  }

  lemma {:induction false} SelectAll(nodes: seq<UdpNode>, lo: nat, hi: nat)
    requires forall k :: 0 <= k < |nodes| ==> lo <= Value(nodes[k].id) < hi
    ensures Select(nodes, lo, hi) == nodes
  {
    if nodes != [] {
      SelectAll(nodes[..|nodes| - 1], lo, hi);
    }
  }

  lemma {:induction false} SelectNone(nodes: seq<UdpNode>, lo: nat, hi: nat)
    requires forall k :: 0 <= k < |nodes| ==> Value(nodes[k].id) >= hi
    ensures Select(nodes, lo, hi) == []
  {
    if nodes != [] {
      SelectNone(nodes[..|nodes| - 1], lo, hi);
    }
  }

  /** Cutting the first bucket when all its nodes lie in the upper half. */
  lemma UpperHalfSplit(t: Table, target: Id)
    requires ValidTable(t) && |t| == 1 && Splittable(t, 0)
    requires forall k :: 0 <= k < |t[0].nodes| ==> 2 * Value(t[0].nodes[k].id) >= Hi(t, 0)
    ensures var u := SplitNode(t, target);
            |u| == 2 && u[0].nodes == [] && u[1].nodes == t[0].nodes && 2 * Lo(u, 1) == Hi(t, 0)
  {
    hide Level, Value, Pow2, WithBit, Aligned;
    var nodes := t[0].nodes;
    SplittableIsWide(t, 0);
    BucketAligned(t, 0);
    SplitIdIsMidpoint(t, 0);
    var mid := Value(SplitId(t, 0));
    assert nodes[..|nodes|] == nodes && Placed(t, 0);
    assert BestMatch(t, target) == 0;
    SelectNone(nodes, Lo(t, 0), mid);
    SelectAll(nodes, mid, Hi(t, 0));
  }

  /** A failed search for any match does not mean an empty table: after nine or more nodes
      of the upper half and one split, a search in the lower half comes back with nothing. */
  lemma NoMatchInNonEmptyTable(nodes: seq<UdpNode>, target: Id, id: Id)
    requires 8 < |nodes| <= 20 && Distinct(nodes)
    requires forall k :: 0 <= k < |nodes| ==> 2 * Value(nodes[k].id) >= Hi(InitialTable(), 0)
    requires 2 * Value(id) < Hi(InitialTable(), 0)
    ensures var t := Reached(Puts(nodes) + [Op.Split(target)]);
            |t| == 2 && t[1].nodes == nodes && NonEmptyAtOrBelow(t, BestMatch(t, id)).None?
  {
    hide Value, ValidTable, SplitNode;
    PutsReach(nodes);
    InitialTableValid();
    RunAppend(InitialTable(), Puts(nodes), Op.Split(target));
    var t := Reached(Puts(nodes));
    UpperHalfSplit(t, target);
    var u := Reached(Puts(nodes) + [Op.Split(target)]);
    assert u == SplitNode(t, target);
    assert BestFrom(u, id, 0) == 0;
  }

  lemma HasBuckets(t: Table)
    requires ValidTable(t)
    ensures t != []
  {
  }

  lemma BucketAligned(t: Table, i: nat)
    requires ValidTable(t) && i < |t|
    ensures Aligned(Lo(t, i), Hi(t, i))
  {
  }

  /** One round of the redistribution loop: the next node goes to one of the two halves. */
  lemma SplitHandOut(t: Table, i: nat, k: nat)
    requires ValidTable(t) && i < |t| && Splittable(t, i) && k < |t[i].nodes|
    requires 1 <= Level(Lo(t, i), Hi(t, i)) <= ID_BITS
    ensures var u, n := SplitUpTo(t, i, k), t[i].nodes[k];
            SplitUpTo(t, i, k + 1) == Stored(u, BestMatch(u, n.id), n)
  {
    hide Level, SplitId, Distinct, Select, Aligned, BestMatch, ValidTable;
    var nodes, mid := t[i].nodes, Value(SplitId(t, i));
    BucketPlaced(t, i);
    SelectNext(nodes, k, Lo(t, i), mid);
    SelectNext(nodes, k, mid, Hi(t, i));
    BestMatchUnique(t, nodes[k].id, i);
    SplitBestMatch(t, i, k, nodes[k].id);
  }

  lemma BucketPlaced(t: Table, i: nat)
    requires ValidTable(t) && i < |t|
    ensures Partition(t) && Placed(t, i)
  {
  }

  lemma SelectNext(nodes: seq<UdpNode>, k: nat, lo: nat, hi: nat)
    requires k < |nodes|
    ensures Select(nodes[..k + 1], lo, hi) ==
            if lo <= Value(nodes[k].id) < hi then Select(nodes[..k], lo, hi) + [nodes[k]] else Select(nodes[..k], lo, hi)
  {
    assert nodes[..k + 1][..k] == nodes[..k];
  }
}
