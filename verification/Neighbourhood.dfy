/**
 The neighbourhood (src/p2p/neighbourhood.c): the bucket table and a hash index
 over the same node objects.
 */
module Neighbourhood {
  import opened Collections
  import opened Bytes
  import opened UdpNodes
  import opened Bucket

  /** The index answers every id exactly as a search of the table does. */
  ghost predicate Indexed(t: Table, hash: map<Id, UdpNode>)
    requires t != []
  {
    forall id: Id :: Find(t, id) == if id in hash then Some(hash[id]) else None
  }

  /** The nodes that are not to go, in list order. */
  ghost function Kept(nodes: seq<UdpNode>, bad: set<UdpNode>): (r: seq<UdpNode>)
    ensures |r| <= |nodes|
  {
    if nodes == [] then [] else
      var n := |nodes| - 1;
      Kept(nodes[..n], bad) + if nodes[n] in bad then [] else [nodes[n]]
  }

  lemma {:induction false} KeptMembers(nodes: seq<UdpNode>, bad: set<UdpNode>)
    ensures forall k :: 0 <= k < |Kept(nodes, bad)| ==> Kept(nodes, bad)[k] in nodes && Kept(nodes, bad)[k] !in bad
  {
    if nodes != [] {
      KeptMembers(nodes[..|nodes| - 1], bad);
    }
  }

  /** The first i buckets have lost their bad nodes, the others are as before. */
  ghost predicate ExpiredUpTo(t: Table, u: Table, i: nat, bad: set<UdpNode>)
  {
    && |u| == |t| && i <= |t|
    && (forall j :: 0 <= j < i ==> u[j] == t[j].(nodes := Kept(t[j].nodes, bad)))
    && (forall j :: i <= j < |t| ==> u[j] == t[j])
  }

  lemma {:induction false} WithoutAt(a: seq<UdpNode>, n: UdpNode, b: seq<UdpNode>)
    requires Distinct(a + [n] + b)
    ensures Without(a + [n] + b, n.id) == a + b
  {
    var s := a + [n] + b;
    if a == [] {
      assert s[1..] == b && a + b == b;
    } else {
      assert s[0].id != s[|a|].id;
      assert s[1..] == a[1..] + [n] + b;
      WithoutAt(a[1..], n, b);
      assert a + b == [a[0]] + (a[1..] + b);
    }
  }

  ghost function WithContents(t: Table, i: nat, nodes: seq<UdpNode>): Table
    requires i < |t|
  {
    t[i := t[i].(nodes := nodes)]
  }

  /** Deleting a stored node takes just it out of its own bucket. */
  lemma DeletedAt(t: Table, i: nat, a: seq<UdpNode>, n: UdpNode, b: seq<UdpNode>)
    requires i < |t| && ValidTable(WithContents(t, i, a + [n] + b))
    ensures DelNode(WithContents(t, i, a + [n] + b), n.id) == WithContents(t, i, a + b)
    ensures Find(WithContents(t, i, a + [n] + b), n.id) == Some(n)
  {
    var u := WithContents(t, i, a + [n] + b);
    assert Placed(u, i) && u[i].nodes[|a|] == n;
    BestMatchUnique(u, n.id, i);
    FindIffStored(u, n);
    WithoutAt(a, n, b);
  }

  lemma KeptStep(nodes: seq<UdpNode>, m: nat, bad: set<UdpNode>)
    requires m < |nodes|
    ensures Kept(nodes[..m], bad) + nodes[m..] == Kept(nodes[..m], bad) + [nodes[m]] + nodes[m + 1..]
    ensures Kept(nodes[..m + 1], bad) == Kept(nodes[..m], bad) + if nodes[m] in bad then [] else [nodes[m]]
    ensures nodes[m] in bad ==> Kept(nodes[..m + 1], bad) == Kept(nodes[..m], bad)
  {
    assert nodes[..m + 1][..m] == nodes[..m];
  }

  lemma IndexedNode(t: Table, hash: map<Id, UdpNode>, id: Id)
    requires t != [] && Indexed(t, hash) && id in hash
    ensures hash[id].id == id && hash[id] in t[BestMatch(t, id)].nodes
  {
    assert Find(t, id) == Some(hash[id]);
    FindInNone(t[BestMatch(t, id)].nodes, id);
  }

  lemma NoneBadLeft(t: Table, u: Table, hash: map<Id, UdpNode>, bad: set<UdpNode>)
    requires u != [] && Indexed(u, hash) && ExpiredUpTo(t, u, |t|, bad)
    ensures forall id :: id in hash ==> hash[id] !in bad
  {
    forall id | id in hash
      ensures hash[id] !in bad
    {
      IndexedNode(u, hash, id);
      KeptMembers(t[BestMatch(u, id)].nodes, bad);
    }
  }

  /** The later index is the earlier one without some of the bad nodes. */
  ghost predicate Shrunk(h: map<Id, UdpNode>, g: map<Id, UdpNode>, bad: set<UdpNode>)
  {
    && (forall id :: id in g ==> id in h && g[id] == h[id])
    && (forall id :: id in h && h[id] !in bad ==> id in g)
  }

  lemma BucketBegins(t: Table, u: Table, i: nat, bad: set<UdpNode>)
    requires ExpiredUpTo(t, u, i, bad) && i < |t|
    ensures i < |u| && Kept(t[i].nodes[..0], bad) == [] && u == WithContents(u, i, [] + t[i].nodes[0..])
  {
    assert [] + t[i].nodes[0..] == t[i].nodes;
  }

  lemma BucketEnds(t: Table, u: Table, i: nat, bad: set<UdpNode>, m: nat)
    requires ExpiredUpTo(t, u, i, bad) && i < |t| && m == |t[i].nodes|
    ensures ExpiredUpTo(t, WithContents(u, i, Kept(t[i].nodes[..m], bad) + t[i].nodes[m..]), i + 1, bad)
  {
    hide Kept;
    assert t[i].nodes[..m] == t[i].nodes;
    assert Kept(t[i].nodes, bad) + t[i].nodes[m..] == Kept(t[i].nodes, bad);
  }

  class Neighbourhood {
    const me: Id
    const table: RoutingTable
    var hash: map<Id, UdpNode>

    ghost predicate Valid()
      reads this, table
    {
      ValidTable(table.buckets) && Indexed(table.buckets, hash) && me !in hash
    }

    constructor (me: Id)
      ensures Valid() && fresh(table) && this.me == me && hash == map[]
    {
      this.me := me;
      table := new RoutingTable();
      hash := map[];
      new;
      assert forall id: Id :: FindIn(InitialTable()[0].nodes, id) == None;
    }

    /** `nbhd_put`: oneself and localhost are ignored, a known node only gets its
        address updated, and a new one is stored if its bucket has room. */
    method Put(id: Id, sa: Endpoint, localhost: bool)
      requires Valid()
      modifies this, table, hash.Values
      ensures Valid()
      ensures id == me || localhost ==> hash == old(hash) && table.buckets == old(table.buckets)
      ensures id != me && !localhost && id in old(hash) ==>
                hash == old(hash) && table.buckets == old(table.buckets)
                && hash[id].addr == sa && hash[id].pinged == old(hash[id].pinged)
      ensures forall other :: other in old(hash) && (other != id || id == me || localhost) ==>
                other in hash && hash[other] == old(hash)[other] && hash[other].Data() == old(hash[other].Data())
      ensures id != me && !localhost && id !in old(hash) ==>
                if |old(table.buckets)[BestMatch(old(table.buckets), id)].nodes| < 20 then
                  && id in hash && fresh(hash[id]) && hash[id].id == id && hash[id].addr == sa && hash[id].pinged == 0
                  && hash == old(hash)[id := hash[id]]
                  && table.buckets == PutNode(old(table.buckets), hash[id])
                else hash == old(hash) && table.buckets == old(table.buckets)
    {
      hide ValidTable, Indexed, BestMatch, PutNode;
      if id == me || localhost {
        return;
      }
      if id in hash {
        OthersApart(id);
        hash[id].addr := sa;
        return;
      }
      var n := new UdpNode(id, sa);
      PutNew(n);
    }

    /** The part of `nbhd_put` for an unknown node. */
    method PutNew(n: UdpNode)
      requires Valid() && n.id !in hash && n.id != me
      modifies this, table
      ensures Valid()
      ensures if |old(table.buckets)[BestMatch(old(table.buckets), n.id)].nodes| < 20
              then hash == old(hash)[n.id := n] && table.buckets == PutNode(old(table.buckets), n)
              else hash == old(hash) && table.buckets == old(table.buckets)
    {
      hide ValidTable, BestMatch;
      ghost var t := table.buckets;
      assert Find(t, n.id) == None;
      var ok := table.Put(n);
      if !ok {
        return;
      }
      hash := hash[n.id := n];
      forall other: Id
        ensures Find(table.buckets, other) == if other in hash then Some(hash[other]) else None
      {
        PutNodeFind(t, n, other);
      }
    }

    /** `nbhd_del` */
    method Del(n: UdpNode)
      requires Valid()
      modifies this, table
      ensures Valid()
      ensures hash == old(hash) - {n.id}
      ensures table.buckets == DelNode(old(table.buckets), n.id)
    {
      ghost var t := table.buckets;
      table.Del(n.id);
      hash := hash - {n.id};
      forall other: Id
        ensures Find(table.buckets, other) == if other in hash then Some(hash[other]) else None
      {
        DelNodeFind(t, n.id, other);
      }
    }

    lemma OthersApart(id: Id)
      requires Valid() && id in hash
      ensures forall other :: other in hash && other != id ==> hash[other] != hash[id]
    {
      forall other | other in hash && other != id
        ensures hash[other] != hash[id]
      {
        IndexedNode(table.buckets, hash, id);
        IndexedNode(table.buckets, hash, other);
      }
    }

    /** `nbhd_pinged` */
    method Pinged(id: Id, timePing: int)
      requires Valid()
      modifies hash.Values
      ensures Valid()
      ensures id in hash ==> hash[id].pinged == old(hash[id].pinged) + 1 && hash[id].timePing == timePing
      ensures id in hash ==> hash[id].addr == old(hash[id].addr)
      ensures forall other :: other in hash && other != id ==> hash[other].Data() == old(hash[other].Data())
    {
      if id in hash {
        OthersApart(id);
        hash[id].pinged := hash[id].pinged + 1;
        hash[id].timePing := timePing;
      }
    }

    /** `nbhd_ponged` */
    method Ponged(id: Id, from: Endpoint, timePing: int)
      requires Valid()
      modifies hash.Values
      ensures Valid()
      ensures id in hash ==> hash[id].pinged == 0 && hash[id].timePing == timePing && hash[id].addr == from
      ensures forall other :: other in hash && other != id ==> hash[other].Data() == old(hash[other].Data())
    {
      if id in hash {
        OthersApart(id);
        hash[id].pinged := 0;
        hash[id].timePing := timePing;
        hash[id].addr := from;
      }
    }

    ghost function BadNodes(): set<UdpNode>
      reads this, hash.Values
    {
      set n | n in hash.Values && n.Bad()
    }

    /** `nbhd_expire`: exactly the nodes with four or more unanswered pings go,
        from the table and from the index. */
    method Expire()
      requires Valid()
      modifies this, table
      ensures Valid()
      ensures ExpiredUpTo(old(table.buckets), table.buckets, |table.buckets|, old(BadNodes()))
      ensures hash.Keys == set id | id in old(hash) && old(hash[id].pinged) < 4
      ensures forall id :: id in hash ==> hash[id] == old(hash)[id]
    {
      hide ValidTable, Indexed, BestMatch, Find;
      ghost var t, bad := table.buckets, BadNodes();
      HasBuckets(t);
      var i := 0;
      while i < |table.buckets|
        invariant Valid() && ExpiredUpTo(t, table.buckets, i, bad)
        invariant Shrunk(old(hash), hash, bad)
      {
        ExpireBucket(i, t, bad);
        i := i + 1;
      }
      NoneBadLeft(t, table.buckets, hash, bad);
    }

    /** One node of `nbhd_expire`. */
    method ExpireNode(ghost u: Table, ghost i: nat, ghost a: seq<UdpNode>, n: UdpNode, ghost b: seq<UdpNode>,
                      ghost bad: set<UdpNode>) returns (gone: bool)
      requires Valid() && i < |u| && table.buckets == WithContents(u, i, a + [n] + b)
      requires forall id :: id in hash ==> (hash[id].Bad() <==> hash[id] in bad)
      modifies this, table
      ensures Valid() && Shrunk(old(hash), hash, bad)
      ensures table.buckets == WithContents(u, i, if n in bad then a + b else a + [n] + b)
      ensures gone <==> n in bad
    {
      DeletedAt(u, i, a, n, b);
      assert n.id in hash && hash[n.id] == n;
      gone := n.Bad();
      if gone {
        Del(n);
      }
    }

    /** The inner loop of `nbhd_expire`. */
    method ExpireBucket(i: nat, ghost t: Table, ghost bad: set<UdpNode>)
      requires Valid() && i < |t| && ExpiredUpTo(t, table.buckets, i, bad)
      requires forall id :: id in hash ==> (hash[id].Bad() <==> hash[id] in bad)
      modifies this, table
      ensures Valid() && ExpiredUpTo(t, table.buckets, i + 1, bad)
      ensures Shrunk(old(hash), hash, bad)
    {
      hide ValidTable, Indexed, BestMatch, Find, Kept, ExpiredUpTo;
      ghost var u, nodes, m := table.buckets, t[i].nodes, 0;
      var k := 0;
      BucketBegins(t, u, i, bad);
      while k < |table.buckets[i].nodes|
        invariant Valid() && m <= |nodes| && k == |Kept(nodes[..m], bad)|
        invariant table.buckets == WithContents(u, i, Kept(nodes[..m], bad) + nodes[m..])
        invariant Shrunk(old(hash), hash, bad)
        decreases |nodes| - m
      {
        var n := table.buckets[i].nodes[k];
        KeptStep(nodes, m, bad);
        var gone := ExpireNode(u, i, Kept(nodes[..m], bad), n, nodes[m + 1..], bad);
        if !gone {
          k := k + 1;
        }
        m := m + 1;
      }
      BucketEnds(t, u, i, bad, m);
    }

    /** `nbhd_split` */
    method Split(target: Id)
      requires Valid()
      modifies table
      ensures Valid()
      ensures |table.buckets[BestMatch(table.buckets, target)].nodes| <= 8
    {
      var change, splits := table.SplitLoop(target);
    }
  }
}
