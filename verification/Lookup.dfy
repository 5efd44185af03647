/**
 One iterative lookup (src/p2p/lookup.c): the nodes heard of, nearest to the target
 first, and the requests sent on its behalf.
 */
module Lookup {
  import opened Collections
  import opened Bytes
  import opened UdpNodes

  const LIST_MAX := 32767
  const ASK := 8

  /** What the lookup knows about one node; the token is empty until one arrives. */
  datatype NodeL = NodeL(addr: Endpoint, token: seq<Byte>)

  datatype Look = Look(target: Id, list: seq<Id>, hash: map<Id, NodeL>)

  datatype Contact = Contact(id: Id, addr: Endpoint, linklocal: bool)

  ghost predicate Ascending(list: seq<Id>, target: Id)
  {
    forall i, j :: 0 <= i < j < |list| ==> Distance(list[i], target) < Distance(list[j], target)
  }

  ghost predicate WellFormed(l: Look)
  {
    && Ascending(l.list, l.target)
    && |l.list| <= LIST_MAX
    && (forall id :: id in l.hash <==> id in l.list)
  }

  /** The requests sent so far went to distinct known nodes, among them all of the first eight. */
  ghost predicate Asked(l: Look, sent: seq<Id>)
  {
    && NoDuplicates(sent)
    && (forall k :: 0 <= k < |sent| ==> sent[k] in l.list)
    && (forall k :: 0 <= k < |l.list| && k < ASK ==> l.list[k] in sent)
  }

  // ----- ldb_put -----

  /** Position of the first node from i on that is farther away than id. */
  ghost function PlaceFrom(list: seq<Id>, id: Id, target: Id, i: nat): (k: nat)
    requires i <= |list|
    ensures i <= k <= |list|
    decreases |list| - i
  {
    if i == |list| || Distance(id, target) < Distance(list[i], target) then i
    else PlaceFrom(list, id, target, i + 1)
  }

  ghost function Put(l: Look, id: Id, addr: Endpoint): Look
  {
    if |l.list| >= LIST_MAX then l else
      var k := PlaceFrom(l.list, id, l.target, 0);
      l.(list := Inserted(l.list, k, id), hash := l.hash[id := NodeL(addr, [])])
  }

  ghost function PutIndex(l: Look, id: Id): nat
  {
    if |l.list| >= LIST_MAX then LIST_MAX else PlaceFrom(l.list, id, l.target, 0)
  }

  /** Everything in front of the place is at most as far, everything behind is farther. */
  lemma {:induction false} PlaceSplits(list: seq<Id>, id: Id, target: Id, i: nat)
    requires i <= |list| && Ascending(list, target)
    requires forall j :: 0 <= j < i ==> Distance(list[j], target) <= Distance(id, target)
    ensures var k := PlaceFrom(list, id, target, i);
            && (forall j :: 0 <= j < k ==> Distance(list[j], target) <= Distance(id, target))
            && (forall j :: k <= j < |list| ==> Distance(id, target) < Distance(list[j], target))
    decreases |list| - i
  {
    hide Distance;
    if i < |list| && Distance(id, target) >= Distance(list[i], target) {
      PlaceSplits(list, id, target, i + 1);
    }
  }

  /** The returned index is the number of stored nodes closer than the new one. */
  lemma PutIndexCounts(l: Look, id: Id)
    requires WellFormed(l) && id !in l.list && |l.list| < 32767
    ensures var k := PutIndex(l, id);
            && k <= |l.list|
            && (forall j :: 0 <= j < |l.list| ==>
                  (Distance(l.list[j], l.target) < Distance(id, l.target) <==> j < k))
  {
    hide Distance;
    PlaceSplits(l.list, id, l.target, 0);
    forall j | 0 <= j < |l.list|
      ensures Distance(l.list[j], l.target) != Distance(id, l.target)
    {
      DistanceInjective(l.list[j], id, l.target);
    }
  }

  lemma InsertNew(list: seq<Id>, id: Id, target: Id)
    requires Ascending(list, target) && id !in list
    ensures Ascending(Inserted(list, PlaceFrom(list, id, target, 0), id), target)
  {
    hide Distance, PlaceFrom;
    var k := PlaceFrom(list, id, target, 0);
    var r := Inserted(list, k, id);
    PlaceSplits(list, id, target, 0);
    assert r[k] == id && (forall i :: 0 <= i < k ==> r[i] == list[i]) && (forall i :: k < i < |r| ==> r[i] == list[i - 1]);
    hide Inserted;
    forall i, j | 0 <= i < j < |r|
      ensures Distance(r[i], target) < Distance(r[j], target)
    {
      if j == k {
        DistanceInjective(list[i], id, target);
      }
    }
  }

  /** Inserting keeps the list strictly ascending exactly when the id is new. */
  lemma InsertAscendingIff(list: seq<Id>, id: Id, target: Id)
    requires Ascending(list, target)
    ensures Ascending(Inserted(list, PlaceFrom(list, id, target, 0), id), target) <==> id !in list
  {
    if id in list {
      hide Distance, PlaceFrom;
      var k := PlaceFrom(list, id, target, 0);
      var r := Inserted(list, k, id);
      PlaceSplits(list, id, target, 0);
      var j :| 0 <= j < |list| && list[j] == id;
      assert j < k && r[j] == id && r[k] == id;
    } else {
      InsertNew(list, id, target);
    }
  }

  lemma InsertedMembers(list: seq<Id>, k: nat, id: Id, x: Id)
    requires k <= |list|
    ensures x in Inserted(list, k, id) <==> x == id || x in list
  {
    assert list == list[..k] + list[k..];
  }

  lemma PutWellFormed(l: Look, id: Id, addr: Endpoint)
    requires WellFormed(l) && id !in l.list
    ensures WellFormed(Put(l, id, addr))
    ensures forall x :: x in Put(l, id, addr).list <==> x in l.list || (x == id && |l.list| < LIST_MAX)
  {
    hide Distance;
    if |l.list| < LIST_MAX {
      InsertAscendingIff(l.list, id, l.target);
      var k := PlaceFrom(l.list, id, l.target, 0);
      forall x: Id
        ensures x in Inserted(l.list, k, id) <==> x == id || x in l.list
      {
        InsertedMembers(l.list, k, id, x);
      }
    }
  }

  // ----- hearing of nodes -----

  /** A lookup together with the requests sent for it. */
  datatype Search = Search(look: Look, sent: seq<Id>)

  ghost predicate Valid(s: Search)
  {
    WellFormed(s.look) && Asked(s.look, s.sent)
  }

  /** One seed: remembered and asked. */
  ghost function Seeded(s: Search, c: Contact): Search
  {
    Search(Put(s.look, c.id, c.addr), s.sent + [c.id])
  }

  /** One node from a reply: ignored, only remembered, or remembered and asked. */
  ghost function Heard(s: Search, me: Id, c: Contact): Search
  {
    if c.id == me || c.linklocal || c.id in s.look.hash then s
    else if PutIndex(s.look, c.id) >= ASK then s.(look := Put(s.look, c.id, c.addr))
    else Search(Put(s.look, c.id, c.addr), s.sent + [c.id])
  }

  /** `ldb_update` */
  function Updated(l: Look, id: Id, token: seq<Byte>, addr: Endpoint): Look
  {
    if id in l.hash then l.(hash := l.hash[id := NodeL(addr, token)]) else l
  }

  lemma UpdatedValid(s: Search, id: Id, token: seq<Byte>, addr: Endpoint)
    requires Valid(s)
    ensures Valid(s.(look := Updated(s.look, id, token, addr)))
  {
  }

  /** A new node that is asked. */
  lemma PutAsked(s: Search, id: Id, addr: Endpoint)
    requires Valid(s) && id !in s.look.list && |s.look.list| < LIST_MAX
    ensures Valid(Search(Put(s.look, id, addr), s.sent + [id]))
  {
    hide Distance;
    PutWellFormed(s.look, id, addr);
    PutFirstEight(s, id, addr);
    PutSentListed(s, id, addr);
    hide WellFormed;
    assert NoDuplicates(s.sent + [id]);
  }

  lemma PutSentListed(s: Search, id: Id, addr: Endpoint)
    requires Asked(s.look, s.sent) && |s.look.list| < LIST_MAX
    ensures forall k :: 0 <= k < |s.sent + [id]| ==> (s.sent + [id])[k] in Put(s.look, id, addr).list
  {
    hide PlaceFrom, Distance;
    var p := PlaceFrom(s.look.list, id, s.look.target, 0);
    forall k | 0 <= k < |s.sent + [id]|
      ensures (s.sent + [id])[k] in Put(s.look, id, addr).list
    {
      InsertedMembers(s.look.list, p, id, (s.sent + [id])[k]);
    }
  }

  lemma PutFirstEight(s: Search, id: Id, addr: Endpoint)
    requires Asked(s.look, s.sent) && |s.look.list| < LIST_MAX
    ensures forall i :: 0 <= i < |Put(s.look, id, addr).list| && i < ASK ==> Put(s.look, id, addr).list[i] in s.sent + [id]
  {
    hide PlaceFrom, Distance;
    var l, sent := Put(s.look, id, addr), s.sent + [id];
    var k := PlaceFrom(s.look.list, id, s.look.target, 0);
    forall i | 0 <= i < |l.list| && i < ASK
      ensures l.list[i] in sent
    {
      if i < k {
        assert l.list[i] == s.look.list[i];
      } else if i > k {
        assert l.list[i] == s.look.list[i - 1];
      } else {
        assert sent[|s.sent|] == id;
      }
    }
  }

  /** A new node beyond the eighth place is not asked, nor is one that found the list full. */
  lemma PutUnasked(s: Search, id: Id, addr: Endpoint)
    requires Valid(s) && id !in s.look.list && PutIndex(s.look, id) >= 8
    ensures Valid(s.(look := Put(s.look, id, addr)))
  {
    hide WellFormed, PlaceFrom, NoDuplicates;
    PutWellFormed(s.look, id, addr);
    PutAskedStill(s.look, s.sent, id, addr);
  }

  lemma PutAskedStill(look: Look, sent: seq<Id>, id: Id, addr: Endpoint)
    requires Asked(look, sent) && PutIndex(look, id) >= ASK
    requires forall x :: x in look.list ==> x in Put(look, id, addr).list
    ensures Asked(Put(look, id, addr), sent)
  {
    hide PlaceFrom, NoDuplicates;
    var l := Put(look, id, addr);
    forall i | 0 <= i < |l.list| && i < ASK
      ensures l.list[i] in sent
    {
      assert l.list[i] == look.list[i];
    }
  }

  lemma HeardValid(s: Search, me: Id, c: Contact)
    requires Valid(s)
    ensures Valid(Heard(s, me, c))
  {
    if !(c.id == me || c.linklocal || c.id in s.look.hash) {
      if PutIndex(s.look, c.id) >= ASK {
        PutUnasked(s, c.id, c.addr);
      } else {
        PutAsked(s, c.id, c.addr);
      }
    }
  }

  lemma SeededValid(s: Search, c: Contact)
    requires Valid(s) && c.id !in s.look.list && |s.look.list| < ASK
    ensures Valid(Seeded(s, c)) && |Seeded(s, c).look.list| == |s.look.list| + 1
  {
    PutAsked(s, c.id, c.addr);
  }

  ghost function HeardAll(s: Search, me: Id, cs: seq<Contact>): Search
    decreases |cs|
  {
    if cs == [] then s else HeardAll(Heard(s, me, cs[0]), me, cs[1..])
  }

  ghost function SeededAll(s: Search, cs: seq<Contact>): Search
    decreases |cs|
  {
    if cs == [] then s else SeededAll(Seeded(s, cs[0]), cs[1..])
  }

  ghost predicate DistinctContacts(cs: seq<Contact>)
  {
    forall i, j :: 0 <= i < j < |cs| ==> cs[i].id != cs[j].id
  }

  lemma {:induction false} HeardAllValid(s: Search, me: Id, cs: seq<Contact>)
    requires Valid(s)
    ensures Valid(HeardAll(s, me, cs))
    decreases |cs|
  {
    if cs != [] {
      HeardValid(s, me, cs[0]);
      HeardAllValid(Heard(s, me, cs[0]), me, cs[1..]);
    }
  }

  lemma {:induction false} SeededAllValid(s: Search, cs: seq<Contact>)
    requires Valid(s) && DistinctContacts(cs) && |s.look.list| + |cs| <= ASK
    requires forall i :: 0 <= i < |cs| ==> cs[i].id !in s.look.list
    ensures Valid(SeededAll(s, cs))
    decreases |cs|
  {
    if cs != [] {
      SeededValid(s, cs[0]);
      PutWellFormed(s.look, cs[0].id, cs[0].addr);
      SeededAllValid(Seeded(s, cs[0]), cs[1..]);
    }
  }

  lemma HeardGrows(s: Search, me: Id, c: Contact, x: Id)
    requires x in s.look.list
    ensures x in Heard(s, me, c).look.list && |s.look.list| <= |Heard(s, me, c).look.list|
  {
    InsertedMembers(s.look.list, PlaceFrom(s.look.list, c.id, s.look.target, 0), c.id, x);
  }

  lemma {:induction false} HeardAllGrows(s: Search, me: Id, cs: seq<Contact>, x: Id)
    requires x in s.look.list
    ensures x in HeardAll(s, me, cs).look.list && |s.look.list| <= |HeardAll(s, me, cs).look.list|
    decreases |cs|
  {
    if cs != [] {
      HeardGrows(s, me, cs[0], x);
      HeardAllGrows(Heard(s, me, cs[0]), me, cs[1..], x);
    }
  }

  /** Short of the limit no usable node of a reply is forgotten. */
  lemma {:induction false} HeardAllRemembers(s: Search, me: Id, cs: seq<Contact>, i: nat)
    requires Valid(s) && i < |cs| && cs[i].id != me && !cs[i].linklocal
    ensures cs[i].id in HeardAll(s, me, cs).look.list || |HeardAll(s, me, cs).look.list| >= 32767
    decreases |cs|
  {
    var t := Heard(s, me, cs[0]);
    HeardValid(s, me, cs[0]);
    if i > 0 {
      HeardAllRemembers(t, me, cs[1..], i - 1);
    } else if cs[0].id in s.look.hash {
      HeardAllGrows(s, me, cs, cs[0].id);
    } else {
      InsertedMembers(s.look.list, PlaceFrom(s.look.list, cs[0].id, s.look.target, 0), cs[0].id, cs[0].id);
      if |s.look.list| >= LIST_MAX {
        HeardAllGrows(t, me, cs[1..], s.look.list[0]);
      } else {
        HeardAllGrows(t, me, cs[1..], cs[0].id);
      }
    }
  }

  function NewLook(target: Id): Look
  {
    Look(target, [], map[])
  }

  /** Distinct ids that all occur in a list are no more than the list is long. */
  lemma {:induction false} FewerThanList(sent: seq<Id>, list: seq<Id>)
    requires NoDuplicates(sent) && forall k :: 0 <= k < |sent| ==> sent[k] in list
    ensures |sent| <= |list|
    decreases |sent|
  {
    if sent != [] {
      var n := |sent| - 1;
      var k :| 0 <= k < |list| && list[k] == sent[n];
      var rest := list[..k] + list[k + 1..];
      forall i | 0 <= i < n
        ensures sent[..n][i] in rest
      {
        assert sent[i] in list && sent[i] != sent[n];
        assert list == list[..k] + [list[k]] + list[k + 1..];
      }
      FewerThanList(sent[..n], rest);
    }
  }

  lemma RequestBound(s: Search)
    requires Valid(s)
    ensures |s.sent| <= 32767
  {
    FewerThanList(s.sent, s.look.list);
  }

  // ----- announcing -----

  /** The first m nodes of a list that supplied a token. */
  function TokenHolders(list: seq<Id>, hash: map<Id, NodeL>, m: nat): (r: seq<Id>)
    ensures |r| <= m
  {
    if list == [] || m == 0 then []
    else if list[0] in hash && hash[list[0]].token != [] then [list[0]] + TokenHolders(list[1..], hash, m - 1)
    else TokenHolders(list[1..], hash, m)
  }

  predicate HasToken(hash: map<Id, NodeL>, id: Id)
  {
    id in hash && hash[id].token != []
  }

  lemma TokenHoldersStep(list: seq<Id>, i: nat, hash: map<Id, NodeL>, m: nat)
    requires i < |list| && m > 0
    ensures TokenHolders(list[i..], hash, m) ==
            if HasToken(hash, list[i]) then [list[i]] + TokenHolders(list[i + 1..], hash, m - 1)
            else TokenHolders(list[i + 1..], hash, m)
  {
    assert list[i..][1..] == list[i + 1..];
  }

  lemma TokenHoldersEnd(list: seq<Id>, i: nat, hash: map<Id, NodeL>, m: nat)
    requires i <= |list| && (i == |list| || m == 0)
    ensures TokenHolders(list[i..], hash, m) == []
  {
  }

  lemma {:induction false} TokenHoldersListed(list: seq<Id>, hash: map<Id, NodeL>, m: nat)
    ensures forall k :: 0 <= k < |TokenHolders(list, hash, m)| ==>
              TokenHolders(list, hash, m)[k] in list && HasToken(hash, TokenHolders(list, hash, m)[k])
  {
    if list != [] && m > 0 {
      assert list == [list[0]] + list[1..];
      TokenHoldersListed(list[1..], hash, if HasToken(hash, list[0]) then m - 1 else m);
    }
  }

  lemma HeadIsClosest(list: seq<Id>, target: Id, id: Id)
    requires Ascending(list, target) && list != [] && id in list[1..]
    ensures Distance(list[0], target) < Distance(id, target)
  {
    hide Distance;
    var i :| 0 <= i < |list[1..]| && list[1..][i] == id;
    assert list[i + 1] == id;
  }

  /** They come nearest first. */
  lemma {:induction false} TokenHoldersAscending(list: seq<Id>, hash: map<Id, NodeL>, target: Id, m: nat)
    requires Ascending(list, target)
    ensures Ascending(TokenHolders(list, hash, m), target)
  {
    hide Distance;
    if list != [] && m > 0 {
      var head := HasToken(hash, list[0]);
      TokenHoldersAscending(list[1..], hash, target, if head then m - 1 else m);
      if head {
        var q := TokenHolders(list[1..], hash, m - 1);
        TokenHoldersListed(list[1..], hash, m - 1);
        forall k | 0 <= k < |q|
          ensures Distance(list[0], target) < Distance(q[k], target)
        {
          HeadIsClosest(list, target, q[k]);
        }
      }
    }
  }

  /** Any token holder left out is farther away than all of them, and then there are m of them. */
  lemma {:induction false} TokenHoldersClosest(list: seq<Id>, hash: map<Id, NodeL>, target: Id, m: nat, id: Id)
    requires Ascending(list, target)
    requires id in list && HasToken(hash, id) && id !in TokenHolders(list, hash, m)
    ensures |TokenHolders(list, hash, m)| == m
    ensures forall k :: 0 <= k < m ==> Distance(TokenHolders(list, hash, m)[k], target) < Distance(id, target)
  {
    hide Distance;
    if m > 0 {
      assert list == [list[0]] + list[1..];
      assert id in list[1..];
      HeadIsClosest(list, target, id);
      TokenHoldersClosest(list[1..], hash, target, if HasToken(hash, list[0]) then m - 1 else m, id);
    }
  }
}
