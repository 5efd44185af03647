/**
 The store of announced values (src/p2p/value.c): at most fifty targets, the ones
 nearest to the own node id, each with its list of recent announcers.
 */
module Values {
  import opened Collections
  import opened Bytes
  import opened Clock
  import opened Lookup
  import opened Recent

  const VALUE_SIZE_MAX := 50

  // ----- which targets are held -----

  /** `val_ins_sort` for a target that is not held. */
  ghost function InsSorted(list: seq<Id>, id: Id, me: Id): seq<Id>
  {
    Take(Inserted(list, PlaceFrom(list, id, me, 0), id), VALUE_SIZE_MAX)
  }

  ghost function Offered(list: seq<Id>, id: Id, me: Id): seq<Id>
  {
    if id in list then list else InsSorted(list, id, me)
  }

  ghost function OfferedAll(ids: seq<Id>, me: Id): seq<Id>
  {
    if ids == [] then [] else Offered(OfferedAll(ids[..|ids| - 1], me), ids[|ids| - 1], me)
  }

  /** The offered ids nearest to the own id, nearest first: an id that is not held
      is farther away than all of the fifty that are. */
  ghost predicate Nearest(held: seq<Id>, offered: seq<Id>, me: Id)
  {
    && Ascending(held, me)
    && |held| <= 50
    && (forall i :: 0 <= i < |held| ==> held[i] in offered)
    && (forall id :: id in offered && id !in held ==> |held| == 50 && BeyondAll(held, id, me))
  }

  ghost predicate BeyondAll(held: seq<Id>, id: Id, me: Id)
  {
    forall i :: 0 <= i < |held| ==> Distance(held[i], me) < Distance(id, me)
  }

  lemma InsSortedAscending(list: seq<Id>, id: Id, me: Id)
    requires Ascending(list, me) && id !in list
    ensures Ascending(InsSorted(list, id, me), me)
    ensures forall i :: 0 <= i < |InsSorted(list, id, me)| ==>
              InsSorted(list, id, me)[i] == id || InsSorted(list, id, me)[i] in list
  {
    hide Distance;
    var k := PlaceFrom(list, id, me, 0);
    var r := Inserted(list, k, id);
    InsertAscendingIff(list, id, me);
    forall i | 0 <= i < |r|
      ensures r[i] == id || r[i] in list
    {
      InsertedMembers(list, k, id, r[i]);
    }
  }

  /** What is not kept is farther away than everything that is. */
  lemma DroppedIsFarthest(list: seq<Id>, id: Id, me: Id, x: Id)
    requires Ascending(list, me) && id !in list && |list| <= VALUE_SIZE_MAX
    requires x == id || x in list
    requires x !in InsSorted(list, id, me)
    ensures |list| == 50 && BeyondAll(InsSorted(list, id, me), x, me)
  {
    hide Distance;
    var k := PlaceFrom(list, id, me, 0);
    var r := Inserted(list, k, id);
    InsertedMembers(list, k, id, x);
    InsertAscendingIff(list, id, me);
    var j :| 0 <= j < |r| && r[j] == x;
    assert InsSorted(list, id, me) == if |r| <= VALUE_SIZE_MAX then r else r[..VALUE_SIZE_MAX];
    if |r| > VALUE_SIZE_MAX {
      BehindPrefix(r, VALUE_SIZE_MAX, j);
    }
  }

  lemma BehindPrefix(r: seq<Id>, m: nat, j: nat)
    requires m <= |r| && j < |r| && r[j] !in r[..m]
    ensures j >= m
  {
    assert forall k :: 0 <= k < m ==> r[..m][k] in r[..m];
  }

  lemma FullStaysFull(list: seq<Id>, id: Id, me: Id, x: Id)
    requires Ascending(list, me) && id !in list && |list| == VALUE_SIZE_MAX && BeyondAll(list, x, me)
    requires x !in InsSorted(list, id, me)
    ensures BeyondAll(InsSorted(list, id, me), x, me)
  {
    hide Distance;
    var k := PlaceFrom(list, id, me, 0);
    var r := Inserted(list, k, id);
    PlaceSplits(list, id, me, 0);
    var s := InsSorted(list, id, me);
    assert s == r[..VALUE_SIZE_MAX];
    forall i | 0 <= i < |s|
      ensures Distance(s[i], me) < Distance(x, me)
    {
      if i < k {
        assert s[i] == list[i];
      } else if i > k {
        assert s[i] == list[i - 1];
      } else {
        assert Distance(id, me) < Distance(list[k], me);
      }
    }
  }

  lemma NearestStep(held: seq<Id>, offered: seq<Id>, id: Id, me: Id)
    requires Nearest(held, offered, me)
    ensures Nearest(Offered(held, id, me), offered + [id], me)
  {
    hide Distance, Ascending, BeyondAll, InsSorted;
    if id !in held {
      var s := InsSorted(held, id, me);
      InsSortedAscending(held, id, me);
      InsSortedSize(held, id, me);
      forall x | x in offered + [id] && x !in s
        ensures |s| == VALUE_SIZE_MAX && BeyondAll(s, x, me)
      {
        if x == id || x in held {
          DroppedIsFarthest(held, id, me, x);
        } else {
          FullStaysFull(held, id, me, x);
        }
      }
    }
  }

  lemma InsSortedSize(list: seq<Id>, id: Id, me: Id)
    ensures |InsSorted(list, id, me)| == if |list| < VALUE_SIZE_MAX then |list| + 1 else VALUE_SIZE_MAX
  {
    hide Distance, PlaceFrom;
  }

  /** After any sequence of offers the targets held are the fifty (or fewer) nearest
      of all that were offered, in ascending distance. */
  lemma {:induction false} NearestHeld(ids: seq<Id>, me: Id)
    ensures Nearest(OfferedAll(ids, me), ids, me)
  {
    if ids != [] {
      var n := |ids| - 1;
      NearestHeld(ids[..n], me);
      NearestStep(OfferedAll(ids[..n], me), ids[..n], ids[n], me);
      assert ids == ids[..n] + [ids[n]];
    }
  }

  // ----- and that this determines them -----

  ghost predicate SameMembers(a: seq<Id>, b: seq<Id>)
  {
    (forall i :: 0 <= i < |a| ==> a[i] in b) && (forall i :: 0 <= i < |b| ==> b[i] in a)
  }

  lemma TailMembers(a: seq<Id>, b: seq<Id>, me: Id)
    requires Ascending(a, me) && Ascending(b, me) && SameMembers(a, b) && a != [] && b != [] && a[0] == b[0]
    ensures SameMembers(a[1..], b[1..])
  {
    forall i | 0 <= i < |a[1..]|
      ensures a[1..][i] in b[1..]
    {
      assert a[i + 1] in b && Distance(a[0], me) < Distance(a[i + 1], me);
      var j :| 0 <= j < |b| && b[j] == a[i + 1];
      assert b[1..][j - 1] == a[i + 1];
    }
    forall i | 0 <= i < |b[1..]|
      ensures b[1..][i] in a[1..]
    {
      assert b[i + 1] in a && Distance(b[0], me) < Distance(b[i + 1], me);
      var j :| 0 <= j < |a| && a[j] == b[i + 1];
      assert a[1..][j - 1] == b[i + 1];
    }
  }

  lemma SameHead(a: seq<Id>, b: seq<Id>, me: Id)
    requires Ascending(a, me) && Ascending(b, me) && SameMembers(a, b) && a != [] && b != []
    ensures a[0] == b[0]
  {
    hide Distance;
    assert a[0] in b;
    var j :| 0 <= j < |b| && b[j] == a[0];
    assert b[0] in a;
    var i :| 0 <= i < |a| && a[i] == b[0];
  }

  lemma {:induction false} AscendingUnique(a: seq<Id>, b: seq<Id>, me: Id)
    requires Ascending(a, me) && Ascending(b, me) && SameMembers(a, b)
    ensures a == b
  {
    hide Distance, NoDuplicates, Ascending, SameMembers;
    SameLength(a, b, me);
    if a != [] {
      SameHead(a, b, me);
      TailMembers(a, b, me);
      TailAscending(a, me);
      TailAscending(b, me);
      AscendingUnique(a[1..], b[1..], me);
      assert a == [a[0]] + a[1..] && b == [b[0]] + b[1..];
    }
  }

  lemma SameLength(a: seq<Id>, b: seq<Id>, me: Id)
    requires Ascending(a, me) && Ascending(b, me) && SameMembers(a, b)
    ensures |a| == |b|
  {
    hide Distance, NoDuplicates, Ascending;
    AscendingDistinct(a, me);
    AscendingDistinct(b, me);
    FewerThanList(a, b);
    FewerThanList(b, a);
  }

  lemma TailAscending(a: seq<Id>, me: Id)
    requires Ascending(a, me) && a != []
    ensures Ascending(a[1..], me)
  {
    hide Distance;
  }

  lemma AscendingDistinct(a: seq<Id>, me: Id)
    requires Ascending(a, me)
    ensures NoDuplicates(a)
  {
    hide Distance;
  }

  lemma HeldByBoth(a: seq<Id>, b: seq<Id>, ids: seq<Id>, others: seq<Id>, me: Id, i: nat)
    requires Nearest(a, ids, me) && Nearest(b, others, me) && SameMembers(ids, others) && i < |a|
    ensures a[i] in b
  {
    hide Distance, NoDuplicates;
    assert a[i] in ids;
    if a[i] !in b {
      var rest := a[..i] + a[i + 1..];
      forall j | 0 <= j < |b|
        ensures b[j] in rest
      {
        assert b[j] in others && Distance(b[j], me) < Distance(a[i], me);
        assert b[j] in a;
        var k :| 0 <= k < |a| && a[k] == b[j];
        assert k < i && rest[k] == a[k];
      }
      AscendingDistinct(b, me);
      FewerThanList(b, rest);
    }
  }

  /** The targets held do not depend on the order or the repetition of the offers. */
  lemma OrderDoesNotMatter(ids: seq<Id>, others: seq<Id>, me: Id)
    requires SameMembers(ids, others)
    ensures OfferedAll(ids, me) == OfferedAll(others, me)
  {
    hide Nearest, OfferedAll;
    var a, b := OfferedAll(ids, me), OfferedAll(others, me);
    NearestHeld(ids, me);
    NearestHeld(others, me);
    forall i | 0 <= i < |a|
      ensures a[i] in b
    {
      HeldByBoth(a, b, ids, others, me, i);
    }
    forall i | 0 <= i < |b|
      ensures b[i] in a
    {
      HeldByBoth(b, a, others, ids, me, i);
    }
    NearestAscending(a, ids, me);
    NearestAscending(b, others, me);
    AscendingUnique(a, b, me);
  }

  lemma NearestAscending(held: seq<Id>, offered: seq<Id>, me: Id)
    requires Nearest(held, offered, me)
    ensures Ascending(held, me)
  {
  }

  // ----- the store -----

  lemma InsertedIndexes(list: seq<Id>, hash: map<Id, Target<Id>>, k: nat, id: Id, t: Target<Id>)
    requires Indexes(list, hash) && k <= |list| && id !in hash && forall x :: x in hash ==> hash[x] != t
    ensures Indexes(Inserted(list, k, id), hash[id := t])
  {
    forall x: Id
      ensures x in Inserted(list, k, id) <==> x == id || x in list
    {
      InsertedMembers(list, k, id, x);
    }
  }

  lemma ShortenedIndexes(list: seq<Id>, hash: map<Id, Target<Id>>, me: Id)
    requires Indexes(list, hash) && Ascending(list, me) && list != []
    ensures Indexes(list[..|list| - 1], hash - {list[|list| - 1]})
  {
    AscendingDistinct(list, me);
    hide Ascending;
    var n := |list| - 1;
    assert list == list[..n] + [list[n]];
  }

  datatype Held = Held(items: seq<Item<Id>>, anchor: nat)

  class ValueStore {
    const me: Id
    var list: seq<Id>
    var hash: map<Id, Target<Id>>

    ghost predicate Valid()
      reads this, hash.Values
    {
      && Ascending(list, me) && |list| <= VALUE_SIZE_MAX
      && Indexes(list, hash)
      && (forall id :: id in hash ==> hash[id].Valid())
    }

    constructor (me: Id)
      ensures Valid() && this.me == me && list == [] && hash == map[]
    {
      this.me := me;
      list, hash := [], map[];
    }

    /** The search loop of `val_ins_sort`. */
    method FindPlace(id: Id) returns (i: nat)
      ensures i == PlaceFrom(list, id, me, 0)
    {
      hide Distance;
      i := 0;
      while i < |list|
        invariant i <= |list|
        invariant PlaceFrom(list, id, me, 0) == PlaceFrom(list, id, me, i)
      {
        var c := Sha1Compare(id, list[i], me);
        if c < 0 {
          return;
        }
        i := i + 1;
      }
    }

    /** `val_ins_sort`: the target handed back is one that is kept. Unless the log is verbose, the
        print at its end anchors the lists of all targets at their heads. */
    method InsSort(id: Id, verbose: bool) returns (target: Option<Target<Id>>)
      requires Valid() && id !in hash
      modifies this, hash.Values
      ensures Valid()
      ensures list == InsSorted(old(list), id, me)
      ensures target.Some? <==> id in list
      ensures target.Some? ==> hash[id] == target.value && fresh(target.value)
                               && target.value.list == [] && target.value.anchor == 0
      ensures forall x :: x in hash && x != id ==>
                && x in old(hash) && hash[x] == old(hash)[x] && hash[x].list == old(hash[x].list)
                && hash[x].anchor == if target.Some? && !verbose then 0 else old(hash[x].anchor)
    {
      hide Ascending, Indexed, DistinctKeys, InsSorted, Indexes;
      target := Insert(id);
      if target.Some? && !verbose {
        Print();
      }
    }

    /** `val_ins_sort` up to the print. */
    method Insert(id: Id) returns (target: Option<Target<Id>>)
      requires Valid() && id !in hash
      modifies this
      ensures Valid()
      ensures list == InsSorted(old(list), id, me)
      ensures target.Some? <==> id in list
      ensures target.Some? ==> id in hash && hash[id] == target.value && fresh(target.value)
                               && target.value.list == [] && target.value.anchor == 0
      ensures forall x :: x in hash && x != id ==> x in old(hash) && hash[x] == old(hash)[x]
    {
      hide Distance, Ascending, PlaceFrom, Indexed, DistinctKeys;
      var i := FindPlace(id);
      InsSortedAscending(list, id, me);
      InsertAscendingIff(list, id, me);
      if i == |list| && |list| >= VALUE_SIZE_MAX {
        assert Inserted(list, i, id)[..VALUE_SIZE_MAX] == list;
        return None;
      }
      var t := new Target<Id>();
      target := Some(t);
      InsertedIndexes(list, hash, i, id, t);
      list := Inserted(list, i, id);
      hash := hash[id := t];
      assert list[i] == id;
      if |list| > VALUE_SIZE_MAX {
        ShortenedIndexes(list, hash, me);
        assert list[..VALUE_SIZE_MAX][i] == id;
        DropLast();
      }
    }

    /** `val_print`, as far as it changes anything: every list is walked from `list_start`. */
    method Print()
      requires Valid()
      modifies hash.Values`anchor
      ensures Valid() && forall x :: x in hash ==> hash[x].anchor == 0
    {
      hide Ascending, Indexed, DistinctKeys;
      KeysAreListed(list, hash);
      for i := 0 to |list|
        invariant Valid() && forall k :: 0 <= k < i ==> list[k] in hash && hash[list[k]].anchor == 0
      {
        assert list[i] in list;
        hash[list[i]].Start();
      }
    }

    /** `val_del` of the last target */
    method DropLast()
      requires list != []
      modifies this
      ensures list == old(list)[..|old(list)| - 1]
      ensures hash == old(hash) - {old(list)[|old(list)| - 1]}
    {
      hash := hash - {list[|list| - 1]};
      list := list[..|list| - 1];
    }

    /** The announcements held for each target, and where their list is anchored. */
    ghost function Contents(): map<Id, Held>
      reads this, hash.Values
    {
      map id | id in hash :: Held(hash[id].list, hash[id].anchor)
    }

    /** `val_put`. `lost` says whether the update of a known node walked from freed memory. */
    method ValPut(targetId: Id, nodeId: Id, pair: seq<Byte>, now: int, verbose: bool) returns (lost: bool)
      requires Valid()
      modifies this, hash.Values
      ensures Valid() && fresh(hash.Values - old(hash.Values))
      ensures list == Offered(old(list), targetId, me)
      ensures targetId in hash ==>
                var items := if targetId in old(hash) then old(hash[targetId].list) else [];
                && hash[targetId].list == Touched(items, Item(nodeId, pair, InThirtyMinutes(now)))
                && hash[targetId].anchor == AnchorAfter(items, nodeId)
      ensures forall x :: x in hash && x != targetId ==>
                && x in old(hash) && hash[x] == old(hash)[x] && hash[x].list == old(hash[x].list)
                && hash[x].anchor == if targetId in hash && targetId !in old(hash) && !verbose then 0 else old(hash[x].anchor)
      ensures lost <==> targetId in old(hash) && old(Dangles(hash[targetId].list, hash[targetId].anchor, nodeId))
    {
      hide Ascending, InsSorted, Touched, Indexed, DistinctKeys, AnchorAfter;
      var target: Option<Target<Id>> := if targetId in hash then Some(hash[targetId]) else None;
      if target.None? {
        target := InsSort(targetId, verbose);
      }
      if target.None? {
        return false;
      }
      lost := target.value.Update(nodeId, pair, now);
    }

    /** `val_expire`: exactly the targets with a living announcement stay. */
    method ValExpire(now: int)
      requires Valid()
      modifies this, hash.Values
      ensures Valid()
      ensures forall x :: x in hash <==> x in old(hash) && Alive(old(Contents())[x].items, now) != []
      ensures forall x :: x in hash ==> Contents()[x] == Held(Alive(old(Contents())[x].items, now), 0)
      ensures hash.Values <= old(hash.Values) && forall x :: x in hash ==> hash[x] == old(hash)[x]
    {
      hide Ascending, Alive, NoDuplicates, Indexes, Indexed, DistinctKeys;
      ghost var all, now' := Contents(), Contents();
      KeysAreListed(list, hash);
      var i := 0;
      while i < |list|
        invariant Valid() && now' == Contents() && i <= |list|
        invariant hash.Keys <= old(hash.Keys) && hash.Values <= old(hash.Values)
        invariant Swept(list, all, now', i, now)
        invariant forall x :: x in hash ==> x in old(hash) && hash[x] == old(hash)[x]
        decreases |list| - i
      {
        AscendingDistinct(list, me);
        SweptStep(list, all, now', i, now);
        KeysAreListed(list, hash);
        var gone := ExpireTarget(i, now);
        now' := Contents();
        if !gone {
          i := i + 1;
        }
      }
      KeysAreListed(list, hash);
    }

    /** One target of `val_expire`. */
    method ExpireTarget(i: nat, now: int) returns (gone: bool)
      requires Valid() && i < |list| && list[i] in hash
      modifies this, hash[list[i]]
      ensures Valid()
      ensures gone <==> Alive(old(hash[list[i]].list), now) == []
      ensures list == if gone then Removed(old(list), i) else old(list)
      ensures hash == if gone then old(hash) - {old(list[i])} else old(hash)
      ensures Contents() == if gone then old(Contents()) - {old(list[i])}
                            else old(Contents())[list[i] := Held(Alive(old(hash[list[i]].list), now), 0)]
    {
      hide Ascending, Alive, NoDuplicates, Indexed, DistinctKeys, Distance, Indexes;
      var id := list[i];
      OtherTargets(list, hash, id);
      assert list == list[..i] + ([id] + list[i + 1..]);
      AscendingDistinct(list, me);
      MiddleIndexes(list[..i], id, list[i + 1..], hash, me);
      var lost := hash[id].Expire(now);
      gone := |hash[id].list| == 0;
      if gone {
        hash := hash - {id};
        list := Removed(list, i);
      }
    }
  }

  /** The first i targets have been swept, the others have not. */
  ghost predicate Swept(list: seq<Id>, all: map<Id, Held>, c: map<Id, Held>, i: nat, now: int)
  {
    && c.Keys <= all.Keys && i <= |list|
    && (forall k :: 0 <= k < |list| ==> list[k] in c)
    && (forall k :: 0 <= k < i ==> c[list[k]] == Held(Alive(all[list[k]].items, now), 0) && c[list[k]].items != [])
    && (forall k :: i <= k < |list| ==> c[list[k]] == all[list[k]])
    && (forall x :: x in all && Alive(all[x].items, now) != [] ==> x in c)
  }

  lemma SweptStep(list: seq<Id>, all: map<Id, Held>, c: map<Id, Held>, i: nat, now: int)
    requires Swept(list, all, c, i, now) && i < |list| && NoDuplicates(list)
    ensures Alive(c[list[i]].items, now) == [] ==> Swept(Removed(list, i), all, c - {list[i]}, i, now)
    ensures Alive(c[list[i]].items, now) != [] ==>
              Swept(list, all, c[list[i] := Held(Alive(c[list[i]].items, now), 0)], i + 1, now)
  {
    hide Alive;
    var r := Removed(list, i);
    assert forall k :: 0 <= k < |r| ==> r[k] == (if k < i then list[k] else list[k + 1]) && r[k] != list[i];
  }

  lemma SplitDistinct(a: seq<Id>, id: Id, b: seq<Id>)
    requires NoDuplicates(a + ([id] + b))
    ensures id !in a && id !in b
  {
    var s := a + ([id] + b);
    assert s[|a|] == id;
    forall i | 0 <= i < |a|
      ensures a[i] != id
    {
      assert s[i] == a[i];
    }
    forall i | 0 <= i < |b|
      ensures b[i] != id
    {
      assert s[|a| + 1 + i] == b[i];
    }
  }

  lemma MiddleIndexes(a: seq<Id>, id: Id, b: seq<Id>, hash: map<Id, Target<Id>>, me: Id)
    requires Indexes(a + ([id] + b), hash) && Ascending(a + ([id] + b), me) && NoDuplicates(a + ([id] + b))
    ensures Indexes(a + b, hash - {id}) && Ascending(a + b, me) && NoDuplicates(a + b)
  {
    hide Distance;
    SplitDistinct(a, id, b);
    var s, t := a + ([id] + b), a + b;
    forall i, j | 0 <= i < j < |t|
      ensures Distance(t[i], me) < Distance(t[j], me) && t[i] != t[j]
    {
      var i', j' := if i < |a| then i else i + 1, if j < |a| then j else j + 1;
      assert s[i'] == t[i] && s[j'] == t[j];
    }
  }

  // ----- every run of the store without expiry -----

  datatype Announcement = Announcement(target: Id, node: Id, pair: seq<Byte>, now: int)

  function Targets(history: seq<Announcement>): (ids: seq<Id>)
    ensures |ids| == |history|
  {
    if history == [] then [] else Targets(history[..|history| - 1]) + [history[|history| - 1].target]
  }

  /** The announcements for one target, in their order. */
  function For(history: seq<Announcement>, id: Id): seq<Item<Id>>
  {
    if history == [] then [] else
      var n := |history| - 1;
      var a := history[n];
      For(history[..n], id) + if a.target == id then [Item(a.node, a.pair, InThirtyMinutes(a.now))] else []
  }

  lemma {:induction false} ForNothing(history: seq<Announcement>, id: Id)
    ensures For(history, id) == [] <==> id !in Targets(history)
  {
    if history != [] {
      ForNothing(history[..|history| - 1], id);
    }
  }

  /** A target that is not held any more never comes back. */
  lemma NeverReturns(held: seq<Id>, offered: seq<Id>, id: Id, me: Id)
    requires Nearest(held, offered, me) && id in offered && id !in held
    ensures Offered(held, id, me) == held
  {
    hide Distance, PlaceFrom;
    PlaceBeyond(held, id, me, 0);
    assert Inserted(held, |held|, id)[..VALUE_SIZE_MAX] == held;
  }

  lemma {:induction false} PlaceBeyond(list: seq<Id>, id: Id, me: Id, i: nat)
    requires BeyondAll(list, id, me) && i <= |list|
    ensures PlaceFrom(list, id, me, i) == |list|
    decreases |list| - i
  {
    hide Distance;
    if i < |list| {
      PlaceBeyond(list, id, me, i + 1);
    }
  }

  lemma OfferedMembers(held: seq<Id>, id: Id, me: Id, x: Id)
    requires Ascending(held, me) && x in Offered(held, id, me) && x != id
    ensures x in held
  {
    hide Ascending, InsSorted;
    if id !in held {
      InsSortedAscending(held, id, me);
    }
  }

  /** What one more announcement does to the list of a target that is held afterwards. */
  lemma OneMore(history: seq<Announcement>, n: nat, me: Id, id: Id)
    requires n < |history|
    ensures Targets(history[..n + 1]) == Targets(history[..n]) + [history[n].target]
    ensures For(history[..n + 1], id) ==
            For(history[..n], id) +
            if history[n].target == id then [Item(history[n].node, history[n].pair, InThirtyMinutes(history[n].now))] else []
    ensures var held := OfferedAll(Targets(history[..n]), me);
            && OfferedAll(Targets(history[..n + 1]), me) == Offered(held, history[n].target, me)
            && (id == history[n].target && id !in held && id in Offered(held, id, me) ==> For(history[..n], id) == [])
            && (id != history[n].target && id in Offered(held, history[n].target, me) ==> id in held)
  {
    hide Offered, Nearest;
    assert history[..n + 1][..n] == history[..n];
    var ids := Targets(history[..n]);
    var held := OfferedAll(ids, me);
    assert (ids + [history[n].target])[..n] == ids;
    NearestHeld(ids, me);
    NearestAscending(held, ids, me);
    ForNothing(history[..n], id);
    if id == history[n].target && id !in held && id in ids {
      NeverReturns(held, ids, id, me);
    }
    if id != history[n].target && id in Offered(held, history[n].target, me) {
      OfferedMembers(held, history[n].target, me, id);
    }
  }

  /** After any run of `val_put` on an empty store: it holds the fifty nearest targets ever offered,
      in ascending distance, each with its ten most recent announcers of the whole run. */
  method Announce(history: seq<Announcement>, me: Id, verbose: bool) returns (s: ValueStore)
    ensures fresh(s) && fresh(s.hash.Values) && s.Valid() && s.me == me
    ensures s.list == OfferedAll(Targets(history), me) && Nearest(s.list, Targets(history), me)
    ensures forall id :: id in s.hash ==> s.hash[id].list == Take(Recents(For(history, id)), 10)
  {
    hide Offered, Nearest, TouchAll, Touched, For, Targets, OfferedAll, Ascending, Indexed, DistinctKeys, AnchorAfter;
    s := new ValueStore(me);
    NoHistory(me);
    assert history[..0] == [];
    for n := 0 to |history|
      invariant fresh(s) && fresh(s.hash.Values) && s.Valid() && s.me == me
      invariant s.list == OfferedAll(Targets(history[..n]), me)
      invariant forall id :: id in s.hash ==> s.hash[id].list == TouchAll(For(history[..n], id))
    {
      var a := history[n];
      KeysAreListed(s.list, s.hash);
      var lost := s.ValPut(a.target, a.node, a.pair, a.now, verbose);
      KeysAreListed(s.list, s.hash);
      forall id | id in s.hash
        ensures s.hash[id].list == TouchAll(For(history[..n + 1], id))
      {
        OneMore(history, n, me, id);
        TouchAllMore(For(history[..n], id), Item(a.node, a.pair, InThirtyMinutes(a.now)));
        assert For(history[..n], id) + [] == For(history[..n], id);
      }
      OneMore(history, n, me, a.target);
    }
    assert history[..|history|] == history;
    NearestHeld(Targets(history), me);
    forall id | id in s.hash
      ensures s.hash[id].list == Take(Recents(For(history, id)), TGT_SIZE_MAX)
    {
      TenMostRecent(For(history, id));
    }
  }

  lemma NoHistory(me: Id)
    ensures Targets([]) == [] && OfferedAll([], me) == [] && TouchAll<Id>([]) == []
  {
  }

  /** Three announcements on an empty store are enough to walk from freed memory. */
  method PutPutPut(me: Id, target: Id, a: Id, b: Id, pair: seq<Byte>, now: int, verbose: bool) returns (lost: bool)
    requires a != b
    ensures lost
  {
    hide Ascending, Indexed, DistinctKeys, Distance;
    var s := new ValueStore(me);
    lost := s.ValPut(target, a, pair, now, verbose);
    KeysAreListed(s.list, s.hash);
    assert PlaceFrom([], target, me, 0) == 0;
    assert s.list == [target];
    lost := s.ValPut(target, b, pair, now, verbose);
    KeysAreListed(s.list, s.hash);
    lost := s.ValPut(target, a, pair, now, verbose);
  }
}
