/**
 The cache of lookup results (src/p2p/cache.c): at most fifty targets, the latest
 created first, each with the address pairs most recently heard for it.
 */
module Cache {
  import opened Collections
  import opened Bytes
  import opened Clock
  import opened Recent

  const CACHE_SIZE_MAX := 50

  type Pair = seq<Byte>

  /** `cache_prepare`, as seen in the list: an existing target keeps its place. */
  function Prepared(list: seq<Id>, id: Id): (r: seq<Id>)
  {
    if id in list then list else [id] + list
  }

  function PutOne(list: seq<Id>, id: Id): (r: seq<Id>)
  {
    Take(Prepared(list, id), CACHE_SIZE_MAX)
  }

  function PutAll(ids: seq<Id>): (r: seq<Id>)
  {
    if ids == [] then [] else PutOne(PutAll(ids[..|ids| - 1]), ids[|ids| - 1])
  }

  /** The ids that were not in the cache when they were put, the latest first. */
  function Creations(ids: seq<Id>): (r: seq<Id>)
  {
    if ids == [] then [] else
      var n := |ids| - 1;
      if ids[n] in PutAll(ids[..n]) then Creations(ids[..n]) else [ids[n]] + Creations(ids[..n])
  }

  /** Targets leave in the order in which they were created, however often they are put
      again meanwhile: the cache is the fifty latest creations, without repetition. The
      target just put is always among them. */
  lemma {:induction false} FirstInFirstOut(ids: seq<Id>)
    ensures PutAll(ids) == Take(Creations(ids), 50)
    ensures NoDuplicates(PutAll(ids))
    ensures ids != [] ==> ids[|ids| - 1] in PutAll(ids)
  {
    if ids != [] {
      var n := |ids| - 1;
      FirstInFirstOut(ids[..n]);
      var before, id := PutAll(ids[..n]), ids[n];
      if id !in before {
        TakeCons(id, before, CACHE_SIZE_MAX);
        TakeCons(id, Creations(ids[..n]), CACHE_SIZE_MAX);
        TakeTake(Creations(ids[..n]), CACHE_SIZE_MAX);
        assert PutAll(ids)[0] == id;
      }
    }
  }

  lemma TakeTake<T>(s: seq<T>, m: nat)
    requires m > 0
    ensures Take(Take(s, m), m - 1) == Take(s, m - 1)
  {
  }

  /** The pairs of one reply, in their order. */
  function Touches(list: seq<Item<Pair>>, pairs: seq<Pair>, now: int): (r: seq<Item<Pair>>)
  {
    if pairs == [] then list else
      var n := |pairs| - 1;
      Touched(Touches(list, pairs[..n], now), Item(pairs[n], pairs[n], InThirtyMinutes(now)))
  }

  /** Where the list of a target is anchored after the pairs of a reply. */
  ghost function AnchorAt(list: seq<Item<Pair>>, anchor: nat, pairs: seq<Pair>, now: int): (a: nat)
  {
    if pairs == [] then anchor else
      var n := |pairs| - 1;
      AnchorAfter(Touches(list, pairs[..n], now), pairs[n])
  }

  /** One of the pairs of a reply deletes the item at which the list is anchored. */
  ghost predicate AnyDangles(list: seq<Item<Pair>>, anchor: nat, pairs: seq<Pair>, now: int)
  {
    pairs != [] &&
    var n := |pairs| - 1;
    || AnyDangles(list, anchor, pairs[..n], now)
    || Dangles(Touches(list, pairs[..n], now), AnchorAt(list, anchor, pairs[..n], now), pairs[n])
  }

  /** A reply that names two nodes and then the first one again does it, on any new target. */
  lemma RepeatedPairDangles(p: Pair, q: Pair, now: int)
    requires p != q
    ensures AnyDangles([], 0, [p, q, p], now)
  {
    var a, b := Item(p, p, InThirtyMinutes(now)), Item(q, q, InThirtyMinutes(now));
    assert [p, q, p][..2] == [p, q] && [p, q][..1] == [p] && [p][..0] == [];
    assert Touches([], [p], now) == [a];
    assert Touches([], [p, q], now) == [b, a];
    assert !HasKey([a], q) && AnchorAt([], 0, [p, q], now) == 1;
  }

  lemma ShorterIndexes(list: seq<Id>, hash: map<Id, Target<Pair>>)
    requires Indexes(list, hash) && NoDuplicates(list) && list != []
    ensures Indexes(list[..|list| - 1], hash - {list[|list| - 1]}) && NoDuplicates(list[..|list| - 1])
    ensures |list| > 1 ==> list[0] != list[|list| - 1]
  {
    var n := |list| - 1;
    assert list == list[..n] + [list[n]];
  }

  class Cache {
    var list: seq<Id>
    var hash: map<Id, Target<Pair>>

    ghost predicate Valid()
      reads this, hash.Values
    {
      Mirrored() && |list| <= CACHE_SIZE_MAX
    }

    ghost predicate Mirrored()
      reads this, hash.Values
    {
      NoDuplicates(list) && Indexes(list, hash) && forall id :: id in hash ==> hash[id].Valid()
    }

    constructor ()
      ensures Valid() && list == []
    {
      list, hash := [], map[];
    }

    /** `cache_prepare` */
    method Prepare(id: Id) returns (t: Target<Pair>)
      requires Mirrored()
      modifies this
      ensures Mirrored() && id in hash && t == hash[id] && list == Prepared(old(list), id)
      ensures old(id in hash) ==> hash == old(hash)
      ensures !old(id in hash) ==> fresh(t) && t.list == [] && t.anchor == 0 && hash == old(hash)[id := t]
    {
      if id in hash {
        t := hash[id];
        return;
      }
      t := new Target<Pair>();
      list := [id] + list;
      hash := hash[id := t];
    }

    /** `cache_del` of the last target */
    method DropLast()
      requires list != []
      modifies this
      ensures list == old(list)[..|old(list)| - 1]
      ensures hash == old(hash) - {old(list)[|old(list)| - 1]}
    {
      hash := hash - {list[|list| - 1]};
      list := list[..|list| - 1];
    }

    /** `cache_put`: only the target at hand changes, and it stays. `lost` says whether an update of
        a known node walked from freed memory. */
    method Put(id: Id, pairs: seq<Pair>, now: int) returns (lost: bool)
      requires Valid()
      modifies this, hash.Values
      ensures Valid() && fresh(hash.Values - old(hash.Values)) && list == PutOne(old(list), id) && id in hash
      ensures var items, anchor := if old(id in hash) then old(hash[id].list) else [], if old(id in hash) then old(hash[id].anchor) else 0;
              && hash[id].list == Touches(items, pairs, now)
              && hash[id].anchor == AnchorAt(items, anchor, pairs, now)
              && (lost <==> AnyDangles(items, anchor, pairs, now))
      ensures forall x :: x in hash && x != id ==>
                && x in old(hash) && hash[x] == old(hash)[x]
                && hash[x].list == old(hash[x].list) && hash[x].anchor == old(hash[x].anchor)
    {
      hide DistinctKeys, Indexed, Touched, Touches, NoDuplicates, AnyDangles, AnchorAt, Indexes;
      KeysAreListed(list, hash);
      var t := Prepare(id);
      OtherTargets(list, hash, id);
      lost := UpdateAll(t, pairs, now);
      if |list| > CACHE_SIZE_MAX {
        ShorterIndexes(list, hash);
        DropLast();
      }
    }

    /** The loop of `cache_put` over the pairs of a reply. */
    static method UpdateAll(t: Target<Pair>, pairs: seq<Pair>, now: int) returns (lost: bool)
      requires t.Valid()
      modifies t
      ensures t.Valid() && t.list == Touches(old(t.list), pairs, now)
      ensures t.anchor == AnchorAt(old(t.list), old(t.anchor), pairs, now)
      ensures lost <==> AnyDangles(old(t.list), old(t.anchor), pairs, now)
    {
      hide DistinctKeys, Indexed, Touched, AnchorAfter, Dangles;
      lost := false;
      for j := 0 to |pairs|
        invariant t.Valid() && t.list == Touches(old(t.list), pairs[..j], now)
        invariant t.anchor == AnchorAt(old(t.list), old(t.anchor), pairs[..j], now)
        invariant lost <==> AnyDangles(old(t.list), old(t.anchor), pairs[..j], now)
      {
        assert pairs[..j + 1][..j] == pairs[..j];
        var now' := t.Update(pairs[j], pairs[j], now);
        lost := lost || now';
      }
      assert pairs[..|pairs|] == pairs;
    }
  }

  // ----- every run of the cache without expiry -----

  /** A reply merged into the cache. */
  datatype Merge = Merge(target: Id, pairs: seq<Pair>, now: int)

  function Targets(history: seq<Merge>): (ids: seq<Id>)
    ensures |ids| == |history|
  {
    if history == [] then [] else Targets(history[..|history| - 1]) + [history[|history| - 1].target]
  }

  function Items(pairs: seq<Pair>, now: int): (items: seq<Item<Pair>>)
  {
    if pairs == [] then [] else
      var n := |pairs| - 1;
      Items(pairs[..n], now) + [Item(pairs[n], pairs[n], InThirtyMinutes(now))]
  }

  /** The pairs heard for a target since it was last created, in their order. */
  function Since(history: seq<Merge>, id: Id): (items: seq<Item<Pair>>)
  {
    if history == [] then [] else
      var n := |history| - 1;
      var earlier := Since(history[..n], id);
      if history[n].target != id then earlier
      else (if id in PutAll(Targets(history[..n])) then earlier else []) + Items(history[n].pairs, history[n].now)
  }

  /** A reply touches its pairs one by one. */
  lemma {:induction false} TouchesAll(h: seq<Item<Pair>>, pairs: seq<Pair>, now: int)
    ensures Touches(TouchAll(h), pairs, now) == TouchAll(h + Items(pairs, now))
  {
    hide Touched, TouchAll;
    if pairs == [] {
      assert h + [] == h;
    } else {
      var n := |pairs| - 1;
      var items, item := Items(pairs[..n], now), Item(pairs[n], pairs[n], InThirtyMinutes(now));
      TouchesAll(h, pairs[..n], now);
      TouchAllMore(h + items, item);
      Grouped(h, items, [item]);
    }
  }

  lemma OneMore(history: seq<Merge>, n: nat, id: Id)
    requires n < |history|
    ensures Targets(history[..n + 1]) == Targets(history[..n]) + [history[n].target]
    ensures PutAll(Targets(history[..n + 1])) == PutOne(PutAll(Targets(history[..n])), history[n].target)
    ensures Since(history[..n + 1], id) ==
            if history[n].target != id then Since(history[..n], id)
            else (if id in PutAll(Targets(history[..n])) then Since(history[..n], id) else [])
                 + Items(history[n].pairs, history[n].now)
  {
    hide PutOne, Items;
    assert history[..n + 1][..n] == history[..n];
    var ids := Targets(history[..n]);
    assert (ids + [history[n].target])[..n] == ids;
  }

  lemma NothingMerged()
    ensures Targets([]) == [] && PutAll([]) == [] && TouchAll<Pair>([]) == []
  {
  }

  /** After any run of `cache_put` on an empty cache: it holds the targets of `FirstInFirstOut`, each
      with the ten pairs most recently heard since it was last created. */
  method MergeAll(history: seq<Merge>) returns (c: Cache)
    ensures fresh(c) && fresh(c.hash.Values) && c.Valid() && c.list == PutAll(Targets(history))
    ensures forall id :: id in c.hash ==> c.hash[id].list == Take(Recents(Since(history, id)), 10)
  {
    hide PutOne, PutAll, TouchAll, Touches, Since, Targets, Items, NoDuplicates, Indexed, DistinctKeys, AnchorAt, AnyDangles;
    c := new Cache();
    NothingMerged();
    assert history[..0] == [];
    for n := 0 to |history|
      invariant fresh(c) && fresh(c.hash.Values) && c.Valid() && c.list == PutAll(Targets(history[..n]))
      invariant forall id :: id in c.hash ==> c.hash[id].list == TouchAll(Since(history[..n], id))
    {
      var m := history[n];
      KeysAreListed(c.list, c.hash);
      var lost := c.Put(m.target, m.pairs, m.now);
      forall id | id in c.hash
        ensures c.hash[id].list == TouchAll(Since(history[..n + 1], id))
      {
        OneMore(history, n, id);
        TouchesAll(Since(history[..n], id), m.pairs, m.now);
        TouchesAll([], m.pairs, m.now);
      }
      OneMore(history, n, m.target);
    }
    assert history[..|history|] == history;
    forall id | id in c.hash
      ensures c.hash[id].list == Take(Recents(Since(history, id)), TGT_SIZE_MAX)
    {
      TenMostRecent(Since(history, id));
    }
  }
}
