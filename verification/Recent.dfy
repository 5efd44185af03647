/**
 The bounded list of the nodes announced for one target (`tgt_v_*` in src/p2p/value.c,
 `tgt_c_*` in src/p2p/cache.c): most recent first, mirrored by an index.
 */
module Recent {
  import opened Bytes
  import opened Clock

  const TGT_SIZE_MAX := 10

  /** K is the node id for announced values and the address pair for cached ones. */
  datatype Item<K> = Item(key: K, pair: seq<Byte>, eol: int)

  // ----- the list -----

  function Without<K(==)>(list: seq<Item<K>>, key: K): (r: seq<Item<K>>)
    ensures |r| <= |list|
  {
    if list == [] then [] else if list[0].key == key then list[1..] else [list[0]] + Without(list[1..], key)
  }

  function Take<T>(s: seq<T>, m: nat): (r: seq<T>)
    ensures |r| <= m
  {
    if |s| <= m then s else s[..m]
  }

  /** One announcement: to the front with it, and off with the eleventh. */
  function Touched<K(==)>(list: seq<Item<K>>, item: Item<K>): seq<Item<K>>
  {
    Take([item] + Without(list, item.key), TGT_SIZE_MAX)
  }

  /** Every key of a history once, most recent first, with its latest data. */
  function Recents<K(==)>(history: seq<Item<K>>): seq<Item<K>>
  {
    if history == [] then [] else
      var n := |history| - 1;
      [history[n]] + Without(Recents(history[..n]), history[n].key)
  }

  function TouchAll<K(==)>(history: seq<Item<K>>): seq<Item<K>>
  {
    if history == [] then [] else
      var n := |history| - 1;
      Touched(TouchAll(history[..n]), history[n])
  }

  lemma {:induction false} TouchAllMore<K>(h: seq<Item<K>>, item: Item<K>)
    ensures TouchAll(h + [item]) == Touched(TouchAll(h), item)
  {
    hide Touched;
    assert (h + [item])[..|h|] == h;
  }

  lemma {:induction false} TakeWithout<K>(list: seq<Item<K>>, key: K, m: nat)
    ensures Take(Without(Take(list, m + 1), key), m) == Take(Without(list, key), m)
  {
    if list != [] && list[0].key != key && m > 0 {
      var rest := list[1..];
      assert Take(list, m + 1) == [list[0]] + Take(rest, m);
      assert ([list[0]] + Take(rest, m))[1..] == Take(rest, m);
      TakeWithout(rest, key, m - 1);
      TakeCons(list[0], Without(Take(rest, m), key), m);
      TakeCons(list[0], Without(rest, key), m);
    } else if list != [] && list[0].key == key {
      assert Take(list, m + 1)[1..] == Take(list[1..], m);
    }
  }

  lemma TakeCons<T>(x: T, s: seq<T>, m: nat)
    requires m > 0
    ensures Take([x] + s, m) == [x] + Take(s, m - 1)
  {
  }

  /** Without expiry the list is the ten most recent distinct keys, most recent first. */
  lemma {:induction false} TenMostRecent<K>(history: seq<Item<K>>)
    ensures TouchAll(history) == Take(Recents(history), 10)
  {
    if history != [] {
      var n := |history| - 1;
      var r, item := Recents(history[..n]), history[n];
      TenMostRecent(history[..n]);
      TakeWithout(r, item.key, TGT_SIZE_MAX - 1);
      TakeCons(item, Without(Take(r, TGT_SIZE_MAX), item.key), TGT_SIZE_MAX);
      TakeCons(item, Without(r, item.key), TGT_SIZE_MAX);
    }
  }

  // ----- what "most recent" means -----

  ghost predicate Announced<K>(history: seq<Item<K>>, key: K)
  {
    exists i :: 0 <= i < |history| && history[i].key == key
  }

  /** Position of the latest announcement of a key. */
  ghost function LastPos<K>(history: seq<Item<K>>, key: K): (i: nat)
    requires Announced(history, key)
    ensures i < |history| && history[i].key == key
    ensures forall j :: i < j < |history| ==> history[j].key != key
  {
    var n := |history| - 1;
    if history[n].key == key then n else
      assert Announced(history[..n], key) by {
        var i :| 0 <= i < |history| && history[i].key == key;
        assert history[..n][i].key == key;
      }
      LastPos(history[..n], key)
  }

  ghost predicate DistinctKeys<K>(list: seq<Item<K>>)
  {
    forall i, j :: 0 <= i < j < |list| ==> list[i].key != list[j].key
  }

  ghost predicate HasKey<K>(list: seq<Item<K>>, key: K)
  {
    exists i :: 0 <= i < |list| && list[i].key == key
  }

  lemma {:induction false} WithoutListedItems<K>(list: seq<Item<K>>, key: K)
    ensures forall i :: 0 <= i < |Without(list, key)| ==> Without(list, key)[i] in list
    ensures forall i :: 0 <= i < |list| && list[i].key != key ==> list[i] in Without(list, key)
  {
    if list != [] {
      assert list == [list[0]] + list[1..];
      WithoutListedItems(list[1..], key);
    }
  }

  lemma KeysAreListed<K>(list: seq<Id>, hash: map<Id, Target<K>>)
    requires Indexes(list, hash)
    ensures forall id :: id in hash <==> id in list
  {
  }

  /** An index of targets holds each in its own object. */
  lemma OtherTargets<K>(list: seq<Id>, hash: map<Id, Target<K>>, id: Id)
    requires Indexes(list, hash) && id in hash
    ensures id in list && forall x :: x in hash && x != id ==> hash[x] != hash[id]
  {
  }

  lemma {:induction false} WithoutOthers<K>(list: seq<Item<K>>, key: K, other: K)
    requires forall i :: 0 <= i < |list| ==> list[i].key != other
    ensures forall i :: 0 <= i < |Without(list, key)| ==> Without(list, key)[i].key != other
  {
    if list != [] {
      WithoutOthers(list[1..], key, other);
    }
  }

  lemma {:induction false} WithoutDistinct<K>(list: seq<Item<K>>, key: K)
    requires DistinctKeys(list)
    ensures DistinctKeys(Without(list, key))
    ensures forall i :: 0 <= i < |Without(list, key)| ==> Without(list, key)[i].key != key
  {
    if list != [] {
      WithoutDistinct(list[1..], key);
      WithoutOthers(list[1..], key, list[0].key);
    }
  }

  /** Deleting a key keeps the other items. */
  lemma WithoutItems<K>(list: seq<Item<K>>, key: K)
    requires DistinctKeys(list)
    ensures DistinctKeys(Without(list, key))
    ensures forall i :: 0 <= i < |Without(list, key)| ==> Without(list, key)[i] in list && Without(list, key)[i].key != key
    ensures forall i :: 0 <= i < |list| && list[i].key != key ==> list[i] in Without(list, key)
  {
    hide Without, DistinctKeys;
    WithoutListedItems(list, key);
    WithoutDistinct(list, key);
  }

  lemma {:induction false} WithoutLength<K>(list: seq<Item<K>>, key: K)
    ensures HasKey(list, key) ==> |Without(list, key)| == |list| - 1
    ensures !HasKey(list, key) ==> Without(list, key) == list
  {
    if list != [] {
      var rest := list[1..];
      assert list == [list[0]] + rest;
      WithoutLength(rest, key);
      if HasKey(rest, key) {
        var i :| 0 <= i < |rest| && rest[i].key == key;
        assert list[i + 1].key == key;
      }
      if HasKey(list, key) && list[0].key != key {
        var i :| 0 <= i < |list| && list[i].key == key;
        assert rest[i - 1].key == key;
      }
    }
  }

  /** A rank that never rises along a list. */
  ghost predicate Falling<K(!new)>(list: seq<Item<K>>, rank: Item<K> -> int)
  {
    forall i, j :: 0 <= i < j < |list| ==> rank(list[i]) >= rank(list[j])
  }

  ghost predicate Bounded<K(!new)>(list: seq<Item<K>>, rank: Item<K> -> int, b: int)
  {
    forall i :: 0 <= i < |list| ==> rank(list[i]) <= b
  }

  lemma {:induction false} WithoutBounded<K(!new)>(list: seq<Item<K>>, key: K, rank: Item<K> -> int, b: int)
    requires Bounded(list, rank, b)
    ensures Bounded(Without(list, key), rank, b)
  {
    if list != [] {
      WithoutBounded(list[1..], key, rank, b);
    }
  }

  lemma {:induction false} WithoutFalling<K(!new)>(list: seq<Item<K>>, key: K, rank: Item<K> -> int)
    requires Falling(list, rank)
    ensures Falling(Without(list, key), rank)
  {
    if list != [] {
      WithoutFalling(list[1..], key, rank);
      WithoutBounded(list[1..], key, rank, rank(list[0]));
    }
  }

  /** How late the latest announcement of an item's key was; -1 if there was none. */
  ghost function Lateness<K>(history: seq<Item<K>>, item: Item<K>): int
  {
    if Announced(history, item.key) then LastPos(history, item.key) else -1
  }

  ghost predicate Listed<K>(history: seq<Item<K>>, list: seq<Item<K>>)
  {
    forall i :: 0 <= i < |list| ==>
      Announced(history, list[i].key) && list[i] == history[LastPos(history, list[i].key)]
  }

  lemma LastPosExtends<K>(history: seq<Item<K>>, n: nat, key: K)
    requires n == |history| - 1 && Announced(history[..n], key) && history[n].key != key
    ensures Announced(history, key) && LastPos(history, key) == LastPos(history[..n], key)
  {
    var i :| 0 <= i < |history[..n]| && history[..n][i].key == key;
    assert history[i].key == key;
  }

  lemma ListedExtends<K(!new)>(history: seq<Item<K>>, n: nat, list: seq<Item<K>>)
    requires n == |history| - 1 && Listed(history[..n], list)
    requires Falling(list, item => Lateness(history[..n], item))
    requires forall i :: 0 <= i < |list| ==> list[i].key != history[n].key
    ensures Listed(history, list) && Falling(list, item => Lateness(history, item))
  {
    hide LastPos;
    forall i | 0 <= i < |list|
      ensures Announced(history, list[i].key)
      ensures LastPos(history, list[i].key) == LastPos(history[..n], list[i].key)
    {
      LastPosExtends(history, n, list[i].key);
    }
  }

  /** `Recents` holds each announced key once, with the data of its latest
      announcement, ordered by how late that was. */
  lemma {:induction false} RecentsMeaning<K(!new)>(history: seq<Item<K>>)
    ensures DistinctKeys(Recents(history)) && Listed(history, Recents(history))
    ensures Falling(Recents(history), item => Lateness(history, item))
    ensures forall i :: 0 <= i < |history| ==> HasKey(Recents(history), history[i].key)
  {
    if history != [] {
      var n := |history| - 1;
      var r, item := Recents(history[..n]), history[n];
      RecentsMeaning(history[..n]);
      WithoutItems(r, item.key);
      WithoutFalling(r, item.key, item => Lateness(history[..n], item));
      WithoutListed(history[..n], r, item.key);
      ListedExtends(history, n, Without(r, item.key));
      LatestFirst(history, n, Without(r, item.key));
      RecentsCover(history, n);
    }
  }

  /** The key listed before another was announced again after the last announcement of the other. */
  lemma RecentsOrder<K(!new)>(history: seq<Item<K>>, i: nat, j: nat)
    requires i < j < |Recents(history)|
    ensures var a, b := Recents(history)[i].key, Recents(history)[j].key;
            exists k :: 0 <= k < |history| && history[k].key == a && forall l :: k <= l < |history| ==> history[l].key != b
  {
    hide Recents, LastPos;
    RecentsMeaning(history);
    var a, b := Recents(history)[i], Recents(history)[j];
    var k, l := LastPos(history, a.key), LastPos(history, b.key);
    assert Lateness(history, a) == k && Lateness(history, b) == l;
    assert k >= l && history[k].key == a.key && history[l].key == b.key && a.key != b.key;
  }

  lemma WithoutListed<K>(history: seq<Item<K>>, list: seq<Item<K>>, key: K)
    requires Listed(history, list) && DistinctKeys(list)
    ensures Listed(history, Without(list, key))
  {
    hide LastPos;
    WithoutItems(list, key);
    var w := Without(list, key);
    forall i | 0 <= i < |w|
      ensures Announced(history, w[i].key) && w[i] == history[LastPos(history, w[i].key)]
    {
      var j :| 0 <= j < |list| && list[j] == w[i];
    }
  }

  lemma LatestFirst<K(!new)>(history: seq<Item<K>>, n: nat, w: seq<Item<K>>)
    requires n == |history| - 1 && Listed(history, w) && DistinctKeys(w)
    requires Falling(w, item => Lateness(history, item))
    requires forall i :: 0 <= i < |w| ==> w[i].key != history[n].key
    ensures DistinctKeys([history[n]] + w) && Listed(history, [history[n]] + w)
    ensures Falling([history[n]] + w, item => Lateness(history, item))
  {
    assert Announced(history, history[n].key);
  }

  lemma HasKeyAt<K>(list: seq<Item<K>>, item: Item<K>)
    requires item in list
    ensures HasKey(list, item.key)
  {
    var k :| 0 <= k < |list| && list[k] == item;
  }

  lemma {:induction false} WithoutHasKey<K>(list: seq<Item<K>>, key: K, other: K)
    requires HasKey(list, other) && other != key
    ensures HasKey(Without(list, key), other)
  {
    var i :| 0 <= i < |list| && list[i].key == other;
    WithoutListedItems(list, key);
    HasKeyAt(Without(list, key), list[i]);
  }

  lemma ConsHasKey<K>(item: Item<K>, list: seq<Item<K>>, key: K)
    requires item.key == key || HasKey(list, key)
    ensures HasKey([item] + list, key)
  {
    if item.key == key {
      HasKeyAt([item] + list, item);
    } else {
      var i :| 0 <= i < |list| && list[i].key == key;
      HasKeyAt([item] + list, list[i]);
    }
  }

  lemma {:induction false} RecentsCover<K>(history: seq<Item<K>>, n: nat)
    requires n == |history| - 1
    requires forall i :: 0 <= i < n ==> HasKey(Recents(history[..n]), history[..n][i].key)
    ensures forall i :: 0 <= i < |history| ==> HasKey(Recents(history), history[i].key)
  {
    var r, item := Recents(history[..n]), history[n];
    assert Recents(history) == [item] + Without(r, item.key);
    hide Recents, HasKey, Without;
    forall i | 0 <= i < |history|
      ensures HasKey([item] + Without(r, item.key), history[i].key)
    {
      if history[i].key != item.key {
        assert HasKey(r, history[..n][i].key);
        WithoutHasKey(r, item.key, history[i].key);
      }
      ConsHasKey(item, Without(r, item.key), history[i].key);
    }
  }

  // ----- expiry -----

  /** End-of-life times never rise along the list. */
  ghost predicate EolFalling<K(!new)>(list: seq<Item<K>>)
  {
    Falling(list, Eol)
  }

  function Alive<K>(list: seq<Item<K>>, now: int): (r: seq<Item<K>>)
    ensures |r| <= |list|
  {
    if list == [] then [] else (if now > list[0].eol then [] else [list[0]]) + Alive(list[1..], now)
  }

  ghost predicate ValidList<K(!new)>(list: seq<Item<K>>)
  {
    DistinctKeys(list) && EolFalling(list) && |list| <= TGT_SIZE_MAX
  }

  function Eol<K>(item: Item<K>): int
  {
    item.eol
  }

  lemma TouchedValid<K(!new)>(list: seq<Item<K>>, item: Item<K>)
    requires ValidList(list) && Bounded(list, Eol, item.eol)
    ensures ValidList(Touched(list, item)) && Bounded(Touched(list, item), Eol, item.eol)
  {
    hide Without, DistinctKeys, Falling, Bounded, Take;
    var w := Without(list, item.key);
    WithoutItems(list, item.key);
    WithoutFalling(list, item.key, Eol);
    WithoutBounded(list, item.key, Eol, item.eol);
    NoKeyConsDistinct(w, item);
    ConsFalling(w, item);
    TakeValid([item] + w, TGT_SIZE_MAX, item.eol);
  }

  lemma ConsFalling<K(!new)>(list: seq<Item<K>>, item: Item<K>)
    requires Falling(list, Eol) && Bounded(list, Eol, item.eol)
    ensures Falling([item] + list, Eol) && Bounded([item] + list, Eol, item.eol)
  {
  }

  lemma TakeValid<K(!new)>(list: seq<Item<K>>, m: nat, b: int)
    requires DistinctKeys(list) && Falling(list, Eol) && Bounded(list, Eol, b)
    ensures DistinctKeys(Take(list, m)) && Falling(Take(list, m), Eol) && Bounded(Take(list, m), Eol, b)
  {
  }

  /** Under a clock that does not go back, an expiry cuts off exactly a tail. */
  lemma {:induction false} AliveIsPrefix<K(!new)>(list: seq<Item<K>>, now: int)
    requires EolFalling(list)
    ensures Alive(list, now) == list[..|Alive(list, now)|]
    ensures forall i :: 0 <= i < |list| ==> (now > list[i].eol <==> i >= |Alive(list, now)|)
  {
    hide Alive;
    if list == [] {
      AliveNone([], list, now);
    } else {
      var rest := list[1..];
      AliveHead(list, now);
      AliveIsPrefix(rest, now);
      assert forall i :: 0 < i < |list| ==> list[i] == rest[i - 1];
      assert list == [list[0]] + rest;
      if now > list[0].eol && rest != [] {
        assert Eol(list[0]) >= Eol(list[1]) && rest[0] == list[1];
      }
    }
  }

  datatype Op<K> = Touch(key: K, pair: seq<Byte>, now: int) | Expire(now: int)

  function Apply<K(==)>(list: seq<Item<K>>, op: Op<K>): seq<Item<K>>
  {
    match op
    case Touch(key, pair, now) => Touched(list, Item(key, pair, InThirtyMinutes(now)))
    case Expire(now) => Alive(list, now)
  }

  function ApplyAll<K(==)>(ops: seq<Op<K>>): seq<Item<K>>
  {
    if ops == [] then [] else Apply(ApplyAll(ops[..|ops| - 1]), ops[|ops| - 1])
  }

  /** Over every run with a non-decreasing clock: at most ten distinct keys, with
      end-of-life times that never rise along the list. */
  lemma {:induction false} EveryRun<K(!new)>(ops: seq<Op<K>>)
    requires forall i, j :: 0 <= i < j < |ops| ==> ops[i].now <= ops[j].now
    ensures ValidList(ApplyAll(ops)) && |ApplyAll(ops)| <= 10
    ensures ops == [] ==> ApplyAll(ops) == []
    ensures ops != [] ==> Bounded(ApplyAll(ops), Eol, ops[|ops| - 1].now + 1800)
  {
    if ops != [] {
      var n := |ops| - 1;
      EveryRun(ops[..n]);
      var list := ApplyAll(ops[..n]);
      assert n > 0 ==> ops[..n][n - 1] == ops[n - 1];
      assert Bounded(list, Eol, InThirtyMinutes(ops[n].now));
      hide ValidList, Bounded, Touched, Alive;
      match ops[n]
      case Touch(key, pair, now) =>
        TouchedValid(list, Item(key, pair, InThirtyMinutes(now)));
      case Expire(now) =>
        AliveValid(list, now, InThirtyMinutes(now));
    }
  }

  lemma AliveValid<K(!new)>(list: seq<Item<K>>, now: int, b: int)
    requires ValidList(list) && Bounded(list, Eol, b)
    ensures ValidList(Alive(list, now)) && Bounded(Alive(list, now), Eol, b)
  {
    hide Alive;
    AliveIsPrefix(list, now);
  }

  // ----- list and index together -----

  /** The index maps exactly the keys of the list to their items. */
  ghost predicate Indexed<K>(list: seq<Item<K>>, hash: map<K, Item<K>>)
  {
    && (forall i :: 0 <= i < |list| ==> list[i].key in hash && hash[list[i].key] == list[i])
    && (forall key :: key in hash ==> hash[key].key == key && hash[key] in list)
  }

  lemma IndexedHasKey<K>(list: seq<Item<K>>, hash: map<K, Item<K>>, key: K)
    requires Indexed(list, hash)
    ensures key in hash <==> HasKey(list, key)
  {
    if key in hash {
      HasKeyAt(list, hash[key]);
    }
  }

  lemma WithoutIndexed<K>(list: seq<Item<K>>, hash: map<K, Item<K>>, key: K)
    requires Indexed(list, hash) && DistinctKeys(list)
    ensures Indexed(Without(list, key), hash - {key})
  {
    WithoutItems(list, key);
    var w := Without(list, key);
    hide Without;
    forall i | 0 <= i < |w|
      ensures w[i].key in hash && hash[w[i].key] == w[i]
    {
      var j :| 0 <= j < |list| && list[j] == w[i];
    }
    forall k | k in hash && k != key
      ensures hash[k] in w
    {
      var j :| 0 <= j < |list| && list[j] == hash[k];
    }
  }

  lemma ConsIndexed<K>(list: seq<Item<K>>, hash: map<K, Item<K>>, item: Item<K>)
    requires Indexed(list, hash) && item.key !in hash
    ensures Indexed([item] + list, hash[item.key := item])
  {
    var l := [item] + list;
    assert item in l;
    forall key | key in hash
      ensures hash[key] in l
    {
      assert hash[key] in list;
    }
  }

  lemma ConsDistinct<K>(list: seq<Item<K>>, item: Item<K>)
    requires DistinctKeys(list) && !HasKey(list, item.key)
    ensures DistinctKeys([item] + list)
  {
  }

  lemma {:induction false} WithoutLast<K>(list: seq<Item<K>>)
    requires list != [] && DistinctKeys(list)
    ensures Without(list, list[|list| - 1].key) == list[..|list| - 1]
  {
    if |list| > 1 {
      WithoutLast(list[1..]);
      assert list[1..][|list| - 2] == list[|list| - 1];
    }
  }

  lemma NoKeyNoDangle<K>(list: seq<Item<K>>, anchor: nat, key: K)
    requires !HasKey(list, key)
    ensures !Dangles(list, anchor, key)
  {
  }

  lemma NoKeyConsDistinct<K>(list: seq<Item<K>>, item: Item<K>)
    requires DistinctKeys(list) && forall i :: 0 <= i < |list| ==> list[i].key != item.key
    ensures DistinctKeys([item] + list)
  {
  }

  // ----- where the list is anchored -----

  /** Deleting the item of a key frees the item that the list is anchored at, and that is not
      the head: `list_del` then walks from freed memory. */
  predicate Dangles<K(==)>(list: seq<Item<K>>, anchor: nat, key: K)
  {
    0 < anchor < |list| && list[anchor].key == key
  }

  /** Where a touch leaves the anchor: at the second item, which was the head when the new one
      was inserted, unless there is none or a deletion came last. */
  ghost function AnchorAfter<K>(list: seq<Item<K>>, key: K): (a: nat)
  {
    if HasKey(list, key) then (if |list| == 1 then 0 else 1)
    else if 0 < |list| < TGT_SIZE_MAX then 1 else 0
  }

  class Target<K(==)> {
    var list: seq<Item<K>>
    var hash: map<K, Item<K>>
    var anchor: nat

    ghost predicate Valid()
      reads this
    {
      DistinctKeys(list) && |list| <= TGT_SIZE_MAX && Indexed(list, hash)
    }

    /** `tgt_v_init`, `tgt_c_init` */
    constructor ()
      ensures Valid() && list == [] && anchor == 0
    {
      list, hash, anchor := [], map[], 0;
    }

    /** `tgt_v_del`, `tgt_c_del` on the item with a listed key. `lost` says whether `list_del` walked
        from freed memory. */
    method Del(key: K) returns (lost: bool)
      requires DistinctKeys(list) && Indexed(list, hash)
      modifies this
      ensures DistinctKeys(list) && Indexed(list, hash)
      ensures list == Without(old(list), key) && anchor == 0
      ensures lost <==> Dangles(old(list), old(anchor), key)
    {
      WithoutItems(list, key);
      WithoutIndexed(list, hash, key);
      lost := Dangles(list, anchor, key);
      hash := hash - {key};
      list := Without(list, key);
      anchor := 0;
    }

    /** `tgt_v_put`, `tgt_c_put` for a new key */
    method Put(item: Item<K>) returns (lost: bool)
      requires Valid() && item.key !in hash
      modifies this
      ensures Valid() && list == Take([item] + old(list), 10)
      ensures anchor == if 0 < |old(list)| < 10 then 1 else 0
      ensures !lost
    {
      hide Indexed, Without;
      IndexedHasKey(list, hash, item.key);
      ConsIndexed(list, hash, item);
      ConsDistinct(list, item);
      anchor := if list == [] then 0 else 1;
      list := [item] + list;
      hash := hash[item.key := item];
      lost := false;
      if |list| > TGT_SIZE_MAX {
        WithoutLast(list);
        assert list[1].key != list[|list| - 1].key;
        hide DistinctKeys;
        lost := Del(list[|list| - 1].key);
      }
    }

    /** `tgt_v_update`, `tgt_c_update`. `lost` says whether the deletion of a known item walked
        from freed memory; what is stated of the list then is what it is if that still reads as
        it did. */
    method Update(key: K, pair: seq<Byte>, now: int) returns (lost: bool)
      requires Valid()
      modifies this
      ensures Valid() && list == Touched(old(list), Item(key, pair, now + 1800))
      ensures lost <==> Dangles(old(list), old(anchor), key)
      ensures anchor == AnchorAfter(old(list), key)
    {
      hide Indexed, DistinctKeys;
      var item := Item(key, pair, InThirtyMinutes(now));
      WithoutItems(list, key);
      WithoutLength(list, key);
      IndexedHasKey(list, hash, key);
      if key !in hash {
        NoKeyNoDangle(list, anchor, key);
        lost := Put(item);
      } else {
        WithoutIndexed(list, hash, key);
        ConsIndexed(Without(list, key), hash - {key}, item);
        NoKeyConsDistinct(Without(list, key), item);
        assert (hash - {key})[key := item] == hash[key := item];
        lost := Dangles(list, anchor, key);
        list := [item] + Without(list, key);
        hash := hash[key := item];
        anchor := if |list| == 1 then 0 else 1;
      }
    }

    /** `val_compact_list`, `cache_compact_list` and the printing functions anchor the list at
        its head. */
    method Start()
      requires Valid()
      modifies this`anchor
      ensures Valid() && anchor == 0
    {
      anchor := 0;
    }

    /** `tgt_v_expire`, `tgt_c_expire` */
    method Expire(now: int) returns (lost: bool)
      requires Valid()
      modifies this
      ensures Valid() && list == Alive(old(list), now) && anchor == 0 && !lost
    {
      hide Indexed, DistinctKeys, Without, Alive;
      ghost var l, done, rest := list, [], list;
      AliveBegins(l, now);
      anchor, lost := 0, false;
      var i := 0;
      while i < |list|
        invariant DistinctKeys(list) && |list| <= TGT_SIZE_MAX && Indexed(list, hash)
        invariant i == |done| && list == done + rest && anchor == 0 && !lost
        invariant Alive(l, now) == done + Alive(rest, now)
        decreases |rest|
      {
        var item := list[i];
        AliveStep(done, rest, now);
        if now > item.eol {
          WithoutMiddle(done, item, rest[1..]);
          lost := Del(item.key);
        } else {
          done := done + [item];
          i := i + 1;
        }
        rest := rest[1..];
      }
      AliveNone(done, rest, now);
    }
  }

  /** An index of targets holds exactly the listed targets, each with its own object. */
  ghost predicate Indexes<K>(list: seq<Id>, hash: map<Id, Target<K>>)
  {
    && (forall id :: id in hash <==> id in list)
    && (forall a, b :: a in hash && b in hash && a != b ==> hash[a] != hash[b])
  }

  lemma AliveBegins<K>(list: seq<Item<K>>, now: int)
    ensures [] + list == list && Alive(list, now) == [] + Alive(list, now)
  {
  }

  lemma {:induction false} AliveHead<K>(rest: seq<Item<K>>, now: int)
    requires rest != []
    ensures Alive(rest, now) == if now > rest[0].eol then Alive(rest[1..], now) else [rest[0]] + Alive(rest[1..], now)
  {
  }

  lemma {:induction false} AliveStep<K>(done: seq<Item<K>>, rest: seq<Item<K>>, now: int)
    requires rest != []
    ensures (done + rest)[|done|] == rest[0] && done + rest == done + [rest[0]] + rest[1..]
    ensures now > rest[0].eol ==> Alive(rest, now) == Alive(rest[1..], now)
    ensures now <= rest[0].eol ==> done + Alive(rest, now) == done + [rest[0]] + Alive(rest[1..], now)
  {
    hide Alive;
    AliveHead(rest, now);
    assert rest == [rest[0]] + rest[1..];
    Grouped(done, [rest[0]], rest[1..]);
    Grouped(done, [rest[0]], Alive(rest[1..], now));
  }

  lemma Grouped<T>(a: seq<T>, b: seq<T>, c: seq<T>)
    ensures a + (b + c) == a + b + c
  {
  }

  lemma AliveNone<K>(done: seq<Item<K>>, rest: seq<Item<K>>, now: int)
    requires rest == []
    ensures done + Alive(rest, now) == done + rest
  {
  }

  lemma {:induction false} WithoutMiddle<K>(a: seq<Item<K>>, item: Item<K>, b: seq<Item<K>>)
    requires DistinctKeys(a + [item] + b)
    ensures Without(a + [item] + b, item.key) == a + b
  {
    var s := a + [item] + b;
    if a == [] {
      assert s[1..] == b && a + b == b;
    } else {
      assert s[0].key != s[|a|].key;
      assert s[1..] == a[1..] + [item] + b;
      WithoutMiddle(a[1..], item, b);
      assert a + b == [a[0]] + (a[1..] + b);
    }
  }
}
