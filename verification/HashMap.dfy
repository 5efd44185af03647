/** The chained hash map (src/shr/hash.c). Keys are byte strings, compared by content. */
module HashMap {
  import opened Collections
  import opened Bytes

  const ULONG_RANGE := 0x1_0000_0000_0000_0000

  type Key = seq<Byte>

  datatype Pair<V> = Pair(key: Key, value: V)

  /** `hash_this`: 33 * h + byte, in 64 bits. */
  function HashThis(key: Key): (h: nat)
    ensures h < ULONG_RANGE
  {
    if key == [] then 5381 else (33 * HashThis(key[..|key| - 1]) + key[|key| - 1]) % ULONG_RANGE
  }

  method ComputeHash(key: Key) returns (result: nat)
    ensures result == HashThis(key)
  {
    result := 5381;
    var i := 0;
    while i < |key|
      invariant i <= |key| && result == HashThis(key[..i])
    {
      assert key[..i + 1][..i] == key[..i];
      result := (result * 32 + result + key[i]) % ULONG_RANGE;
      i := i + 1;
    }
    assert key[..i] == key;
  }

  /** The hash of a key, byte by byte: 5381 for none, and each byte added to 33 times the hash so far,
      modulo 2^64. */
  lemma HashSteps(key: Key, b: Byte)
    ensures HashThis([]) == 5381
    ensures HashThis(key + [b]) == (33 * HashThis(key) + b) % 0x1_0000_0000_0000_0000
  {
    assert (key + [b])[..|key|] == key;
  }

  // ----- one chain -----

  ghost predicate Distinct<V>(chain: seq<Pair<V>>)
  {
    forall i, j :: 0 <= i < j < |chain| ==> chain[i].key != chain[j].key
  }

  ghost function Find<V>(chain: seq<Pair<V>>, key: Key): Option<V>
  {
    if chain == [] then None
    else if chain[0].key == key then Some(chain[0].value)
    else Find(chain[1..], key)
  }

  lemma {:induction false} FindMissing<V>(chain: seq<Pair<V>>, key: Key)
    ensures Find(chain, key).None? <==> forall i :: 0 <= i < |chain| ==> chain[i].key != key
  {
    if chain != [] {
      FindMissing(chain[1..], key);
      assert chain == [chain[0]] + chain[1..];
    }
  }

  lemma {:induction false} FindAppended<V>(chain: seq<Pair<V>>, p: Pair<V>, key: Key)
    ensures Find(chain + [p], key) ==
            if Find(chain, key).Some? then Find(chain, key) else if key == p.key then Some(p.value) else None
  {
    if chain == [] {
      assert (chain + [p])[1..] == [];
    } else {
      assert (chain + [p])[1..] == chain[1..] + [p];
      FindAppended(chain[1..], p, key);
    }
  }

  lemma {:induction false} FindReplaced<V>(chain: seq<Pair<V>>, i: nat, value: V, key: Key)
    requires Distinct(chain) && i < |chain|
    ensures Find(chain[i := Pair(chain[i].key, value)], key) == if key == chain[i].key then Some(value) else Find(chain, key)
  {
    if i > 0 {
      assert chain[i := Pair(chain[i].key, value)][1..] == chain[1..][i - 1 := Pair(chain[i].key, value)];
      FindReplaced(chain[1..], i - 1, value, key);
      assert chain[0].key != chain[i].key;
    }
  }

  lemma {:induction false} FindRemoved<V>(chain: seq<Pair<V>>, i: nat, key: Key)
    requires Distinct(chain) && i < |chain|
    ensures Find(Removed(chain, i), key) == if key == chain[i].key then None else Find(chain, key)
  {
    if i == 0 {
      assert Removed(chain, 0) == chain[1..];
      FindMissing(chain[1..], key);
    } else {
      assert Removed(chain, i)[1..] == Removed(chain[1..], i - 1);
      FindRemoved(chain[1..], i - 1, key);
      assert chain[0].key != chain[i].key;
    }
  }

  lemma RemovedDistinct<V>(chain: seq<Pair<V>>, i: nat)
    requires Distinct(chain) && i < |chain|
    ensures Distinct(Removed(chain, i))
    ensures forall k :: 0 <= k < |chain| - 1 ==> Removed(chain, i)[k] == chain[if k < i then k else k + 1]
  {
  }

  // ----- the map -----

  /** Every pair is in the bucket its key hashes to, once, and the buckets together
      answer as the finite map m does. */
  ghost predicate Represents<V>(buckets: seq<seq<Pair<V>>>, m: map<Key, V>)
  {
    && buckets != []
    && (forall b :: 0 <= b < |buckets| ==> Distinct(buckets[b]))
    && (forall b, i :: 0 <= b < |buckets| && 0 <= i < |buckets[b]| ==> HashThis(buckets[b][i].key) % |buckets| == b)
    && (forall key: Key :: Answers(buckets, m, key))
  }

  ghost predicate Answers<V>(buckets: seq<seq<Pair<V>>>, m: map<Key, V>, key: Key)
    requires buckets != []
  {
    Find(buckets[HashThis(key) % |buckets|], key) == if key in m then Some(m[key]) else None
  }

  /** Replacing the chain of a key's bucket by one that differs for that key only. */
  lemma ChainReplaced<V>(buckets: seq<seq<Pair<V>>>, m: map<Key, V>, m': map<Key, V>, key: Key, chain: seq<Pair<V>>)
    requires Represents(buckets, m) && Distinct(chain)
    requires forall i :: 0 <= i < |chain| ==> HashThis(chain[i].key) % |buckets| == HashThis(key) % |buckets|
    requires Find(chain, key) == if key in m' then Some(m'[key]) else None
    requires forall k: Key :: k != key ==> Find(chain, k) == Find(buckets[HashThis(key) % |buckets|], k)
    requires forall k: Key :: k != key ==> (k in m' <==> k in m) && (k in m ==> m'[k] == m[k])
    ensures Represents(buckets[HashThis(key) % |buckets| := chain], m')
  {
    hide Find, HashThis, Distinct;
    var b := HashThis(key) % |buckets|;
    var u := buckets[b := chain];
    forall k: Key
      ensures Answers(u, m', k)
    {
      assert Answers(buckets, m, k);
    }
  }

  class Hash<V> {
    const buckets: array<seq<Pair<V>>>
    ghost var contents: map<Key, V>

    ghost predicate Valid()
      reads this, buckets
    {
      Represents(buckets[..], contents)
    }

    /** `hash_init` */
    constructor (capacity: nat)
      requires capacity > 0
      ensures Valid() && contents == map[] && fresh(buckets)
    {
      buckets := new seq<Pair<V>>[capacity](_ => []);
      contents := map[];
    }

    /** `hash_getpair`: the position of a key in its chain. */
    method GetPair(chain: seq<Pair<V>>, key: Key) returns (r: Option<nat>)
      ensures r.None? <==> Find(chain, key).None?
      ensures r.Some? ==> r.value < |chain| && chain[r.value].key == key
                          && Find(chain, key) == Some(chain[r.value].value)
    {
      var i := 0;
      while i < |chain|
        invariant i <= |chain| && Find(chain, key) == Find(chain[i..], key)
      {
        if chain[i].key == key {
          return Some(i);
        }
        i := i + 1;
      }
      r := None;
    }

    /** `hash_get` */
    method Get(key: Key) returns (r: Option<V>)
      requires Valid()
      ensures r == if key in contents then Some(contents[key]) else None
    {
      hide Find, HashThis;
      var h := ComputeHash(key);
      var index := h % buckets.Length;
      assert Answers(buckets[..], contents, key);
      var pair := GetPair(buckets[index], key);
      r := if pair.None? then None else Some(buckets[index][pair.value].value);
    }

    /** `hash_put`: refused only for a new key in a chain of LONG_MAX pairs. */
    method Put(key: Key, value: V) returns (ok: bool)
      requires Valid()
      modifies this, buckets
      ensures Valid()
      ensures ok ==> contents == old(contents)[key := value]
      ensures !ok ==> contents == old(contents) && key !in contents
      ensures !ok <==> key !in old(contents) && |old(buckets[HashThis(key) % buckets.Length])| == 0x7fff_ffff_ffff_ffff
    {
      hide Find, HashThis;
      var h := ComputeHash(key);
      var index := h % buckets.Length;
      var chain := buckets[index];
      assert Answers(buckets[..], contents, key);
      var pair := GetPair(chain, key);
      if pair.Some? {
        PutChain(key, value, index, chain[pair.value := Pair(key, value)], pair);
        return true;
      }
      if |chain| == LONG_MAX {
        return false;
      }
      PutChain(key, value, index, chain + [Pair(key, value)], pair);
      ok := true;
    }

    /** Storing the new chain. */
    method PutChain(key: Key, value: V, index: nat, chain: seq<Pair<V>>, ghost pair: Option<nat>)
      requires Valid() && index == HashThis(key) % buckets.Length
      requires pair.None? ==> Find(buckets[index], key).None? && chain == buckets[index] + [Pair(key, value)]
      requires pair.Some? ==> pair.value < |buckets[index]| && buckets[index][pair.value].key == key
                              && chain == buckets[index][pair.value := Pair(key, value)]
      modifies this, buckets
      ensures Valid() && contents == old(contents)[key := value]
    {
      hide HashThis, Find;
      ghost var b, c := buckets[..], buckets[index];
      StoredChain(c, chain, key, value, pair);
      ChainReplaced(b, contents, contents[key := value], key, chain);
      buckets[index] := chain;
      contents := contents[key := value];
      assert buckets[..] == b[index := chain];
    }

    /** `hash_del` */
    method Del(key: Key)
      requires Valid()
      modifies this, buckets
      ensures Valid() && contents == old(contents) - {key}
    {
      hide Find, HashThis;
      var h := ComputeHash(key);
      var index := h % buckets.Length;
      var chain := buckets[index];
      assert Answers(buckets[..], contents, key);
      var pair := GetPair(chain, key);
      if pair.None? {
        assert contents == contents - {key};
        return;
      }
      var newpairs := CopyExcept(chain, pair.value);
      ghost var b := buckets[..];
      RemovedChain(chain, pair.value, key);
      ChainReplaced(b, contents, contents - {key}, key, newpairs);
      buckets[index] := newpairs;
      contents := contents - {key};
      assert buckets[..] == b[index := newpairs];
    }

    /** The copy loop of `hash_del`. */
    method CopyExcept(oldpairs: seq<Pair<V>>, skip: nat) returns (newpairs: seq<Pair<V>>)
      requires skip < |oldpairs|
      ensures newpairs == Removed(oldpairs, skip)
    {
      newpairs := [];
      var i := 0;
      while i < |oldpairs|
        invariant i <= |oldpairs|
        invariant newpairs == if i <= skip then oldpairs[..i] else oldpairs[..skip] + oldpairs[skip + 1..i]
      {
        assert oldpairs[..i + 1] == oldpairs[..i] + [oldpairs[i]];
        if i > skip {
          assert oldpairs[skip + 1..i + 1] == oldpairs[skip + 1..i] + [oldpairs[i]];
        }
        if i != skip {
          newpairs := newpairs + [oldpairs[i]];
        }
        i := i + 1;
      }
    }
  }

  lemma StoredChain<V>(c: seq<Pair<V>>, chain: seq<Pair<V>>, key: Key, value: V, pair: Option<nat>)
    requires Distinct(c)
    requires pair.None? ==> Find(c, key).None? && chain == c + [Pair(key, value)]
    requires pair.Some? ==> pair.value < |c| && c[pair.value].key == key && chain == c[pair.value := Pair(key, value)]
    ensures Distinct(chain) && Find(chain, key) == Some(value)
    ensures forall k: Key :: k != key ==> Find(chain, k) == Find(c, k)
    ensures forall i :: 0 <= i < |chain| ==> chain[i].key == key || chain[i] in c
  {
    FindMissing(c, key);
    hide Find;
    forall k: Key
      ensures Find(chain, k) == if k == key then Some(value) else Find(c, k)
    {
      if pair.Some? {
        FindReplaced(c, pair.value, value, k);
      } else {
        FindAppended(c, Pair(key, value), k);
      }
    }
  }

  lemma RemovedChain<V>(c: seq<Pair<V>>, i: nat, key: Key)
    requires Distinct(c) && i < |c| && c[i].key == key
    ensures Distinct(Removed(c, i)) && Find(Removed(c, i), key).None?
    ensures forall k: Key :: k != key ==> Find(Removed(c, i), k) == Find(c, k)
    ensures forall k :: 0 <= k < |c| - 1 ==> Removed(c, i)[k] == c[if k < i then k else k + 1]
  {
    hide Find;
    RemovedDistinct(c, i);
    forall k: Key
      ensures Find(Removed(c, i), k) == if k == key then None else Find(c, k)
    {
      FindRemoved(c, i, k);
    }
  }
}
