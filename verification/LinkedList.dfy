/**
 The doubly linked list (src/shr/list.c). The list keeps a pointer to some item of its
 chain, the anchor; `Start` moves it to the head.
 */
module LinkedList {
  import opened Collections


  class Item<T> {
    var val: T
    var next: Item?<T>
    var prev: Item?<T>

    constructor (val: T)
      ensures this.val == val && next == null && prev == null
    {
      this.val, next, prev := val, null, null;
    }
  }

  /** Neighbours in `nodes` point at each other; the two outer pointers are free. */
  ghost predicate Segment<T>(nodes: seq<Item<T>>)
    reads nodes
  {
    && (forall i, j :: 0 <= i < j < |nodes| ==> nodes[i] != nodes[j])
    && (forall i {:trigger nodes[i].prev} :: 1 <= i < |nodes| ==> nodes[i].prev == nodes[i - 1])
    && (forall i {:trigger nodes[i].next} :: 0 <= i < |nodes| - 1 ==> nodes[i].next == nodes[i + 1])
  }

  /** The items form one chain: next and prev are each other's inverse along it. */
  ghost predicate Chain<T>(nodes: seq<Item<T>>)
    reads nodes
  {
    Segment(nodes) && (|nodes| > 0 ==> nodes[0].prev == null && nodes[|nodes| - 1].next == null)
  }

  ghost function ValuesOf<T>(nodes: seq<Item<T>>): (s: seq<T>)
    reads nodes
    ensures |s| == |nodes|
    ensures forall i :: 0 <= i < |s| ==> s[i] == nodes[i].val
  {
    seq(|nodes|, i requires 0 <= i < |nodes| reads nodes => nodes[i].val)
  }

  /** Two segments joined at their ends are one segment, carrying the values of both. */
  lemma Joined<T>(a: seq<Item<T>>, b: seq<Item<T>>)
    requires Segment(a) && Segment(b)
    requires forall x <- a :: x !in b
    requires a != [] && b != [] ==> a[|a| - 1].next == b[0] && b[0].prev == a[|a| - 1]
    ensures Segment(a + b)
    ensures ValuesOf(a + b) == ValuesOf(a) + ValuesOf(b)
  {
    var c := a + b;
    forall i, j | 0 <= i < j < |c| ensures c[i] != c[j] {
      if i < |a| <= j { assert a[i] in a && b[j - |a|] in b; }
    }
  }

  /** Every cut of a segment gives two disjoint segments linked at the cut. */
  lemma Cut<T>(c: seq<Item<T>>, k: nat)
    requires Segment(c) && k <= |c|
    ensures Segment(c[..k]) && Segment(c[k..])
    ensures forall x <- c[..k] :: x !in c[k..]
    ensures 0 < k < |c| ==> c[k - 1].next == c[k] && c[k].prev == c[k - 1]
    ensures ValuesOf(c[..k]) == ValuesOf(c)[..k] && ValuesOf(c[k..]) == ValuesOf(c)[k..]
  {
  }

  /** Writing the outer pointers of a segment leaves it a segment with the same values. */
  twostate lemma Kept<T>(c: seq<Item<T>>)
    requires old(Segment(c))
    requires forall x <- c :: x.val == old(x.val)
    requires forall x <- c :: x == c[0] || x.prev == old(x.prev)
    requires forall x <- c :: x == c[|c| - 1] || x.next == old(x.next)
    ensures Segment(c) && ValuesOf(c) == old(ValuesOf(c))
  {
    forall i | 1 <= i < |c| ensures c[i].prev == c[i - 1] { assert c[i] in c; }
    forall i | 0 <= i < |c| - 1 ensures c[i].next == c[i + 1] { assert c[i] in c; }
    forall i | 0 <= i < |c| ensures c[i].val == old(c[i].val) { assert c[i] in c; }
  }

  lemma Single<T>(n: Item<T>)
    ensures Segment([n]) && ValuesOf([n]) == [n.val]
  {
  }

  lemma Between<T>(a: seq<Item<T>>, n: Item<T>, b: seq<Item<T>>)
    requires Segment(a) && Segment(b) && (forall x <- a :: x !in b) && n !in a && n !in b
    requires a != [] ==> a[|a| - 1].next == n && n.prev == a[|a| - 1]
    requires b != [] ==> b[0].prev == n && n.next == b[0]
    ensures Segment(a + [n] + b)
    ensures ValuesOf(a + [n] + b) == ValuesOf(a) + [n.val] + ValuesOf(b)
  {
    hide Segment, ValuesOf;
    Single(n);
    Joined(a, [n]);
    Joined(a + [n], b);
  }

  lemma Alone<T>(n: Item<T>)
    requires n.prev == null && n.next == null
    ensures Chain([n]) && ValuesOf([n]) == [n.val]
  {
    Single(n);
  }

  /** The neighbours of an item of a chain are items of it, if there are any. */
  lemma NeighboursListed<T>(c: seq<Item<T>>, k: nat)
    requires Chain(c) && k < |c|
    ensures c[k].prev == null || c[k].prev in c
    ensures c[k].next == null || c[k].next in c
  {
  }

  /** What is left and right of an item of a segment, apart from it and from each other. */
  lemma Apart<T>(c: seq<Item<T>>, k: nat)
    requires Segment(c) && k < |c|
    ensures Segment(c[..k]) && Segment(c[k + 1..])
    ensures forall x <- c[..k] :: x !in c[k + 1..]
    ensures c[k] !in c[..k] && c[k] !in c[k + 1..]
    ensures k > 0 ==> c[k].prev == c[k - 1]
    ensures k + 1 < |c| ==> c[k].next == c[k + 1]
    ensures ValuesOf(c[..k]) == ValuesOf(c)[..k] && ValuesOf(c[k + 1..]) == ValuesOf(c)[k + 1..]
  {
  }

  /** The pointer part of `list_put`. */
  method LinkLast<T>(stop: Item<T>, n: Item<T>, ghost c: seq<Item<T>>)
    requires Chain(c) && c != [] && stop == c[|c| - 1]
    requires n !in c && n.next == null
    modifies stop, n
    ensures Chain(c + [n]) && ValuesOf(c + [n]) == old(ValuesOf(c) + [n.val])
  {
    hide Segment, ValuesOf;
    n.prev := stop;
    stop.next := n;
    Kept(c);
    Single(n);
    Joined(c, [n]);
  }

  /** The pointer part of `list_ins`. */
  method LinkBefore<T>(here: Item<T>, n: Item<T>, ghost c: seq<Item<T>>, ghost k: nat)
    requires Chain(c) && k < |c| && here == c[k]
    requires n !in c
    modifies n, here, here.prev
    ensures Chain(Inserted(c, k, n)) && ValuesOf(Inserted(c, k, n)) == old(Inserted(ValuesOf(c), k, n.val))
  {
    hide Segment, ValuesOf;
    Cut(c, k);
    ghost var a, b := c[..k], c[k..];
    var prev := here.prev;
    n.next := here;
    n.prev := prev;
    here.prev := n;
    if prev != null {
      prev.next := n;
    }
    Kept(a);
    Kept(b);
    Between(a, n, b);
  }

  /** The pointer part of `list_add`. */
  method LinkAfter<T>(here: Item<T>, n: Item<T>, ghost c: seq<Item<T>>, ghost k: nat)
    requires Chain(c) && 0 < k <= |c| && here == c[k - 1]
    requires n !in c
    modifies n, here, here.next
    ensures Chain(Inserted(c, k, n)) && ValuesOf(Inserted(c, k, n)) == old(Inserted(ValuesOf(c), k, n.val))
  {
    hide Segment, ValuesOf;
    Cut(c, k);
    ghost var a, b := c[..k], c[k..];
    var next := here.next;
    n.next := next;
    n.prev := here;
    here.next := n;
    if next != null {
      next.prev := n;
    }
    Kept(a);
    Kept(b);
    Between(a, n, b);
  }

  /** The pointer part of `list_del`. */
  method Detach<T>(x: Item<T>, ghost c: seq<Item<T>>, ghost k: nat)
    requires Chain(c) && k < |c| && x == c[k]
    modifies x.prev, x.next
    ensures Chain(Removed(c, k)) && ValuesOf(Removed(c, k)) == old(Removed(ValuesOf(c), k))
  {
    hide Segment, ValuesOf;
    Apart(c, k);
    ghost var a, b := c[..k], c[k + 1..];
    assert k > 0 ==> x.prev == a[k - 1] && a[k - 1] in a;
    assert b != [] ==> x.next == b[0] && b[0] in b;
    assert a == [] ==> x.prev == null;
    assert b == [] ==> x.next == null;
    if x.next == null && x.prev == null {
    } else if x.next == null {
      x.prev.next := null;
    } else if x.prev == null {
      x.next.prev := null;
    } else {
      x.prev.next := x.next;
      x.next.prev := x.prev;
    }
    Kept(a);
    Kept(b);
    Joined(a, b);
  }

  /** The pointer part of `list_rotate`. */
  method Turn<T>(start: Item<T>, stop: Item<T>, ghost c: seq<Item<T>>)
    requires Chain(c) && |c| > 1 && start == c[0] && stop == c[|c| - 1]
    modifies start, start.next, stop
    ensures Chain(c[1..] + [start]) && ValuesOf(c[1..] + [start]) == old(ValuesOf(c)[1..] + [start.val])
  {
    hide Segment, ValuesOf;
    Apart(c, 0);
    ghost var b := c[1..];
    start.next.prev := null;
    start.next := null;
    start.prev := stop;
    stop.next := start;
    Kept(b);
    Single(start);
    Joined(b, [start]);
  }

  class List<T> {
    var item: Item?<T>
    var size: nat
    ghost var nodes: seq<Item<T>>

    ghost predicate Linked()
      reads this, nodes
    {
      Chain(nodes) && size == |nodes| <= LONG_MAX
    }

    /** A well-formed list: the anchor is one of its items. */
    ghost predicate Valid()
      reads this, nodes
    {
      Linked() && if nodes == [] then item == null else item != null && item in nodes
    }

    /** As `Start` leaves it: the anchor is the head. */
    ghost predicate HeadAnchored()
      reads this, nodes
    {
      Linked() && item == if nodes == [] then null else nodes[0]
    }

    ghost function Values(): (s: seq<T>)
      reads this, nodes
      ensures |s| == |nodes|
    {
      ValuesOf(nodes)
    }

    /** `list_init` */
    constructor ()
      ensures HeadAnchored() && nodes == []
    {
      item, size, nodes := null, 0, [];
    }

    /** `list_start` */
    method Start() returns (r: Item?<T>)
      requires Valid()
      modifies this`item
      ensures HeadAnchored() && r == item
    {
      if item == null {
        return null;
      }
      r := item;
      ghost var k :| 0 <= k < |nodes| && nodes[k] == item;
      while r.prev != null
        invariant 0 <= k < |nodes| && r == nodes[k]
        decreases k
      {
        r := r.prev;
        k := k - 1;
      }
      if r != item {
        item := r;
      }
    }

    /** `list_stop` */
    method Stop() returns (r: Item?<T>)
      requires Valid()
      ensures r == if nodes == [] then null else nodes[|nodes| - 1]
    {
      if item == null {
        return null;
      }
      r := item;
      ghost var k :| 0 <= k < |nodes| && nodes[k] == item;
      while r.next != null
        invariant 0 <= k < |nodes| && r == nodes[k]
        decreases |nodes| - k
      {
        r := r.next;
        k := k + 1;
      }
    }

    /** `list_put`: append. */
    method Put(payload: T) returns (r: Item?<T>)
      requires Valid()
      modifies this, nodes
      ensures Valid() && (old(HeadAnchored()) ==> HeadAnchored())
      ensures r == null <==> old(size) == 0x7fff_ffff_ffff_ffff
      ensures r == null ==> nodes == old(nodes) && Values() == old(Values())
      ensures r != null ==> fresh(r) && nodes == old(nodes) + [r] && Values() == old(Values()) + [payload]
    {
      hide Chain, ValuesOf;
      if size == LONG_MAX {
        return null;
      }
      var n := new Item(payload);
      Alone(n);
      if item == null {
        item := n;
        size := 1;
        nodes := [n];
        return n;
      }
      var stop := Stop();
      LinkLast(stop, n, nodes);
      size := size + 1;
      nodes := nodes + [n];
      r := n;
    }

    /** `list_ins`: insert before an item. The anchor stays where it was. */
    method Ins(here: Item?<T>, payload: T, ghost k: nat) returns (r: Item?<T>)
      requires Valid()
      requires if nodes == [] then k == 0 else k < |nodes| && here == nodes[k]
      modifies this, nodes
      ensures Valid() && (old(nodes) != [] ==> item == old(item))
      ensures r == null <==> old(size) == LONG_MAX
      ensures r == null ==> nodes == old(nodes) && Values() == old(Values())
      ensures r != null ==> fresh(r) && nodes == Inserted(old(nodes), k, r)
                            && Values() == Inserted(old(Values()), k, payload)
    {
      hide Chain, ValuesOf;
      if size == LONG_MAX {
        return null;
      }
      if size == 0 {
        r := Put(payload);
        return;
      }
      NeighboursListed(nodes, k);
      var n := new Item(payload);
      LinkBefore(here, n, nodes, k);
      size := size + 1;
      nodes := Inserted(nodes, k, n);
      r := n;
    }

    /** `list_add`: insert after an item. */
    method Add(here: Item?<T>, payload: T, ghost k: nat) returns (r: Item?<T>)
      requires Valid()
      requires if nodes == [] then k == 0 else 0 < k <= |nodes| && here == nodes[k - 1]
      modifies this, nodes
      ensures Valid() && (old(nodes) != [] ==> item == old(item)) && (old(HeadAnchored()) ==> HeadAnchored())
      ensures r == null <==> old(size) == LONG_MAX
      ensures r == null ==> nodes == old(nodes) && Values() == old(Values())
      ensures r != null ==> fresh(r) && nodes == Inserted(old(nodes), k, r)
                            && Values() == Inserted(old(Values()), k, payload)
    {
      hide Chain, ValuesOf;
      if size == LONG_MAX {
        return null;
      }
      if size == 0 {
        r := Put(payload);
        return;
      }
      NeighboursListed(nodes, k - 1);
      var n := new Item(payload);
      LinkAfter(here, n, nodes, k);
      size := size + 1;
      nodes := Inserted(nodes, k, n);
      r := n;
    }

    /** `list_del` up to its last line. The anchor is still an item of the list
        unless it was the deleted item and that was not the head. */
    method Unlink(x: Item<T>, ghost k: nat)
      requires Valid() && k < |nodes| && x == nodes[k]
      modifies this, nodes
      ensures Linked() && nodes == Removed(old(nodes), k) && Values() == Removed(old(Values()), k)
      ensures Valid() <==> !(old(item) == x && k > 0)
      ensures old(item) == old(nodes[0]) ==> HeadAnchored()
    {
      hide Segment, ValuesOf;
      Apart(nodes, k);
      if x.next == null && x.prev == null {
        item := null;
      } else if x.next == null {
      } else if x.prev == null {
        item := x.next;
      }
      Detach(x, nodes, k);
      size := size - 1;
      nodes := Removed(nodes, k);
    }

    /** `list_del`. When it deletes an anchor inside the list, its last line walks from the
        freed item; this is reported as `lost`. */
    method Del(x: Item<T>, ghost k: nat) returns (r: Item?<T>, lost: bool)
      requires Valid() && k < |nodes| && x == nodes[k]
      modifies this, nodes
      ensures lost <==> old(item) == x && k > 0
      ensures nodes == Removed(old(nodes), k) && Values() == Removed(old(Values()), k)
      ensures if lost then Linked() && !Valid() else HeadAnchored() && r == item
    {
      lost := AnchoredInside(x, k);
      Unlink(x, k);
      if lost {
        r := null;
      } else {
        r := Start();
      }
    }

    method AnchoredInside(x: Item<T>, ghost k: nat) returns (inside: bool)
      requires Valid() && k < |nodes| && x == nodes[k]
      ensures inside <==> item == x && k > 0
    {
      inside := item == x && x.prev != null;
    }

    /** `tgt_v_put` and `tgt_c_put` on the list: a new item in front of the old head. The anchor
        stays at the old head. */
    method PutFront(payload: T) returns (r: Item?<T>)
      requires Valid()
      modifies this, nodes
      ensures Valid() && (r == null <==> old(size) == LONG_MAX)
      ensures r == null ==> nodes == old(nodes) && Values() == old(Values())
      ensures r != null ==> fresh(r) && nodes == [r] + old(nodes) && Values() == [payload] + old(Values())
      ensures r != null && old(nodes) != [] ==> item == nodes[1]
    {
      hide Chain, ValuesOf;
      ghost var was, values := nodes, Values();
      var start := Start();
      r := Ins(start, payload, 0);
      assert was[..0] == [] && values[..0] == [];
    }

    /** `tgt_v_update` and `tgt_c_update` on the list, for an item that is there: deleted, and its
        value inserted in front. It goes wrong exactly if the item is an anchor inside the list. */
    method MoveToFront(x: Item<T>, ghost k: nat) returns (r: Item?<T>, lost: bool)
      requires Valid() && k < |nodes| && x == nodes[k]
      modifies this, nodes
      ensures lost <==> old(item) == x && k > 0
      ensures lost ==> !Valid()
      ensures !lost ==> Valid() && r != null && fresh(r) && nodes == [r] + Removed(old(nodes), k)
                        && Values() == [old(x.val)] + Removed(old(Values()), k)
    {
      hide Chain, ValuesOf;
      var node := x.val;
      r, lost := Del(x, k);
      if !lost {
        r := PutFront(node);
      }
    }

    /** After a put on a list that is not empty, an update of the item that had been the head
        always goes wrong: the list is left anchored at a freed item. */
    method UpdateSecond(payload: T) returns (lost: bool)
      requires Valid() && nodes != [] && size < LONG_MAX
      modifies this, nodes
      ensures lost && !Valid()
    {
      hide Chain, ValuesOf;
      var front := PutFront(payload);
      var r;
      r, lost := MoveToFront(item, 1);
    }

    /** `list_rotate` */
    method Rotate()
      requires Valid()
      modifies this, nodes
      ensures |old(nodes)| <= 1 ==> nodes == old(nodes) && Valid() && Values() == old(Values())
      ensures |old(nodes)| > 1 ==> HeadAnchored() && nodes == old(nodes)[1..] + [old(nodes)[0]]
                                   && Values() == old(Values())[1..] + [old(Values())[0]]
    {
      hide Segment, ValuesOf;
      if size <= 1 {
        return;
      }
      Apart(nodes, 0);
      var start := Start();
      var stop := Stop();
      item := start.next;
      Turn(start, stop, nodes);
      nodes := nodes[1..] + [start];
    }
  }

  /** It takes no more than a new list, two puts and an update of the older item. */
  method PutPutUpdate<T>(a: T, b: T) returns (lost: bool)
    ensures lost
  {
    var l := new List<T>();
    var r := l.PutFront(a);
    lost := l.UpdateSecond(b);
  }
}
