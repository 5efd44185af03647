/**
 Transactions and lookups as a protocol (src/p2p/transaction.c and the get_peers and
 announce parts of src/p2p/p2p.c). A lookup is named by a number, its address in the
 program; the messages sent and the lookups freed are recorded in a trace.
 */
module P2p {
  import opened Collections
  import opened Bytes
  import opened Clock
  import opened UdpNodes
  import opened Lookup
  import Bucket

  datatype Kind = Ping | PingMulticast | FindNode | GetPeers | AnnounceStart | AnnounceEngage

  type TidId = seq<Byte>

  datatype Tid = Tid(id: TidId, time: int, kind: Kind, lookup: Option<nat>)

  datatype Event =
    | Request(lookup: nat, node: Id)
    | Announce(lookup: nat, node: Id, token: seq<Byte>)
    | Freed(lookup: nat)

  datatype Net = Net(tids: seq<Tid>, index: map<TidId, Tid>, lookups: map<nat, Look>, next: nat, trace: seq<Event>)

  predicate OwnsLookup(kind: Kind)
  {
    kind.GetPeers? || kind.AnnounceStart?
  }

  // ----- reading the trace -----

  /** The nodes asked for one lookup, in order. */
  ghost function Asks(trace: seq<Event>, h: nat): seq<Id>
  {
    if trace == [] then [] else
      var n := |trace| - 1;
      Asks(trace[..n], h) + if trace[n].Request? && trace[n].lookup == h then [trace[n].node] else []
  }

  ghost function Frees(trace: seq<Event>, h: nat): nat
  {
    if trace == [] then 0 else
      var n := |trace| - 1;
      Frees(trace[..n], h) + if trace[n] == Freed(h) then 1 else 0
  }

  ghost function Requests(h: nat, ids: seq<Id>): seq<Event>
  {
    seq(|ids|, i requires 0 <= i < |ids| => Request(h, ids[i]))
  }

  lemma {:induction false} TraceConcat(a: seq<Event>, b: seq<Event>, h: nat)
    ensures Asks(a + b, h) == Asks(a, h) + Asks(b, h)
    ensures Frees(a + b, h) == Frees(a, h) + Frees(b, h)
    decreases |b|
  {
    if b == [] {
      assert a + b == a;
    } else {
      var n := |b| - 1;
      assert (a + b)[..|a| + n] == a + b[..n];
      TraceConcat(a, b[..n], h);
    }
  }

  lemma {:induction false} RequestsTrace(g: nat, ids: seq<Id>, h: nat)
    ensures Asks(Requests(g, ids), h) == if g == h then ids else []
    ensures Frees(Requests(g, ids), h) == 0
    decreases |ids|
  {
    if ids != [] {
      var n := |ids| - 1;
      assert Requests(g, ids)[..n] == Requests(g, ids[..n]);
      RequestsTrace(g, ids[..n], h);
      assert ids == ids[..n] + [ids[n]];
    }
  }

  lemma OneEventTrace(e: Event, h: nat)
    ensures Asks([e], h) == if e.Request? && e.lookup == h then [e.node] else []
    ensures Frees([e], h) == if e == Freed(h) then 1 else 0
  {
    assert [e][..0] == [];
  }

  // ----- invariants -----

  /** Where the latest transaction with an id stands. */
  ghost function LatestAt(tids: seq<Tid>, id: TidId): (k: Option<nat>)
    ensures k.Some? ==> k.value < |tids| && tids[k.value].id == id && forall j :: k.value < j < |tids| ==> tids[j].id != id
    ensures k.None? ==> forall j :: 0 <= j < |tids| ==> tids[j].id != id
  {
    if tids == [] then None
    else if tids[|tids| - 1].id == id then Some(|tids| - 1)
    else LatestAt(tids[..|tids| - 1], id)
  }

  ghost predicate IsLatest(tids: seq<Tid>, id: TidId, tid: Tid)
  {
    LatestAt(tids, id).Some? && tids[LatestAt(tids, id).value] == tid
  }

  /** What the index holds under an id is the latest transaction with that id. */
  ghost predicate Indexed(tids: seq<Tid>, index: map<TidId, Tid>)
  {
    forall id :: id in index ==> IsLatest(tids, id, index[id])
  }

  ghost predicate Owned(tids: seq<Tid>, h: nat)
  {
    exists i :: 0 <= i < |tids| && tids[i].lookup == Some(h)
  }

  /** Every live lookup belongs to exactly one transaction, and to one of the right kind. */
  ghost predicate Ownership(tids: seq<Tid>, live: set<nat>)
  {
    && (forall i :: 0 <= i < |tids| ==> (OwnsLookup(tids[i].kind) <==> tids[i].lookup.Some?))
    && (forall i :: 0 <= i < |tids| && tids[i].lookup.Some? ==> tids[i].lookup.value in live)
    && (forall i, j :: 0 <= i < j < |tids| && tids[i].lookup.Some? ==> tids[i].lookup != tids[j].lookup)
    && (forall h :: h in live ==> Owned(tids, h))
  }

  /** Every lookup has asked distinct nodes, among them its eight nearest, and has
      been freed once if it is gone and not at all if it is not. */
  ghost predicate TraceInv(n: Net)
  {
    && (forall h :: h in n.lookups ==> h < n.next && Valid(Search(n.lookups[h], Asks(n.trace, h))))
    && (forall h: nat :: Frees(n.trace, h) == if h in n.lookups || h >= n.next then 0 else 1)
    && (forall h: nat :: h >= n.next ==> Asks(n.trace, h) == [])
    && (forall h: nat :: NoDuplicates(Asks(n.trace, h)) && |Asks(n.trace, h)| <= LIST_MAX)
  }

  ghost predicate NetInv(n: Net)
  {
    Indexed(n.tids, n.index) && Ownership(n.tids, n.lookups.Keys) && TraceInv(n)
  }

  // ----- single operations -----

  /** `tdb_put` */
  function PutTid(n: Net, tid: Tid): Net
  {
    n.(tids := n.tids + [tid], index := n.index[tid.id := tid])
  }

  /** `tdb_del`: a transaction that owns a lookup frees it. */
  function DropTid(n: Net, k: nat): Net
    requires k < |n.tids|
  {
    var tid := n.tids[k];
    var m := n.(tids := Removed(n.tids, k), index := n.index - {tid.id});
    if OwnsLookup(tid.kind) && tid.lookup.Some? then
      m.(lookups := n.lookups - {tid.lookup.value}, trace := n.trace + [Freed(tid.lookup.value)])
    else m
  }

  lemma AppendedIndexed(tids: seq<Tid>, index: map<TidId, Tid>, tid: Tid)
    requires Indexed(tids, index)
    ensures Indexed(tids + [tid], index[tid.id := tid])
  {
    assert (tids + [tid])[..|tids|] == tids;
  }

  lemma AppendedOwnership(tids: seq<Tid>, live: set<nat>, tid: Tid)
    requires Ownership(tids, live) && (OwnsLookup(tid.kind) <==> tid.lookup.Some?)
    requires tid.lookup.Some? ==> tid.lookup.value !in live
    ensures Ownership(tids + [tid], if tid.lookup.Some? then live + {tid.lookup.value} else live)
  {
    var t := tids + [tid];
    assert t[|tids|] == tid;
    forall h | h in live
      ensures Owned(t, h)
    {
      var i :| 0 <= i < |tids| && tids[i].lookup == Some(h);
      assert t[i] == tids[i];
    }
  }

  lemma RemovedLatest(tids: seq<Tid>, k: nat, id: TidId, tid: Tid)
    requires k < |tids| && tids[k].id != id && IsLatest(tids, id, tid)
    ensures IsLatest(Removed(tids, k), id, tid)
  {
    hide LatestAt, Removed;
    RemovedIndex(tids, k);
    var p := LatestAt(tids, id).value;
    var q := if p < k then p else p - 1;
    assert Removed(tids, k)[q] == tids[p];
    forall j | q < j < |tids| - 1
      ensures Removed(tids, k)[j].id != id
    {
      assert Removed(tids, k)[j] == tids[if j < k then j else j + 1];
    }
    LatestIs(Removed(tids, k), id, q);
  }

  lemma LatestIs(tids: seq<Tid>, id: TidId, q: nat)
    requires q < |tids| && tids[q].id == id && forall j :: q < j < |tids| ==> tids[j].id != id
    ensures LatestAt(tids, id) == Some(q)
  {
  }

  lemma RemovedIndexed(tids: seq<Tid>, index: map<TidId, Tid>, k: nat)
    requires Indexed(tids, index) && k < |tids|
    ensures Indexed(Removed(tids, k), index - {tids[k].id})
  {
    hide IsLatest, Removed;
    forall id | id in index && id != tids[k].id
      ensures IsLatest(Removed(tids, k), id, index[id])
    {
      RemovedLatest(tids, k, id, index[id]);
    }
  }

  lemma RemovedOwned(tids: seq<Tid>, k: nat, h: nat)
    requires k < |tids| && Owned(tids, h) && tids[k].lookup != Some(h)
    ensures Owned(Removed(tids, k), h)
  {
    var r := Removed(tids, k);
    var i :| 0 <= i < |tids| && tids[i].lookup == Some(h);
    assert r[if i < k then i else i - 1] == tids[i];
  }

  lemma RemovedOwnership(tids: seq<Tid>, live: set<nat>, k: nat)
    requires Ownership(tids, live) && k < |tids|
    ensures Ownership(Removed(tids, k), if tids[k].lookup.Some? then live - {tids[k].lookup.value} else live)
  {
    hide Owned;
    var r := Removed(tids, k);
    forall i | 0 <= i < |r|
      ensures (OwnsLookup(r[i].kind) <==> r[i].lookup.Some?) && (r[i].lookup.Some? ==> r[i].lookup.value in live)
      ensures r[i].lookup.Some? ==> r[i].lookup != tids[k].lookup
    {
      assert r[i] == tids[if i < k then i else i + 1];
    }
    forall i, j | 0 <= i < j < |r| && r[i].lookup.Some?
      ensures r[i].lookup != r[j].lookup
    {
      assert r[i] == tids[if i < k then i else i + 1] && r[j] == tids[if j < k then j else j + 1];
    }
    forall h | h in live && tids[k].lookup != Some(h)
      ensures Owned(r, h)
    {
      RemovedOwned(tids, k, h);
    }
  }

  lemma FreedTrace(n: Net, h: nat)
    requires TraceInv(n) && h in n.lookups
    ensures TraceInv(n.(lookups := n.lookups - {h}, trace := n.trace + [Freed(h)]))
  {
    forall g: nat
      ensures Asks(n.trace + [Freed(h)], g) == Asks(n.trace, g)
      ensures Frees(n.trace + [Freed(h)], g) == Frees(n.trace, g) + if g == h then 1 else 0
    {
      TraceConcat(n.trace, [Freed(h)], g);
      OneEventTrace(Freed(h), g);
    }
  }

  lemma DropTidInv(n: Net, k: nat)
    requires NetInv(n) && k < |n.tids|
    ensures NetInv(DropTid(n, k))
  {
    hide Indexed, TraceInv;
    RemovedIndexed(n.tids, n.index, k);
    RemovedOwnership(n.tids, n.lookups.Keys, k);
    if n.tids[k].lookup.Some? {
      var h := n.tids[k].lookup.value;
      FreedTrace(n, h);
      SameTrace(n.(lookups := n.lookups - {h}, trace := n.trace + [Freed(h)]), DropTid(n, k));
      assert (n.lookups - {h}).Keys == n.lookups.Keys - {h};
    } else {
      SameTrace(n, DropTid(n, k));
    }
  }

  lemma SameTrace(n: Net, m: Net)
    requires TraceInv(n) && m.lookups == n.lookups && m.next == n.next && m.trace == n.trace
    ensures TraceInv(m)
  {
  }

  /** A transaction without a lookup. */
  lemma PutPlainInv(n: Net, tid: Tid)
    requires NetInv(n) && !OwnsLookup(tid.kind) && tid.lookup.None?
    ensures NetInv(PutTid(n, tid))
  {
    hide Indexed, Ownership, TraceInv;
    AppendedIndexed(n.tids, n.index, tid);
    AppendedOwnership(n.tids, n.lookups.Keys, tid);
    SameTrace(n, PutTid(n, tid));
  }

  // ----- starting a lookup -----

  /** `p2p_cron_lookup` and `r_lookup_remote`, given the contacts from the routing table. */
  ghost function Start(n: Net, id: TidId, clock: int, kind: Kind, target: Id, seeds: seq<Contact>): Net
  {
    var h := n.next;
    var s := SeededAll(Search(NewLook(target), []), seeds);
    PutTid(n, Tid(id, InOneMinute(clock), kind, Some(h)))
      .(lookups := n.lookups[h := s.look], next := h + 1, trace := n.trace + Requests(h, s.sent))
  }

  lemma SeedsValid(target: Id, seeds: seq<Contact>)
    requires DistinctContacts(seeds) && |seeds| <= ASK
    ensures Valid(SeededAll(Search(NewLook(target), []), seeds))
  {
    SeededAllValid(Search(NewLook(target), []), seeds);
  }

  lemma MoreRequests(n: Net, h: nat, l: Look, more: seq<Id>, next: nat)
    requires TraceInv(n)
    requires (h in n.lookups && next == n.next) || (h == n.next && next == h + 1)
    requires Valid(Search(l, Asks(n.trace, h) + more))
    ensures TraceInv(n.(lookups := n.lookups[h := l], next := next, trace := n.trace + Requests(h, more)))
  {
    hide Valid, Asks, Frees, NoDuplicates, Requests;
    RequestBound(Search(l, Asks(n.trace, h) + more));
    SentDistinct(Search(l, Asks(n.trace, h) + more));
    forall g: nat
      ensures Asks(n.trace + Requests(h, more), g) == if g == h then Asks(n.trace, h) + more else Asks(n.trace, g)
      ensures Frees(n.trace + Requests(h, more), g) == Frees(n.trace, g)
    {
      TraceConcat(n.trace, Requests(h, more), g);
      RequestsTrace(h, more, g);
      assert Asks(n.trace, g) + [] == Asks(n.trace, g);
    }
  }

  lemma SentDistinct(s: Search)
    requires Valid(s)
    ensures NoDuplicates(s.sent)
  {
  }

  lemma StartInv(n: Net, id: TidId, clock: int, kind: Kind, target: Id, seeds: seq<Contact>)
    requires NetInv(n) && OwnsLookup(kind) && DistinctContacts(seeds) && |seeds| <= ASK
    ensures NetInv(Start(n, id, clock, kind, target, seeds))
  {
    StartTrace(n, id, clock, kind, target, seeds);
    var h := n.next;
    assert h !in n.lookups;
    hide SeededAll, Indexed, Ownership, TraceInv;
    var tid := Tid(id, InOneMinute(clock), kind, Some(h));
    AppendedIndexed(n.tids, n.index, tid);
    AppendedOwnership(n.tids, n.lookups.Keys, tid);
    assert Start(n, id, clock, kind, target, seeds).lookups.Keys == n.lookups.Keys + {h};
  }

  lemma StartTrace(n: Net, id: TidId, clock: int, kind: Kind, target: Id, seeds: seq<Contact>)
    requires TraceInv(n) && DistinctContacts(seeds) && |seeds| <= ASK
    ensures TraceInv(Start(n, id, clock, kind, target, seeds))
  {
    var h := n.next;
    assert Asks(n.trace, h) == [];
    hide Valid, SeededAll, TraceInv, Asks;
    var s := SeededAll(Search(NewLook(target), []), seeds);
    SeedsValid(target, seeds);
    assert [] + s.sent == s.sent;
    MoreRequests(n, h, s.look, s.sent, h + 1);
    SameTrace(n.(lookups := n.lookups[h := s.look], next := h + 1, trace := n.trace + Requests(h, s.sent)),
              Start(n, id, clock, kind, target, seeds));
  }

  // ----- a reply to get_peers -----

  lemma {:induction false} HeardExtends(s: Search, me: Id, cs: seq<Contact>)
    ensures |s.sent| <= |HeardAll(s, me, cs).sent| && HeardAll(s, me, cs).sent[..|s.sent|] == s.sent
    decreases |cs|
  {
    if cs != [] {
      HeardExtends(Heard(s, me, cs[0]), me, cs[1..]);
    }
  }

  /** The lookup a transaction id leads to, if it is one that get_peers replies belong to. */
  ghost function LookupOf(n: Net, id: TidId): Option<nat>
  {
    if id in n.index && OwnsLookup(n.index[id].kind) && n.index[id].lookup.Some? && n.index[id].lookup.value in n.lookups
    then n.index[id].lookup else None
  }

  ghost function Continued(n: Net, me: Id, h: nat, node: Id, token: seq<Byte>, from: Endpoint, cs: seq<Contact>): (s: Search)
    requires h in n.lookups
    ensures |Asks(n.trace, h)| <= |s.sent| && s.sent[..|Asks(n.trace, h)|] == Asks(n.trace, h)
  {
    var s := Search(Updated(n.lookups[h], node, token, from), Asks(n.trace, h));
    HeardExtends(s, me, cs);
    HeardAll(s, me, cs)
  }

  /** `p2p_get_peers_get_nodes` (and, with no contacts, the lookup part of `p2p_get_peers_get_values`). */
  ghost function Reply(n: Net, me: Id, id: TidId, node: Id, token: seq<Byte>, from: Endpoint, cs: seq<Contact>): Net
  {
    match LookupOf(n, id)
    case None => n
    case Some(h) =>
      var s := Continued(n, me, h, node, token, from, cs);
      n.(lookups := n.lookups[h := s.look], trace := n.trace + Requests(h, s.sent[|Asks(n.trace, h)|..]))
  }

  lemma ReplyInv(n: Net, me: Id, id: TidId, node: Id, token: seq<Byte>, from: Endpoint, cs: seq<Contact>)
    requires NetInv(n)
    ensures NetInv(Reply(n, me, id, node, token, from, cs))
  {
    hide Valid, Asks, Indexed, Ownership, TraceInv, HeardAll, Updated;
    if LookupOf(n, id).Some? {
      var h := LookupOf(n, id).value;
      var asks := Asks(n.trace, h);
      LiveValid(n, h);
      UpdatedValid(Search(n.lookups[h], asks), node, token, from);
      HeardAllValid(Search(Updated(n.lookups[h], node, token, from), asks), me, cs);
      var s := Continued(n, me, h, node, token, from, cs);
      assert s.sent == asks + s.sent[|asks|..];
      MoreRequests(n, h, s.look, s.sent[|asks|..], n.next);
      assert n.lookups[h := s.look].Keys == n.lookups.Keys;
      SameTrace(n.(lookups := n.lookups[h := s.look], next := n.next, trace := n.trace + Requests(h, s.sent[|asks|..])),
                Reply(n, me, id, node, token, from, cs));
    }
  }

  lemma LiveValid(n: Net, h: nat)
    requires TraceInv(n) && h in n.lookups
    ensures h < n.next && Valid(Search(n.lookups[h], Asks(n.trace, h)))
  {
  }

  /** The other replies: `p2p_reply` ends a ping, find_node or announce transaction. */
  ghost function Answered(n: Net, id: TidId): Net
  {
    var k := LatestAt(n.tids, id);
    if id in n.index && k.Some? && EndsWithAnswer(n.index[id].kind) then DropTid(n, k.value) else n
  }

  predicate EndsWithAnswer(kind: Kind)
  {
    kind.Ping? || kind.FindNode? || kind.AnnounceEngage?
  }

  // ----- expiry -----

  ghost function EngageTids(ids: seq<TidId>, time: int, m: nat): seq<Tid>
    requires m <= |ids|
  {
    seq(m, j requires 0 <= j < m => Tid(ids[j], time, AnnounceEngage, None))
  }

  ghost function Announces(h: nat, l: Look, nodes: seq<Id>): seq<Event>
    requires forall k :: 0 <= k < |nodes| ==> nodes[k] in l.hash
  {
    seq(|nodes|, j requires 0 <= j < |nodes| => Announce(h, nodes[j], l.hash[nodes[j]].token))
  }

  /** The nodes an expiring announce lookup announces to. */
  ghost function Receivers(l: Look): (r: seq<Id>)
    ensures |r| <= ASK && forall k :: 0 <= k < |r| ==> r[k] in l.hash
  {
    TokenHoldersListed(l.list, l.hash, ASK);
    TokenHolders(l.list, l.hash, ASK)
  }

  /** `p2p_cron_announce` after its first m announces, given the transaction ids drawn. */
  ghost function AnnouncedUpTo(n: Net, h: nat, now: int, ids: seq<TidId>, m: nat): (r: Net)
    requires h in n.lookups && m <= |Receivers(n.lookups[h])| && m <= |ids|
    ensures r.lookups == n.lookups && r.next == n.next
    ensures |r.tids| == |n.tids| + m && r.tids[..|n.tids|] == n.tids
    ensures forall j :: |n.tids| <= j < |r.tids| ==> r.tids[j] == Tid(ids[j - |n.tids|], InOneMinute(now), AnnounceEngage, None)
  {
    if m == 0 then n else
      var r := AnnouncedUpTo(n, h, now, ids, m - 1);
      var node := Receivers(n.lookups[h])[m - 1];
      PutTid(r, Tid(ids[m - 1], InOneMinute(now), AnnounceEngage, None))
        .(trace := r.trace + [Announce(h, node, n.lookups[h].hash[node].token)])
  }

  ghost function Starts(tids: seq<Tid>): nat
  {
    if tids == [] then 0 else Starts(tids[1..]) + if tids[0].kind.AnnounceStart? then 1 else 0
  }

  lemma {:induction false} AnnouncedInv(n: Net, h: nat, now: int, ids: seq<TidId>, m: nat)
    requires NetInv(n) && h in n.lookups && m <= |Receivers(n.lookups[h])| && m <= |ids|
    ensures NetInv(AnnouncedUpTo(n, h, now, ids, m))
  {
    hide NetInv, Receivers;
    if m > 0 {
      AnnouncedInv(n, h, now, ids, m - 1);
      var r := AnnouncedUpTo(n, h, now, ids, m - 1);
      var node := Receivers(n.lookups[h])[m - 1];
      OneAnnounceInv(r, Tid(ids[m - 1], InOneMinute(now), AnnounceEngage, None), Announce(h, node, n.lookups[h].hash[node].token));
    }
  }

  lemma OneAnnounceInv(n: Net, tid: Tid, e: Event)
    requires NetInv(n) && !OwnsLookup(tid.kind) && tid.lookup.None? && e.Announce?
    ensures NetInv(PutTid(n, tid).(trace := n.trace + [e]))
  {
    PutPlainInv(n, tid);
    AnnounceEventInv(PutTid(n, tid), e);
  }

  lemma AnnounceEventInv(n: Net, e: Event)
    requires NetInv(n) && e.Announce?
    ensures NetInv(n.(trace := n.trace + [e]))
  {
    hide Indexed, Ownership;
    forall g: nat
      ensures Asks(n.trace + [e], g) == Asks(n.trace, g) && Frees(n.trace + [e], g) == Frees(n.trace, g)
    {
      TraceConcat(n.trace, [e], g);
      OneEventTrace(e, g);
    }
  }

  // ----- walking a list that grows while it is walked -----

  predicate Expires(tid: Tid, now: int, over: bool)
  {
    now > tid.time || over
  }

  ghost function Weight(tids: seq<Tid>): nat
  {
    if tids == [] then 0 else Weight(tids[1..]) + if tids[0].kind.AnnounceStart? then 1 + ASK else 1
  }

  lemma {:induction false} AppendedWeight(tids: seq<Tid>, more: seq<Tid>)
    requires forall j :: 0 <= j < |more| ==> more[j].kind.AnnounceEngage?
    ensures Weight(tids + more) == Weight(tids) + |more| && Starts(tids + more) == Starts(tids)
    decreases |tids| + |more|
  {
    if tids == [] {
      assert tids + more == more;
      if more != [] {
        assert [] + more[1..] == more[1..];
        AppendedWeight([], more[1..]);
      }
    } else {
      assert (tids + more)[1..] == tids[1..] + more;
      AppendedWeight(tids[1..], more);
    }
  }

  /** How many announces an expiring transaction makes. */
  ghost function Fanout(n: Net, k: nat): (m: nat)
    requires k < |n.tids|
    ensures m <= ASK && (m > 0 ==> n.tids[k].kind.AnnounceStart?)
  {
    var tid := n.tids[k];
    if tid.kind.AnnounceStart? && tid.lookup.Some? && tid.lookup.value in n.lookups
    then |Receivers(n.lookups[tid.lookup.value])| else 0
  }

  /** One expiring transaction: announce first if it is a finished announce lookup, then delete it. */
  ghost function Visited(n: Net, k: nat, now: int, ids: seq<TidId>): Net
    requires k < |n.tids| && |ids| >= Fanout(n, k)
  {
    var m := if Fanout(n, k) == 0 then n else AnnouncedUpTo(n, n.tids[k].lookup.value, now, ids, Fanout(n, k));
    DropTid(m, k)
  }

  lemma VisitedTids(n: Net, k: nat, now: int, ids: seq<TidId>)
    requires k < |n.tids| && |ids| >= Fanout(n, k)
    ensures var m, f := Visited(n, k, now, ids), Fanout(n, k);
            && m.tids == n.tids[..k] + (n.tids[k + 1..] + EngageTids(ids, InOneMinute(now), f))
            && m.tids[k..] == n.tids[k + 1..] + EngageTids(ids, InOneMinute(now), f)
            && m.tids[..k] == n.tids[..k]
  {
  }

  lemma VisitedInv(n: Net, k: nat, now: int, ids: seq<TidId>)
    requires NetInv(n) && k < |n.tids| && |ids| >= Fanout(n, k)
    ensures NetInv(Visited(n, k, now, ids))
  {
    hide NetInv, Receivers;
    var f := Fanout(n, k);
    var m := n;
    if f > 0 {
      m := AnnouncedUpTo(n, n.tids[k].lookup.value, now, ids, f);
      AnnouncedInv(n, n.tids[k].lookup.value, now, ids, f);
    }
    DropTidInv(m, k);
  }

  lemma VisitedShrinks(n: Net, k: nat, now: int, ids: seq<TidId>)
    requires k < |n.tids| && |ids| >= Fanout(n, k)
    requires |ids| >= ASK * Starts(n.tids[k..])
    ensures k <= |Visited(n, k, now, ids).tids|
    ensures Weight(Visited(n, k, now, ids).tids[k..]) < Weight(n.tids[k..])
    ensures |ids| - Fanout(n, k) >= ASK * Starts(Visited(n, k, now, ids).tids[k..])
  {
    hide Visited, Fanout;
    VisitedTids(n, k, now, ids);
    var rest := n.tids[k + 1..];
    assert n.tids[k..][1..] == rest;
    AppendedWeight(rest, EngageTids(ids, InOneMinute(now), Fanout(n, k)));
  }

  /** `tdb_expire` from position k on: the successor is fixed before the visit, so
      what the last item appends is not walked. */
  ghost function Walk(n: Net, k: nat, now: int, over: bool, ids: seq<TidId>): Net
    requires k <= |n.tids| && |ids| >= ASK * Starts(n.tids[k..])
    decreases Weight(n.tids[k..])
  {
    if k == |n.tids| then n else
      assert n.tids[k..][1..] == n.tids[k + 1..];
      if Expires(n.tids[k], now, over) then
        VisitedShrinks(n, k, now, ids);
        if k + 1 == |n.tids| then Visited(n, k, now, ids)
        else Walk(Visited(n, k, now, ids), k, now, over, ids[Fanout(n, k)..])
      else if k + 1 == |n.tids| then n
      else Walk(n, k + 1, now, over, ids)
  }

  lemma {:induction false} WalkInv(n: Net, k: nat, now: int, over: bool, ids: seq<TidId>)
    requires NetInv(n) && k <= |n.tids| && |ids| >= ASK * Starts(n.tids[k..])
    ensures NetInv(Walk(n, k, now, over, ids))
    decreases Weight(n.tids[k..])
  {
    hide NetInv, Visited, Fanout;
    if k < |n.tids| {
      assert n.tids[k..][1..] == n.tids[k + 1..];
      if Expires(n.tids[k], now, over) {
        VisitedShrinks(n, k, now, ids);
        VisitedInv(n, k, now, ids);
        if k + 1 < |n.tids| {
          WalkInv(Visited(n, k, now, ids), k, now, over, ids[Fanout(n, k)..]);
        }
      } else if k + 1 < |n.tids| {
        WalkInv(n, k + 1, now, over, ids);
      }
    }
  }

  // ----- what an expiry does -----

  /** The messages and the freeing that one expiring transaction causes. */
  ghost function Effect(tid: Tid, lookups: map<nat, Look>): seq<Event>
  {
    if !OwnsLookup(tid.kind) || tid.lookup.None? || tid.lookup.value !in lookups then [] else
      var h := tid.lookup.value;
      (if tid.kind.AnnounceStart? then Announces(h, lookups[h], Receivers(lookups[h])) else []) + [Freed(h)]
  }

  ghost function Effects(tids: seq<Tid>, lookups: map<nat, Look>, now: int, over: bool): seq<Event>
  {
    if tids == [] then [] else
      (if Expires(tids[0], now, over) then Effect(tids[0], lookups) else []) + Effects(tids[1..], lookups, now, over)
  }

  lemma {:induction false} AnnouncedTrace(n: Net, h: nat, now: int, ids: seq<TidId>, m: nat)
    requires h in n.lookups && m <= |Receivers(n.lookups[h])| && m <= |ids|
    ensures AnnouncedUpTo(n, h, now, ids, m).trace
         == n.trace + Announces(h, n.lookups[h], Receivers(n.lookups[h])[..m])
  {
    hide Receivers;
    if m > 0 {
      AnnouncedTrace(n, h, now, ids, m - 1);
      var nodes := Receivers(n.lookups[h]);
      assert nodes[..m] == nodes[..m - 1] + [nodes[m - 1]];
    }
  }

  lemma VisitedTrace(n: Net, k: nat, now: int, ids: seq<TidId>)
    requires k < |n.tids| && |ids| >= Fanout(n, k) && Ownership(n.tids, n.lookups.Keys)
    ensures Visited(n, k, now, ids).trace == n.trace + Effect(n.tids[k], n.lookups)
    ensures Visited(n, k, now, ids).lookups ==
            if n.tids[k].lookup.Some? then n.lookups - {n.tids[k].lookup.value} else n.lookups
  {
    hide Receivers;
    var tid := n.tids[k];
    if tid.kind.AnnounceStart? {
      var h := tid.lookup.value;
      var nodes := Receivers(n.lookups[h]);
      AnnouncedTrace(n, h, now, ids, |nodes|);
      assert nodes[..|nodes|] == nodes;
    }
  }

  /** Transactions that own no lookup in `gone`, and new ones, are not affected by freeing it. */
  lemma {:induction false} EffectsElsewhere(tids: seq<Tid>, more: seq<Tid>, lookups: map<nat, Look>, gone: set<nat>, now: int, over: bool)
    requires forall i :: 0 <= i < |tids| && tids[i].lookup.Some? ==> tids[i].lookup.value !in gone
    requires forall j :: 0 <= j < |more| ==> more[j].kind.AnnounceEngage?
    ensures Effects(tids + more, lookups - gone, now, over) == Effects(tids, lookups, now, over)
    decreases |tids| + |more|
  {
    hide Receivers;
    if tids == [] {
      assert tids + more == more;
      if more != [] {
        assert [] + more[1..] == more[1..];
        EffectsElsewhere([], more[1..], lookups, gone, now, over);
      }
    } else {
      assert (tids + more)[1..] == tids[1..] + more;
      EffectsElsewhere(tids[1..], more, lookups, gone, now, over);
    }
  }

  /** However the list grows meanwhile, an expiry announces and frees exactly what the
      transactions that were there at its start call for, in list order. */
  lemma {:induction false} WalkTrace(n: Net, k: nat, now: int, over: bool, ids: seq<TidId>)
    requires NetInv(n) && k <= |n.tids| && |ids| >= ASK * Starts(n.tids[k..])
    ensures Walk(n, k, now, over, ids).trace == n.trace + Effects(n.tids[k..], n.lookups, now, over)
    decreases Weight(n.tids[k..])
  {
    hide NetInv, Visited, Fanout, Effect;
    if k < |n.tids| {
      var tid, rest := n.tids[k], n.tids[k + 1..];
      assert n.tids[k..][0] == tid && n.tids[k..][1..] == rest;
      if Expires(tid, now, over) {
        VisitedShrinks(n, k, now, ids);
        VisitedInv(n, k, now, ids);
        VisitedEffects(n, k, now, over, ids);
        if k + 1 < |n.tids| {
          WalkTrace(Visited(n, k, now, ids), k, now, over, ids[Fanout(n, k)..]);
        }
      } else if k + 1 < |n.tids| {
        WalkTrace(n, k + 1, now, over, ids);
      }
    }
  }

  /** After a visit the rest of the list still has the effects it had. */
  lemma VisitedEffects(n: Net, k: nat, now: int, over: bool, ids: seq<TidId>)
    requires NetInv(n) && k < |n.tids| && |ids| >= Fanout(n, k)
    ensures k <= |Visited(n, k, now, ids).tids|
    ensures Visited(n, k, now, ids).trace == n.trace + Effect(n.tids[k], n.lookups)
    ensures Effects(Visited(n, k, now, ids).tids[k..], Visited(n, k, now, ids).lookups, now, over)
         == Effects(n.tids[k + 1..], n.lookups, now, over)
  {
    hide Indexed, TraceInv, Visited, Fanout, Effect, Effects;
    VisitedTids(n, k, now, ids);
    VisitedTrace(n, k, now, ids);
    var tid := n.tids[k];
    var gone := if tid.lookup.Some? then {tid.lookup.value} else {};
    assert Visited(n, k, now, ids).lookups == n.lookups - gone;
    EffectsElsewhere(n.tids[k + 1..], EngageTids(ids, InOneMinute(now), Fanout(n, k)), n.lookups, gone, now, over);
  }

  ghost function Survivors(tids: seq<Tid>, now: int, over: bool): seq<Tid>
  {
    if tids == [] then [] else
      (if Expires(tids[0], now, over) then [] else [tids[0]]) + Survivors(tids[1..], now, over)
  }

  /** Nothing but announce transactions, good until the given time. */
  ghost predicate OnlyEngaged(tids: seq<Tid>, time: int)
  {
    forall i :: 0 <= i < |tids| ==> tids[i].kind.AnnounceEngage? && tids[i].lookup.None? && tids[i].time == time
  }

  lemma {:induction false} SurvivorsConcat(a: seq<Tid>, b: seq<Tid>, now: int, over: bool)
    ensures Survivors(a + b, now, over) == Survivors(a, now, over) + Survivors(b, now, over)
  {
    if a == [] {
      assert a + b == b;
    } else {
      assert (a + b)[1..] == a[1..] + b;
      SurvivorsConcat(a[1..], b, now, over);
    }
  }

  lemma {:induction false} SurvivorsEngaged(b: seq<Tid>, time: int, now: int, over: bool)
    requires OnlyEngaged(b, time)
    ensures OnlyEngaged(Survivors(b, now, over), time)
  {
    if b != [] {
      SurvivorsEngaged(b[1..], time, now, over);
    }
  }

  /** Afterwards the unexpired transactions are left, in order, and behind them
      nothing but new announce transactions. */
  lemma {:induction false} WalkSurvivors(n: Net, k: nat, now: int, over: bool, ids: seq<TidId>) returns (more: seq<Tid>)
    requires k <= |n.tids| && |ids| >= ASK * Starts(n.tids[k..])
    ensures OnlyEngaged(more, InOneMinute(now))
    ensures Walk(n, k, now, over, ids).tids == n.tids[..k] + Survivors(n.tids[k..], now, over) + more
    decreases Weight(n.tids[k..])
  {
    hide Visited, Fanout, EngageTids, Survivors, Starts, Weight;
    more := [];
    if k == |n.tids| {
      SurvivorsNone(n.tids[k..], now, over);
    } else {
      var tid, rest := n.tids[k], n.tids[k + 1..];
      assert n.tids[k..][0] == tid && n.tids[k..][1..] == rest;
      SurvivorsHead(n.tids[k..], now, over);
      WalkEnough(n, k, ids);
      if Expires(tid, now, over) {
        VisitedShrinks(n, k, now, ids);
        VisitedTids(n, k, now, ids);
        var added := EngageTids(ids, InOneMinute(now), Fanout(n, k));
        EngagedTids(ids, InOneMinute(now), Fanout(n, k));
        if k + 1 < |n.tids| {
          var later := WalkSurvivors(Visited(n, k, now, ids), k, now, over, ids[Fanout(n, k)..]);
          SurvivorsConcat(rest, added, now, over);
          SurvivorsEngaged(added, InOneMinute(now), now, over);
          more := Survivors(added, now, over) + later;
          Regrouped(n.tids[..k], Survivors(rest, now, over), Survivors(added, now, over), later);
        } else {
          SurvivorsNone(rest, now, over);
          more := added;
        }
      } else if k + 1 < |n.tids| {
        more := WalkSurvivors(n, k + 1, now, over, ids);
        assert n.tids[..k + 1] == n.tids[..k] + [tid];
        Regrouped(n.tids[..k], [tid], Survivors(rest, now, over), []);
      } else {
        SurvivorsNone(rest, now, over);
        assert n.tids == n.tids[..k] + [tid];
      }
    }
  }

  lemma SurvivorsNone(tids: seq<Tid>, now: int, over: bool)
    requires tids == []
    ensures Survivors(tids, now, over) == []
  {
  }

  lemma SurvivorsHead(tids: seq<Tid>, now: int, over: bool)
    requires tids != []
    ensures Survivors(tids, now, over) ==
            if Expires(tids[0], now, over) then Survivors(tids[1..], now, over) else [tids[0]] + Survivors(tids[1..], now, over)
  {
  }

  lemma WalkEnough(n: Net, k: nat, ids: seq<TidId>)
    requires k < |n.tids| && |ids| >= ASK * Starts(n.tids[k..])
    ensures |ids| >= Fanout(n, k) && |ids| >= ASK * Starts(n.tids[k + 1..]) && Weight(n.tids[k + 1..]) < Weight(n.tids[k..])
  {
    assert n.tids[k..][1..] == n.tids[k + 1..];
  }

  lemma Regrouped(a: seq<Tid>, b: seq<Tid>, c: seq<Tid>, d: seq<Tid>)
    ensures a + (b + c) + d == a + b + (c + d) == a + b + c + d
  {
  }

  lemma EngagedTids(ids: seq<TidId>, time: int, m: nat)
    requires m <= |ids|
    ensures OnlyEngaged(EngageTids(ids, time, m), time)
  {
  }

  // ----- every run -----

  datatype Step =
    | Plain(id: TidId, clock: int, kind: Kind)
    | StartLookup(id: TidId, clock: int, kind: Kind, target: Id, seeds: seq<Contact>)
    | GotReply(id: TidId, node: Id, token: seq<Byte>, from: Endpoint, contacts: seq<Contact>)
    | GotAnswer(id: TidId)
    | Expiry(now: int, over: bool, ids: seq<TidId>)

  /** What the environment guarantees: seeds as the routing table hands them out (see `CronLookup`),
      and as many random ids as may be drawn. */
  ghost predicate Enabled(n: Net, s: Step)
  {
    match s
    case Plain(id, clock, kind) => !OwnsLookup(kind)
    case StartLookup(id, clock, kind, target, seeds) =>
      OwnsLookup(kind) && DistinctContacts(seeds) && |seeds| <= ASK
    case GotReply(_, _, _, _, _) => true
    case GotAnswer(_) => true
    case Expiry(now, over, ids) => |ids| >= ASK * Starts(n.tids)
  }

  ghost function Next(n: Net, me: Id, s: Step): Net
    requires Enabled(n, s)
  {
    match s
    case Plain(id, clock, kind) => PutTid(n, Tid(id, InOneMinute(clock), kind, None))
    case StartLookup(id, clock, kind, target, seeds) => Start(n, id, clock, kind, target, seeds)
    case GotReply(id, node, token, from, contacts) => Reply(n, me, id, node, token, from, contacts)
    case GotAnswer(id) => Answered(n, id)
    case Expiry(now, over, ids) =>
      assert n.tids[0..] == n.tids;
      Walk(n, 0, now, over, ids)
  }

  lemma NextInv(n: Net, me: Id, s: Step)
    requires NetInv(n) && Enabled(n, s)
    ensures NetInv(Next(n, me, s))
  {
    hide NetInv, PutTid, Start, Reply, Answered, Walk;
    match s
    case Plain(id, clock, kind) =>
      PutPlainInv(n, Tid(id, InOneMinute(clock), kind, None));
    case StartLookup(id, clock, kind, target, seeds) =>
      StartInv(n, id, clock, kind, target, seeds);
    case GotReply(id, node, token, from, contacts) =>
      ReplyInv(n, me, id, node, token, from, contacts);
    case GotAnswer(id) =>
      AnsweredInv(n, id);
    case Expiry(now, over, ids) =>
      assert n.tids[0..] == n.tids;
      WalkInv(n, 0, now, over, ids);
  }

  lemma AnsweredInv(n: Net, id: TidId)
    requires NetInv(n)
    ensures NetInv(Answered(n, id))
  {
    hide NetInv, DropTid;
    if Answered(n, id) != n {
      DropTidInv(n, LatestAt(n.tids, id).value);
    }
  }

  const INITIAL := Net([], map[], map[], 0, [])

  ghost predicate Run(me: Id, steps: seq<Step>, n: Net)
  {
    if steps == [] then n == INITIAL else
      var k := |steps| - 1;
      exists m :: Run(me, steps[..k], m) && Enabled(m, steps[k]) && n == Next(m, me, steps[k])
  }

  lemma {:induction false} RunInv(me: Id, steps: seq<Step>, n: Net)
    requires Run(me, steps, n)
    ensures NetInv(n)
    decreases |steps|
  {
    if steps == [] {
      assert forall h: nat :: Asks([], h) == [] && Frees([], h) == 0;
    } else {
      var k := |steps| - 1;
      var m :| Run(me, steps[..k], m) && Enabled(m, steps[k]) && n == Next(m, me, steps[k]);
      RunInv(me, steps[..k], m);
      NextInv(m, me, steps[k]);
    }
  }

  /** In every run: no lookup asks a node twice or asks more than 32767 nodes; a live
      lookup has asked its eight nearest nodes; a lookup is freed exactly once, when
      its transaction ends. */
  lemma EveryRun(me: Id, steps: seq<Step>, n: Net, h: nat)
    requires Run(me, steps, n)
    ensures NoDuplicates(Asks(n.trace, h)) && |Asks(n.trace, h)| <= 32767
    ensures h in n.lookups ==>
              && Ascending(n.lookups[h].list, n.lookups[h].target)
              && (forall k :: 0 <= k < |n.lookups[h].list| && k < 8 ==> n.lookups[h].list[k] in Asks(n.trace, h))
              && Frees(n.trace, h) == 0 && Owned(n.tids, h)
    ensures h !in n.lookups && h < n.next ==> Frees(n.trace, h) == 1
  {
    RunInv(me, steps, n);
  }

  // ----- nothing heard of is forgotten -----

  lemma {:induction false} RunUnique(me: Id, steps: seq<Step>, n: Net, m: Net)
    requires Run(me, steps, n) && Run(me, steps, m)
    ensures n == m
    decreases |steps|
  {
    hide Enabled, Next;
    if steps != [] {
      var k := |steps| - 1;
      var a :| Run(me, steps[..k], a) && Enabled(a, steps[k]) && n == Next(a, me, steps[k]);
      var b :| Run(me, steps[..k], b) && Enabled(b, steps[k]) && m == Next(b, me, steps[k]);
      RunUnique(me, steps[..k], a, b);
    }
  }

  /** A walk frees lookups and leaves the others alone. */
  lemma {:induction false} WalkLookups(n: Net, k: nat, now: int, over: bool, ids: seq<TidId>, h: nat)
    requires k <= |n.tids| && |ids| >= ASK * Starts(n.tids[k..])
    ensures Walk(n, k, now, over, ids).next == n.next
    ensures h in Walk(n, k, now, over, ids).lookups ==>
              h in n.lookups && Walk(n, k, now, over, ids).lookups[h] == n.lookups[h]
    decreases Weight(n.tids[k..])
  {
    hide Visited, Fanout;
    if k < |n.tids| {
      assert n.tids[k..][1..] == n.tids[k + 1..];
      if Expires(n.tids[k], now, over) {
        VisitedShrinks(n, k, now, ids);
        VisitedLookups(n, k, now, ids);
        if k + 1 < |n.tids| {
          WalkLookups(Visited(n, k, now, ids), k, now, over, ids[Fanout(n, k)..], h);
        }
      } else if k + 1 < |n.tids| {
        WalkLookups(n, k + 1, now, over, ids, h);
      }
    }
  }

  lemma VisitedLookups(n: Net, k: nat, now: int, ids: seq<TidId>)
    requires k < |n.tids| && |ids| >= Fanout(n, k)
    ensures Visited(n, k, now, ids).next == n.next
    ensures forall h :: h in Visited(n, k, now, ids).lookups ==>
              h in n.lookups && Visited(n, k, now, ids).lookups[h] == n.lookups[h]
  {
    hide Receivers;
  }

  /** The later list has everything that the earlier one had. */
  ghost predicate Grown(a: seq<Id>, b: seq<Id>)
  {
    |a| <= |b| && forall i :: 0 <= i < |a| ==> a[i] in b
  }

  lemma ReplyGrows(n: Net, me: Id, id: TidId, node: Id, token: seq<Byte>, from: Endpoint, cs: seq<Contact>, h: nat)
    requires h in n.lookups
    ensures var m := Reply(n, me, id, node, token, from, cs);
            m.next == n.next && m.lookups.Keys == n.lookups.Keys && Grown(n.lookups[h].list, m.lookups[h].list)
  {
    hide HeardAll, Asks;
    if LookupOf(n, id) == Some(h) {
      HeardAllGrown(Search(Updated(n.lookups[h], node, token, from), Asks(n.trace, h)), me, cs);
    }
  }

  lemma HeardAllGrown(s: Search, me: Id, cs: seq<Contact>)
    ensures Grown(s.look.list, HeardAll(s, me, cs).look.list)
  {
    hide HeardAll;
    forall i | 0 <= i < |s.look.list|
      ensures s.look.list[i] in HeardAll(s, me, cs).look.list
    {
      HeardAllGrows(s, me, cs, s.look.list[i]);
    }
    if s.look.list != [] {
      HeardAllGrows(s, me, cs, s.look.list[0]);
    }
  }

  /** One step leaves a lookup that it does not free with all the nodes it had, and does not
      bring one back that is gone. */
  lemma NextGrows(n: Net, me: Id, s: Step, h: nat)
    requires Enabled(n, s) && h < n.next
    ensures var m := Next(n, me, s);
            && n.next <= m.next
            && (h in m.lookups ==> h in n.lookups && Grown(n.lookups[h].list, m.lookups[h].list))
  {
    hide Walk, Reply, SeededAll;
    match s
    case Plain(id, clock, kind) =>
    case StartLookup(id, clock, kind, target, seeds) =>
    case GotReply(id, node, token, from, contacts) =>
      ReplyLookups(n, me, id, node, token, from, contacts);
      if h in n.lookups {
        ReplyGrows(n, me, id, node, token, from, contacts, h);
      }
    case GotAnswer(id) =>
    case Expiry(now, over, ids) =>
      assert n.tids[0..] == n.tids;
      WalkLookups(n, 0, now, over, ids, h);
  }

  lemma ReplyLookups(n: Net, me: Id, id: TidId, node: Id, token: seq<Byte>, from: Endpoint, cs: seq<Contact>)
    ensures Reply(n, me, id, node, token, from, cs).next == n.next
    ensures Reply(n, me, id, node, token, from, cs).lookups.Keys == n.lookups.Keys
  {
    hide HeardAll, Asks, Updated;
  }

  lemma {:induction false} RunGrows(me: Id, steps: seq<Step>, n: Net, k: nat, m: Net, h: nat)
    requires Run(me, steps, n) && k <= |steps| && Run(me, steps[..k], m) && h < m.next
    ensures m.next <= n.next
    ensures h in n.lookups ==> h in m.lookups && Grown(m.lookups[h].list, n.lookups[h].list)
    decreases |steps|
  {
    hide Enabled, Next;
    if k == |steps| {
      assert steps[..k] == steps;
      RunUnique(me, steps, n, m);
    } else {
      var j := |steps| - 1;
      var a :| Run(me, steps[..j], a) && Enabled(a, steps[j]) && n == Next(a, me, steps[j]);
      assert steps[..j][..k] == steps[..k];
      RunGrows(me, steps[..j], a, k, m, h);
      NextGrows(a, me, steps[j], h);
      if h in n.lookups {
        GrownTwice(m.lookups[h].list, a.lookups[h].list, n.lookups[h].list);
      }
    }
  }

  lemma GrownTwice(a: seq<Id>, b: seq<Id>, c: seq<Id>)
    requires Grown(a, b) && Grown(b, c)
    ensures Grown(a, c)
  {
    forall i | 0 <= i < |a|
      ensures a[i] in c
    {
      assert a[i] in b;
      var j :| 0 <= j < |b| && b[j] == a[i];
    }
  }

  /** Step k of the run, taken in state m, is a reply to lookup h that names the node. */
  ghost predicate Told(me: Id, steps: seq<Step>, k: nat, m: Net, h: nat, id: Id)
  {
    && k < |steps| && Run(me, steps[..k], m) && steps[k].GotReply? && LookupOf(m, steps[k].id) == Some(h)
    && exists i :: 0 <= i < |steps[k].contacts| && steps[k].contacts[i].id == id && id != me
                   && !steps[k].contacts[i].linklocal
  }

  lemma ToldIsListed(me: Id, steps: seq<Step>, n: Net, k: nat, m: Net, h: nat, id: Id)
    requires Run(me, steps, n) && Told(me, steps, k, m, h, id) && h in n.lookups
    ensures id in n.lookups[h].list || |n.lookups[h].list| >= 32767
  {
    hide NetInv, Reply, Walk, LookupOf;
    var s := steps[k];
    var i :| 0 <= i < |s.contacts| && s.contacts[i].id == id && id != me && !s.contacts[i].linklocal;
    RunInv(me, steps[..k], m);
    ReplyRemembers(m, me, s.id, s.node, s.token, s.from, s.contacts, h, i);
    ReplyLookups(m, me, s.id, s.node, s.token, s.from, s.contacts);
    var a := Reply(m, me, s.id, s.node, s.token, s.from, s.contacts);
    RunOneMore(me, steps, k, m);
    RunGrows(me, steps, n, k + 1, a, h);
    GrownHas(a.lookups[h].list, n.lookups[h].list, id);
  }

  lemma RunOneMore(me: Id, steps: seq<Step>, k: nat, m: Net)
    requires k < |steps| && Run(me, steps[..k], m) && Enabled(m, steps[k])
    ensures Run(me, steps[..k + 1], Next(m, me, steps[k]))
  {
    hide Enabled, Next;
    assert steps[..k + 1][..k] == steps[..k] && steps[..k + 1][k] == steps[k];
  }

  lemma GrownHas(a: seq<Id>, b: seq<Id>, id: Id)
    requires Grown(a, b)
    ensures id in a ==> id in b
  {
  }

  lemma ReplyRemembers(n: Net, me: Id, id: TidId, node: Id, token: seq<Byte>, from: Endpoint, cs: seq<Contact>, h: nat, i: nat)
    requires NetInv(n) && LookupOf(n, id) == Some(h) && i < |cs| && cs[i].id != me && !cs[i].linklocal
    ensures var l := Reply(n, me, id, node, token, from, cs).lookups[h];
            h < n.next && (cs[i].id in l.list || |l.list| >= LIST_MAX)
  {
    var s := Search(n.lookups[h], Asks(n.trace, h));
    assert Valid(s);
    hide Valid, Asks, HeardAll, Updated;
    UpdatedValid(s, node, token, from);
    HeardAllRemembers(s.(look := Updated(s.look, node, token, from)), me, cs, i);
  }

  /** In every run: as long as a live lookup is short of the limit, the nodes it has asked include
      the eight nearest of all that any of its replies ever named. */
  lemma NearestOfAllTold(me: Id, steps: seq<Step>, n: Net, k: nat, m: Net, h: nat, id: Id)
    requires Run(me, steps, n) && Told(me, steps, k, m, h, id)
    requires h in n.lookups && |n.lookups[h].list| < 32767 && id !in Asks(n.trace, h)
    ensures |n.lookups[h].list| > 8
    ensures forall j :: 0 <= j < 8 ==>
              && n.lookups[h].list[j] in Asks(n.trace, h)
              && Distance(n.lookups[h].list[j], n.lookups[h].target) < Distance(id, n.lookups[h].target)
  {
    hide Distance, Run, Told;
    ToldIsListed(me, steps, n, k, m, h, id);
    EveryRun(me, steps, n, h);
    var list := n.lookups[h].list;
    var j :| 0 <= j < |list| && list[j] == id;
    assert j >= ASK;
  }

  /** The receivers of an announce are the closest nodes that supplied a token, nearest first. */
  lemma ReceiversClosest(l: Look, id: Id)
    requires WellFormed(l)
    ensures Ascending(Receivers(l), l.target)
    ensures forall k :: 0 <= k < |Receivers(l)| ==> Receivers(l)[k] in l.list && HasToken(l.hash, Receivers(l)[k])
    ensures id in l.list && HasToken(l.hash, id) && id !in Receivers(l) ==>
              |Receivers(l)| == 8
              && forall k :: 0 <= k < 8 ==> Distance(Receivers(l)[k], l.target) < Distance(id, l.target)
  {
    hide Distance;
    TokenHoldersAscending(l.list, l.hash, l.target, ASK);
    TokenHoldersListed(l.list, l.hash, ASK);
    if id in l.list && HasToken(l.hash, id) && id !in Receivers(l) {
      TokenHoldersClosest(l.list, l.hash, l.target, ASK, id);
    }
  }

  lemma AnnounceNone(n: Net, h: nat, now: int, ids: seq<TidId>)
    requires h in n.lookups
    ensures AnnouncedUpTo(n, h, now, ids, 0) == n
    ensures Receivers(n.lookups[h]) == TokenHolders(n.lookups[h].list, n.lookups[h].hash, ASK)
  {
  }

  lemma AnnounceStep(n: Net, h: nat, now: int, ids: seq<TidId>, j: nat)
    requires h in n.lookups && j < |Receivers(n.lookups[h])| && j < |ids|
    ensures var r, tid := AnnouncedUpTo(n, h, now, ids, j), Tid(ids[j], InOneMinute(now), AnnounceEngage, None);
            var node := Receivers(n.lookups[h])[j];
            AnnouncedUpTo(n, h, now, ids, j + 1) ==
            Net(r.tids + [tid], r.index[tid.id := tid], r.lookups, r.next,
                r.trace + [Announce(h, node, n.lookups[h].hash[node].token)])
  {
    hide Receivers;
  }

  lemma TidLookup(n: Net, k: nat)
    requires NetInv(n) && k < |n.tids| && OwnsLookup(n.tids[k].kind)
    ensures n.tids[k].lookup.Some? && n.tids[k].lookup.value in n.lookups
  {
    hide Indexed, TraceInv;
  }

  lemma LookupIsLive(n: Net, id: TidId)
    requires NetInv(n) && id in n.index && OwnsLookup(n.index[id].kind)
    ensures n.index[id].lookup.Some? && n.index[id].lookup.value in n.lookups
  {
    hide TraceInv, LatestAt;
    assert IsLatest(n.tids, id, n.index[id]);
  }

  lemma IndexedListed(n: Net, id: TidId)
    requires NetInv(n) && id in n.index
    ensures LatestAt(n.tids, id).Some? && n.tids[LatestAt(n.tids, id).value] == n.index[id]
  {
    hide Ownership, TraceInv, LatestAt;
    assert IsLatest(n.tids, id, n.index[id]);
  }

  // ----- which transactions are found -----

  ghost predicate DistinctTids(tids: seq<Tid>)
  {
    forall i, j :: 0 <= i < j < |tids| ==> tids[i].id != tids[j].id
  }

  /** Every listed transaction is found under its id, and nothing else is. */
  ghost predicate Findable(tids: seq<Tid>, index: map<TidId, Tid>)
  {
    && DistinctTids(tids)
    && (forall i :: 0 <= i < |tids| ==> tids[i].id in index && index[tids[i].id] == tids[i])
    && (forall id :: id in index ==> index[id].id == id && index[id] in tids)
  }

  lemma RemovedDistinct(tids: seq<Tid>, k: nat)
    requires DistinctTids(tids) && k < |tids|
    ensures DistinctTids(Removed(tids, k))
    ensures forall i :: 0 <= i < |Removed(tids, k)| ==> Removed(tids, k)[i].id != tids[k].id
  {
    RemovedIndex(tids, k);
    RemovedMembers(tids, k);
    hide Removed;
  }

  lemma RemovedFindable(tids: seq<Tid>, index: map<TidId, Tid>, k: nat)
    requires Findable(tids, index) && k < |tids|
    ensures Findable(Removed(tids, k), index - {tids[k].id})
  {
    hide DistinctTids;
    RemovedIndex(tids, k);
    RemovedMembers(tids, k);
    RemovedDistinct(tids, k);
    var r := Removed(tids, k);
    forall i | 0 <= i < |r|
      ensures r[i].id in index && index[r[i].id] == r[i]
    {
      var j := if i < k then i else i + 1;
      assert r[i] == tids[j];
    }
    forall id | id in index && id != tids[k].id
      ensures index[id] in r
    {
      var i :| 0 <= i < |tids| && tids[i] == index[id];
    }
  }

  /** A new transaction leaves all of them to be found exactly if its id is new. */
  lemma PutFindableIff(n: Net, tid: Tid)
    requires Findable(n.tids, n.index)
    ensures Findable(PutTid(n, tid).tids, PutTid(n, tid).index) <==> tid.id !in n.index
  {
    var t := n.tids + [tid];
    assert t[|n.tids|] == tid;
    if tid.id in n.index {
      var i :| 0 <= i < |n.tids| && n.tids[i] == n.index[tid.id];
      assert t[i].id == t[|n.tids|].id;
    } else {
      forall id | id in n.index
        ensures n.index[id] in t
      {
        assert n.index[id] in n.tids;
      }
    }
  }

  lemma DropFindable(n: Net, k: nat)
    requires Findable(n.tids, n.index) && k < |n.tids|
    ensures Findable(DropTid(n, k).tids, DropTid(n, k).index)
  {
    hide Findable;
    RemovedFindable(n.tids, n.index, k);
  }

  /** The steps of which all changes of the transaction list consist. */
  datatype Change = Add(tid: Tid) | Drop(k: nat)

  ghost function Changed(n: Net, c: Change): Net
  {
    match c
    case Add(tid) => PutTid(n, tid)
    case Drop(k) => if k < |n.tids| then DropTid(n, k) else n
  }

  ghost function ChangedAll(cs: seq<Change>): Net
  {
    if cs == [] then INITIAL else Changed(ChangedAll(cs[..|cs| - 1]), cs[|cs| - 1])
  }

  ghost predicate FindableAfter(cs: seq<Change>, m: nat)
    requires m <= |cs|
  {
    Findable(ChangedAll(cs[..m]).tids, ChangedAll(cs[..m]).index)
  }

  /** Change k does not add a transaction under an id that is in use. */
  ghost predicate FreshAt(cs: seq<Change>, k: nat)
    requires k < |cs|
  {
    cs[k].Add? ==> cs[k].tid.id !in ChangedAll(cs[..k]).index
  }

  lemma FindableNext(cs: seq<Change>, k: nat)
    requires k < |cs|
    ensures FindableAfter(cs, k) ==> (FindableAfter(cs, k + 1) <==> FreshAt(cs, k))
  {
    hide Findable;
    assert cs[..k + 1][..k] == cs[..k];
    var n := ChangedAll(cs[..k]);
    if FindableAfter(cs, k) {
      match cs[k]
      case Add(tid) => PutFindableIff(n, tid);
      case Drop(j) => if j < |n.tids| { DropFindable(n, j); }
    }
  }

  lemma FindableAtFirst(cs: seq<Change>)
    ensures FindableAfter(cs, 0)
  {
  }

  /** Over any sequence of `tdb_put` and `tdb_del`: every listed transaction can be found at every
      moment exactly if every id was new when it was drawn. */
  lemma AlwaysFindableIff(cs: seq<Change>)
    ensures (forall m :: 0 <= m <= |cs| ==> FindableAfter(cs, m)) <==> forall k :: 0 <= k < |cs| ==> FreshAt(cs, k)
  {
    hide FindableAfter, FreshAt;
    FindableAtFirst(cs);
    forall k | 0 <= k < |cs|
      ensures FindableAfter(cs, k) ==> (FindableAfter(cs, k + 1) <==> FreshAt(cs, k))
    {
      FindableNext(cs, k);
    }
    if forall m :: 0 <= m <= |cs| ==> FindableAfter(cs, m) {
      forall k | 0 <= k < |cs|
        ensures FreshAt(cs, k)
      {
        assert FindableAfter(cs, k) && FindableAfter(cs, k + 1);
      }
    }
    if forall k :: 0 <= k < |cs| ==> FreshAt(cs, k) {
      for m := 0 to |cs|
        invariant forall i :: 0 <= i <= m ==> FindableAfter(cs, i)
      {
        assert FindableAfter(cs, m);
      }
    }
  }

  /** Two transactions under one id: the older one is not found, and when it goes, the younger
      is not found any more either. */
  lemma RepeatedIdUnfindable(id: TidId)
    ensures var ping, find := Tid(id, 60, Ping, None), Tid(id, 90, FindNode, None);
            var both, n := ChangedAll([Add(ping), Add(find)]), ChangedAll([Add(ping), Add(find), Drop(0)]);
            && both.tids == [ping, find] && both.index == map[id := find]
            && n.tids == [find] && id !in n.index
  {
    var ping, find := Tid(id, 60, Ping, None), Tid(id, 90, FindNode, None);
    var cs := [Add(ping), Add(find), Drop(0)];
    assert cs[..2] == [Add(ping), Add(find)] && cs[..2][..1] == [Add(ping)] && cs[..1][..0] == [];
    assert ChangedAll([Add(ping)]).tids == [ping] && ChangedAll([Add(ping)]).index == map[id := ping];
    assert ChangedAll(cs[..2]).tids == [ping, find] && ChangedAll(cs[..2]).index == map[id := find];
  }

  /** The nodes are the first eight good ones of the last non-empty bucket at or below i. */
  ghost predicate HandedOut(t: Bucket.Table, i: nat, nodes: seq<UdpNode>)
    reads set j, k | 0 <= j < |t| && 0 <= k < |t[j].nodes| :: t[j].nodes[k]
  {
    i < |t| &&
    match Bucket.NonEmptyAtOrBelow(t, i)
    case None => nodes == []
    case Some(j) => j < |t| && nodes == Bucket.FirstOk(t[j].nodes, 8)
  }

  lemma HandedOutDistinct(t: Bucket.Table, i: nat, nodes: seq<UdpNode>)
    requires Bucket.ValidTable(t) && HandedOut(t, i, nodes)
    ensures |nodes| <= ASK && forall a, b :: 0 <= a < b < |nodes| ==> nodes[a].id != nodes[b].id
  {
    var j := Bucket.NonEmptyAtOrBelow(t, i);
    if j.Some? {
      Bucket.BucketPlaced(t, j.value);
      Bucket.FirstOkNodes(t[j.value].nodes, 8);
    }
  }

  // ----- the program -----

  class P2p {
    const me: Id
    var tids: seq<Tid>
    var index: map<TidId, Tid>
    var lookups: map<nat, Look>
    var next: nat
    ghost var trace: seq<Event>

    ghost function State(): Net
      reads this
    {
      Net(tids, index, lookups, next, trace)
    }

    constructor (me: Id)
      ensures this.me == me && State() == INITIAL && NetInv(State())
    {
      this.me := me;
      tids, index, lookups, next, trace := [], map[], map[], 0, [];
      assert forall h: nat :: Asks([], h) == [] && Frees([], h) == 0;
    }

    /** `ldb_put` */
    method LdbPut(h: nat, id: Id, addr: Endpoint) returns (place: nat)
      requires h in lookups
      modifies this`lookups
      ensures lookups == old(lookups)[h := Put(old(lookups[h]), id, addr)]
      ensures place == PutIndex(old(lookups[h]), id)
    {
      hide Distance;
      var l := lookups[h];
      if |l.list| >= LIST_MAX {
        return LIST_MAX;
      }
      var i := 0;
      while i < |l.list|
        invariant i <= |l.list| && lookups == old(lookups)
        invariant PlaceFrom(l.list, id, l.target, 0) == PlaceFrom(l.list, id, l.target, i)
      {
        var c := Sha1Compare(id, l.list[i], l.target);
        if c < 0 {
          break;
        }
        i := i + 1;
      }
      lookups := lookups[h := l.(list := Inserted(l.list, i, id), hash := l.hash[id := NodeL(addr, [])])];
      place := i;
    }

    /** `tdb_put` for a transaction without a lookup. */
    method TdbPut(id: TidId, clock: int, kind: Kind)
      requires NetInv(State()) && !OwnsLookup(kind)
      modifies this
      ensures NetInv(State()) && State() == PutTid(old(State()), Tid(id, clock + 60, kind, None))
    {
      PutPlainInv(State(), Tid(id, InOneMinute(clock), kind, None));
      var tid := Tid(id, InOneMinute(clock), kind, None);
      tids, index := tids + [tid], index[id := tid];
    }

    /** `p2p_cron_lookup`: a transaction with a new lookup, every contact remembered and asked. */
    method StartLookup(id: TidId, clock: int, kind: Kind, target: Id, seeds: seq<Contact>)
      requires NetInv(State()) && OwnsLookup(kind) && DistinctContacts(seeds) && |seeds| <= ASK
      modifies this
      ensures NetInv(State()) && State() == Start(old(State()), id, clock, kind, target, seeds)
    {
      hide NetInv, SeededAll, Requests;
      StartInv(State(), id, clock, kind, target, seeds);
      var h := next;
      var tid := Tid(id, InOneMinute(clock), kind, Some(h));
      tids, index := tids + [tid], index[id := tid];
      lookups, next := lookups[h := NewLook(target)], next + 1;
      SeedNodes(h, seeds, Search(lookups[h], []));
      assert lookups == old(lookups)[h := SeededAll(Search(NewLook(target), []), seeds).look];
    }

    /** `p2p_cron_lookup` and `r_lookup_remote` as a whole: what the routing table hands out are
        seeds with which a lookup can be started. */
    method CronLookup(table: Bucket.RoutingTable, id: TidId, clock: int, kind: Kind, target: Id) returns (seeds: seq<Contact>)
      requires NetInv(State()) && OwnsLookup(kind) && Bucket.ValidTable(table.buckets)
      modifies this
      ensures DistinctContacts(seeds) && |seeds| <= 8
      ensures NetInv(State()) && State() == Start(old(State()), id, clock, kind, target, seeds)
    {
      hide NetInv, Start;
      ghost var nodes;
      seeds, nodes := SeedsFrom(table, target);
      StartLookup(id, clock, kind, target, seeds);
    }

    /** The contacts of `bckt_compact_list`. */
    static method SeedsFrom(table: Bucket.RoutingTable, target: Id) returns (seeds: seq<Contact>, ghost nodes: seq<UdpNode>)
      requires Bucket.ValidTable(table.buckets)
      ensures DistinctContacts(seeds) && |seeds| <= 8
      ensures HandedOut(table.buckets, Bucket.BestMatch(table.buckets, target), nodes)
      ensures |seeds| == |nodes| && forall k :: 0 <= k < |nodes| ==> seeds[k] == Contact(nodes[k].id, nodes[k].addr, false)
    {
      Bucket.HasBuckets(table.buckets);
      var ns := table.CompactList(target);
      nodes := ns;
      HandedOutDistinct(table.buckets, Bucket.BestMatch(table.buckets, target), nodes);
      seeds := [];
      for i := 0 to |ns|
        invariant |seeds| == i && forall k :: 0 <= k < i ==> seeds[k] == Contact(ns[k].id, ns[k].addr, false)
      {
        seeds := seeds + [Contact(ns[i].id, ns[i].addr, false)];
      }
    }

    /** The loop over the seeds: every one is remembered and asked. */
    method SeedNodes(h: nat, seeds: seq<Contact>, ghost s0: Search)
      requires h in lookups && lookups[h] == s0.look && s0.sent == []
      modifies this`lookups, this`trace
      ensures lookups == old(lookups)[h := SeededAll(s0, seeds).look]
      ensures trace == old(trace) + Requests(h, SeededAll(s0, seeds).sent)
    {
      hide Put;
      ghost var s := s0;
      var k := 0;
      while k < |seeds|
        invariant k <= |seeds| && h in lookups
        invariant lookups == old(lookups)[h := s.look] && trace == old(trace) + Requests(h, s.sent)
        invariant SeededAll(s, seeds[k..]) == SeededAll(s0, seeds)
      {
        var c := seeds[k];
        var place := LdbPut(h, c.id, c.addr);
        trace := trace + [Request(h, c.id)];
        assert seeds[k..][1..] == seeds[k + 1..];
        s := Seeded(s, c);
        k := k + 1;
      }
    }

    /** `p2p_get_peers_get_nodes`; with no contacts, the lookup part of `p2p_get_peers_get_values`. */
    method GetPeersReply(id: TidId, node: Id, token: seq<Byte>, from: Endpoint, cs: seq<Contact>)
      requires NetInv(State())
      modifies this`lookups, this`trace
      ensures NetInv(State()) && State() == Reply(old(State()), me, id, node, token, from, cs)
    {
      hide NetInv, HeardAll, Asks, Requests, Updated;
      ghost var n := State();
      ReplyInv(n, me, id, node, token, from, cs);
      if id !in index || !OwnsLookup(index[id].kind) || index[id].lookup.None? {
        return;
      }
      LookupIsLive(n, id);
      var h := index[id].lookup.value;
      lookups := lookups[h := Updated(lookups[h], node, token, from)];
      HearNodes(h, cs, Search(lookups[h], Asks(trace, h)));
      assert lookups == n.lookups[h := Continued(n, me, h, node, token, from, cs).look];
    }

    /** The loop over the compact node list. */
    method HearNodes(h: nat, cs: seq<Contact>, ghost s0: Search)
      requires h in lookups && lookups[h] == s0.look
      modifies this`lookups, this`trace
      ensures lookups == old(lookups)[h := HeardAll(s0, me, cs).look]
      ensures |s0.sent| <= |HeardAll(s0, me, cs).sent|
      ensures trace == old(trace) + Requests(h, HeardAll(s0, me, cs).sent[|s0.sent|..])
    {
      hide Put, PutIndex;
      HeardExtends(s0, me, cs);
      ghost var s := s0;
      var k := 0;
      while k < |cs|
        invariant k <= |cs| && h in lookups && |s0.sent| <= |s.sent|
        invariant lookups == old(lookups)[h := s.look] && trace == old(trace) + Requests(h, s.sent[|s0.sent|..])
        invariant HeardAll(s, me, cs[k..]) == HeardAll(s0, me, cs)
      {
        var c := cs[k];
        assert cs[k..][1..] == cs[k + 1..];
        k := k + 1;
        if c.id == me || c.linklocal {
          continue;
        }
        if c.id in lookups[h].hash {
          continue;
        }
        ghost var t := Heard(s, me, c);
        var place := LdbPut(h, c.id, c.addr);
        if place >= ASK {
          s := t;
          continue;
        }
        assert t.sent[|s0.sent|..] == s.sent[|s0.sent|..] + [c.id];
        s := t;
        trace := trace + [Request(h, c.id)];
      }
    }

    /** `tdb_del` */
    method TdbDel(k: nat)
      requires k < |tids| && NetInv(State())
      modifies this
      ensures NetInv(State()) && State() == DropTid(old(State()), k)
    {
      hide NetInv;
      DropTidInv(State(), k);
      var tid := tids[k];
      if OwnsLookup(tid.kind) && tid.lookup.Some? {
        lookups := lookups - {tid.lookup.value};
        trace := trace + [Freed(tid.lookup.value)];
      }
      index := index - {tid.id};
      tids := Removed(tids, k);
    }

    /** The cleanup at the end of `p2p_reply`. */
    method EndAnswered(id: TidId)
      requires NetInv(State())
      modifies this
      ensures NetInv(State()) && State() == Next(old(State()), me, GotAnswer(id))
    {
      hide NetInv, DropTid, LatestAt;
      if id !in index {
        return;
      }
      IndexedListed(State(), id);
      match index[id].kind {
        case Ping | FindNode | AnnounceEngage =>
          var k := FindLatest(id);
          TdbDel(k);
        case _ =>
      }
    }

    /** The item that the index holds: the latest with the id. */
    method FindLatest(id: TidId) returns (k: nat)
      requires LatestAt(tids, id).Some?
      ensures LatestAt(tids, id) == Some(k)
    {
      hide LatestAt;
      k := |tids| - 1;
      while tids[k].id != id
        invariant k < |tids| && forall j :: k < j < |tids| ==> tids[j].id != id
        decreases k
      {
        assert k > 0;
        k := k - 1;
      }
      LatestIs(tids, id, k);
    }

    /** `p2p_cron_announce` */
    method CronAnnounce(h: nat, now: int, ids: seq<TidId>)
      requires h in lookups && NetInv(State()) && |ids| >= |Receivers(lookups[h])|
      modifies this
      ensures State() == AnnouncedUpTo(old(State()), h, now, ids, |Receivers(old(lookups)[h])|)
      ensures NetInv(State())
    {
      hide NetInv, Receivers, AnnouncedUpTo, TokenHolders;
      ghost var n, nodes := State(), Receivers(lookups[h]);
      AnnouncedInv(n, h, now, ids, |nodes|);
      AnnounceNone(n, h, now, ids);
      var l := lookups[h];
      assert l.list[0..] == l.list;
      var i, j := 0, 0;
      while i < |l.list| && j < ASK
        invariant i <= |l.list| && j <= |nodes| && j <= ASK
        invariant State() == AnnouncedUpTo(n, h, now, ids, j)
        invariant TokenHolders(l.list[i..], l.hash, ASK - j) == nodes[j..]
      {
        var node := l.list[i];
        TokenHoldersStep(l.list, i, l.hash, ASK - j);
        if node in l.hash && l.hash[node].token != [] {
          assert nodes[j..][0] == node && nodes[j..][1..] == nodes[j + 1..];
          AnnounceStep(n, h, now, ids, j);
          AnnounceTo(h, node, l.hash[node].token, ids[j], now);
          j := j + 1;
        }
        i := i + 1;
      }
      TokenHoldersEnd(l.list, i, l.hash, ASK - j);
    }

    /** One announce: a transaction and a message. */
    method AnnounceTo(h: nat, node: Id, token: seq<Byte>, id: TidId, now: int)
      modifies this
      ensures var tid := Tid(id, InOneMinute(now), AnnounceEngage, None);
              State() == old(Net(tids + [tid], index[id := tid], lookups, next, trace + [Announce(h, node, token)]))
    {
      var tid := Tid(id, InOneMinute(now), AnnounceEngage, None);
      tids, index := tids + [tid], index[tid.id := tid];
      trace := trace + [Announce(h, node, token)];
    }

    /** `tdb_expire` */
    method TdbExpire(now: int, over: bool, ids: seq<TidId>)
      requires NetInv(State()) && Enabled(State(), Expiry(now, over, ids))
      modifies this
      ensures NetInv(State()) && State() == Next(old(State()), me, Expiry(now, over, ids))
    {
      assert tids[0..] == tids;
      ghost var n := State();
      WalkInv(n, 0, now, over, ids);
      hide NetInv;
      var supply := ids;
      var k: nat := 0;
      var more := |tids| > 0;
      while more
        invariant NetInv(State()) && (more ==> k < |tids|)
        invariant k <= |tids| && |supply| >= ASK * Starts(tids[k..])
        invariant if more then Walk(State(), k, now, over, supply) == Walk(n, 0, now, over, ids)
                  else State() == Walk(n, 0, now, over, ids)
        decreases more, Weight(tids[k..])
      {
        more, k, supply := ExpireOne(k, now, over, supply);
      }
    }

    /** One round of the loop of `tdb_expire`; the successor is looked up first. */
    method ExpireOne(k: nat, now: int, over: bool, ids: seq<TidId>) returns (more: bool, k': nat, ids': seq<TidId>)
      requires NetInv(State()) && k < |tids| && |ids| >= ASK * Starts(tids[k..])
      modifies this
      ensures NetInv(State()) && k' <= |tids| && (more ==> k' < |tids|)
      ensures |ids'| >= ASK * Starts(tids[k'..])
      ensures more ==> Weight(tids[k'..]) < old(Weight(tids[k..]))
      ensures if more then Walk(State(), k', now, over, ids') == old(Walk(State(), k, now, over, ids))
              else State() == old(Walk(State(), k, now, over, ids))
    {
      hide NetInv, Visited, Fanout;
      ghost var n := State();
      assert n.tids[k..][1..] == n.tids[k + 1..];
      more := k + 1 < |tids|;
      var tid := tids[k];
      if Expires(tid, now, over) {
        VisitedShrinks(n, k, now, ids);
        VisitedInv(n, k, now, ids);
        VisitedTids(n, k, now, ids);
        ids' := ExpireVisit(k, now, ids);
        k' := k;
      } else {
        k', ids' := k + 1, ids;
      }
    }

    method ExpireVisit(k: nat, now: int, ids: seq<TidId>) returns (ids': seq<TidId>)
      requires NetInv(State()) && k < |tids| && |ids| >= Fanout(State(), k)
      modifies this
      ensures NetInv(State()) && State() == Visited(old(State()), k, now, ids)
      ensures ids' == ids[Fanout(old(State()), k)..]
    {
      ids' := ids;
      hide NetInv;
      if tids[k].kind.AnnounceStart? {
        TidLookup(State(), k);
        var h := tids[k].lookup.value;
        var before := |tids|;
        CronAnnounce(h, now, ids);
        ids' := ids[|tids| - before..];
      }
      TdbDel(k);
    }
  }
}
