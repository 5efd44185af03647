/**
 What lookups amount to over whole runs of the protocol in P2p.dfy: whom they search for, how long
 they live, what they remember of a node, and whom they announce to.
 */
module Runs {
  import opened Collections
  import opened Bytes
  import opened UdpNodes
  import opened Lookup
  import opened P2p

  // ----- the nodes that a message names -----

  ghost predicate Names(cs: seq<Contact>, node: Id, addr: Endpoint)
  {
    exists i :: 0 <= i < |cs| && cs[i].id == node && cs[i].addr == addr
  }

  lemma NamesHead(cs: seq<Contact>)
    requires cs != []
    ensures Names(cs, cs[0].id, cs[0].addr)
    ensures forall node, addr :: Names(cs[1..], node, addr) ==> Names(cs, node, addr)
  {
    forall node, addr | Names(cs[1..], node, addr)
      ensures Names(cs, node, addr)
    {
      var i :| 0 <= i < |cs[1..]| && cs[1..][i].id == node && cs[1..][i].addr == addr;
      assert cs[i + 1].id == node;
    }
  }

  lemma {:induction false} HeardAllInfo(s: Search, me: Id, cs: seq<Contact>, node: Id)
    ensures HeardAll(s, me, cs).look.target == s.look.target
    ensures node in s.look.hash ==>
              node in HeardAll(s, me, cs).look.hash && HeardAll(s, me, cs).look.hash[node] == s.look.hash[node]
    ensures node !in s.look.hash && node in HeardAll(s, me, cs).look.hash ==>
              var info := HeardAll(s, me, cs).look.hash[node]; info.token == [] && Names(cs, node, info.addr)
    decreases |cs|
  {
    hide PlaceFrom, Names;
    if cs != [] {
      NamesHead(cs);
      HeardAllInfo(Heard(s, me, cs[0]), me, cs[1..], node);
    }
  }

  lemma {:induction false} SeededAllInfo(s: Search, cs: seq<Contact>, node: Id)
    ensures SeededAll(s, cs).look.target == s.look.target
    ensures node in SeededAll(s, cs).look.hash ==>
              var info := SeededAll(s, cs).look.hash[node];
              (node in s.look.hash && info == s.look.hash[node]) || (info.token == [] && Names(cs, node, info.addr))
    decreases |cs|
  {
    hide PlaceFrom, Names;
    if cs != [] {
      NamesHead(cs);
      SeededAllInfo(Seeded(s, cs[0]), cs[1..], node);
    }
  }

  // ----- one step -----

  /** The step is a reply of the node to lookup h. */
  ghost predicate Says(n: Net, s: Step, h: nat, node: Id)
  {
    s.GotReply? && s.node == node && LookupOf(n, s.id) == Some(h)
  }

  /** The step names the node to lookup h, as a seed or in a reply. */
  ghost predicate Tells(n: Net, s: Step, h: nat, node: Id, addr: Endpoint)
  {
    || (s.StartLookup? && h == n.next && Names(s.seeds, node, addr))
    || (s.GotReply? && LookupOf(n, s.id) == Some(h) && Names(s.contacts, node, addr))
  }

  ghost predicate Knows(n: Net, h: nat, node: Id)
  {
    h in n.lookups && node in n.lookups[h].hash
  }

  lemma ReplyInfo(n: Net, me: Id, s: Step, h: nat, node: Id)
    requires s.GotReply? && h in n.lookups
    ensures var m := Next(n, me, s);
            && m.lookups.Keys == n.lookups.Keys && m.lookups[h].target == n.lookups[h].target
            && (Knows(n, h, node) ==> Knows(m, h, node))
            && (Knows(n, h, node) && Says(n, s, h, node) ==> m.lookups[h].hash[node] == NodeL(s.from, s.token))
            && (Knows(n, h, node) && !Says(n, s, h, node) ==> m.lookups[h].hash[node] == n.lookups[h].hash[node])
            && (!Knows(n, h, node) && Knows(m, h, node) ==>
                  m.lookups[h].hash[node].token == [] && Tells(n, s, h, node, m.lookups[h].hash[node].addr))
  {
    hide HeardAll, Asks, Names;
    if LookupOf(n, s.id) == Some(h) {
      var s0 := Search(Updated(n.lookups[h], s.node, s.token, s.from), Asks(n.trace, h));
      HeardAllInfo(s0, me, s.contacts, node);
    }
  }

  /** What one step does to what a lookup knows of a node: a reply of the node replaces it, and a
      node that is new comes without a token, with the address under which it was named. */
  lemma NextInfo(n: Net, me: Id, s: Step, h: nat, node: Id)
    requires Enabled(n, s) && Knows(Next(n, me, s), h, node) && (h in n.lookups <==> h < n.next)
    ensures var info := Next(n, me, s).lookups[h].hash[node];
            if Knows(n, h, node)
            then info == if Says(n, s, h, node) then NodeL(s.from, s.token) else n.lookups[h].hash[node]
            else info.token == [] && Tells(n, s, h, node, info.addr)
  {
    hide Walk, Reply, SeededAll, Names;
    match s
    case Plain(id, clock, kind) =>
    case StartLookup(id, clock, kind, target, seeds) =>
      if h == n.next {
        SeededAllInfo(Search(NewLook(target), []), seeds, node);
      }
    case GotReply(id, nd, token, from, contacts) =>
      ReplyLookups(n, me, id, nd, token, from, contacts);
      ReplyInfo(n, me, s, h, node);
    case GotAnswer(id) =>
    case Expiry(now, over, ids) =>
      assert n.tids[0..] == n.tids;
      WalkLookups(n, 0, now, over, ids, h);
  }

  /** A lookup keeps its target. */
  lemma NextTarget(n: Net, me: Id, s: Step, h: nat)
    requires Enabled(n, s) && h < n.next && h in Next(n, me, s).lookups && h in n.lookups
    ensures Next(n, me, s).lookups[h].target == n.lookups[h].target
  {
    hide Walk, Reply, SeededAll;
    match s
    case Plain(id, clock, kind) =>
    case StartLookup(id, clock, kind, target, seeds) =>
    case GotReply(id, nd, token, from, contacts) =>
      ReplyInfo(n, me, s, h, nd);
    case GotAnswer(id) =>
    case Expiry(now, over, ids) =>
      assert n.tids[0..] == n.tids;
      WalkLookups(n, 0, now, over, ids, h);
  }

  // ----- whom a lookup searches for -----

  /** Step k, taken in state m, starts lookup h. */
  ghost predicate StartsAt(me: Id, steps: seq<Step>, k: nat, m: Net, h: nat)
  {
    k < |steps| && Run(me, steps[..k], m) && steps[k].StartLookup? && Enabled(m, steps[k]) && h == m.next
  }

  /** In every run a lookup searches for the target that it was started for. */
  lemma {:induction false} TargetKept(me: Id, steps: seq<Step>, n: Net, k: nat, m: Net, h: nat)
    requires Run(me, steps, n) && StartsAt(me, steps, k, m, h) && h in n.lookups
    ensures n.lookups[h].target == steps[k].target
    decreases |steps|
  {
    hide Enabled, Next;
    var j := |steps| - 1;
    var a :| Run(me, steps[..j], a) && Enabled(a, steps[j]) && n == Next(a, me, steps[j]);
    if k == j {
      RunUnique(me, steps[..j], a, m);
      StartedFor(m, me, steps[k]);
    } else {
      assert steps[..j][..k] == steps[..k] && steps[..j][k] == steps[k];
      RunOneMore(me, steps[..j], k, m);
      assert steps[..j][..k + 1] == steps[..k + 1];
      NextStarts(m, me, steps[k]);
      RunGrows(me, steps[..j], a, k + 1, Next(m, me, steps[k]), h);
      NextGrows(a, me, steps[j], h);
      TargetKept(me, steps[..j], a, k, m, h);
      NextTarget(a, me, steps[j], h);
    }
  }

  lemma StartedFor(n: Net, me: Id, s: Step)
    requires s.StartLookup? && Enabled(n, s)
    ensures n.next in Next(n, me, s).lookups && Next(n, me, s).lookups[n.next].target == s.target
  {
    hide SeededAll;
    SeededAllInfo(Search(NewLook(s.target), []), s.seeds, s.target);
  }

  lemma NextStarts(n: Net, me: Id, s: Step)
    requires s.StartLookup? && Enabled(n, s)
    ensures Next(n, me, s).next == n.next + 1
  {
    hide SeededAll;
  }

  /** In every run: the nodes of a live lookup stand in the order of their distance to the target that
      it was started for, and the first eight have been asked. */
  lemma SearchesItsTarget(me: Id, steps: seq<Step>, n: Net, k: nat, m: Net, h: nat)
    requires Run(me, steps, n) && StartsAt(me, steps, k, m, h) && h in n.lookups
    ensures var list, target := n.lookups[h].list, steps[k].target;
            && (forall i, j :: 0 <= i < j < |list| ==> Distance(list[i], target) < Distance(list[j], target))
            && (forall i :: 0 <= i < |list| && i < 8 ==> list[i] in Asks(n.trace, h))
            && NoDuplicates(Asks(n.trace, h)) && |Asks(n.trace, h)| <= 32767
  {
    hide Run, Asks, Distance;
    TargetKept(me, steps, n, k, m, h);
    EveryRun(me, steps, n, h);
  }

  /** In every run: as long as a live lookup is short of its limit, a node that any reply to it has named
      has been asked, or eight that are nearer to the target that it was started for have been. */
  lemma NearestToItsTarget(me: Id, steps: seq<Step>, n: Net, k: nat, m: Net, h: nat, k': nat, m': Net, id: Id)
    requires Run(me, steps, n) && StartsAt(me, steps, k, m, h) && Told(me, steps, k', m', h, id)
    requires h in n.lookups && |n.lookups[h].list| < 32767 && id !in Asks(n.trace, h)
    ensures |n.lookups[h].list| > 8
    ensures forall j :: 0 <= j < 8 ==>
              && n.lookups[h].list[j] in Asks(n.trace, h)
              && Distance(n.lookups[h].list[j], steps[k].target) < Distance(id, steps[k].target)
  {
    hide Run, Asks, Distance, Told;
    TargetKept(me, steps, n, k, m, h);
    NearestOfAllTold(me, steps, n, k', m', h, id);
  }

  // ----- how long transactions and lookups live -----

  /** The transactions that have not run out. */
  ghost function Unexpired(tids: seq<Tid>, now: int): seq<Tid>
  {
    if tids == [] then [] else (if now <= tids[0].time then [tids[0]] else []) + Unexpired(tids[1..], now)
  }

  lemma {:induction false} SurvivorsAre(tids: seq<Tid>, now: int, over: bool)
    ensures Survivors(tids, now, over) == if over then [] else Unexpired(tids, now)
  {
    if tids != [] {
      SurvivorsAre(tids[1..], now, over);
    }
  }

  lemma {:induction false} UnexpiredMember(tids: seq<Tid>, now: int, t: Tid)
    ensures t in Unexpired(tids, now) <==> t in tids && now <= t.time
  {
    if tids != [] {
      UnexpiredMember(tids[1..], now, t);
    }
  }

  /** A transaction is put at the end of the list, good for sixty seconds. */
  lemma PutForSixtySeconds(n: Net, me: Id, s: Step)
    requires Enabled(n, s) && (s.Plain? || s.StartLookup?)
    ensures Next(n, me, s).tids ==
            n.tids + [Tid(s.id, s.clock + 60, s.kind, if s.Plain? then None else Some(n.next))]
  {
    hide SeededAll;
  }

  /** An expiry leaves the transactions that have not run out, in their order, and none at all when
      the program ends; behind them come announces, good for sixty seconds. */
  lemma ExpiryLeaves(n: Net, me: Id, now: int, over: bool, ids: seq<TidId>) returns (more: seq<Tid>)
    requires Enabled(n, Expiry(now, over, ids))
    ensures Next(n, me, Expiry(now, over, ids)).tids == (if over then [] else Unexpired(n.tids, now)) + more
    ensures forall i :: 0 <= i < |more| ==> more[i].kind == AnnounceEngage && more[i].lookup == None && more[i].time == now + 60
  {
    hide Walk, Survivors, Unexpired;
    assert n.tids[0..] == n.tids && n.tids[..0] == [];
    more := WalkSurvivors(n, 0, now, over, ids);
    SurvivorsAre(n.tids, now, over);
  }

  /** An answer ends the latest ping, find_node or announce transaction with its id, and no other kind. */
  lemma AnswerEnds(n: Net, me: Id, id: TidId)
    requires NetInv(n)
    ensures var m := Next(n, me, GotAnswer(id));
            if id in n.index && n.index[id].kind in {Kind.Ping, Kind.FindNode, Kind.AnnounceEngage}
            then id !in m.index && |m.tids| == |n.tids| - 1 && m.lookups == n.lookups && m.trace == n.trace
                 && exists k :: 0 <= k < |n.tids| && n.tids[k] == n.index[id] && m.tids == n.tids[..k] + n.tids[k + 1..]
            else m == n
  {
    hide NetInv, LatestAt;
    if id in n.index {
      IndexedListed(n, id);
      NoLookupOwned(n, id);
    }
  }

  lemma NoLookupOwned(n: Net, id: TidId)
    requires NetInv(n) && id in n.index
    ensures !OwnsLookup(n.index[id].kind) ==> n.index[id].lookup.None?
  {
    hide TraceInv, LatestAt;
    assert IsLatest(n.tids, id, n.index[id]);
  }

  /** There are runs: one of no step, and from every run one by every step that is possible then. */
  lemma RunsGoOn(me: Id, steps: seq<Step>, n: Net, s: Step)
    ensures Run(me, [], Net([], map[], map[], 0, []))
    ensures Run(me, steps, n) && Enabled(n, s) ==> Run(me, steps + [s], Next(n, me, s))
  {
    hide Enabled, Next;
    assert (steps + [s])[..|steps|] == steps;
  }

  /** Which steps are possible: all but a transaction with a lookup that is not started as one, seeds
      that are repeated or more than eight, and an expiry that is not given enough random ids. */
  lemma EnabledMeans(n: Net, id: TidId, clock: int, kind: Kind, target: Id, seeds: seq<Contact>)
    ensures Enabled(n, Plain(id, clock, kind)) <==> kind !in {Kind.GetPeers, Kind.AnnounceStart}
    ensures Enabled(n, StartLookup(id, clock, kind, target, seeds)) <==>
            && kind in {Kind.GetPeers, Kind.AnnounceStart} && |seeds| <= 8
            && forall i, j :: 0 <= i < j < |seeds| ==> seeds[i].id != seeds[j].id
  {
  }

  /** Lookup h belongs to a transaction of that kind and time. */
  ghost predicate OwnedBy(tids: seq<Tid>, h: nat, kind: Kind, time: int)
  {
    exists i :: 0 <= i < |tids| && tids[i].lookup == Some(h) && tids[i].kind == kind && tids[i].time == time
  }

  /** The step is an expiry that comes too late for the given time, or the end of the program. */
  predicate Ends(s: Step, time: int)
  {
    s.Expiry? && (s.over || s.now > time)
  }

  lemma OwnedByIn(tids: seq<Tid>, t: Tid, h: nat)
    requires t in tids && t.lookup == Some(h)
    ensures OwnedBy(tids, h, t.kind, t.time)
  {
  }

  lemma OwnerUnique(n: Net, h: nat, t: Tid, u: Tid)
    requires NetInv(n) && t in n.tids && u in n.tids && t.lookup == u.lookup == Some(h)
    ensures t == u && h in n.lookups
  {
    hide Indexed, TraceInv;
    var i :| 0 <= i < |n.tids| && n.tids[i] == t;
    var j :| 0 <= j < |n.tids| && n.tids[j] == u;
    assert i == j;
  }

  lemma LiveIsOwned(n: Net, h: nat) returns (t: Tid)
    requires NetInv(n) && h in n.lookups
    ensures t in n.tids && t.lookup == Some(h)
  {
    hide Indexed, TraceInv;
    assert Owned(n.tids, h);
    var i :| 0 <= i < |n.tids| && n.tids[i].lookup == Some(h);
    t := n.tids[i];
  }

  lemma ExpiryLife(n: Net, me: Id, s: Step, h: nat, kind: Kind, time: int)
    requires NetInv(n) && s.Expiry? && Enabled(n, s) && OwnedBy(n.tids, h, kind, time)
    ensures h in Next(n, me, s).lookups <==> !Ends(s, time)
    ensures !Ends(s, time) ==> OwnedBy(Next(n, me, s).tids, h, kind, time)
  {
    hide NetInv, Enabled, Next, Unexpired;
    NextInv(n, me, s);
    var m := Next(n, me, s);
    var i :| 0 <= i < |n.tids| && n.tids[i].lookup == Some(h) && n.tids[i].kind == kind && n.tids[i].time == time;
    var t := n.tids[i];
    var more := ExpiryLeaves(n, me, s.now, s.over, s.ids);
    UnexpiredMember(n.tids, s.now, t);
    if !Ends(s, time) {
      assert t in m.tids;
      OwnedByIn(m.tids, t, h);
      OwnerUnique(m, h, t, t);
    } else if h in m.lookups {
      var u := LiveIsOwned(m, h);
      UnexpiredMember(n.tids, s.now, u);
      OwnerUnique(n, h, t, u);
    }
  }

  lemma AnswerLife(n: Net, me: Id, s: Step, h: nat, kind: Kind, time: int)
    requires NetInv(n) && s.GotAnswer? && OwnedBy(n.tids, h, kind, time)
    ensures h in n.lookups && h in Next(n, me, s).lookups && OwnedBy(Next(n, me, s).tids, h, kind, time)
  {
    hide TraceInv, LatestAt, Removed;
    var i :| 0 <= i < |n.tids| && n.tids[i].lookup == Some(h) && n.tids[i].kind == kind && n.tids[i].time == time;
    var k := LatestAt(n.tids, s.id);
    if Answered(n, s.id) != n {
      assert IsLatest(n.tids, s.id, n.index[s.id]);
      assert n.tids[k.value].lookup == None && i != k.value;
      RemovedMembers(n.tids, k.value);
      OwnedByIn(Removed(n.tids, k.value), n.tids[i], h);
    }
  }

  /** One step ends a live lookup exactly if it is an expiry after its time. */
  lemma NextLife(n: Net, me: Id, s: Step, h: nat, kind: Kind, time: int)
    requires NetInv(n) && Enabled(n, s) && OwnedBy(n.tids, h, kind, time)
    ensures h in Next(n, me, s).lookups <==> !Ends(s, time)
    ensures !Ends(s, time) ==> OwnedBy(Next(n, me, s).tids, h, kind, time)
  {
    hide NetInv, Reply, SeededAll, Walk;
    var i :| 0 <= i < |n.tids| && n.tids[i].lookup == Some(h) && n.tids[i].kind == kind && n.tids[i].time == time;
    OwnerUnique(n, h, n.tids[i], n.tids[i]);
    match s
    case Plain(id, clock, kd) =>
      OwnedByIn(Next(n, me, s).tids, n.tids[i], h);
    case StartLookup(id, clock, kd, target, seeds) =>
      OwnedByIn(Next(n, me, s).tids, n.tids[i], h);
    case GotReply(id, nd, token, from, contacts) =>
      ReplyLookups(n, me, id, nd, token, from, contacts);
      ReplyTids(n, me, id, nd, token, from, contacts);
    case GotAnswer(id) =>
      AnswerLife(n, me, s, h, kind, time);
    case Expiry(now, over, ids) =>
      ExpiryLife(n, me, s, h, kind, time);
  }

  lemma ReplyTids(n: Net, me: Id, id: TidId, node: Id, token: seq<Byte>, from: Endpoint, cs: seq<Contact>)
    ensures Reply(n, me, id, node, token, from, cs).tids == n.tids
  {
    hide HeardAll, Asks, Updated;
  }

  /** No expiry after step k has come too late for the lookup that it started. */
  ghost predicate InTime(steps: seq<Step>, k: nat)
    requires k < |steps| && steps[k].StartLookup?
  {
    forall j :: k < j < |steps| && steps[j].Expiry? ==> !steps[j].over && steps[j].now <= steps[k].clock + 60
  }

  lemma InTimeStep(steps: seq<Step>, j: nat, k: nat)
    requires k < j == |steps| - 1 && steps[k].StartLookup?
    ensures InTime(steps, k) <==> InTime(steps[..j], k) && !Ends(steps[j], steps[k].clock + 60)
  {
  }

  /** In every run: a lookup lives exactly until the first expiry more than sixty seconds after its
      start, or the end of the program. While it lives it belongs to its transaction, and a lookup
      that is gone has been freed once. */
  lemma {:induction false} LivesSixtySeconds(me: Id, steps: seq<Step>, n: Net, k: nat, m: Net, h: nat)
    requires Run(me, steps, n) && StartsAt(me, steps, k, m, h)
    ensures h < n.next && (h in n.lookups <==> InTime(steps, k))
    ensures h in n.lookups ==> OwnedBy(n.tids, h, steps[k].kind, steps[k].clock + 60)
    ensures h !in n.lookups ==> Frees(n.trace, h) == 1
    decreases |steps|
  {
    hide Enabled, Next, InTime, OwnedBy, Frees;
    var j := |steps| - 1;
    var a :| Run(me, steps[..j], a) && Enabled(a, steps[j]) && n == Next(a, me, steps[j]);
    EveryRun(me, steps, n, h);
    if k == j {
      RunUnique(me, steps[..j], a, m);
      StartedFor(m, me, steps[k]);
      NextStarts(m, me, steps[k]);
      StartOwned(m, me, steps[k]);
      InTimeAtOnce(steps, k);
    } else {
      assert steps[..j][..k] == steps[..k] && steps[..j][k] == steps[k];
      LivesSixtySeconds(me, steps[..j], a, k, m, h);
      InTimeStep(steps, j, k);
      NextGrows(a, me, steps[j], h);
      if h in a.lookups {
        RunInv(me, steps[..j], a);
        NextLife(a, me, steps[j], h, steps[k].kind, steps[k].clock + 60);
      }
    }
  }

  lemma StartOwned(n: Net, me: Id, s: Step)
    requires s.StartLookup? && Enabled(n, s)
    ensures OwnedBy(Next(n, me, s).tids, n.next, s.kind, s.clock + 60)
  {
    PutForSixtySeconds(n, me, s);
    hide Next;
    var tids := Next(n, me, s).tids;
    OwnedByIn(tids, tids[|n.tids|], n.next);
  }

  lemma InTimeAtOnce(steps: seq<Step>, k: nat)
    requires k == |steps| - 1 && steps[k].StartLookup?
    ensures InTime(steps, k)
  {
  }

  // ----- what a lookup remembers of a node -----

  /** Step k is a reply of the node to lookup h, which has the node listed. */
  ghost predicate SaidAt(me: Id, steps: seq<Step>, k: nat, h: nat, node: Id)
  {
    k < |steps| && exists m :: Run(me, steps[..k], m) && Says(m, steps[k], h, node) && Knows(m, h, node)
  }

  /** Step k is the last such reply, and this is what it said. */
  ghost predicate SaidLast(me: Id, steps: seq<Step>, k: nat, h: nat, node: Id, info: NodeL)
  {
    && SaidAt(me, steps, k, h, node) && steps[k].GotReply? && info == NodeL(steps[k].from, steps[k].token)
    && forall j :: k < j < |steps| ==> !SaidAt(me, steps, j, h, node)
  }

  /** There has been no such reply. */
  ghost predicate NeverSaid(me: Id, steps: seq<Step>, h: nat, node: Id)
  {
    forall j :: 0 <= j < |steps| ==> !SaidAt(me, steps, j, h, node)
  }

  /** Step k named the node to lookup h, which did not know it. */
  ghost predicate ToldAt(me: Id, steps: seq<Step>, k: nat, h: nat, node: Id, addr: Endpoint)
  {
    k < |steps| && exists m :: Run(me, steps[..k], m) && Tells(m, steps[k], h, node, addr) && !Knows(m, h, node)
  }

  /** The info is the last word of the node, or that under which it was first named. */
  ghost predicate LastWord(me: Id, steps: seq<Step>, h: nat, node: Id, info: NodeL)
  {
    || (exists k :: SaidLast(me, steps, k, h, node, info))
    || (NeverSaid(me, steps, h, node) && info.token == [] && exists k :: ToldAt(me, steps, k, h, node, info.addr))
  }

  lemma SaidAtPrefix(me: Id, steps: seq<Step>, j: nat, k: nat, h: nat, node: Id)
    requires k < j <= |steps|
    ensures SaidAt(me, steps[..j], k, h, node) <==> SaidAt(me, steps, k, h, node)
  {
    assert steps[..j][..k] == steps[..k];
  }

  lemma ToldAtPrefix(me: Id, steps: seq<Step>, j: nat, k: nat, h: nat, node: Id, addr: Endpoint)
    requires k < j <= |steps| && ToldAt(me, steps[..j], k, h, node, addr)
    ensures ToldAt(me, steps, k, h, node, addr)
  {
    assert steps[..j][..k] == steps[..k];
  }

  /** Another step that is no reply of the node leaves its last word what it was. */
  lemma LastWordKept(me: Id, steps: seq<Step>, j: nat, h: nat, node: Id, info: NodeL)
    requires j == |steps| - 1 && LastWord(me, steps[..j], h, node, info) && !SaidAt(me, steps, j, h, node)
    ensures LastWord(me, steps, h, node, info)
  {
    hide SaidAt, ToldAt;
    forall k | 0 <= k < j
      ensures SaidAt(me, steps[..j], k, h, node) <==> SaidAt(me, steps, k, h, node)
    {
      SaidAtPrefix(me, steps, j, k, h, node);
    }
    if k :| SaidLast(me, steps[..j], k, h, node, info) {
      SaidInside(me, steps[..j], k, h, node);
      assert SaidLast(me, steps, k, h, node, info);
    } else {
      var k :| ToldAt(me, steps[..j], k, h, node, info.addr);
      ToldInside(me, steps[..j], k, h, node, info.addr);
      ToldAtPrefix(me, steps, j, k, h, node, info.addr);
      assert NeverSaid(me, steps, h, node);
    }
  }

  lemma SaidInside(me: Id, steps: seq<Step>, k: nat, h: nat, node: Id)
    requires SaidAt(me, steps, k, h, node)
    ensures k < |steps|
  {
  }

  lemma ToldInside(me: Id, steps: seq<Step>, k: nat, h: nat, node: Id, addr: Endpoint)
    requires ToldAt(me, steps, k, h, node, addr)
    ensures k < |steps|
  {
  }

  /** A node that has replied to a live lookup is still known to it. */
  lemma SaidIsKnown(me: Id, steps: seq<Step>, n: Net, k: nat, h: nat, node: Id)
    requires Run(me, steps, n) && SaidAt(me, steps, k, h, node) && h in n.lookups
    ensures Knows(n, h, node)
  {
    hide NetInv, Grown;
    var m :| Run(me, steps[..k], m) && Says(m, steps[k], h, node) && Knows(m, h, node);
    RunInv(me, steps[..k], m);
    RunInv(me, steps, n);
    KnownIsListed(m, h, node);
    RunGrows(me, steps, n, k, m, h);
    GrownHas(m.lookups[h].list, n.lookups[h].list, node);
    KnownIsListed(n, h, node);
  }

  lemma KnownIsListed(n: Net, h: nat, node: Id)
    requires NetInv(n) && h in n.lookups
    ensures h < n.next && (node in n.lookups[h].hash <==> node in n.lookups[h].list)
  {
    hide Asks, Indexed, Ownership, Ascending;
    LiveValid(n, h);
  }

  /** In every run: the token and the address that a live lookup has stored for a node are those of
      the last reply of that node to it. Before the first one there is no token, and the address is
      the one under which the node was named. */
  lemma {:induction false} StoredIsLastWord(me: Id, steps: seq<Step>, n: Net, h: nat, node: Id)
    requires Run(me, steps, n) && Knows(n, h, node)
    ensures LastWord(me, steps, h, node, n.lookups[h].hash[node])
    decreases |steps|
  {
    hide Enabled, Next, LastWord, Says, Tells, Knows;
    RunNotEmpty(me, steps, n, h, node);
    var j := |steps| - 1;
    var a :| Run(me, steps[..j], a) && Enabled(a, steps[j]) && n == Next(a, me, steps[j]);
    RunInv(me, steps[..j], a);
    LiveOrNew(a, me, steps[j], h, node);
    NextInfo(a, me, steps[j], h, node);
    var info := n.lookups[h].hash[node];
    if Knows(a, h, node) {
      StoredIsLastWord(me, steps[..j], a, h, node);
      if Says(a, steps[j], h, node) {
        SaidNow(me, steps, j, a, h, node, info);
      } else {
        NotSaidNow(me, steps, j, a, h, node);
        LastWordKept(me, steps, j, h, node, info);
      }
    } else {
      FirstTold(me, steps, j, a, n, h, node, info);
    }
  }

  lemma RunNotEmpty(me: Id, steps: seq<Step>, n: Net, h: nat, node: Id)
    requires Run(me, steps, n) && Knows(n, h, node)
    ensures steps != [] && h in n.lookups && node in n.lookups[h].hash
  {
  }

  lemma LiveOrNew(n: Net, me: Id, s: Step, h: nat, node: Id)
    requires NetInv(n) && Enabled(n, s) && Knows(Next(n, me, s), h, node)
    ensures h in n.lookups <==> h < n.next
  {
    hide NetInv, Enabled, Next;
    if h in n.lookups {
      KnownIsListed(n, h, node);
    }
    if h < n.next {
      NextGrows(n, me, s, h);
    }
  }

  lemma SaidNow(me: Id, steps: seq<Step>, j: nat, a: Net, h: nat, node: Id, info: NodeL)
    requires j == |steps| - 1 && Run(me, steps[..j], a) && Says(a, steps[j], h, node) && Knows(a, h, node)
    requires info == NodeL(steps[j].from, steps[j].token)
    ensures LastWord(me, steps, h, node, info)
  {
    assert SaidAt(me, steps, j, h, node);
    assert SaidLast(me, steps, j, h, node, info);
  }

  lemma NotSaidNow(me: Id, steps: seq<Step>, j: nat, a: Net, h: nat, node: Id)
    requires j == |steps| - 1 && Run(me, steps[..j], a) && !(Says(a, steps[j], h, node) && Knows(a, h, node))
    ensures !SaidAt(me, steps, j, h, node)
  {
    forall m | Run(me, steps[..j], m)
      ensures m == a
    {
      RunUnique(me, steps[..j], a, m);
    }
  }

  lemma FirstTold(me: Id, steps: seq<Step>, j: nat, a: Net, n: Net, h: nat, node: Id, info: NodeL)
    requires j == |steps| - 1 && Run(me, steps[..j], a) && Run(me, steps, n) && h in n.lookups
    requires !Knows(a, h, node) && info.token == [] && Tells(a, steps[j], h, node, info.addr)
    requires h in a.lookups || a.next <= h
    ensures LastWord(me, steps, h, node, info)
  {
    hide Run, SaidAt, ToldAt, Tells, Knows;
    ToldNow(me, steps, j, a, h, node, info.addr);
    forall k | 0 <= k < |steps|
      ensures !SaidAt(me, steps, k, h, node)
    {
      if k < j {
        NotSaidBefore(me, steps, j, a, k, h, node);
      } else {
        NotSaidNow(me, steps, j, a, h, node);
      }
    }
  }

  lemma ToldNow(me: Id, steps: seq<Step>, j: nat, a: Net, h: nat, node: Id, addr: Endpoint)
    requires j < |steps| && Run(me, steps[..j], a) && Tells(a, steps[j], h, node, addr) && !Knows(a, h, node)
    ensures ToldAt(me, steps, j, h, node, addr)
  {
    hide Run, Tells, Knows;
  }

  lemma NotSaidBefore(me: Id, steps: seq<Step>, j: nat, a: Net, k: nat, h: nat, node: Id)
    requires k < j <= |steps| && Run(me, steps[..j], a) && !Knows(a, h, node) && (h in a.lookups || a.next <= h)
    ensures !SaidAt(me, steps, k, h, node)
  {
    SaidAtPrefix(me, steps, j, k, h, node);
    if SaidAt(me, steps[..j], k, h, node) {
      SaidIsOld(me, steps[..j], a, k, h, node);
      SaidIsKnown(me, steps[..j], a, k, h, node);
    }
  }

  lemma SaidIsOld(me: Id, steps: seq<Step>, n: Net, k: nat, h: nat, node: Id)
    requires Run(me, steps, n) && SaidAt(me, steps, k, h, node)
    ensures h < n.next
  {
    var m :| Run(me, steps[..k], m) && Says(m, steps[k], h, node) && Knows(m, h, node);
    RunInv(me, steps[..k], m);
    KnownIsListed(m, h, node);
    RunGrows(me, steps, n, k, m, h);
  }

  // ----- whom a lookup announces to -----

  /** The announces made for one lookup, in order: receiver and token. */
  ghost function Announced(trace: seq<Event>, h: nat): seq<(Id, seq<Byte>)>
  {
    if trace == [] then [] else
      var n := |trace| - 1;
      Announced(trace[..n], h) + if trace[n].Announce? && trace[n].lookup == h then [(trace[n].node, trace[n].token)] else []
  }

  /** The at most eight nearest nodes with a token, each with that token. */
  ghost function Messages(l: Look): seq<(Id, seq<Byte>)>
  {
    seq(|Receivers(l)|, i requires 0 <= i < |Receivers(l)| => (Receivers(l)[i], l.hash[Receivers(l)[i]].token))
  }

  lemma {:induction false} AnnouncedConcat(a: seq<Event>, b: seq<Event>, h: nat)
    ensures Announced(a + b, h) == Announced(a, h) + Announced(b, h)
    decreases |b|
  {
    if b == [] {
      assert a + b == a;
    } else {
      var n := |b| - 1;
      assert (a + b)[..|a| + n] == a + b[..n];
      AnnouncedConcat(a, b[..n], h);
    }
  }

  lemma {:induction false} NoneAnnounced(trace: seq<Event>, h: nat)
    requires forall i :: 0 <= i < |trace| ==> !(trace[i].Announce? && trace[i].lookup == h)
    ensures Announced(trace, h) == []
  {
    if trace != [] {
      NoneAnnounced(trace[..|trace| - 1], h);
    }
  }

  lemma {:induction false} AllAnnounced(l: Look, h: nat, nodes: seq<Id>)
    requires forall k :: 0 <= k < |nodes| ==> nodes[k] in l.hash
    ensures Announced(Announces(h, l, nodes), h) == seq(|nodes|, i requires 0 <= i < |nodes| => (nodes[i], l.hash[nodes[i]].token))
  {
    if nodes != [] {
      var n := |nodes| - 1;
      AllAnnounced(l, h, nodes[..n]);
      assert Announces(h, l, nodes)[..n] == Announces(h, l, nodes[..n]);
    }
  }

  lemma EffectAnnounced(t: Tid, lookups: map<nat, Look>, h: nat)
    ensures t.lookup != Some(h) ==> Announced(Effect(t, lookups), h) == []
    ensures t.lookup == Some(h) && h in lookups && OwnsLookup(t.kind) ==>
              Announced(Effect(t, lookups), h) == if t.kind == AnnounceStart then Messages(lookups[h]) else []
  {
    hide Receivers;
    if t.lookup != Some(h) {
      NoneAnnounced(Effect(t, lookups), h);
    } else if h in lookups && OwnsLookup(t.kind) {
      var nodes := Receivers(lookups[h]);
      var made := if t.kind == AnnounceStart then Announces(h, lookups[h], nodes) else [];
      AnnouncedConcat(made, [Freed(h)], h);
      NoneAnnounced([Freed(h)], h);
      if t.kind == AnnounceStart {
        AllAnnounced(lookups[h], h, nodes);
      }
    }
  }

  lemma {:induction false} EffectsElsewhereAnnounced(tids: seq<Tid>, lookups: map<nat, Look>, now: int, over: bool, h: nat)
    requires forall i :: 0 <= i < |tids| ==> tids[i].lookup != Some(h)
    ensures Announced(Effects(tids, lookups, now, over), h) == []
  {
    hide Effect;
    if tids != [] {
      EffectsElsewhereAnnounced(tids[1..], lookups, now, over, h);
      EffectAnnounced(tids[0], lookups, h);
      AnnouncedConcat(if Expires(tids[0], now, over) then Effect(tids[0], lookups) else [],
                      Effects(tids[1..], lookups, now, over), h);
    }
  }

  lemma {:induction false} EffectsAnnounced(tids: seq<Tid>, lookups: map<nat, Look>, now: int, over: bool, h: nat, i: nat)
    requires i < |tids| && tids[i].lookup == Some(h) && h in lookups && OwnsLookup(tids[i].kind)
    requires forall j :: 0 <= j < |tids| && j != i ==> tids[j].lookup != Some(h)
    ensures Announced(Effects(tids, lookups, now, over), h) ==
            if (over || now > tids[i].time) && tids[i].kind == AnnounceStart then Messages(lookups[h]) else []
  {
    hide Effect, Messages;
    EffectAnnounced(tids[0], lookups, h);
    AnnouncedConcat(if Expires(tids[0], now, over) then Effect(tids[0], lookups) else [],
                    Effects(tids[1..], lookups, now, over), h);
    if i > 0 {
      EffectsAnnounced(tids[1..], lookups, now, over, h, i - 1);
    } else {
      EffectsElsewhereAnnounced(tids[1..], lookups, now, over, h);
    }
  }

  /** Only an expiry announces. */
  lemma NextAnnounced(n: Net, me: Id, s: Step, h: nat)
    requires NetInv(n) && Enabled(n, s)
    ensures !s.Expiry? ==> Announced(Next(n, me, s).trace, h) == Announced(n.trace, h)
    ensures s.Expiry? ==> Announced(Next(n, me, s).trace, h) ==
                          Announced(n.trace, h) + Announced(Effects(n.tids, n.lookups, s.now, s.over), h)
  {
    hide NetInv, HeardAll, SeededAll, Walk, Effects, Asks;
    var t := Next(n, me, s).trace;
    if s.Expiry? {
      assert n.tids[0..] == n.tids;
      WalkTrace(n, 0, s.now, s.over, s.ids);
      AnnouncedConcat(n.trace, Effects(n.tids, n.lookups, s.now, s.over), h);
    } else {
      TraceGrows(n, me, s);
      AnnouncedConcat(n.trace, t[|n.trace|..], h);
      NoneAnnounced(t[|n.trace|..], h);
    }
  }

  lemma TraceGrows(n: Net, me: Id, s: Step)
    requires Enabled(n, s) && !s.Expiry?
    ensures var t := Next(n, me, s).trace;
            |n.trace| <= |t| && t == n.trace + t[|n.trace|..] && forall i :: |n.trace| <= i < |t| ==> !t[i].Announce?
  {
    hide HeardAll, SeededAll, Asks;
  }

  lemma NextUnowned(n: Net, me: Id, s: Step, h: nat)
    requires NetInv(n) && Enabled(n, s) && h !in n.lookups
    ensures Announced(Next(n, me, s).trace, h) == Announced(n.trace, h)
  {
    hide Indexed, TraceInv, Effects, Next, Enabled;
    NextAnnounced(n, me, s, h);
    if s.Expiry? {
      EffectsElsewhereAnnounced(n.tids, n.lookups, s.now, s.over, h);
    }
  }

  lemma NextOwned(n: Net, me: Id, s: Step, h: nat, kind: Kind, time: int)
    requires NetInv(n) && Enabled(n, s) && OwnedBy(n.tids, h, kind, time) && h in n.lookups && Announced(n.trace, h) == []
    ensures Announced(Next(n, me, s).trace, h) == if Ends(s, time) && kind == AnnounceStart then Messages(n.lookups[h]) else []
  {
    hide Indexed, TraceInv, Effects, Next, Enabled, Messages;
    NextAnnounced(n, me, s, h);
    if s.Expiry? {
      var i :| 0 <= i < |n.tids| && n.tids[i].lookup == Some(h) && n.tids[i].kind == kind && n.tids[i].time == time;
      EffectsAnnounced(n.tids, n.lookups, s.now, s.over, h, i);
    }
  }

  lemma {:induction false} NothingAnnouncedYet(me: Id, steps: seq<Step>, n: Net, h: nat)
    requires Run(me, steps, n) && h >= n.next
    ensures Announced(n.trace, h) == []
    decreases |steps|
  {
    hide Enabled, Next;
    if steps != [] {
      var j := |steps| - 1;
      var a :| Run(me, steps[..j], a) && Enabled(a, steps[j]) && n == Next(a, me, steps[j]);
      RunInv(me, steps[..j], a);
      NextCounts(a, me, steps[j]);
      NothingAnnouncedYet(me, steps[..j], a, h);
      NotLive(a, h);
      NextUnowned(a, me, steps[j], h);
    }
  }

  lemma NextCounts(n: Net, me: Id, s: Step)
    requires Enabled(n, s)
    ensures n.next <= Next(n, me, s).next
  {
    hide Walk, Reply, SeededAll;
    if s.GotReply? {
      ReplyLookups(n, me, s.id, s.node, s.token, s.from, s.contacts);
    }
    if s.Expiry? {
      assert n.tids[0..] == n.tids;
      WalkLookups(n, 0, s.now, s.over, s.ids, 0);
    }
  }

  lemma NotLive(n: Net, h: nat)
    requires NetInv(n) && h >= n.next
    ensures h !in n.lookups
  {
    hide Indexed, Ownership, Asks, Frees;
  }

  lemma LastStep(me: Id, steps: seq<Step>, n: Net) returns (a: Net)
    requires Run(me, steps, n) && steps != []
    ensures var j := |steps| - 1; Run(me, steps[..j], a) && Enabled(a, steps[j]) && n == Next(a, me, steps[j])
  {
    hide Enabled, Next;
    var j := |steps| - 1;
    a :| Run(me, steps[..j], a) && Enabled(a, steps[j]) && n == Next(a, me, steps[j]);
  }

  /** Step j, taken in state a, is the expiry that ended lookup h. */
  ghost predicate EndedAt(me: Id, steps: seq<Step>, j: nat, a: Net, h: nat, time: int)
  {
    j < |steps| && Run(me, steps[..j], a) && h in a.lookups && Ends(steps[j], time)
  }

  /** In every run: while a lookup lives it announces nothing. When it ends it announces, if it was
      started for that, once to each of the at most eight nearest nodes that had supplied a token,
      nearest first, each time with that token; and never again. */
  lemma {:induction false} AnnouncesOnce(me: Id, steps: seq<Step>, n: Net, k: nat, m: Net, h: nat) returns (j: nat, a: Net)
    requires Run(me, steps, n) && StartsAt(me, steps, k, m, h)
    ensures h in n.lookups ==> Announced(n.trace, h) == []
    ensures h !in n.lookups ==>
              && k < j && EndedAt(me, steps, j, a, h, steps[k].clock + 60)
              && Announced(n.trace, h) == if steps[k].kind == AnnounceStart then Messages(a.lookups[h]) else []
    decreases |steps|
  {
    hide Enabled, Next, Announced, OwnedBy, Messages, InTime, Run, NetInv;
    j := |steps| - 1;
    a := LastStep(me, steps, n);
    RunInv(me, steps[..j], a);
    LivesSixtySeconds(me, steps, n, k, m, h);
    if k == j {
      RunUnique(me, steps[..j], a, m);
      StartedFor(m, me, steps[k]);
      NothingAnnouncedYet(me, steps[..j], m, h);
      NextAnnounced(a, me, steps[j], h);
    } else {
      assert steps[..j][..k] == steps[..k] && steps[..j][k] == steps[k];
      var j0, a0 := AnnouncesOnce(me, steps[..j], a, k, m, h);
      LivesSixtySeconds(me, steps[..j], a, k, m, h);
      if h in a.lookups {
        NextOwned(a, me, steps[j], h, steps[k].kind, steps[k].clock + 60);
        NextLife(a, me, steps[j], h, steps[k].kind, steps[k].clock + 60);
      } else {
        NextUnowned(a, me, steps[j], h);
        NextGrows(a, me, steps[j], h);
        assert steps[..j][..j0] == steps[..j0];
        j, a := j0, a0;
      }
    }
  }

  /** Whoever is announced to has supplied the token it gets, in its last reply. */
  lemma ReceiverSupplied(me: Id, steps: seq<Step>, n: Net, h: nat, i: nat) returns (k: nat)
    requires Run(me, steps, n) && h in n.lookups && i < |Messages(n.lookups[h])|
    ensures var (node, token) := Messages(n.lookups[h])[i];
            token != [] && SaidLast(me, steps, k, h, node, n.lookups[h].hash[node]) && steps[k].token == token
  {
    hide Run, SaidAt, ToldAt, NeverSaid;
    var l := n.lookups[h];
    var node := Receivers(l)[i];
    TokenHoldersListed(l.list, l.hash, ASK);
    StoredIsLastWord(me, steps, n, h, node);
    k :| SaidLast(me, steps, k, h, node, l.hash[node]);
  }
}
