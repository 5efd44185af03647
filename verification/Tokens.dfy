/**
 The announce tokens (src/p2p/token.c) and the part of `p2p_cron` that renews and
 expires them.
 */
module Tokens {
  import opened Collections
  import opened Bytes
  import opened Clock
  import opened Random

  type TokenId = seq<Byte>

  datatype Token = Token(id: TokenId, time: int)

  /** The token list, its index, and the two timers of `p2p_cron` that matter here. */
  datatype State = State(list: seq<Token>, hash: map<TokenId, Token>, timeToken: int, timeExpire: int)

  // ----- one operation -----

  /** `tkn_put` */
  function Put(s: State, id: TokenId, now: int): State
  {
    var t := Token(id, InThirtyMinutes(now));
    s.(list := s.list + [t], hash := s.hash[id := t])
  }

  /** `tkn_del` */
  function Deleted(s: State, i: nat): State
    requires i < |s.list|
  {
    s.(list := Removed(s.list, i), hash := s.hash - {s.list[i].id})
  }

  /** `tkn_expire`, from list position i on. */
  function ExpireFrom(s: State, i: nat, now: int): State
    requires i <= |s.list|
    decreases |s.list| - i
  {
    if i == |s.list| then s
    else if now > s.list[i].time then ExpireFrom(Deleted(s, i), i, now)
    else ExpireFrom(s, i + 1, now)
  }

  function Newest(s: State): Token
    requires s.list != []
  {
    s.list[|s.list| - 1]
  }

  /** `tkn_read` */
  function Read(s: State): TokenId
    requires s.list != []
  {
    Newest(s).id
  }

  /** `tkn_validate` */
  predicate Validates(s: State, id: TokenId)
  {
    id in s.hash
  }

  /** The inputs of one `p2p_cron`: the clock, whether the neighbourhood is empty, the id of
      the token if one is made, and the random parts of the timers. */
  datatype Tick = Tick(now: int, empty: bool, id: TokenId, r: nat, e: nat)

  predicate Renews(s: State, t: Tick)
  {
    !t.empty && t.now > s.timeToken
  }

  /** `p2p_cron` up to the expiry. */
  function Renewed(s: State, t: Tick): State
  {
    if Renews(s, t) then Put(s, t.id, t.now).(timeToken := InAboutFiveMinutes(t.now, t.r)) else s
  }

  /** One `p2p_cron`. */
  function Cron(s: State, t: Tick): State
  {
    var s1 := Renewed(s, t);
    if !t.empty && t.now > s1.timeExpire
    then ExpireFrom(s1, 0, t.now).(timeExpire := InAboutOneMinute(t.now, t.e))
    else s1
  }

  /** The state `main` leaves behind before the first `p2p_cron`. */
  function Startup(now: int, id: TokenId): State
  {
    Put(State([], map[], 0, 0), id, now)
  }

  function Run(s: State, ticks: seq<Tick>): State
  {
    if ticks == [] then s else Cron(Run(s, ticks[..|ticks| - 1]), ticks[|ticks| - 1])
  }

  // ----- there is always a token -----

  /** Until the first renewal nothing expires; from then on the newest token outlives
      the next renewal by at least 1441 seconds. */
  ghost predicate Timed(s: State)
  {
    && s.list != []
    && ((s.timeToken == 0 && s.timeExpire == 0) || s.timeToken + 1441 <= Newest(s).time)
  }

  /** Some token of the list from position i on has the id of the newest one and has run out. */
  ghost predicate Stale(s: State, i: nat, now: int)
    requires s.list != []
  {
    exists k :: i <= k < |s.list| && s.list[k].id == Read(s) && now > s.list[k].time
  }

  lemma DeletedStale(s: State, i: nat, now: int)
    requires i < |s.list| - 1 && s.list[i].id != Read(s)
    ensures Stale(s, i, now) <==> Stale(Deleted(s, i), i, now)
  {
    hide Removed;
    var u := Deleted(s, i);
    RemovedIndex(s.list, i);
    assert u.list[|s.list| - 2] == s.list[|s.list| - 1] && Read(u) == Read(s);
    if Stale(s, i, now) {
      var k :| i <= k < |s.list| && s.list[k].id == Read(s) && now > s.list[k].time;
      assert u.list[k - 1] == s.list[k];
    }
    if Stale(u, i, now) {
      var k :| i <= k < |u.list| && u.list[k].id == Read(u) && now > u.list[k].time;
      assert u.list[k] == s.list[k + 1];
    }
  }

  /** An expiry spares the newest token if that has not run out; it stays valid exactly
      if none of the expired tokens has the same id. */
  lemma {:induction false} ExpireSparesNewest(s: State, i: nat, now: int)
    requires s.list != [] && i <= |s.list| && now <= Newest(s).time
    ensures var u := ExpireFrom(s, i, now);
            && u.list != [] && Newest(u) == Newest(s)
            && u.timeToken == s.timeToken && u.timeExpire == s.timeExpire
            && (Validates(u, Read(u)) <==> Validates(s, Read(s)) && !Stale(s, i, now))
    decreases |s.list| - i
  {
    if i < |s.list| {
      if now > s.list[i].time {
        var u := Deleted(s, i);
        RemovedIndex(s.list, i);
        ExpireSparesNewest(u, i, now);
        if s.list[i].id != Read(s) {
          DeletedStale(s, i, now);
        }
      } else {
        ExpireSparesNewest(s, i + 1, now);
      }
    }
  }

  /** The tick expires an older token with the id of the newest one. */
  ghost predicate Clash(s: State, t: Tick)
    requires s.list != []
  {
    var s1 := Renewed(s, t);
    !t.empty && t.now > s1.timeExpire && Stale(s1, 0, t.now)
  }

  /** One tick, whatever the clock reads and whichever id is drawn: a token is left, and
      the one handed out is valid exactly if the tick made it or it was valid before, and
      the tick does not clash. */
  lemma CronValidIff(s: State, t: Tick)
    requires Timed(s)
    ensures Timed(Cron(s, t))
    ensures Validates(Cron(s, t), Read(Cron(s, t))) <==>
            (Renews(s, t) || Validates(s, Read(s))) && !Clash(s, t)
  {
    hide ExpireFrom;
    var s1 := Renewed(s, t);
    if !t.empty && t.now > s1.timeExpire {
      ExpireSparesNewest(s1, 0, t.now);
    }
  }

  lemma {:induction false} RunTimed(s: State, ticks: seq<Tick>)
    requires Timed(s)
    ensures Timed(Run(s, ticks))
  {
    if ticks != [] {
      var n := |ticks| - 1;
      RunTimed(s, ticks[..n]);
      CronValidIff(Run(s, ticks[..n]), ticks[n]);
    }
  }

  /** From startup on there is always a token to hand out. */
  lemma AlwaysAToken(now: int, id: TokenId, ticks: seq<Tick>)
    ensures Run(Startup(now, id), ticks).list != []
  {
    RunTimed(Startup(now, id), ticks);
  }

  // ----- when it is valid -----

  /** Position of the last tick that renewed the token; 0 if none did. */
  ghost function LastRenewal(s: State, ticks: seq<Tick>): (k: nat)
    ensures k <= |ticks|
  {
    if ticks == [] then 0 else
      var n := |ticks| - 1;
      if Renews(Run(s, ticks[..n]), ticks[n]) then n else LastRenewal(s, ticks[..n])
  }

  /** Tick k of the run clashes. */
  ghost predicate ClashAt(s: State, ticks: seq<Tick>, k: nat)
    requires Timed(s) && k < |ticks|
  {
    RunTimed(s, ticks[..k]);
    Clash(Run(s, ticks[..k]), ticks[k])
  }

  lemma ClashAtPrefix(s: State, ticks: seq<Tick>, n: nat, k: nat)
    requires Timed(s) && k < n <= |ticks|
    ensures ClashAt(s, ticks[..n], k) <==> ClashAt(s, ticks, k)
  {
    assert ticks[..n][..k] == ticks[..k];
  }

  /** After any run the token handed out is valid exactly if no tick has clashed since the
      one that made it. */
  lemma {:induction false} ValidIff(s: State, ticks: seq<Tick>)
    requires Timed(s) && Validates(s, Read(s))
    ensures Run(s, ticks).list != []
    ensures Validates(Run(s, ticks), Read(Run(s, ticks))) <==>
            forall k :: LastRenewal(s, ticks) <= k < |ticks| ==> !ClashAt(s, ticks, k)
  {
    hide Clash, Cron, Timed;
    RunTimed(s, ticks);
    TimedListed(Run(s, ticks));
    if ticks != [] {
      var n := |ticks| - 1;
      var u, t := Run(s, ticks[..n]), ticks[n];
      RunTimed(s, ticks[..n]);
      TimedListed(u);
      ValidIff(s, ticks[..n]);
      CronValidIff(u, t);
      assert ClashAt(s, ticks, n) == Clash(u, t);
      forall k | 0 <= k < n
        ensures ClashAt(s, ticks[..n], k) <==> ClashAt(s, ticks, k)
      {
        ClashAtPrefix(s, ticks, n, k);
      }
    }
  }

  lemma TimedListed(s: State)
    requires Timed(s)
    ensures s.list != []
  {
  }

  /** The token handed out is valid at every moment of a run exactly if no tick of it clashes. */
  lemma {:induction false} AlwaysValidIff(s: State, ticks: seq<Tick>)
    requires Timed(s) && Validates(s, Read(s))
    ensures (forall m :: 0 <= m <= |ticks| ==> ValidAfter(s, ticks, m))
            <==> forall k :: 0 <= k < |ticks| ==> !ClashAt(s, ticks, k)
  {
    hide ClashAt, ValidAfter, Timed;
    ValidAtStart(s, ticks);
    forall k | 0 <= k < |ticks|
      ensures ValidAfter(s, ticks, k) ==> (ValidAfter(s, ticks, k + 1) <==> !ClashAt(s, ticks, k))
    {
      ValidNext(s, ticks, k);
    }
    if forall m :: 0 <= m <= |ticks| ==> ValidAfter(s, ticks, m) {
      forall k | 0 <= k < |ticks|
        ensures !ClashAt(s, ticks, k)
      {
        assert ValidAfter(s, ticks, k) && ValidAfter(s, ticks, k + 1);
      }
    }
    if forall k :: 0 <= k < |ticks| ==> !ClashAt(s, ticks, k) {
      for m := 0 to |ticks|
        invariant forall i :: 0 <= i <= m ==> ValidAfter(s, ticks, i)
      {
        assert ValidAfter(s, ticks, m);
      }
    }
  }

  ghost predicate ValidAfter(s: State, ticks: seq<Tick>, m: nat)
    requires m <= |ticks|
  {
    var u := Run(s, ticks[..m]);
    u.list != [] && Validates(u, Read(u))
  }

  lemma ValidAtStart(s: State, ticks: seq<Tick>)
    requires Timed(s) && Validates(s, Read(s))
    ensures ValidAfter(s, ticks, 0)
  {
  }

  lemma ValidNext(s: State, ticks: seq<Tick>, k: nat)
    requires Timed(s) && k < |ticks|
    ensures ValidAfter(s, ticks, k) ==> (ValidAfter(s, ticks, k + 1) <==> !ClashAt(s, ticks, k))
  {
    hide Cron, Clash;
    assert ticks[..k + 1][..k] == ticks[..k];
    RunTimed(s, ticks[..k]);
    CronValidIff(Run(s, ticks[..k]), ticks[k]);
  }

  // ----- fresh ids never clash -----

  ghost predicate Listed(list: seq<Token>, id: TokenId)
  {
    exists i :: 0 <= i < |list| && list[i].id == id
  }

  /** The tokens listed have distinct ids, and these are what the index holds. */
  ghost predicate Indexed(s: State)
  {
    && (forall i, j :: 0 <= i < j < |s.list| ==> s.list[i].id != s.list[j].id)
    && (forall i :: 0 <= i < |s.list| ==> s.list[i].id in s.hash)
    && (forall id :: id in s.hash ==> Listed(s.list, id))
  }

  lemma RemovedListed(list: seq<Token>, i: nat, id: TokenId)
    requires i < |list| && Listed(list, id) && id != list[i].id
    ensures Listed(Removed(list, i), id)
  {
    RemovedIndex(list, i);
    var k :| 0 <= k < |list| && list[k].id == id;
    assert Removed(list, i)[if k < i then k else k - 1].id == id;
  }

  lemma DeletedIndexed(s: State, i: nat)
    requires Indexed(s) && i < |s.list|
    ensures Indexed(Deleted(s, i))
  {
    hide Listed, Removed;
    RemovedIndex(s.list, i);
    forall id | id in s.hash && id != s.list[i].id
      ensures Listed(Removed(s.list, i), id)
    {
      RemovedListed(s.list, i, id);
    }
  }

  lemma PutIndexed(s: State, id: TokenId, now: int)
    requires Indexed(s) && id !in s.hash
    ensures Indexed(Put(s, id, now))
  {
    var u := Put(s, id, now);
    assert u.list[|s.list|].id == id;
    forall x | x in u.hash
      ensures Listed(u.list, x)
    {
      if x != id {
        var i :| 0 <= i < |s.list| && s.list[i].id == x;
        assert u.list[i].id == x;
      }
    }
  }

  lemma SameTokens(s: State, u: State)
    requires Indexed(s) && u.list == s.list && u.hash == s.hash
    ensures Indexed(u)
  {
  }

  lemma {:induction false} ExpireIndexed(s: State, i: nat, now: int)
    requires Indexed(s) && i <= |s.list|
    ensures Indexed(ExpireFrom(s, i, now))
    decreases |s.list| - i
  {
    hide Indexed;
    if i < |s.list| {
      if now > s.list[i].time {
        DeletedIndexed(s, i);
        ExpireIndexed(Deleted(s, i), i, now);
      } else {
        ExpireIndexed(s, i + 1, now);
      }
    }
  }

  /** A tick that draws no id or a new one does not clash and keeps the ids distinct. */
  lemma CronFresh(s: State, t: Tick)
    requires Timed(s) && Indexed(s) && (Renews(s, t) ==> t.id !in s.hash)
    ensures !Clash(s, t) && Indexed(Cron(s, t))
  {
    hide ExpireFrom, Listed;
    var s1 := Renewed(s, t);
    RenewedIndexed(s, t);
    if !t.empty && t.now > s1.timeExpire {
      ExpireIndexed(s1, 0, t.now);
      SameTokens(ExpireFrom(s1, 0, t.now), Cron(s, t));
    }
  }

  lemma RenewedIndexed(s: State, t: Tick)
    requires Indexed(s) && (Renews(s, t) ==> t.id !in s.hash)
    ensures Indexed(Renewed(s, t))
  {
    hide Indexed;
    if Renews(s, t) {
      PutIndexed(s, t.id, t.now);
      SameTokens(Put(s, t.id, t.now), Renewed(s, t));
    }
  }

  ghost predicate FreshAt(s: State, ticks: seq<Tick>, k: nat)
    requires k < |ticks|
  {
    Renews(Run(s, ticks[..k]), ticks[k]) ==> ticks[k].id !in Run(s, ticks[..k]).hash
  }

  lemma {:induction false} FreshRunIndexed(s: State, ticks: seq<Tick>)
    requires Timed(s) && Indexed(s) && forall k :: 0 <= k < |ticks| ==> FreshAt(s, ticks, k)
    ensures Indexed(Run(s, ticks))
  {
    hide Indexed, Timed, Cron;
    if ticks != [] {
      var n := |ticks| - 1;
      forall k | 0 <= k < n
        ensures FreshAt(s, ticks[..n], k)
      {
        assert FreshAt(s, ticks, k) && ticks[..n][..k] == ticks[..k];
      }
      FreshRunIndexed(s, ticks[..n]);
      RunTimed(s, ticks[..n]);
      assert FreshAt(s, ticks, n);
      CronFresh(Run(s, ticks[..n]), ticks[n]);
    }
  }

  lemma StartupValid(now: int, id: TokenId)
    ensures var s := Startup(now, id);
            && Timed(s) && Indexed(s) && Validates(s, Read(s)) && s.list == [Token(id, now + 1800)]
  {
    var s := Startup(now, id);
    assert s.list[0].id == id;
  }

  /** From startup on, whatever the clock reads: as long as the ids drawn are new, the token
      handed out is valid. */
  lemma FreshTokensValid(now: int, id: TokenId, ticks: seq<Tick>, m: nat)
    requires m <= |ticks| && forall k :: 0 <= k < |ticks| ==> FreshAt(Startup(now, id), ticks, k)
    ensures ValidAfter(Startup(now, id), ticks, m)
  {
    var s := Startup(now, id);
    hide Run, Clash, Startup;
    StartupValid(now, id);
    forall k | 0 <= k < |ticks|
      ensures !ClashAt(s, ticks, k)
    {
      forall j | 0 <= j < k
        ensures FreshAt(s, ticks[..k], j)
      {
        assert FreshAt(s, ticks, j) && ticks[..k][..j] == ticks[..j];
      }
      FreshRunIndexed(s, ticks[..k]);
      RunTimed(s, ticks[..k]);
      assert FreshAt(s, ticks, k);
      CronFresh(Run(s, ticks[..k]), ticks[k]);
    }
    AlwaysValidIff(s, ticks);
  }

  /** With a repeated id the property fails: if every draw at seconds 1000 and 1801 gives the
      id of the token made at second 0, the expiry of that one takes the index entry of the
      newest one with it. */
  lemma RepeatedTokenFails(id: TokenId)
    ensures var ticks := [Tick(1000, false, id, 0, 0), Tick(1801, false, id, 0, 0)];
            var u := Run(Startup(0, id), ticks);
            u.list != [] && !Validates(u, Read(u))
  {
    var s, t1, t2 := Startup(0, id), Tick(1000, false, id, 0, 0), Tick(1801, false, id, 0, 0);
    var ticks := [t1, t2];
    assert ticks[..1] == [t1] && [t1][..0] == [];
    assert Run(s, [t1]) == Cron(s, t1);
    assert Timed(s);
    CronValidIff(s, t1);
    var s1 := Cron(s, t1);
    FirstTick(s, id);
    CronValidIff(s1, t2);
    assert Renewed(s1, t2).list[0] == Token(id, 1800);
  }

  lemma FirstTick(s: State, id: TokenId)
    requires s == Startup(0, id)
    ensures var u := Cron(s, Tick(1000, false, id, 0, 0));
            u.list == [Token(id, 1800), Token(id, 2800)] && u.timeToken == 1240 && u.timeExpire == 1050
  {
    var s1 := Renewed(s, Tick(1000, false, id, 0, 0));
    assert s1.list == [Token(id, 1800), Token(id, 2800)];
    assert ExpireFrom(s1, 0, 1000) == ExpireFrom(s1, 1, 1000) == ExpireFrom(s1, 2, 1000) == s1;
  }

  // ----- how long a token is valid -----

  /** The tick runs the expiry. */
  predicate RunsExpiry(s: State, t: Tick)
  {
    !t.empty && t.now > Renewed(s, t).timeExpire
  }

  lemma {:induction false} ExpireKeepsUnexpired(s: State, i: nat, now: int, x: Token)
    requires i <= |s.list|
    ensures x in ExpireFrom(s, i, now).list <==> x in s.list[..i] || (x in s.list[i..] && now <= x.time)
    decreases |s.list| - i
  {
    if i == |s.list| {
      assert s.list[..i] == s.list;
    } else {
      var u := s.list[i];
      assert s.list[..i + 1] == s.list[..i] + [u] && s.list[i..] == [u] + s.list[i + 1..];
      if now > u.time {
        var d := Deleted(s, i);
        assert d.list[..i] == s.list[..i] && d.list[i..] == s.list[i + 1..];
        ExpireKeepsUnexpired(d, i, now, x);
      } else {
        ExpireKeepsUnexpired(s, i + 1, now, x);
      }
    }
  }

  lemma IndexedToken(s: State, x: Token)
    requires Indexed(s)
    ensures x in s.list ==> x.id in s.hash
  {
  }

  /** One tick that draws no id or a new one: a listed token stays exactly if no expiry comes after its time. */
  lemma CronKeeps(s: State, t: Tick, x: Token)
    requires x in s.list
    ensures x in Cron(s, t).list <==> !(RunsExpiry(s, t) && t.now > x.time)
  {
    hide ExpireFrom;
    var s1 := Renewed(s, t);
    assert x in s1.list;
    if RunsExpiry(s, t) {
      ExpireKeepsUnexpired(s1, 0, t.now, x);
      assert s1.list[..0] == [] && s1.list[0..] == s1.list;
    }
  }

  /** A token that is not listed does not come back under its id unless that is drawn again. */
  lemma CronBringsNone(s: State, t: Tick, id: TokenId)
    requires Indexed(s) && id !in s.hash && (Renews(s, t) ==> t.id != id)
    ensures id !in Cron(s, t).hash
  {
    hide ExpireFrom, Indexed;
    var s1 := Renewed(s, t);
    if RunsExpiry(s, t) {
      ExpireShrinks(s1, 0, t.now, id);
    }
  }

  lemma {:induction false} ExpireShrinks(s: State, i: nat, now: int, id: TokenId)
    requires i <= |s.list| && id !in s.hash
    ensures id !in ExpireFrom(s, i, now).hash
    decreases |s.list| - i
  {
    if i < |s.list| {
      if now > s.list[i].time {
        ExpireShrinks(Deleted(s, i), i, now, id);
      } else {
        ExpireShrinks(s, i + 1, now, id);
      }
    }
  }

  lemma GoneIsInvalid(s: State, x: Token, u: State)
    requires Indexed(s) && Indexed(u) && x in s.list && x !in u.list && (forall y :: y in u.list ==> y in s.list || y.id != x.id)
    ensures x.id !in u.hash
  {
    forall i | 0 <= i < |u.list|
      ensures u.list[i].id != x.id
    {
      assert u.list[i] in u.list;
    }
  }

  lemma CronMembers(s: State, t: Tick, y: Token)
    requires y in Cron(s, t).list
    ensures y in s.list || (Renews(s, t) && y == Token(t.id, t.now + 1800))
  {
    hide ExpireFrom;
    var s1 := Renewed(s, t);
    if RunsExpiry(s, t) {
      ExpireKeepsUnexpired(s1, 0, t.now, y);
      assert s1.list[..0] == [] && s1.list[0..] == s1.list;
    }
  }

  /** One tick: a listed token is valid afterwards exactly if no expiry comes after its time. */
  lemma CronValidity(s: State, t: Tick, x: Token)
    requires Timed(s) && Indexed(s) && x in s.list && (Renews(s, t) ==> t.id !in s.hash)
    ensures Validates(Cron(s, t), x.id) <==> x in Cron(s, t).list
    ensures x in Cron(s, t).list <==> !(RunsExpiry(s, t) && t.now > x.time)
  {
    hide Indexed, Timed, Cron;
    var u := Cron(s, t);
    CronFresh(s, t);
    CronKeeps(s, t, x);
    IndexedToken(s, x);
    IndexedToken(u, x);
    forall y | y in u.list
      ensures y in s.list || y.id != x.id
    {
      CronMembers(s, t, y);
    }
    if x !in u.list {
      GoneIsInvalid(s, x, u);
    }
  }

  /** The id is not drawn by any renewal of the run. */
  ghost predicate NotDrawn(s: State, ticks: seq<Tick>, id: TokenId)
  {
    forall k :: 0 <= k < |ticks| && Renews(Run(s, ticks[..k]), ticks[k]) ==> ticks[k].id != id
  }

  /** Some expiry of the run comes after the given time. */
  ghost predicate ExpiryAfter(s: State, ticks: seq<Tick>, time: int)
  {
    exists k :: 0 <= k < |ticks| && RunsExpiry(Run(s, ticks[..k]), ticks[k]) && ticks[k].now > time
  }

  lemma ExpiryAfterStep(s: State, ticks: seq<Tick>, n: nat, time: int)
    requires n == |ticks| - 1
    ensures ExpiryAfter(s, ticks, time) <==>
            ExpiryAfter(s, ticks[..n], time) || (RunsExpiry(Run(s, ticks[..n]), ticks[n]) && ticks[n].now > time)
  {
    hide Run, RunsExpiry;
    assert forall k :: 0 <= k < n ==> ticks[..n][..k] == ticks[..k] && ticks[..n][k] == ticks[k];
  }

  lemma FreshPrefix(s: State, ticks: seq<Tick>, n: nat, id: TokenId)
    requires n <= |ticks| && (forall k :: 0 <= k < |ticks| ==> FreshAt(s, ticks, k)) && NotDrawn(s, ticks, id)
    ensures (forall k :: 0 <= k < n ==> FreshAt(s, ticks[..n], k)) && NotDrawn(s, ticks[..n], id)
  {
    hide Run, Renews;
    forall k | 0 <= k < n
      ensures ticks[..n][..k] == ticks[..k] && ticks[..n][k] == ticks[k] && FreshAt(s, ticks[..n], k)
    {
      assert FreshAt(s, ticks, k);
    }
  }

  /** Over every run whose ids are new when they are drawn: a listed token is valid exactly until the
      first expiry after its time, as long as its id is not drawn again. */
  lemma {:induction false} ValidUntil(s: State, ticks: seq<Tick>, x: Token)
    requires Timed(s) && Indexed(s) && x in s.list && NotDrawn(s, ticks, x.id)
    requires forall k :: 0 <= k < |ticks| ==> FreshAt(s, ticks, k)
    ensures Validates(Run(s, ticks), x.id) <==> !ExpiryAfter(s, ticks, x.time)
    ensures x in Run(s, ticks).list <==> !ExpiryAfter(s, ticks, x.time)
  {
    hide Timed, Indexed, Cron, ExpiryAfter;
    if ticks == [] {
      IndexedToken(s, x);
      NothingExpires(s, x.time);
    } else {
      var n := |ticks| - 1;
      var u, t := Run(s, ticks[..n]), ticks[n];
      FreshPrefix(s, ticks, n, x.id);
      ValidUntil(s, ticks[..n], x);
      ExpiryAfterStep(s, ticks, n, x.time);
      RunTimed(s, ticks[..n]);
      FreshRunIndexed(s, ticks[..n]);
      assert FreshAt(s, ticks, n);
      if x in u.list {
        CronValidity(u, t, x);
      } else {
        CronBringsNone(u, t, x.id);
        CronFresh(u, t);
        IndexedToken(Cron(u, t), x);
      }
    }
  }

  lemma NothingExpires(s: State, time: int)
    ensures !ExpiryAfter(s, [], time)
  {
  }

  /** From startup on: the first token is valid exactly until the first expiry more than 1800 seconds
      after it was made. */
  lemma FirstTokenLife(now: int, id: TokenId, ticks: seq<Tick>)
    requires NotDrawn(Startup(now, id), ticks, id)
    requires forall k :: 0 <= k < |ticks| ==> FreshAt(Startup(now, id), ticks, k)
    ensures Validates(Run(Startup(now, id), ticks), id) <==> !ExpiryAfter(Startup(now, id), ticks, now + 1800)
  {
    hide ExpiryAfter, Run;
    StartupValid(now, id);
    ValidUntil(Startup(now, id), ticks, Token(id, now + 1800));
  }

  /** The same for a token that a renewal makes, wherever in a run that is. */
  lemma RenewedTokenLife(s: State, t: Tick, ticks: seq<Tick>)
    requires Timed(s) && Indexed(s) && Renews(s, t) && t.id !in s.hash
    requires NotDrawn(Cron(s, t), ticks, t.id) && forall k :: 0 <= k < |ticks| ==> FreshAt(Cron(s, t), ticks, k)
    ensures Validates(Run(Cron(s, t), ticks), t.id) <==> !ExpiryAfter(Cron(s, t), ticks, t.now + 1800)
  {
    hide ExpiryAfter, Run, Indexed, ExpireFrom;
    var x, s1 := Token(t.id, t.now + 1800), Renewed(s, t);
    assert s1.list[|s.list|] == x;
    if RunsExpiry(s, t) {
      ExpireKeepsUnexpired(s1, 0, t.now, x);
      assert s1.list[..0] == [] && s1.list[0..] == s1.list;
    }
    CronValidIff(s, t);
    CronFresh(s, t);
    ValidUntil(Cron(s, t), ticks, x);
  }

  /** A token is renewed 240 to 359 seconds, and an expiry runs 50 to 69 seconds, after the last time
      at the earliest. */
  lemma TimerGaps(s: State, t: Tick)
    ensures Renews(s, t) ==> t.now + 240 <= Renewed(s, t).timeToken <= t.now + 359
    ensures RunsExpiry(s, t) ==> t.now + 50 <= Cron(s, t).timeExpire <= t.now + 69
    ensures Renews(s, t) <==> !t.empty && t.now > s.timeToken
  {
  }

  // ----- the program -----

  class TokenDb {
    var list: seq<Token>
    var hash: map<TokenId, Token>
    var timeToken: int
    var timeExpire: int

    ghost function Abstract(): State
      reads this
    {
      State(list, hash, timeToken, timeExpire)
    }

    /** Startup: `tkn_init`, `p2p_init` and the first `tkn_put`. */
    constructor (now: int, id: TokenId)
      ensures Abstract() == Startup(now, id) && Timed(Abstract())
    {
      var t := Token(id, InThirtyMinutes(now));
      list, hash, timeToken, timeExpire := [t], map[id := t], 0, 0;
    }

    /** `tkn_expire` */
    method Expire(now: int)
      modifies this
      ensures Abstract() == ExpireFrom(old(Abstract()), 0, now)
    {
      var i := 0;
      while i < |list|
        invariant i <= |list|
        invariant ExpireFrom(Abstract(), i, now) == ExpireFrom(old(Abstract()), 0, now)
        decreases |list| - i
      {
        if now > list[i].time {
          hash := hash - {list[i].id};
          list := Removed(list, i);
        } else {
          i := i + 1;
        }
      }
    }

    /** The token and expiry part of `p2p_cron`. A token is always left; the one handed out
        is valid exactly under the condition of `CronValidIff`. */
    method CronTick(now: int, empty: bool, draws: seq<TokenId>, r: nat, e: nat) returns (ghost t: Tick)
      requires Timed(Abstract()) && |draws| >= TRIES
      modifies this
      ensures t == Tick(now, empty, t.id, r, e) && Abstract() == Cron(old(Abstract()), t)
      ensures Renews(old(Abstract()), t) ==>
                (t.id !in old(hash) <==> exists k :: 0 <= k < TRIES && draws[k] !in old(hash))
      ensures Timed(Abstract())
      ensures Validates(Abstract(), Read(Abstract())) <==>
              (Renews(old(Abstract()), t) || Validates(old(Abstract()), old(Read(Abstract()))))
              && !Clash(old(Abstract()), t)
    {
      hide ExpireFrom, Stale;
      t := Tick(now, empty, draws[0], r, e);
      if !empty {
        if now > timeToken {
          var id := Draw(draws, hash);
          t := Tick(now, empty, id, r, e);
          var tkn := Token(id, InThirtyMinutes(now));
          list, hash := list + [tkn], hash[id := tkn];
          timeToken := InAboutFiveMinutes(now, r);
        }
        if now > timeExpire {
          Expire(now);
          timeExpire := InAboutOneMinute(now, e);
        }
      }
      CronValidIff(old(Abstract()), t);
    }
  }
}
