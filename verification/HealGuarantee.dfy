// The reported tolerance against the disks themselves: which disks stay ready when
// servers are stopped.
module HealGuarantee {
  import opened HealIndexes
  import opened HealTolerance
  import opened HealExactness
  import opened MapWalk
  import opened Sequences

  // ---------- the disks of a set ----------

  /** The places of the disks of a set. */
  ghost function InSet(disks: seq<Disk>, idx: SetIndex): set<int> {
    set i | 0 <= i < |disks| && disks[i].poolIndex == idx.pool && disks[i].setIndex == idx.set_
  }

  ghost function ReadyAt(disks: seq<Disk>, idx: SetIndex): set<int> {
    set i | 0 <= i < |disks| && disks[i].poolIndex == idx.pool && disks[i].setIndex == idx.set_
            && disks[i].state == "ok" && !disks[i].healing
  }

  /** The disk is on this server: the host of its endpoint, or the local name for its pool. */
  ghost predicate RunsOn(d: Disk, name: string, parse: string -> Host, localName: int -> string) {
    (parse(d.endpoint) == Named(name) && name != "") || (parse(d.endpoint) == Named("") && name == localName(d.poolIndex + 1))
  }

  ghost predicate OnOneOf(d: Disk, names: seq<string>, parse: string -> Host, localName: int -> string) {
    exists name :: name in names && RunsOn(d, name, parse, localName)
  }

  /** The ready disks of a set that are left when these servers are stopped. */
  ghost function StillReady(disks: seq<Disk>, idx: SetIndex, stopped: seq<string>, parse: string -> Host, localName: int -> string): set<int> {
    set i | 0 <= i < |disks| && i in ReadyAt(disks, idx) && !OnOneOf(disks[i], stopped, parse, localName)
  }

  /** The server's first disk is in this pool. */
  ghost predicate StartsIn(disks: seq<Disk>, name: string, pool: int, parse: string -> Host, localName: int -> string) {
    exists i :: 0 <= i < |disks| && RunsOn(disks[i], name, parse, localName) && disks[i].poolIndex == pool
                && forall j :: 0 <= j < i ==> !RunsOn(disks[j], name, parse, localName)
  }

  /** Different servers of the pool, each with a disk of the set. */
  ghost predicate ServersOf(names: seq<string>, disks: seq<Disk>, idx: SetIndex, parse: string -> Host, localName: int -> string) {
    Distinct(names) && forall x :: x in names ==> IsServerOf(x, disks, idx, parse, localName)
  }

  ghost predicate IsServerOf(x: string, disks: seq<Disk>, idx: SetIndex, parse: string -> Host, localName: int -> string) {
    && StartsIn(disks, x, idx.pool, parse, localName)
    && exists i :: i in InSet(disks, idx) && RunsOn(disks[i], x, parse, localName)
  }

  /** Stopping these servers leaves at least all disks of the set but `parity` ready. */
  ghost predicate KeepsRunning(stopped: seq<string>, disks: seq<Disk>, idx: SetIndex, parity: int, parse: string -> Host, localName: int -> string) {
    |StillReady(disks, idx, stopped, parse, localName)| >= |InSet(disks, idx)| - parity
  }

  /** Any `k` servers of the set can be stopped, and there are that many. */
  ghost predicate AnySafe(k: int, disks: seq<Disk>, idx: SetIndex, parity: int, parse: string -> Host, localName: int -> string) {
    && (exists names :: ServersOf(names, disks, idx, parse, localName) && |names| == k)
    && (forall names :: ServersOf(names, disks, idx, parse, localName) && |names| == k
                        ==> KeepsRunning(names, disks, idx, parity, parse, localName))
  }

  ghost predicate SetOfPool(idx: SetIndex, pool: int, disks: seq<Disk>) {
    idx.pool == pool && InSet(disks, idx) != {}
  }

  /** The same for every set of the pool. */
  ghost predicate PoolSafe(k: int, pool: int, parity: int, disks: seq<Disk>, parse: string -> Host, localName: int -> string) {
    forall idx :: SetOfPool(idx, pool, disks) ==> AnySafe(k, disks, idx, parity, parse, localName)
  }

  // ---------- the counts are those of the places ----------

  lemma {:induction false} CountsArePlaces(disks: seq<Disk>, idx: SetIndex)
    ensures CountIn(disks, idx) == |InSet(disks, idx)| && ReadyIn(disks, idx) == |ReadyAt(disks, idx)|
  {
    if disks == [] {
      assert InSet(disks, idx) == {} && ReadyAt(disks, idx) == {};
    } else {
      CountsArePlaces(disks[..|disks| - 1], idx);
      LastInSet(disks, idx);
      LastReadyAt(disks, idx);
    }
  }

  lemma LastInSet(disks: seq<Disk>, idx: SetIndex)
    requires disks != []
    ensures |InSet(disks, idx)| == |InSet(disks[..|disks| - 1], idx)| + if IndexOf(disks[|disks| - 1]) == idx then 1 else 0
  {
    var last := |disks| - 1;
    OneMoreElement(InSet(disks, idx), InSet(disks[..last], idx), last);
  }

  lemma LastReadyAt(disks: seq<Disk>, idx: SetIndex)
    requires disks != []
    ensures var d := disks[|disks| - 1];
            |ReadyAt(disks, idx)| == |ReadyAt(disks[..|disks| - 1], idx)| + if IndexOf(d) == idx && Ready(d) then 1 else 0
  {
    var last := |disks| - 1;
    OneMoreElement(ReadyAt(disks, idx), ReadyAt(disks[..last], idx), last);
  }

  lemma OneMoreElement(all: set<int>, before: set<int>, last: int)
    requires last !in before && all - {last} == before
    ensures |all| == |before| + if last in all then 1 else 0
  {
    if last in all { assert all == before + {last}; } else { assert all == all - {last}; }
  }

  lemma {:induction false} UsedSpaceIsSum(a: seq<Disk>, d: Disk, idx: SetIndex)
    ensures UsedIn(a + [d], idx) == UsedIn(a, idx)
         + if d.poolIndex == idx.pool && d.setIndex == idx.set_ && d.state == "ok" && !d.healing then d.usedSpace else 0
    ensures UsedIn([], idx) == 0
  {
    assert (a + [d])[..|a|] == a;
  }

  lemma ServerIsWhereItRuns(d: Disk, name: string, parse: string -> Host, localName: int -> string)
    ensures ServerOf(d, parse, localName) == Named(name) <==> RunsOn(d, name, parse, localName)
  {
  }

  lemma {:induction false} StillReadyCount(names: seq<string>, disks: seq<Disk>, idx: SetIndex, parse: string -> Host, localName: int -> string)
    requires Distinct(names)
    ensures |StillReady(disks, idx, names, parse, localName)| == ReadyIn(disks, idx) - ReadyOn(names, disks, idx, parse, localName)
  {
    if disks == [] {
      NoDisks(names, idx, parse, localName);
      assert StillReady(disks, idx, names, parse, localName) == {};
    } else {
      var last := |disks| - 1;
      var init := disks[..last];
      StillReadyCount(names, init, idx, parse, localName);
      OneMoreDisk(names, disks, idx, parse, localName);
      LastStillReady(names, disks, idx, parse, localName);
    }
  }

  lemma LastStillReady(names: seq<string>, disks: seq<Disk>, idx: SetIndex, parse: string -> Host, localName: int -> string)
    requires disks != []
    ensures var last := |disks| - 1; var d := disks[last];
            var on := ServerOf(d, parse, localName).Named? && ServerOf(d, parse, localName).host in names;
            |StillReady(disks, idx, names, parse, localName)| == |StillReady(disks[..last], idx, names, parse, localName)|
            + if IndexOf(d) == idx && Ready(d) && !on then 1 else 0
  {
    var last := |disks| - 1;
    var d, init := disks[last], disks[..last];
    var all, before := StillReady(disks, idx, names, parse, localName), StillReady(init, idx, names, parse, localName);
    var server := ServerOf(d, parse, localName);
    forall name ensures RunsOn(d, name, parse, localName) <==> server == Named(name) { ServerIsWhereItRuns(d, name, parse, localName); }
    assert OnOneOf(d, names, parse, localName) <==> server.Named? && server.host in names;
    assert last in all <==> IndexOf(d) == idx && Ready(d) && !OnOneOf(d, names, parse, localName);
    OneMoreElement(all, before, last);
  }

  // ---------- the holders are the servers of the set ----------

  lemma {:induction false} FirstOfServer(disks: seq<Disk>, name: string, parse: string -> Host, localName: int -> string)
    ensures forall d :: d in DisksOf(disks, name, parse, localName) <==> d in disks && RunsOn(d, name, parse, localName)
    ensures DisksOf(disks, name, parse, localName) != [] ==>
      forall pool :: StartsIn(disks, name, pool, parse, localName) <==> DisksOf(disks, name, parse, localName)[0].poolIndex == pool
    ensures DisksOf(disks, name, parse, localName) == [] ==> forall d :: d in disks ==> !RunsOn(d, name, parse, localName)
  {
    if disks != [] {
      var last := |disks| - 1;
      var init, d := disks[..last], disks[last];
      FirstOfServer(init, name, parse, localName);
      ServerIsWhereItRuns(d, name, parse, localName);
      assert disks == init + [d];
      LaterStart(disks, name, parse, localName);
      var before := DisksOf(init, name, parse, localName);
      if before != [] {
        assert before[0] in before && before[0] in init && RunsOn(before[0], name, parse, localName);
        assert DisksOf(disks, name, parse, localName)[0] == before[0];
      } else {
        assert DisksOf(disks, name, parse, localName) != [] ==> DisksOf(disks, name, parse, localName) == [d];
      }
    }
  }

  lemma LaterStart(disks: seq<Disk>, name: string, parse: string -> Host, localName: int -> string)
    requires disks != []
    ensures var last := |disks| - 1; var init := disks[..last];
            forall pool :: StartsIn(disks, name, pool, parse, localName) <==>
              if exists d :: d in init && RunsOn(d, name, parse, localName) then StartsIn(init, name, pool, parse, localName)
              else RunsOn(disks[last], name, parse, localName) && disks[last].poolIndex == pool
  {
    var last := |disks| - 1;
    var init := disks[..last];
    forall pool ensures StartsIn(disks, name, pool, parse, localName) <==>
        if exists d :: d in init && RunsOn(d, name, parse, localName) then StartsIn(init, name, pool, parse, localName)
        else RunsOn(disks[last], name, parse, localName) && disks[last].poolIndex == pool
    {
      if d :| d in init && RunsOn(d, name, parse, localName) {
        var k := PlaceOf(init, d);
        assert disks[k] == init[k];
        if StartsIn(disks, name, pool, parse, localName) {
          var i :| 0 <= i < |disks| && RunsOn(disks[i], name, parse, localName) && disks[i].poolIndex == pool
                   && forall j :: 0 <= j < i ==> !RunsOn(disks[j], name, parse, localName);
          assert i <= k && init[i] == disks[i];
        }
      }
    }
  }

  lemma HoldsExactly(x: string, servers: map<string, ServerInfo>, disks: seq<Disk>, idx: SetIndex, parse: string -> Host, localName: int -> string)
    requires DescribesServers(servers, disks, parse, localName)
    ensures (x in servers && Holds(servers[x], idx)) <==> IsServerOf(x, disks, idx, parse, localName)
  {
    var mine := DisksOf(disks, x, parse, localName);
    FirstOfServer(disks, x, parse, localName);
    PositiveCount(mine, idx);
    if d :| d in mine && IndexOf(d) == idx {
      var i := PlaceOf(disks, d);
      assert i in InSet(disks, idx);
    }
    if i :| i in InSet(disks, idx) && RunsOn(disks[i], x, parse, localName) {
      assert disks[i] in mine && IndexOf(disks[i]) == idx;
    }
  }

  lemma HoldersAreServers(names: seq<string>, servers: map<string, ServerInfo>, disks: seq<Disk>, idx: SetIndex, parse: string -> Host, localName: int -> string)
    requires DescribesServers(servers, disks, parse, localName)
    ensures AreHolders(names, servers, idx) <==> ServersOf(names, disks, idx, parse, localName)
  {
    forall x ensures (x in servers && Holds(servers[x], idx)) <==> IsServerOf(x, disks, idx, parse, localName) {
      HoldsExactly(x, servers, disks, idx, parse, localName);
    }
  }

  /** Whether the budget of the greedy walk allows stopping these servers is whether enough disks stay ready. */
  lemma BudgetIsDisks(names: seq<string>, sets: map<SetIndex, SetInfo>, servers: map<string, ServerInfo>, disks: seq<Disk>, idx: SetIndex,
                      parity: int, parse: string -> Host, localName: int -> string)
    requires DescribesSets(sets, disks) && DescribesServers(servers, disks, parse, localName) && idx in sets
    requires AreHolders(names, servers, idx)
    ensures Online(names, servers, idx) <= Slack(sets[idx], parity) <==> KeepsRunning(names, disks, idx, parity, parse, localName)
  {
    CountsArePlaces(disks, idx);
    StillReadyCount(names, disks, idx, parse, localName);
    OnlineIsReadyOn(names, servers, disks, idx, parse, localName);
  }

  lemma SafeExactly(k: int, sets: map<SetIndex, SetInfo>, servers: map<string, ServerInfo>, disks: seq<Disk>, idx: SetIndex,
                    parity: int, parse: string -> Host, localName: int -> string)
    requires DescribesSets(sets, disks) && DescribesServers(servers, disks, parse, localName) && idx in sets
    ensures Guaranteed(k, servers, idx, Slack(sets[idx], parity)) <==> AnySafe(k, disks, idx, parity, parse, localName)
  {
    forall names ensures AreHolders(names, servers, idx) <==> ServersOf(names, disks, idx, parse, localName)
      ensures AreHolders(names, servers, idx) ==>
        (Online(names, servers, idx) <= Slack(sets[idx], parity) <==> KeepsRunning(names, disks, idx, parity, parse, localName))
    {
      HoldersAreServers(names, servers, disks, idx, parse, localName);
      if AreHolders(names, servers, idx) { BudgetIsDisks(names, sets, servers, disks, idx, parity, parse, localName); }
    }
  }

  lemma SetsAreThere(idx: SetIndex, pool: int, sets: map<SetIndex, SetInfo>, disks: seq<Disk>)
    requires DescribesSets(sets, disks)
    ensures InPool(idx, pool, sets) <==> SetOfPool(idx, pool, disks)
  {
    CountsArePlaces(disks, idx);
  }

  lemma PoolSafeExactly(k: int, pool: int, parity: int, sets: map<SetIndex, SetInfo>, servers: map<string, ServerInfo>, disks: seq<Disk>,
                        parse: string -> Host, localName: int -> string)
    requires DescribesSets(sets, disks) && DescribesServers(servers, disks, parse, localName)
    ensures PoolGuaranteed(k, pool, parity, sets, servers) <==> PoolSafe(k, pool, parity, disks, parse, localName)
  {
    forall idx ensures InPool(idx, pool, sets) <==> SetOfPool(idx, pool, disks)
      ensures InPool(idx, pool, sets) ==>
        (Guaranteed(k, servers, idx, Slack(sets[idx], parity)) <==> AnySafe(k, disks, idx, parity, parse, localName))
    {
      SetsAreThere(idx, pool, sets, disks);
      if InPool(idx, pool, sets) { SafeExactly(k, sets, servers, disks, idx, parity, parse, localName); }
    }
  }

  // ---------- the main results ----------

  /** What the heal status shows for a pool, from the disks: never less than a number
      of servers of which any can be stopped in every set of the pool. */
  method ToleranceOfDisks(pool: int, parity: int, disks: seq<Disk>, parse: string -> Host, localName: int -> string) returns (tolerance: int)
    ensures (exists idx :: SetOfPool(idx, pool, disks)) ==>
      forall k :: PoolSafe(k, pool, parity, disks, parse, localName) ==> k <= tolerance
  {
    var setsStatus := GenerateSetsStatus(disks);
    var serversStatus := GenerateServersStatus(disks, parse, localName);
    tolerance := ComputePoolTolerance(pool, parity, setsStatus, serversStatus);
    forall idx ensures InPool(idx, pool, setsStatus) <==> SetOfPool(idx, pool, disks) { SetsAreThere(idx, pool, setsStatus, disks); }
    forall k ensures PoolGuaranteed(k, pool, parity, setsStatus, serversStatus) <==> PoolSafe(k, pool, parity, disks, parse, localName) {
      PoolSafeExactly(k, pool, parity, setsStatus, serversStatus, disks, parse, localName);
    }
  }

  /** No set of the pool is short of ready disks already. */
  ghost predicate AllRunning(pool: int, parity: int, disks: seq<Disk>) {
    forall idx :: SetOfPool(idx, pool, disks) ==> |ReadyAt(disks, idx)| >= |InSet(disks, idx)| - parity
  }

  lemma RunningExactly(pool: int, parity: int, sets: map<SetIndex, SetInfo>, disks: seq<Disk>)
    requires DescribesSets(sets, disks)
    ensures NoSetShort(pool, parity, sets) <==> AllRunning(pool, parity, disks)
  {
    forall idx ensures InPool(idx, pool, sets) <==> SetOfPool(idx, pool, disks)
      ensures InPool(idx, pool, sets) ==> (Slack(sets[idx], parity) >= 0 <==> |ReadyAt(disks, idx)| >= |InSet(disks, idx)| - parity)
    {
      SetsAreThere(idx, pool, sets, disks);
      CountsArePlaces(disks, idx);
    }
  }

  /** With descending walks and no set short, the result is exactly the safe number. */
  lemma DescendingIsSafe(t: int, pool: int, parity: int, sets: map<SetIndex, SetInfo>, servers: map<string, ServerInfo>,
                         walks: map<SetIndex, seq<string>>, disks: seq<Disk>, k: nat, parse: string -> Host, localName: int -> string)
    requires DescribesSets(sets, disks) && DescribesServers(servers, disks, parse, localName)
    requires IsTolerance(t, pool, parity, sets, servers, walks) && exists idx :: SetOfPool(idx, pool, disks)
    requires AllRunning(pool, parity, disks)
    requires forall idx :: InPool(idx, pool, sets) ==> Descending(HoldersOf(walks[idx], servers, idx), servers, idx)
    ensures PoolSafe(k, pool, parity, disks, parse, localName) <==> k <= t
  {
    PoolSafeExactly(k, pool, parity, sets, servers, disks, parse, localName);
    RunningExactly(pool, parity, sets, disks);
    var idx :| SetOfPool(idx, pool, disks);
    SetsAreThere(idx, pool, sets, disks);
    DescendingToleranceIsExact(t, pool, parity, sets, servers, walks, k);
  }

  /** Some `k` servers of the set can be stopped together. */
  ghost predicate SomeSafe(k: nat, disks: seq<Disk>, idx: SetIndex, parity: int, parse: string -> Host, localName: int -> string) {
    exists names :: ServersOf(names, disks, idx, parse, localName) && |names| == k && KeepsRunning(names, disks, idx, parity, parse, localName)
  }

  /** Where some `k` servers can be stopped in every set of the pool, any `k` can. */
  ghost predicate NumberDecides(k: nat, pool: int, parity: int, disks: seq<Disk>, parse: string -> Host, localName: int -> string) {
    (forall idx :: SetOfPool(idx, pool, disks) ==> SomeSafe(k, disks, idx, parity, parse, localName))
    ==> PoolSafe(k, pool, parity, disks, parse, localName)
  }

  lemma SomeSafeExactly(k: nat, sets: map<SetIndex, SetInfo>, servers: map<string, ServerInfo>, disks: seq<Disk>, idx: SetIndex,
                        parity: int, parse: string -> Host, localName: int -> string)
    requires DescribesSets(sets, disks) && DescribesServers(servers, disks, parse, localName) && idx in sets
    ensures SomeCanStop(k, servers, idx, Slack(sets[idx], parity)) <==> SomeSafe(k, disks, idx, parity, parse, localName)
  {
    forall names ensures AreHolders(names, servers, idx) <==> ServersOf(names, disks, idx, parse, localName)
      ensures AreHolders(names, servers, idx) ==>
        (Online(names, servers, idx) <= Slack(sets[idx], parity) <==> KeepsRunning(names, disks, idx, parity, parse, localName))
    {
      HoldersAreServers(names, servers, disks, idx, parse, localName);
      if AreHolders(names, servers, idx) { BudgetIsDisks(names, sets, servers, disks, idx, parity, parse, localName); }
    }
  }

  lemma DecidesExactly(k: nat, pool: int, parity: int, sets: map<SetIndex, SetInfo>, servers: map<string, ServerInfo>, disks: seq<Disk>,
                       parse: string -> Host, localName: int -> string)
    requires DescribesSets(sets, disks) && DescribesServers(servers, disks, parse, localName)
    ensures CountDecides(k, pool, parity, sets, servers) <==> NumberDecides(k, pool, parity, disks, parse, localName)
  {
    forall idx ensures InPool(idx, pool, sets) <==> SetOfPool(idx, pool, disks)
      ensures InPool(idx, pool, sets) ==>
        (SomeCanStop(k, servers, idx, Slack(sets[idx], parity)) <==> SomeSafe(k, disks, idx, parity, parse, localName))
    {
      SetsAreThere(idx, pool, sets, disks);
      if InPool(idx, pool, sets) { SomeSafeExactly(k, sets, servers, disks, idx, parity, parse, localName); }
    }
    PoolSafeExactly(k, pool, parity, sets, servers, disks, parse, localName);
  }

  /** No order of the walks shows a number that is not safe if and only if no set of
      the pool is short and the number of stopped servers alone decides. */
  lemma AlwaysSafeExactly(pool: int, parity: int, sets: map<SetIndex, SetInfo>, servers: map<string, ServerInfo>, disks: seq<Disk>,
                          parse: string -> Host, localName: int -> string)
    requires DescribesSets(sets, disks) && DescribesServers(servers, disks, parse, localName)
    ensures (forall t, walks :: IsTolerance(t, pool, parity, sets, servers, walks) ==> PoolSafe(t, pool, parity, disks, parse, localName))
       <==> AllRunning(pool, parity, disks) && forall k :: NumberDecides(k, pool, parity, disks, parse, localName)
  {
    NeverTooHighExactly(pool, parity, sets, servers);
    RunningExactly(pool, parity, sets, disks);
    forall t: int ensures PoolGuaranteed(t, pool, parity, sets, servers) <==> PoolSafe(t, pool, parity, disks, parse, localName) {
      PoolSafeExactly(t, pool, parity, sets, servers, disks, parse, localName);
    }
    forall k: nat ensures CountDecides(k, pool, parity, sets, servers) <==> NumberDecides(k, pool, parity, disks, parse, localName) {
      DecidesExactly(k, pool, parity, sets, servers, disks, parse, localName);
    }
  }
}
