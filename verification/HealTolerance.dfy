// How many servers of a pool can be stopped: the greedy computation, which walks
// maps in no fixed order, against what it stands for.
module HealTolerance {
  import opened HealIndexes
  import opened MapWalk

  // ---------- what is computed ----------

  /** A server counts for a set when it is recorded in the pool and holds a disk of the set. */
  predicate Holds(server: ServerInfo, idx: SetIndex) {
    server.pool == idx.pool && CountIn(server.disks, idx) > 0
  }

  /** Ready disks that may go before fewer than `totalDisks - parity` are left. */
  function Slack(info: SetInfo, parity: int): int {
    (info.totalDisks - info.incapableDisks) - (info.totalDisks - parity)
  }

  /** The greedy walk over the servers of one set, in the order given. */
  function Greedy(order: seq<string>, servers: map<string, ServerInfo>, idx: SetIndex, slack: int): (k: nat)
    requires forall x :: x in order ==> x in servers
    ensures k <= |order|
  {
    if order == [] then 0
    else
      var server := servers[order[0]];
      if !Holds(server, idx) then Greedy(order[1..], servers, idx, slack)
      else
        var count := ReadyIn(server.disks, idx);
        if count > slack then 0 else 1 + Greedy(order[1..], servers, idx, slack - count)
  }

  ghost predicate InPool(idx: SetIndex, pool: int, sets: map<SetIndex, SetInfo>) {
    idx in sets && idx.pool == pool
  }

  /** The result for given walks: the least greedy count, or the number of all
      servers when the pool has no set. */
  ghost predicate IsTolerance(t: int, pool: int, parity: int, sets: map<SetIndex, SetInfo>,
                              servers: map<string, ServerInfo>, walks: map<SetIndex, seq<string>>)
  {
    && (forall idx :: InPool(idx, pool, sets) ==> idx in walks && IsOrderOf(walks[idx], servers.Keys))
    && (forall idx :: InPool(idx, pool, sets) ==> t <= Greedy(walks[idx], servers, idx, Slack(sets[idx], parity)))
    && (t == |servers| || exists idx :: InPool(idx, pool, sets) && t == Greedy(walks[idx], servers, idx, Slack(sets[idx], parity)))
    && t <= |servers|
  }

  /** `computePoolTolerance`; the maps are walked in any order, where `walks` has the
      order in which the servers came up for each set. */
  method ComputePoolTolerance(pool: int, parity: int, sets: map<SetIndex, SetInfo>, servers: map<string, ServerInfo>)
    returns (minServerTolerance: int)
    ensures exists walks :: IsTolerance(minServerTolerance, pool, parity, sets, servers, walks)
    ensures (exists idx :: InPool(idx, pool, sets)) ==> forall k :: PoolGuaranteed(k, pool, parity, sets, servers) ==> k <= minServerTolerance
  {
    var tolerancePerSet: map<SetIndex, int> := map[];
    ghost var walks: map<SetIndex, seq<string>> := map[];
    var todo := sets.Keys;
    while todo != {}
      invariant todo <= sets.Keys
      invariant tolerancePerSet.Keys == walks.Keys == set idx | idx in sets && idx !in todo && idx.pool == pool
      invariant forall idx :: idx in walks ==> IsOrderOf(walks[idx], servers.Keys)
      invariant forall idx :: idx in walks ==> tolerancePerSet[idx] == Greedy(walks[idx], servers, idx, Slack(sets[idx], parity))
      decreases todo
    {
      var idx :| idx in todo;
      todo := todo - {idx};
      if idx.pool != pool { continue; }
      var tolerance, order := SetTolerance(pool, parity, idx, sets[idx], servers);
      tolerancePerSet := tolerancePerSet[idx := tolerance];
      walks := walks[idx := order];
    }
    minServerTolerance := |servers|;
    var left := tolerancePerSet.Keys;
    while left != {}
      invariant left <= tolerancePerSet.Keys && minServerTolerance <= |servers|
      invariant forall idx :: idx in tolerancePerSet && idx !in left ==> minServerTolerance <= tolerancePerSet[idx]
      invariant minServerTolerance == |servers| || exists idx :: idx in tolerancePerSet && minServerTolerance == tolerancePerSet[idx]
      decreases left
    {
      var idx :| idx in left;
      left := left - {idx};
      if tolerancePerSet[idx] < minServerTolerance { minServerTolerance := tolerancePerSet[idx]; }
    }
    if minServerTolerance != |servers| {
      var idx :| idx in tolerancePerSet && minServerTolerance == tolerancePerSet[idx];
      assert InPool(idx, pool, sets);
    }
    assert IsTolerance(minServerTolerance, pool, parity, sets, servers, walks);
    ReachesEveryGuarantee(minServerTolerance, pool, parity, sets, servers, walks);
  }

  lemma ReachesEveryGuarantee(t: int, pool: int, parity: int, sets: map<SetIndex, SetInfo>,
                              servers: map<string, ServerInfo>, walks: map<SetIndex, seq<string>>)
    requires IsTolerance(t, pool, parity, sets, servers, walks)
    ensures (exists idx :: InPool(idx, pool, sets)) ==> forall k :: PoolGuaranteed(k, pool, parity, sets, servers) ==> k <= t
  {
    if exists idx :: InPool(idx, pool, sets) {
      forall k | PoolGuaranteed(k, pool, parity, sets, servers) ensures k <= t {
        ToleranceReachesGuarantee(t, pool, parity, sets, servers, walks, k);
      }
    }
  }

  /** The inner loop: servers come up in any order, and the walk ends at the first
      one that cannot be stopped. */
  method SetTolerance(pool: int, parity: int, idx: SetIndex, info: SetInfo, servers: map<string, ServerInfo>)
    returns (tolerance: int, order: seq<string>)
    requires idx.pool == pool
    ensures IsOrderOf(order, servers.Keys)
    ensures tolerance == Greedy(order, servers, idx, Slack(info, parity))
  {
    var online := info.totalDisks - info.incapableDisks;
    var minDisks := info.totalDisks - parity;
    tolerance := 0;
    order := MapOrder(servers.Keys);
    var i := 0;
    while i < |order|
      invariant i <= |order|
      invariant Greedy(order, servers, idx, Slack(info, parity)) == tolerance + Greedy(order[i..], servers, idx, online - minDisks)
    {
      var server := servers[order[i]];
      ghost var left := order[i..];
      assert left[0] == order[i] && left[1..] == order[i + 1..];
      i := i + 1;
      if server.pool != pool { continue; }
      var setFound, count := OnlineDisksForSet(server, idx);
      if !setFound { continue; }
      if online - count < minDisks { break; }
      tolerance := tolerance + 1;
      online := online - count;
    }
  }

  // ---------- what it stands for ----------

  ghost predicate AreHolders(names: seq<string>, servers: map<string, ServerInfo>, idx: SetIndex) {
    Distinct(names) && forall x :: x in names ==> x in servers && Holds(servers[x], idx)
  }

  /** Whichever `k` servers of the set are stopped, enough ready disks stay. */
  ghost predicate AnyCanStop(k: int, servers: map<string, ServerInfo>, idx: SetIndex, slack: int) {
    forall stopped :: AreHolders(stopped, servers, idx) && |stopped| == k ==> Online(stopped, servers, idx) <= slack
  }

  /** The set has at least `k` servers, and any `k` of them can be stopped. */
  ghost predicate Guaranteed(k: int, servers: map<string, ServerInfo>, idx: SetIndex, slack: int) {
    (exists names :: AreHolders(names, servers, idx) && |names| == k) && AnyCanStop(k, servers, idx, slack)
  }

  /** The servers of the set, in the order of the walk. */
  function HoldersOf(order: seq<string>, servers: map<string, ServerInfo>, idx: SetIndex): (r: seq<string>)
    requires forall x :: x in order ==> x in servers
    ensures forall x :: x in r <==> x in order && Holds(servers[x], idx)
  {
    if order == [] then []
    else (if Holds(servers[order[0]], idx) then [order[0]] else []) + HoldersOf(order[1..], servers, idx)
  }

  lemma {:induction false} HoldersAreDistinct(order: seq<string>, servers: map<string, ServerInfo>, idx: SetIndex)
    requires Distinct(order) && forall x :: x in order ==> x in servers
    ensures AreHolders(HoldersOf(order, servers, idx), servers, idx)
  {
    if order != [] {
      HoldersAreDistinct(order[1..], servers, idx);
      assert order[0] !in order[1..];
    }
  }

  lemma {:induction false} GreedyOnHolders(order: seq<string>, servers: map<string, ServerInfo>, idx: SetIndex, slack: int)
    requires forall x :: x in order ==> x in servers
    ensures Greedy(order, servers, idx, slack) == Greedy(HoldersOf(order, servers, idx), servers, idx, slack)
  {
    if order != [] {
      var h := HoldersOf(order[1..], servers, idx);
      if Holds(servers[order[0]], idx) {
        assert ([order[0]] + h)[1..] == h;
        GreedyOnHolders(order[1..], servers, idx, slack - ReadyIn(servers[order[0]].disks, idx));
      } else {
        assert [] + h == h;
        GreedyOnHolders(order[1..], servers, idx, slack);
      }
    }
  }

  /** The greedy count is the longest prefix of the servers of the set that fits. */
  lemma {:induction false} GreedyIsLongestPrefix(h: seq<string>, servers: map<string, ServerInfo>, idx: SetIndex, slack: int)
    requires forall x :: x in h ==> x in servers && Holds(servers[x], idx)
    ensures var g := Greedy(h, servers, idx, slack);
            && (slack >= 0 ==> Online(h[..g], servers, idx) <= slack)
            && (forall k :: g < k <= |h| ==> Online(h[..k], servers, idx) > slack)
            && (slack < 0 ==> g == 0)
  {
    if h != [] {
      var count := ReadyIn(servers[h[0]].disks, idx);
      forall k | 1 <= k <= |h| ensures Online(h[..k], servers, idx) == count + Online(h[1..][..k - 1], servers, idx) {
        assert h[..k][1..] == h[1..][..k - 1];
      }
      if count <= slack { GreedyIsLongestPrefix(h[1..], servers, idx, slack - count); }
    }
  }

  lemma {:induction false} OnlineOfConcat(a: seq<string>, b: seq<string>, servers: map<string, ServerInfo>, idx: SetIndex)
    requires forall x :: x in a + b ==> x in servers
    requires forall x :: x in a || x in b ==> x in servers
    ensures Online(a + b, servers, idx) == Online(a, servers, idx) + Online(b, servers, idx)
  {
    if a == [] {
      assert a + b == b;
    } else {
      assert (a + b)[1..] == a[1..] + b;
      assert forall x :: x in a[1..] + b ==> x in a || x in b;
      OnlineOfConcat(a[1..], b, servers, idx);
    }
  }

  /** In every order the greedy count reaches every guaranteed number. */
  lemma GreedyReachesGuarantee(order: seq<string>, servers: map<string, ServerInfo>, idx: SetIndex, slack: int, k: nat)
    requires IsOrderOf(order, servers.Keys) && Guaranteed(k, servers, idx, slack)
    ensures k <= Greedy(order, servers, idx, slack)
  {
    var h := HoldersOf(order, servers, idx);
    HoldersAreDistinct(order, servers, idx);
    GreedyOnHolders(order, servers, idx, slack);
    GreedyIsLongestPrefix(h, servers, idx, slack);
    var names :| AreHolders(names, servers, idx) && |names| == k;
    DistinctFit(names, h);
    assert AreHolders(h[..k], servers, idx);
  }

  lemma {:induction false} DistinctFit(a: seq<string>, b: seq<string>)
    requires Distinct(a) && forall x :: x in a ==> x in b
    ensures |a| <= |b|
  {
    if a != [] {
      assert a[0] in b;
      var i :| 0 <= i < |b| && b[i] == a[0];
      var rest := b[..i] + b[i + 1..];
      forall x | x in a[1..] ensures x in rest {
        assert x in a && x != a[0];
        var j :| 0 <= j < |b| && b[j] == x;
        assert x == if j < i then rest[j] else rest[j - 1];
      }
      DistinctFit(a[1..], rest);
    }
  }

  // ---------- walking servers by descending online count ----------

  ghost predicate Descending(h: seq<string>, servers: map<string, ServerInfo>, idx: SetIndex)
    requires forall x :: x in h ==> x in servers
  {
    forall i, j :: 0 <= i < j < |h| ==> ReadyIn(servers[h[i]].disks, idx) >= ReadyIn(servers[h[j]].disks, idx)
  }

  /** No choice of servers has more ready disks than the first ones of a descending walk. */
  lemma {:induction false} TopServers(h: seq<string>, t: seq<string>, servers: map<string, ServerInfo>, idx: SetIndex)
    requires forall x :: x in h ==> x in servers
    requires Distinct(h) && Descending(h, servers, idx)
    requires Distinct(t) && |t| <= |h| && forall x :: x in t ==> x in h
    ensures Online(t, servers, idx) <= Online(h[..|t|], servers, idx)
    decreases |h|
  {
    if t != [] {
      var rest := h[1..];
      assert forall x :: x in h ==> x == h[0] || x in rest;
      if h[0] in t {
        var i :| 0 <= i < |t| && t[i] == h[0];
        WithoutMember(t, i, rest, h[0]);
        TopServers(rest, t[..i] + t[i + 1..], servers, idx);
        TakeOut(t, i, servers, idx);
        FirstOfPrefix(h, |t|, servers, idx);
      } else {
        DistinctFit(t, rest);
        TopServers(rest, t, servers, idx);
        ShiftedPrefix(h, |t|, servers, idx);
      }
    }
  }

  lemma FirstOfPrefix(h: seq<string>, k: nat, servers: map<string, ServerInfo>, idx: SetIndex)
    requires (forall x :: x in h ==> x in servers) && 0 < k <= |h|
    ensures Online(h[..k], servers, idx) == ReadyIn(servers[h[0]].disks, idx) + Online(h[1..][..k - 1], servers, idx)
  {
    assert h[..k][1..] == h[1..][..k - 1];
  }

  lemma WithoutMember(t: seq<string>, i: nat, rest: seq<string>, first: string)
    requires Distinct(t) && i < |t| && t[i] == first
    requires forall x :: x in t ==> x == first || x in rest
    ensures var others := t[..i] + t[i + 1..];
            Distinct(others) && |others| == |t| - 1 && forall x :: x in others ==> x in rest
  {
    var others := t[..i] + t[i + 1..];
    forall x | x in others ensures x in rest {
      var j :| 0 <= j < |others| && others[j] == x;
      assert x == if j < i then t[j] else t[j + 1];
    }
  }

  lemma TakeOut(t: seq<string>, i: nat, servers: map<string, ServerInfo>, idx: SetIndex)
    requires i < |t| && forall x :: x in t ==> x in servers
    requires forall x :: x in t[..i] + t[i + 1..] ==> x in servers
    ensures Online(t, servers, idx) == ReadyIn(servers[t[i]].disks, idx) + Online(t[..i] + t[i + 1..], servers, idx)
  {
    var a, b := t[..i], t[i..];
    assert t == a + b && b[1..] == t[i + 1..];
    OnlineOfConcat(a, b, servers, idx);
    OnlineOfConcat(a, t[i + 1..], servers, idx);
  }

  lemma ShiftedPrefix(h: seq<string>, k: nat, servers: map<string, ServerInfo>, idx: SetIndex)
    requires forall x :: x in h ==> x in servers
    requires Descending(h, servers, idx) && 0 < k < |h|
    ensures Online(h[1..][..k], servers, idx) <= Online(h[..k], servers, idx)
  {
    var mid := h[1..k];
    assert h[..k] == [h[0]] + mid && h[1..][..k] == mid + [h[k]];
    OnlineOfConcat([h[0]], mid, servers, idx);
    OnlineOfConcat(mid, [h[k]], servers, idx);
    assert [h[0]][1..] == [] && [h[k]][1..] == [];
  }

  /** A descending walk guarantees exactly the numbers up to its greedy count. */
  lemma DescendingIsExact(order: seq<string>, servers: map<string, ServerInfo>, idx: SetIndex, slack: int, k: nat)
    requires IsOrderOf(order, servers.Keys) && slack >= 0
    requires Descending(HoldersOf(order, servers, idx), servers, idx)
    ensures Guaranteed(k, servers, idx, slack) <==> k <= Greedy(order, servers, idx, slack)
  {
    var h := HoldersOf(order, servers, idx);
    HoldersAreDistinct(order, servers, idx);
    GreedyOnHolders(order, servers, idx, slack);
    GreedyIsLongestPrefix(h, servers, idx, slack);
    var g := Greedy(order, servers, idx, slack);
    if k <= g {
      PrefixIsGuaranteed(h, servers, idx, slack, k, g);
    } else if Guaranteed(k, servers, idx, slack) {
      GreedyReachesGuarantee(order, servers, idx, slack, k);
    }
  }

  lemma PrefixIsGuaranteed(h: seq<string>, servers: map<string, ServerInfo>, idx: SetIndex, slack: int, k: nat, g: nat)
    requires AreHolders(h, servers, idx) && Descending(h, servers, idx)
    requires forall x :: x in servers && Holds(servers[x], idx) ==> x in h
    requires k <= g <= |h| && Online(h[..g], servers, idx) <= slack
    ensures Guaranteed(k, servers, idx, slack)
  {
    assert AreHolders(h[..k], servers, idx) && |h[..k]| == k;
    assert Online(h[..k], servers, idx) <= slack by {
      assert h[..g] == h[..k] + h[k..g];
      OnlineOfConcat(h[..k], h[k..g], servers, idx);
    }
    forall stopped | AreHolders(stopped, servers, idx) && |stopped| == k ensures Online(stopped, servers, idx) <= slack {
      TopServers(h, stopped, servers, idx);
    }
  }

  // ---------- the pool ----------

  /** `k` servers can be stopped whatever set of the pool they serve. */
  ghost predicate PoolGuaranteed(k: int, pool: int, parity: int, sets: map<SetIndex, SetInfo>, servers: map<string, ServerInfo>) {
    forall idx :: InPool(idx, pool, sets) ==> Guaranteed(k, servers, idx, Slack(sets[idx], parity))
  }

  /** In every order of walking the maps, the tolerance is at least every number
      that is guaranteed for all sets of the pool. */
  lemma ToleranceReachesGuarantee(t: int, pool: int, parity: int, sets: map<SetIndex, SetInfo>,
                                  servers: map<string, ServerInfo>, walks: map<SetIndex, seq<string>>, k: nat)
    requires IsTolerance(t, pool, parity, sets, servers, walks)
    requires (exists idx :: InPool(idx, pool, sets)) && PoolGuaranteed(k, pool, parity, sets, servers)
    ensures k <= t
  {
    forall idx | InPool(idx, pool, sets) ensures k <= Greedy(walks[idx], servers, idx, Slack(sets[idx], parity)) {
      GreedyReachesGuarantee(walks[idx], servers, idx, Slack(sets[idx], parity), k);
    }
    var idx :| InPool(idx, pool, sets);
    OrderHasAll(walks[idx], servers.Keys);
  }

  lemma {:induction false} OrderHasAll(order: seq<string>, names: set<string>)
    requires IsOrderOf(order, names)
    ensures |order| == |names|
  {
    if order == [] {
      assert names == {};
    } else {
      assert order[0] !in order[1..];
      OrderHasAll(order[1..], names - {order[0]});
    }
  }

  /** When no set is short of ready disks and the servers of each set are walked
      by descending online count, the tolerance is the exact bound: the numbers
      guaranteed for all sets of the pool are those up to it. */
  lemma DescendingToleranceIsExact(t: int, pool: int, parity: int, sets: map<SetIndex, SetInfo>,
                                   servers: map<string, ServerInfo>, walks: map<SetIndex, seq<string>>, k: nat)
    requires IsTolerance(t, pool, parity, sets, servers, walks) && exists idx :: InPool(idx, pool, sets)
    requires forall idx :: InPool(idx, pool, sets) ==>
        Slack(sets[idx], parity) >= 0 && Descending(HoldersOf(walks[idx], servers, idx), servers, idx)
    ensures PoolGuaranteed(k, pool, parity, sets, servers) <==> k <= t
  {
    if k <= t {
      forall idx | InPool(idx, pool, sets) ensures Guaranteed(k, servers, idx, Slack(sets[idx], parity)) {
        DescendingIsExact(walks[idx], servers, idx, Slack(sets[idx], parity), k);
      }
    } else if PoolGuaranteed(k, pool, parity, sets, servers) {
      ToleranceReachesGuarantee(t, pool, parity, sets, servers, walks, k);
    }
  }

  /** A set already short of ready disks makes the tolerance zero, in every order. */
  lemma ShortSetGivesZero(t: int, pool: int, parity: int, sets: map<SetIndex, SetInfo>,
                          servers: map<string, ServerInfo>, walks: map<SetIndex, seq<string>>, idx: SetIndex)
    requires IsTolerance(t, pool, parity, sets, servers, walks) && InPool(idx, pool, sets)
    requires Slack(sets[idx], parity) < 0
    ensures t == 0 && forall k: nat :: !Guaranteed(k, servers, idx, Slack(sets[idx], parity))
  {
    var h := HoldersOf(walks[idx], servers, idx);
    GreedyOnHolders(walks[idx], servers, idx, Slack(sets[idx], parity));
    GreedyIsLongestPrefix(h, servers, idx, Slack(sets[idx], parity));
  }

  /** Over the indexes of the same disks, what is left of a set never goes
      negative, whichever servers are taken away first. */
  lemma RemainingNeverNegative(stopped: seq<string>, sets: map<SetIndex, SetInfo>, servers: map<string, ServerInfo>,
                               disks: seq<Disk>, idx: SetIndex, parse: string -> Host, localName: int -> string)
    requires DescribesSets(sets, disks) && DescribesServers(servers, disks, parse, localName)
    requires idx in sets && AreHolders(stopped, servers, idx)
    ensures sets[idx].totalDisks - sets[idx].incapableDisks - Online(stopped, servers, idx) >= 0
  {
    IndexesAgree(stopped, sets, servers, disks, idx, parse, localName);
  }

  /** A server whose disks are all in the pool recorded for it counts for exactly the sets it has disks of. */
  lemma HoldsInOnePool(server: ServerInfo, idx: SetIndex)
    requires forall d :: d in server.disks ==> d.poolIndex == server.pool
    ensures Holds(server, idx) <==> exists d :: d in server.disks && IndexOf(d) == idx
  {
    PositiveCount(server.disks, idx);
  }
}
