// When the order of the map walks cannot make the reported tolerance too high.
module HealExactness {
  import opened HealIndexes
  import opened HealTolerance
  import opened MapWalk
  import opened Sequences

  /** Some `k` servers of the set can be stopped together. */
  ghost predicate SomeCanStop(k: nat, servers: map<string, ServerInfo>, idx: SetIndex, slack: int) {
    exists names :: AreHolders(names, servers, idx) && |names| == k && Online(names, servers, idx) <= slack
  }

  /** The sizes of the servers do not matter: when some `k` servers can be stopped in
      every set of the pool, any `k` can be in each of them. */
  ghost predicate CountDecides(k: nat, pool: int, parity: int, sets: map<SetIndex, SetInfo>, servers: map<string, ServerInfo>) {
    (forall idx :: InPool(idx, pool, sets) ==> SomeCanStop(k, servers, idx, Slack(sets[idx], parity)))
    ==> (forall idx :: InPool(idx, pool, sets) ==> AnyCanStop(k, servers, idx, Slack(sets[idx], parity)))
  }

  ghost predicate NoSetShort(pool: int, parity: int, sets: map<SetIndex, SetInfo>) {
    forall idx :: InPool(idx, pool, sets) ==> Slack(sets[idx], parity) >= 0
  }

  // ---------- one set ----------

  lemma {:induction false} HoldersFirst(first: seq<string>, order: seq<string>, servers: map<string, ServerInfo>, idx: SetIndex)
    requires first <= order && forall x :: x in order ==> x in servers
    requires forall x :: x in first ==> x in servers && Holds(servers[x], idx)
    ensures first <= HoldersOf(order, servers, idx)
  {
    if first != [] {
      assert first[0] == order[0] && first[0] in first;
      HoldersFirst(first[1..], order[1..], servers, idx);
      assert HoldersOf(order, servers, idx) == [order[0]] + HoldersOf(order[1..], servers, idx);
    }
  }

  /** A walk that meets the given servers first counts all of them if they fit, and
      stops before the last of them if they do not. */
  lemma WalkOver(names: seq<string>, servers: map<string, ServerInfo>, idx: SetIndex, slack: int) returns (order: seq<string>)
    requires AreHolders(names, servers, idx)
    ensures IsOrderOf(order, servers.Keys)
    ensures slack >= 0 ==> (Online(names, servers, idx) <= slack <==> |names| <= Greedy(order, servers, idx, slack))
  {
    order := OrderWith(names, servers.Keys);
    HoldersFirst(names, order, servers, idx);
    HoldersAreDistinct(order, servers, idx);
    GreedyOnHolders(order, servers, idx, slack);
    PrefixDecides(names, HoldersOf(order, servers, idx), servers, idx, slack);
  }

  lemma PrefixDecides(names: seq<string>, h: seq<string>, servers: map<string, ServerInfo>, idx: SetIndex, slack: int)
    requires AreHolders(names, servers, idx) && AreHolders(h, servers, idx) && names <= h
    ensures slack >= 0 ==> (Online(names, servers, idx) <= slack <==> |names| <= Greedy(h, servers, idx, slack))
  {
    GreedyIsLongestPrefix(h, servers, idx, slack);
    var g := Greedy(h, servers, idx, slack);
    assert h[..|names|] == names;
    if |names| <= g { ShorterPrefix(h, |names|, g, servers, idx); }
  }

  lemma PartAreHolders(h: seq<string>, i: nat, j: nat, servers: map<string, ServerInfo>, idx: SetIndex)
    requires AreHolders(h, servers, idx) && i <= j <= |h|
    ensures AreHolders(h[i..j], servers, idx)
  {
  }

  lemma ShorterPrefix(h: seq<string>, k: nat, g: nat, servers: map<string, ServerInfo>, idx: SetIndex)
    requires AreHolders(h, servers, idx) && k <= g <= |h|
    ensures Online(h[..k], servers, idx) <= Online(h[..g], servers, idx)
  {
    assert h[..g] == h[..k] + h[k..g];
    OnlineOfConcat(h[..k], h[k..g], servers, idx);
  }

  /** The servers that a walk counts. */
  lemma CountedFit(order: seq<string>, servers: map<string, ServerInfo>, idx: SetIndex, slack: int) returns (h: seq<string>)
    requires IsOrderOf(order, servers.Keys) && slack >= 0
    ensures AreHolders(h, servers, idx) && Greedy(order, servers, idx, slack) <= |h|
    ensures Online(h[..Greedy(order, servers, idx, slack)], servers, idx) <= slack
  {
    h := HoldersOf(order, servers, idx);
    HoldersAreDistinct(order, servers, idx);
    GreedyOnHolders(order, servers, idx, slack);
    GreedyIsLongestPrefix(h, servers, idx, slack);
  }

  /** What a walk counts can be stopped together, and so can fewer. */
  lemma CountedCanStop(order: seq<string>, servers: map<string, ServerInfo>, idx: SetIndex, slack: int, k: nat)
    requires IsOrderOf(order, servers.Keys) && slack >= 0 && k <= Greedy(order, servers, idx, slack)
    ensures SomeCanStop(k, servers, idx, slack)
  {
    var h := CountedFit(order, servers, idx, slack);
    PartAreHolders(h, 0, k, servers, idx);
    ShorterPrefix(h, k, Greedy(order, servers, idx, slack), servers, idx);
    assert h[0..k] == h[..k];
  }

  lemma FewerCanStop(k: nat, t: nat, servers: map<string, ServerInfo>, idx: SetIndex, slack: int)
    requires Guaranteed(t, servers, idx, slack) && k <= t && slack >= 0
    ensures AnyCanStop(k, servers, idx, slack)
  {
    forall stopped | AreHolders(stopped, servers, idx) && |stopped| == k ensures Online(stopped, servers, idx) <= slack {
      var order := WalkOver(stopped, servers, idx, slack);
      GreedyReachesGuarantee(order, servers, idx, slack, t);
    }
  }

  // ---------- the pool ----------

  ghost function WalkCounting(k: nat, servers: map<string, ServerInfo>, idx: SetIndex, slack: int): (order: seq<string>)
    requires slack >= 0 && SomeCanStop(k, servers, idx, slack)
    ensures IsOrderOf(order, servers.Keys) && k <= Greedy(order, servers, idx, slack)
  {
    CountingWalkExists(k, servers, idx, slack);
    var order :| IsOrderOf(order, servers.Keys) && k <= Greedy(order, servers, idx, slack);
    order
  }

  lemma CountingWalkExists(k: nat, servers: map<string, ServerInfo>, idx: SetIndex, slack: int)
    requires slack >= 0 && SomeCanStop(k, servers, idx, slack)
    ensures exists order :: IsOrderOf(order, servers.Keys) && k <= Greedy(order, servers, idx, slack)
  {
    var names :| AreHolders(names, servers, idx) && |names| == k && Online(names, servers, idx) <= slack;
    assert Online(names, servers, idx) >= 0;
    var order := WalkOver(names, servers, idx, slack);
  }

  ghost predicate Walked(pool: int, sets: map<SetIndex, SetInfo>, servers: map<string, ServerInfo>, walks: map<SetIndex, seq<string>>) {
    forall idx :: InPool(idx, pool, sets) ==> idx in walks && IsOrderOf(walks[idx], servers.Keys)
  }

  /** Any choice of walks gives a result. */
  lemma ResultOfWalks(pool: int, parity: int, sets: map<SetIndex, SetInfo>, servers: map<string, ServerInfo>,
                      walks: map<SetIndex, seq<string>>) returns (t: int)
    requires Walked(pool, sets, servers, walks)
    ensures IsTolerance(t, pool, parity, sets, servers, walks)
  {
    t := |servers|;
    var left := sets.Keys;
    while left != {}
      invariant left <= sets.Keys && t <= |servers|
      invariant forall idx :: InPool(idx, pool, sets) && idx !in left ==> t <= Greedy(walks[idx], servers, idx, Slack(sets[idx], parity))
      invariant t == |servers| || exists idx :: InPool(idx, pool, sets) && t == Greedy(walks[idx], servers, idx, Slack(sets[idx], parity))
      decreases left
    {
      var idx :| idx in left;
      left := left - {idx};
      if idx.pool == pool {
        assert InPool(idx, pool, sets);
        if Greedy(walks[idx], servers, idx, Slack(sets[idx], parity)) < t {
          t := Greedy(walks[idx], servers, idx, Slack(sets[idx], parity));
        }
      }
    }
  }

  /** A result that is not guaranteed, when the sizes of the servers matter. */
  lemma TooHigh(k: nat, pool: int, parity: int, sets: map<SetIndex, SetInfo>, servers: map<string, ServerInfo>)
    returns (t: int, walks: map<SetIndex, seq<string>>)
    requires NoSetShort(pool, parity, sets) && !CountDecides(k, pool, parity, sets, servers)
    ensures IsTolerance(t, pool, parity, sets, servers, walks) && !PoolGuaranteed(t, pool, parity, sets, servers)
  {
    walks := map idx | idx in sets && InPool(idx, pool, sets) :: WalkCounting(k, servers, idx, Slack(sets[idx], parity));
    t := ResultOfWalks(pool, parity, sets, servers, walks);
    var bad :| InPool(bad, pool, sets) && !AnyCanStop(k, servers, bad, Slack(sets[bad], parity));
    OrderHasAll(walks[bad], servers.Keys);
    assert k <= t;
    if PoolGuaranteed(t, pool, parity, sets, servers) {
      FewerCanStop(k, t, servers, bad, Slack(sets[bad], parity));
    }
  }

  lemma GuaranteedByCount(t: int, pool: int, parity: int, sets: map<SetIndex, SetInfo>,
                          servers: map<string, ServerInfo>, walks: map<SetIndex, seq<string>>)
    requires IsTolerance(t, pool, parity, sets, servers, walks) && NoSetShort(pool, parity, sets)
    requires forall k :: CountDecides(k, pool, parity, sets, servers)
    ensures PoolGuaranteed(t, pool, parity, sets, servers)
  {
    assert t >= 0;
    forall idx | InPool(idx, pool, sets) ensures SomeCanStop(t, servers, idx, Slack(sets[idx], parity)) {
      CountedCanStop(walks[idx], servers, idx, Slack(sets[idx], parity), t);
    }
    assert CountDecides(t, pool, parity, sets, servers);
    forall idx | InPool(idx, pool, sets) ensures Guaranteed(t, servers, idx, Slack(sets[idx], parity)) {
      assert SomeCanStop(t, servers, idx, Slack(sets[idx], parity));
    }
  }

  /** No order of the walks makes the reported tolerance of a pool too high if and
      only if no set is short of ready disks and the number of stopped servers alone
      decides, whichever they are. */
  lemma NeverTooHighExactly(pool: int, parity: int, sets: map<SetIndex, SetInfo>, servers: map<string, ServerInfo>)
    ensures (forall t, walks :: IsTolerance(t, pool, parity, sets, servers, walks) ==> PoolGuaranteed(t, pool, parity, sets, servers))
       <==> NoSetShort(pool, parity, sets) && forall k :: CountDecides(k, pool, parity, sets, servers)
  {
    if !NoSetShort(pool, parity, sets) {
      var idx :| InPool(idx, pool, sets) && Slack(sets[idx], parity) < 0;
      var order := OrderWith([], servers.Keys);
      var walks := map i | i in sets :: order;
      var t := ResultOfWalks(pool, parity, sets, servers, walks);
      ShortSetGivesZero(t, pool, parity, sets, servers, walks, idx);
    } else if k: nat :| !CountDecides(k, pool, parity, sets, servers) {
      var t, walks := TooHigh(k, pool, parity, sets, servers);
    } else {
      forall t, walks | IsTolerance(t, pool, parity, sets, servers, walks) ensures PoolGuaranteed(t, pool, parity, sets, servers) {
        GuaranteedByCount(t, pool, parity, sets, servers, walks);
      }
    }
  }

  // ---------- the condition, read off the sorted servers ----------

  lemma {:induction false} SplitOff(h: seq<string>, names: seq<string>, servers: map<string, ServerInfo>, idx: SetIndex)
    returns (rest: seq<string>)
    requires Distinct(h) && Distinct(names) && forall x :: x in h ==> x in servers
    requires forall x :: x in names ==> x in h
    ensures Distinct(rest) && |rest| == |h| - |names|
    ensures forall x :: x in rest <==> x in h && x !in names
    ensures Online(h, servers, idx) == Online(names, servers, idx) + Online(rest, servers, idx)
  {
    if names == [] {
      rest := h;
    } else {
      var more := SplitOff(h, names[1..], servers, idx);
      var i := PlaceOf(more, names[0]);
      rest := more[..i] + more[i + 1..];
      TakenFrom(more, i);
      TakeOut(more, i, servers, idx);
      assert forall x :: x in names <==> x == names[0] || x in names[1..];
    }
  }

  lemma TakenFrom(s: seq<string>, i: nat)
    requires Distinct(s) && i < |s|
    ensures var rest := s[..i] + s[i + 1..]; Distinct(rest) && |rest| == |s| - 1 && forall x :: x in rest <==> x in s && x != s[i]
  {
    var rest := s[..i] + s[i + 1..];
    forall x ensures x in rest <==> x in s && x != s[i] {
      if x in s && x != s[i] {
        var j := PlaceOf(s, x);
        assert rest[if j < i then j else j - 1] == x;
      }
    }
  }

  ghost predicate HasAllHolders(h: seq<string>, servers: map<string, ServerInfo>, idx: SetIndex) {
    forall x :: x in servers && Holds(servers[x], idx) ==> x in h
  }

  /** With all servers of a set sorted by descending online count: any `k` can be
      stopped when the first `k` can, and some `k` when the last `k` can. */
  lemma SortedDecides(h: seq<string>, servers: map<string, ServerInfo>, idx: SetIndex, slack: int, k: nat)
    requires AreHolders(h, servers, idx) && HasAllHolders(h, servers, idx) && Descending(h, servers, idx) && k <= |h|
    ensures AnyCanStop(k, servers, idx, slack) <==> Online(h[..k], servers, idx) <= slack
    ensures SomeCanStop(k, servers, idx, slack) <==> Online(h[|h| - k..], servers, idx) <= slack
  {
    FirstDecide(h, servers, idx, slack, k);
    LastDecide(h, servers, idx, slack, k);
  }

  lemma FirstDecide(h: seq<string>, servers: map<string, ServerInfo>, idx: SetIndex, slack: int, k: nat)
    requires AreHolders(h, servers, idx) && HasAllHolders(h, servers, idx) && Descending(h, servers, idx) && k <= |h|
    ensures AnyCanStop(k, servers, idx, slack) <==> Online(h[..k], servers, idx) <= slack
  {
    PartAreHolders(h, 0, k, servers, idx);
    assert h[0..k] == h[..k] && |h[..k]| == k;
    forall names | AreHolders(names, servers, idx) && |names| == k ensures Online(names, servers, idx) <= Online(h[..k], servers, idx) {
      TopServers(h, names, servers, idx);
    }
  }

  lemma LastDecide(h: seq<string>, servers: map<string, ServerInfo>, idx: SetIndex, slack: int, k: nat)
    requires AreHolders(h, servers, idx) && HasAllHolders(h, servers, idx) && Descending(h, servers, idx) && k <= |h|
    ensures SomeCanStop(k, servers, idx, slack) <==> Online(h[|h| - k..], servers, idx) <= slack
  {
    PartAreHolders(h, |h| - k, |h|, servers, idx);
    assert h[|h| - k..|h|] == h[|h| - k..] && |h[|h| - k..]| == k;
    forall names | AreHolders(names, servers, idx) && |names| == k ensures Online(h[|h| - k..], servers, idx) <= Online(names, servers, idx) {
      BottomServers(h, names, servers, idx);
    }
  }

  lemma BottomServers(h: seq<string>, names: seq<string>, servers: map<string, ServerInfo>, idx: SetIndex)
    requires forall x :: x in h ==> x in servers
    requires Distinct(h) && Descending(h, servers, idx)
    requires Distinct(names) && |names| <= |h| && forall x :: x in names ==> x in h
    ensures Online(h[|h| - |names|..], servers, idx) <= Online(names, servers, idx)
  {
    var k := |h| - |names|;
    var rest := SplitOff(h, names, servers, idx);
    TopServers(h, rest, servers, idx);
    CutInTwo(h, k, servers, idx);
  }

  lemma CutInTwo(h: seq<string>, k: nat, servers: map<string, ServerInfo>, idx: SetIndex)
    requires k <= |h| && forall x :: x in h ==> x in servers
    ensures Online(h, servers, idx) == Online(h[..k], servers, idx) + Online(h[k..], servers, idx)
  {
    assert h == h[..k] + h[k..];
    OnlineOfConcat(h[..k], h[k..], servers, idx);
  }

  // ---------- a pool where the order matters ----------

  const ThreeDisks: seq<Disk> :=
    [Disk("http://a/1", 0, 0, "ok", false, 0), Disk("http://b/1", 0, 0, "ok", false, 0), Disk("http://b/2", 0, 0, "ok", false, 0)]

  lemma ThreeDisksBySet(sets: map<SetIndex, SetInfo>)
    requires DescribesSets(sets, ThreeDisks)
    ensures forall idx :: idx in sets <==> idx == SetIndex(0, 0)
    ensures Slack(sets[SetIndex(0, 0)], 1) == 1
  {
    var d := ThreeDisks;
    assert d[..2][..1] == d[..1] && d[..1][..0] == [];
    assert d[..3] == d;
    forall idx ensures CountIn(d, idx) == if idx == SetIndex(0, 0) then 3 else 0 {
      assert CountIn(d[..1], idx) == if idx == SetIndex(0, 0) then 1 else 0;
      assert CountIn(d[..2], idx) == if idx == SetIndex(0, 0) then 2 else 0;
    }
    assert ReadyIn(d[..1], SetIndex(0, 0)) == 1;
    assert ReadyIn(d[..2], SetIndex(0, 0)) == 2;
  }

  lemma ThreeDisksByServer(servers: map<string, ServerInfo>, parse: string -> Host, localName: int -> string)
    requires parse("http://a/1") == Named("a") && parse("http://b/1") == parse("http://b/2") == Named("b")
    requires DescribesServers(servers, ThreeDisks, parse, localName)
    ensures servers == map["a" := ServerInfo(0, [ThreeDisks[0]]), "b" := ServerInfo(0, [ThreeDisks[1], ThreeDisks[2]])]
  {
    forall name ensures name in servers <==> name == "a" || name == "b"
      ensures name in servers ==> servers[name] == ServerInfo(0, if name == "a" then [ThreeDisks[0]] else [ThreeDisks[1], ThreeDisks[2]])
    {
      OneOfThree(servers, name, parse, localName);
    }
  }

  lemma OneOfThree(servers: map<string, ServerInfo>, name: string, parse: string -> Host, localName: int -> string)
    requires parse("http://a/1") == Named("a") && parse("http://b/1") == parse("http://b/2") == Named("b")
    requires DescribesServers(servers, ThreeDisks, parse, localName)
    ensures name in servers <==> name == "a" || name == "b"
    ensures name in servers ==> servers[name] == ServerInfo(0, if name == "a" then [ThreeDisks[0]] else [ThreeDisks[1], ThreeDisks[2]])
  {
    ThreeDisksOf(name, parse, localName);
    assert name in servers <==> DisksOf(ThreeDisks, name, parse, localName) != [];
    if name in servers { assert servers[name].pool == servers[name].disks[0].poolIndex; }
  }

  lemma ThreeDisksOf(name: string, parse: string -> Host, localName: int -> string)
    requires parse("http://a/1") == Named("a") && parse("http://b/1") == parse("http://b/2") == Named("b")
    ensures var d := ThreeDisks;
            DisksOf(d, name, parse, localName) == if name == "a" then [d[0]] else if name == "b" then [d[1], d[2]] else []
  {
    var d := ThreeDisks;
    assert d[..2][..1] == d[..1] && d[..1][..0] == [];
    assert d[..3] == d;
    assert DisksOf(d[..1], name, parse, localName) == if name == "a" then [d[0]] else [];
    assert DisksOf(d[..2], name, parse, localName) == if name == "a" then [d[0]] else if name == "b" then [d[1]] else [];
  }

  /** Three ready disks in one set with parity one, two of them on the same server.
      Meeting the other server first reports a tolerance of one, although stopping
      the one with two disks leaves too few. */
  lemma OrderMatters(sets: map<SetIndex, SetInfo>, servers: map<string, ServerInfo>, parse: string -> Host, localName: int -> string)
    requires parse("http://a/1") == Named("a") && parse("http://b/1") == parse("http://b/2") == Named("b")
    requires DescribesSets(sets, ThreeDisks) && DescribesServers(servers, ThreeDisks, parse, localName)
    ensures exists walks :: IsTolerance(1, 0, 1, sets, servers, walks)
    ensures exists walks :: IsTolerance(0, 0, 1, sets, servers, walks)
    ensures !PoolGuaranteed(1, 0, 1, sets, servers)
  {
    ThreeDisksBySet(sets);
    ThreeDisksByServer(servers, parse, localName);
    BothResults(sets, servers);
    OneIsNotGuaranteed(sets, servers);
  }

  lemma BothResults(sets: map<SetIndex, SetInfo>, servers: map<string, ServerInfo>)
    requires (forall idx :: idx in sets <==> idx == SetIndex(0, 0)) && Slack(sets[SetIndex(0, 0)], 1) == 1
    requires servers == map["a" := ServerInfo(0, [ThreeDisks[0]]), "b" := ServerInfo(0, [ThreeDisks[1], ThreeDisks[2]])]
    ensures exists walks :: IsTolerance(1, 0, 1, sets, servers, walks)
    ensures exists walks :: IsTolerance(0, 0, 1, sets, servers, walks)
  {
    GreedyOfTwo(servers);
    assert IsOrderOf(["a", "b"], servers.Keys) && IsOrderOf(["b", "a"], servers.Keys);
    OneSetTolerance(["a", "b"], sets, servers);
    OneSetTolerance(["b", "a"], sets, servers);
  }

  lemma OneIsNotGuaranteed(sets: map<SetIndex, SetInfo>, servers: map<string, ServerInfo>)
    requires SetIndex(0, 0) in sets && Slack(sets[SetIndex(0, 0)], 1) == 1
    requires servers == map["a" := ServerInfo(0, [ThreeDisks[0]]), "b" := ServerInfo(0, [ThreeDisks[1], ThreeDisks[2]])]
    ensures !PoolGuaranteed(1, 0, 1, sets, servers)
  {
    var idx := SetIndex(0, 0);
    GreedyOfTwo(servers);
    assert AreHolders(["b"], servers, idx) && |["b"]| == 1;
    assert InPool(idx, 0, sets) && !AnyCanStop(1, servers, idx, 1);
  }

  lemma OneSetTolerance(order: seq<string>, sets: map<SetIndex, SetInfo>, servers: map<string, ServerInfo>)
    requires IsOrderOf(order, servers.Keys) && forall idx :: idx in sets <==> idx == SetIndex(0, 0)
    ensures exists walks :: IsTolerance(Greedy(order, servers, SetIndex(0, 0), Slack(sets[SetIndex(0, 0)], 1)), 0, 1, sets, servers, walks)
  {
    var idx := SetIndex(0, 0);
    OrderHasAll(order, servers.Keys);
    assert InPool(idx, 0, sets);
    assert IsTolerance(Greedy(order, servers, idx, Slack(sets[idx], 1)), 0, 1, sets, servers, map[idx := order]);
  }

  lemma GreedyOfTwo(servers: map<string, ServerInfo>)
    requires servers == map["a" := ServerInfo(0, [ThreeDisks[0]]), "b" := ServerInfo(0, [ThreeDisks[1], ThreeDisks[2]])]
    ensures var idx := SetIndex(0, 0);
            Greedy(["a", "b"], servers, idx, 1) == 1 && Greedy(["b", "a"], servers, idx, 1) == 0
            && Online(["b"], servers, idx) == 2 && Holds(servers["b"], idx)
  {
    var idx := SetIndex(0, 0);
    var one, two := [ThreeDisks[0]], [ThreeDisks[1], ThreeDisks[2]];
    assert two[..1] == [ThreeDisks[1]] && two[..1][..0] == [] && one[..0] == [];
    assert ReadyIn(two[..1], idx) == 1 == CountIn(two[..1], idx);
    assert ReadyIn(one, idx) == 1 == CountIn(one, idx);
    assert ReadyIn(two, idx) == 2 == CountIn(two, idx);
    assert ["a", "b"][1..] == ["b"] && ["b", "a"][1..] == ["a"] && ["b"][1..] == [];
    assert Greedy(["b"], servers, idx, 0) == 0;
  }
}
